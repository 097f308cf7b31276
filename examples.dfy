/**
 * The cases of bredis's protocol tests, each derived from the general
 * statements about the decoder and the encoder: the concrete buffers, the
 * outcomes they decode to, and the request the serializer writes for
 * `LLEN fmm.cheap-travles2`.
 */
module ProtocolExamples {
  import opened Wrappers
  import opened Decimal
  import opened Protocol
  import opened ProtocolProperties
  import opened Encoding
  import opened Serializer

  /** "+OK\r\n" is the simple string "OK", all five bytes consumed. */
  lemma SimpleStringOk()
    ensures Parse("+OK\r\n") == Ok(SimpleString("OK"), 5)
  {
    ParseLineFrame('+', "OK", []);
    assert Header('+', "OK") + [] == "+OK\r\n";
  }

  /** Nothing received: not consumed, no error. */
  lemma EmptyBufferNeedsMore()
    ensures Parse("") == NeedMore
  {
  }

  /** A line without its "\r\n": not consumed, no error. */
  lemma UnfinishedLineNeedsMore()
    ensures Parse("+OK") == NeedMore
  {
    HeaderPrefixNeedsMore('+', "OK", [], 3);
    assert (Header('+', "OK") + [])[..3] == "+OK";
  }

  /** A buffer that does not start with a type marker is a protocol error. */
  lemma WrongStartMarker()
    ensures Parse("!OK") == Err("wrong introduction")
  {
  }

  lemma SimpleNumber()
    ensures Parse(":55\r\n") == Ok(Integer(55), 5)
  {
    IntegerRoundTrip(55, []);
    assert IntToDecimal(55) == "55";
    assert Header(':', "55") + [] == ":55\r\n";
  }

  /** The largest integer of the tests, 6 below the top of the 64-bit range. */
  lemma LargeNumber()
    ensures Parse(":9223372036854775801\r\n") == Ok(Integer(9223372036854775801), 22)
  {
    LargeFrame(9223372036854775801);
    LargeText();
  }

  lemma LargeFrame(n: Int64)
    requires n == 9223372036854775801
    ensures Parse(Header(':', "9223372036854775801")) == Ok(Integer(n), 22)
  {
    IntegerRoundTrip(n, []);
    LargeDecimal();
    assert Header(':', "9223372036854775801") + [] == Header(':', "9223372036854775801");
  }

  lemma LargeText()
    ensures Header(':', "9223372036854775801") == ":9223372036854775801\r\n"
  {
  }

  /** The 19 digits of the large number, built five digits at a time. */
  lemma LargeDecimal()
    ensures IntToDecimal(9223372036854775801) == "9223372036854775801"
  {
    LargeShift(922337203685477, 5801, 9223372036854775801);
    FifteenDigits();
    Chunk5801(5801);
    LargeJoin("922337203685477", "5801");
  }

  lemma LargeShift(hi: nat, lo: nat, n: nat)
    requires hi == 922337203685477 && lo == 5801 && n == 9223372036854775801
    ensures IntToDecimal(n) == NatToDecimal(hi) + NatToDecimal(lo)
  {
    assert Pow10(4) == 10000;
    DecimalOfShift(hi, lo, 4);
  }

  lemma LargeJoin(hi: string, lo: string)
    requires hi == "922337203685477" && lo == "5801"
    ensures hi + lo == "9223372036854775801"
  {
  }

  lemma FifteenDigits()
    ensures NatToDecimal(922337203685477) == "922337203685477"
  {
    assert Pow10(5) == 100000;
    TenDigits();
    DecimalOfShift(9223372036, 85477, 5);
    Chunk85477(85477);
  }

  lemma TenDigits()
    ensures NatToDecimal(9223372036) == "9223372036"
  {
    assert Pow10(5) == 100000;
    DecimalOfShift(92233, 72036, 5);
    Chunk92233(92233);
    Chunk72036(72036);
  }

  /** The decimal text of each chunk of the large number. */
  lemma Chunk92233(n: nat)
    requires n == 92233
    ensures NatToDecimal(n) == "92233"
  {
  }

  lemma Chunk72036(n: nat)
    requires n == 72036
    ensures NatToDecimal(n) == "72036"
  {
  }

  lemma Chunk85477(n: nat)
    requires n == 85477
    ensures NatToDecimal(n) == "85477"
  {
  }

  lemma Chunk5801(n: nat)
    requires n == 5801
    ensures NatToDecimal(n) == "5801"
  {
  }

  lemma NegativeNumber()
    ensures Parse(":-922\r\n") == Ok(Integer(-922), 7)
  {
    IntegerRoundTrip(-922, []);
    assert IntToDecimal(-922) == "-922";
    assert Header(':', "-922") + [] == ":-922\r\n";
  }

  /** A line that is not a number fails the cast. */
  lemma WrongNumber()
    ensures Parse(":-9ab22\r\n") == Err("bad lexical cast: source type value could not be interpreted as target")
  {
    var line := "-9ab22";
    assert line[1..] == "9ab22" && !IsDigit(line[1..][1]);
    assert LexicalCastInt64(line) == None;
    assert NoTerminator(line);
    ParseIntegerFrame(line, []);
    assert Header(':', line) + [] == ":-9ab22\r\n";
  }

  /** A 38-digit number is beyond the 64-bit range and fails the cast. */
  lemma TooLargeNumber()
    ensures Parse(":" + "92233720368547758019223372036854775801" + "\r\n")
         == Err("bad lexical cast: source type value could not be interpreted as target")
  {
    TooLargeFrame("92233720368547758019223372036854775801");
  }

  lemma TooLargeFrame(line: string)
    requires line == "92233720368547758019223372036854775801"
    ensures Parse(":" + line + "\r\n") == Err(BadLexicalCast)
  {
    LongLine(line);
    LexicalCastRejectsLongNumerals(line);
    ParseIntegerFrame(line, []);
    assert Header(':', line) + [] == ":" + line + "\r\n";
  }

  lemma LongLine(line: string)
    requires line == "92233720368547758019223372036854775801"
    ensures AllDigits(line) && |line| == 38 && line[0] != '0' && NoTerminator(line)
  {
  }

  lemma SimpleError()
    ensures Parse("-Ooops\r\n") == Ok(Error("Ooops"), 8)
  {
    ParseErrorFrame("Ooops", []);
    assert Header('-', "Ooops") + [] == "-Ooops\r\n";
  }

  lemma NilBulkString()
    ensures Parse("$-1\r\n") == Ok(Nil, 5)
  {
    DecodeNil();
    assert Encode(Nil) == "$-1\r\n";
  }

  /** A bulk length below -1 is a protocol error naming the length. */
  lemma MalformedBulkString()
    ensures Parse("$-5\r\nsome\r\n") == Err("Value -5 in unacceptable for bulk strings")
  {
    NegativeLengthFrame('$', -5);
    LengthMessage(-5);
    NegativeLengthText("-5");
  }

  lemma NegativeLengthText(line: string)
    requires line == "-5"
    ensures Header('$', line) + "some\r\n" == "$-5\r\nsome\r\n"
  {
  }

  /** The messages of the tests that name a negative length or count. */
  lemma LengthMessage(n: int)
    requires n == -5
    ensures UnacceptableBulkLength(n) == "Value -5 in unacceptable for bulk strings"
  {
    assert IntToDecimal(n) == "-5";
  }

  lemma CountMessage(n: int)
    requires n == -4
    ensures UnacceptableArrayCount(n) == "Value -4 in unacceptable for arrays"
  {
    assert IntToDecimal(n) == "-4";
  }

  /** The frames of the two negative-length cases, with "some\r\n" after the header. */
  lemma NegativeLengthFrame(marker: char, n: int)
    requires marker == '$' || marker == '*'
    requires n == -5 || n == -4
    ensures IntToDecimal(n) == if n == -5 then "-5" else "-4"
    ensures marker == '$' ==> Parse(Header(marker, IntToDecimal(n)) + "some\r\n") == Err(UnacceptableBulkLength(n))
    ensures marker == '*' ==> Parse(Header(marker, IntToDecimal(n)) + "some\r\n") == Err(UnacceptableArrayCount(n))
  {
    LexicalCastOfDecimal(n);
    DecimalHasNoTerminator(n);
    ParseBulkFrame(IntToDecimal(n), "some\r\n");
    ParseArrayFrame(IntToDecimal(n), "some\r\n");
  }

  lemma SomeBulkString()
    ensures Parse("$4\r\nsome\r\n") == Ok(SimpleString("some"), 10)
  {
    DecodeBulkString("some");
    assert Encode(SimpleString("some")) == "$4\r\nsome\r\n";
  }

  lemma EmptyBulkString()
    ensures Parse("$0\r\n\r\n") == Ok(SimpleString(""), 6)
  {
    DecodeBulkString("");
    assert Encode(SimpleString("")) == "$0\r\n\r\n";
  }

  /** A declared length of 10 with four payload bytes: not consumed, no error. */
  lemma PartialBulkStringShort()
    ensures Parse("$10\r\nsome\r\n") == NeedMore
  {
    ShortFrame(10, "some\r\n");
    ShortText(IntToDecimal(10));
  }

  lemma ShortFrame(n: Int64, body: string)
    requires n == 10 && body == "some\r\n"
    ensures IntToDecimal(n) == "10"
    ensures Parse(Header('$', IntToDecimal(n)) + body) == NeedMore
  {
    LexicalCastOfDecimal(n);
    DecimalHasNoTerminator(n);
    ParseBulkFrame(IntToDecimal(n), body);
    assert NatToDecimal(n) == NatToDecimal(1) + [DigitChar(0)];
  }

  lemma ShortText(line: string)
    requires line == "10"
    ensures Header('$', line) + "some\r\n" == "$10\r\nsome\r\n"
  {
  }

  /** The payload's "\r\n" cut in the middle: not consumed, no error. */
  lemma PartialBulkStringTerminator()
    ensures Parse("$4\r\nsome\r") == NeedMore
  {
    PrefixNeedsMore(SimpleString("some"), 9);
    assert Encode(SimpleString("some"))[..9] == "$4\r\nsome\r";
  }

  /**
   * A payload whose fifth byte already rules out "\r\n" after the declared
   * four: with one byte fewer than L + 2 the frame still waits.
   */
  lemma UnterminatedPayloadWaits()
    ensures Parse("$4\r\nsomeX") == NeedMore
  {
    FourHeader();
    ParseBulkFrame("4", "someX");
    assert Header('$', "4") + "someX" == "$4\r\nsomeX";
  }

  /** No continuation of that buffer decodes to a value: it waits, then fails. */
  lemma UnterminatedPayloadNeverDecodes(buf: string, more: string)
    requires buf == "$4\r\nsomeX"
    ensures !Parse(buf + more).Ok?
  {
    var body := "someX" + more;
    FourHeader();
    ParseBulkFrame("4", body);
    assert body[4] == 'X';
    FourHeaderText(buf, more);
  }

  /** The bytes of that buffer, as a '$' header with the line "4" and its payload. */
  lemma FourHeaderText(buf: string, more: string)
    requires buf == "$4\r\nsomeX"
    ensures Header('$', "4") + ("someX" + more) == buf + more
  {
  }

  /** With L + 2 bytes present and no "\r\n" after the payload, the frame is the terminator error. */
  lemma UnterminatedPayloadError()
    ensures Parse("$4\r\nsomeXY") == Err(BulkTerminatorMissing)
  {
    FourHeader();
    ParseBulkFrame("4", "someXY");
    assert Header('$', "4") + "someXY" == "$4\r\nsomeXY";
  }

  /** The header line "4" casts to the length 4 and holds no "\r\n". */
  lemma FourHeader()
    ensures NoTerminator("4") && LexicalCastInt64("4") == Some(4)
  {
    LexicalCastOfDecimal(4);
    DecimalHasNoTerminator(4);
    assert IntToDecimal(4) == "4";
  }

  lemma EmptyArray()
    ensures Parse("*0\r\n") == Ok(Array([]), 4)
  {
    DecodeArray([]);
    assert Encode(Array([])) == "*0\r\n";
  }

  lemma NullArray()
    ensures Parse("*-1\r\n") == Ok(Nil, 5)
  {
    LexicalCastOfDecimal(-1);
    DecimalHasNoTerminator(-1);
    assert IntToDecimal(-1) == "-1";
    ParseArrayFrame("-1", []);
    assert Header('*', "-1") + [] == "*-1\r\n";
  }

  /** An array count below -1 is a protocol error naming the count. */
  lemma MalformedArray()
    ensures Parse("*-4\r\nsome\r\n") == Err("Value -4 in unacceptable for arrays")
  {
    NegativeLengthFrame('*', -4);
    CountMessage(-4);
    NegativeCountText("-4");
  }

  lemma NegativeCountText(line: string)
    requires line == "-4"
    ensures Header('*', line) + "some\r\n" == "*-4\r\nsome\r\n"
  {
  }

  /** An array of one element with no element yet: not consumed, no error. */
  lemma PartialArray()
    ensures Parse("*1\r\n") == NeedMore
  {
    LexicalCastOfDecimal(1);
    DecimalHasNoTerminator(1);
    assert IntToDecimal(1) == "1";
    ParseArrayFrame("1", []);
    assert ParseElements([], 1) == NeedMore;
    assert Header('*', "1") + [] == "*1\r\n";
  }

  /** A bulk string, an integer and a nil, in that order. */
  lemma MixedArray()
    ensures Parse("*3\r\n$4\r\nsome\r\n:5\r\n$-1\r\n")
         == Ok(Array([SimpleString("some"), Integer(5), Nil]), 23)
  {
    MixedFrame(Array([SimpleString("some"), Integer(5), Nil]), "*3\r\n$4\r\nsome\r\n:5\r\n$-1\r\n");
  }

  lemma MixedFrame(v: Value, frame: string)
    requires v == Array([SimpleString("some"), Integer(5), Nil])
    requires frame == "*3\r\n$4\r\nsome\r\n:5\r\n$-1\r\n"
    ensures Parse(frame) == Ok(v, 23)
  {
    MixedDecodes(v);
    MixedText(v);
    assert |frame| == 23;
  }

  lemma MixedDecodes(v: Value)
    requires v == Array([SimpleString("some"), Integer(5), Nil])
    ensures Parse(Encode(v)) == Ok(v, |Encode(v)|)
  {
    assert Encodable(v);
    DecodeEncoded(v);
  }

  lemma MixedText(v: Value)
    requires v == Array([SimpleString("some"), Integer(5), Nil])
    ensures Encode(v) == "*3\r\n$4\r\nsome\r\n:5\r\n$-1\r\n"
  {
    EncodeThree(SimpleString("some"), Integer(5), Nil);
    MixedElementsText();
    SmallDecimal(3, "3");
    MixedJoin(Header('*', "3"), "$4\r\nsome\r\n", ":5\r\n", "$-1\r\n");
  }

  lemma MixedJoin(header: string, a: string, b: string, c: string)
    requires header == "*3\r\n" && a == "$4\r\nsome\r\n" && b == ":5\r\n" && c == "$-1\r\n"
    ensures header + a + b + c == "*3\r\n$4\r\nsome\r\n:5\r\n$-1\r\n"
  {
  }

  /** The text of a single-digit number. */
  lemma SmallDecimal(n: nat, text: string)
    requires n < 10 && text == [DigitChar(n)]
    ensures NatToDecimal(n) == text && IntToDecimal(n) == text
  {
  }

  lemma MixedElementsText()
    ensures Encode(SimpleString("some")) == "$4\r\nsome\r\n"
    ensures Encode(Integer(5)) == ":5\r\n"
    ensures Encode(Nil) == "$-1\r\n"
  {
    assert NatToDecimal(4) == "4" && IntToDecimal(5) == "5";
  }

  lemma NumbersElementsText()
    ensures Encode(Integer(1)) == ":1\r\n" && Encode(Integer(2)) == ":2\r\n" && Encode(Integer(3)) == ":3\r\n"
  {
    assert IntToDecimal(1) == "1" && IntToDecimal(2) == "2" && IntToDecimal(3) == "3";
  }

  /** An array of three values is its header and the three frames, in order. */
  lemma EncodeThree(a: Value, b: Value, c: Value)
    ensures Encode(Array([a, b, c])) == Header('*', NatToDecimal(3)) + Encode(a) + Encode(b) + Encode(c)
  {
    EncodeArray([a, b, c]);
    ThreeFrames(a, b, c);
    ConcatThree(Encode(a), Encode(b), Encode(c));
  }

  lemma ThreeFrames(a: Value, b: Value, c: Value)
    ensures EncodeEach([a, b, c]) == [Encode(a), Encode(b), Encode(c)]
  {
    var frames := EncodeEach([a, b, c]);
    assert frames[0] == Encode(a) && frames[1] == Encode(b) && frames[2] == Encode(c);
  }

  /** Arrays nest: [1, 2, 3] and ["Foo", error "Bar"], each element in wire order. */
  lemma NestedArrays()
    ensures Parse("*2\r\n*3\r\n:1\r\n:2\r\n:3\r\n*2\r\n+Foo\r\n-Bar\r\n")
         == Ok(Array([Array([Integer(1), Integer(2), Integer(3)]), Array([SimpleString("Foo"), Error("Bar")])]), 36)
  {
    NestedFrame(Array([Integer(1), Integer(2), Integer(3)]), Array([SimpleString("Foo"), Error("Bar")]),
                "*3\r\n:1\r\n:2\r\n:3\r\n", "*2\r\n+Foo\r\n-Bar\r\n");
    NestedText();
  }

  lemma NestedFrame(numbers: Value, lines: Value, first: string, second: string)
    requires numbers == Array([Integer(1), Integer(2), Integer(3)]) && first == "*3\r\n:1\r\n:2\r\n:3\r\n"
    requires lines == Array([SimpleString("Foo"), Error("Bar")]) && second == "*2\r\n+Foo\r\n-Bar\r\n"
    ensures Parse(Header('*', "2") + (first + second)) == Ok(Array([numbers, lines]), 36)
  {
    NumbersFrame(numbers, first);
    LinesFrame(lines, second);
    PairFrame(first, second, numbers, lines);
  }

  lemma NestedText()
    ensures Header('*', "2") + ("*3\r\n:1\r\n:2\r\n:3\r\n" + "*2\r\n+Foo\r\n-Bar\r\n")
         == "*2\r\n*3\r\n:1\r\n:2\r\n:3\r\n*2\r\n+Foo\r\n-Bar\r\n"
  {
  }

  /** [1, 2, 3] is written exactly as the encoder writes it. */
  lemma NumbersFrame(v: Value, frame: string)
    requires v == Array([Integer(1), Integer(2), Integer(3)])
    requires frame == "*3\r\n:1\r\n:2\r\n:3\r\n"
    ensures Parse(frame) == Ok(v, 16)
  {
    NumbersDecode(v);
    NumbersText(v);
    assert |frame| == 16;
  }

  lemma NumbersDecode(v: Value)
    requires v == Array([Integer(1), Integer(2), Integer(3)])
    ensures Parse(Encode(v)) == Ok(v, |Encode(v)|)
  {
    assert Encodable(v);
    DecodeEncoded(v);
  }

  lemma NumbersText(v: Value)
    requires v == Array([Integer(1), Integer(2), Integer(3)])
    ensures Encode(v) == "*3\r\n:1\r\n:2\r\n:3\r\n"
  {
    EncodeThree(Integer(1), Integer(2), Integer(3));
    NumbersElementsText();
    assert NatToDecimal(3) == "3";
  }

  /** ["Foo", error "Bar"] holds a '+' line, which the encoder never writes. */
  lemma LinesFrame(v: Value, frame: string)
    requires v == Array([SimpleString("Foo"), Error("Bar")])
    requires frame == "*2\r\n+Foo\r\n-Bar\r\n"
    ensures Parse(frame) == Ok(v, 16)
  {
    LinePair("Foo", "Bar");
    LinesText("Foo", "Bar");
  }

  lemma LinesText(text: string, error: string)
    requires text == "Foo" && error == "Bar"
    ensures Header('*', "2") + (Header('+', text) + Header('-', error)) == "*2\r\n+Foo\r\n-Bar\r\n"
  {
    assert Header('+', text) + Header('-', error) == "+Foo\r\n-Bar\r\n";
  }

  /** A simple string line and an error line make an array of two. */
  lemma LinePair(text: string, error: string)
    requires NoTerminator(text) && NoTerminator(error)
    ensures Parse(Header('*', "2") + (Header('+', text) + Header('-', error)))
         == Ok(Array([SimpleString(text), Error(error)]), |text| + |error| + 10)
  {
    ParseLineFrame('+', text, []);
    ParseLineFrame('-', error, []);
    assert Header('+', text) + [] == Header('+', text);
    assert Header('-', error) + [] == Header('-', error);
    PairFrame(Header('+', text), Header('-', error), SimpleString(text), Error(error));
  }

  /** Two frames, each decoding whole, make an array of two. */
  lemma PairFrame(first: string, second: string, a: Value, b: Value)
    requires Parse(first) == Ok(a, |first|) && Parse(second) == Ok(b, |second|)
    ensures Parse(Header('*', "2") + (first + second)) == Ok(Array([a, b]), |first| + |second| + 4)
  {
    assert FramesDecodeTo([first, second], [a, b]);
    ArrayOfFrames([first, second], [a, b]);
    ConcatTwo(first, second);
    assert NatToDecimal(2) == "2";
  }

  lemma ConcatTwo(a: string, b: string)
    ensures Concat([a, b]) == a + b
  {
    assert [a, b][1..] == [b];
    assert [b][1..] == [];
    assert Concat([b]) == b + Concat([]);
    assert b + [] == b;
  }

  lemma ConcatThree(a: string, b: string, c: string)
    ensures Concat([a, b, c]) == a + b + c
  {
    assert [a, b, c][1..] == [b, c];
    ConcatTwo(b, c);
  }

  /** The request `LLEN fmm.cheap-travles2`, as the serializer writes it into an empty stream. */
  method SerializeLlen() returns (written: string)
    ensures written == "*2\r\n$4\r\nLLEN\r\n$18\r\nfmm.cheap-travles2\r\n"
  {
    var sink := new Sink();
    Serialize(sink, "LLEN", ["fmm.cheap-travles2"]);
    written := sink.contents;
    LlenText("LLEN", ["fmm.cheap-travles2"]);
  }

  lemma LlenText(command: string, args: seq<string>)
    requires command == "LLEN" && args == ["fmm.cheap-travles2"]
    ensures Encode(CommandValue(command, args)) == "*2\r\n$4\r\nLLEN\r\n$18\r\nfmm.cheap-travles2\r\n"
  {
    OneArgumentCommand(command, args);
    LlenBulkText(command, args[0]);
    assert Header('*', "2") == "*2\r\n";
    LlenRequestText(Header('*', "2"), Encode(SimpleString(command)), Encode(SimpleString(args[0])));
  }

  /** A command with one argument: the header "*2", then two bulk strings. */
  lemma OneArgumentCommand(command: string, args: seq<string>)
    requires |args| == 1
    ensures Encode(CommandValue(command, args))
         == Header('*', "2") + (Encode(SimpleString(command)) + Encode(SimpleString(args[0])))
  {
    CommandEncoding(command, args);
    var frames := BulkFrames(args);
    assert frames == [Encode(SimpleString(args[0]))];
    assert frames[1..] == [];
    assert NatToDecimal(2) == "2";
  }

  lemma LlenRequestText(header: string, command: string, key: string)
    requires header == "*2\r\n" && command == "$4\r\nLLEN\r\n" && key == "$18\r\nfmm.cheap-travles2\r\n"
    ensures header + (command + key) == "*2\r\n$4\r\nLLEN\r\n$18\r\nfmm.cheap-travles2\r\n"
  {
    LlenFront(header, command, "*2\r\n$4\r\nLLEN\r\n");
    LlenBack("*2\r\n$4\r\nLLEN\r\n", key);
    assert header + (command + key) == (header + command) + key;
  }

  lemma LlenFront(header: string, command: string, front: string)
    requires header == "*2\r\n" && command == "$4\r\nLLEN\r\n" && front == "*2\r\n$4\r\nLLEN\r\n"
    ensures header + command == front
  {
  }

  lemma LlenBack(front: string, key: string)
    requires front == "*2\r\n$4\r\nLLEN\r\n" && key == "$18\r\nfmm.cheap-travles2\r\n"
    ensures front + key == "*2\r\n$4\r\nLLEN\r\n$18\r\nfmm.cheap-travles2\r\n"
  {
  }

  lemma LlenBulkText(command: string, key: string)
    requires command == "LLEN" && key == "fmm.cheap-travles2"
    ensures Encode(SimpleString(command)) == "$4\r\nLLEN\r\n"
    ensures Encode(SimpleString(key)) == "$18\r\nfmm.cheap-travles2\r\n"
  {
    assert |command| == 4 && |key| == 18;
    assert NatToDecimal(4) == "4" && NatToDecimal(18) == "18";
    BulkText(command, "4");
    BulkText(key, "18");
  }

  lemma BulkText(text: string, length: string)
    requires NatToDecimal(|text|) == length
    ensures Encode(SimpleString(text)) == "$" + length + "\r\n" + text + "\r\n"
  {
  }
}
