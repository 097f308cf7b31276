/**
 * What the stateless design of `Protocol::parse` promises its caller, the
 * connection that re-parses its growing buffer from offset 0 after every
 * read: a decided outcome (a value or a protocol error) never changes when
 * more bytes arrive, and a value depends only on the bytes it consumed, so
 * that exactly that prefix can be dropped from the buffer.
 */
module ProtocolProperties {
  import opened Wrappers
  import opened Decimal
  import opened Protocol

  /** The search finds the first terminator, wherever it is. */
  lemma {:induction false} FindTerminatorFirst(buf: string, from: nat, eol: nat)
    requires from <= eol && TerminatorAt(buf, eol)
    requires forall j :: from <= j < eol ==> !TerminatorAt(buf, j)
    ensures FindTerminator(buf, from) == Some(eol)
    decreases eol - from
  {
    if from < eol {
      FindTerminatorFirst(buf, from + 1, eol);
    }
  }

  /** The terminator found in `buf` is found in any buffer that agrees with `buf` up to its end. */
  lemma FindTerminatorOnPrefix(buf: string, other: string, from: nat)
    requires FindTerminator(buf, from).Some?
    requires |other| >= FindTerminator(buf, from).value + 2
    requires other[..FindTerminator(buf, from).value + 2] == buf[..FindTerminator(buf, from).value + 2]
    ensures FindTerminator(other, from) == FindTerminator(buf, from)
  {
    var eol := FindTerminator(buf, from).value;
    var prefix := buf[..eol + 2];
    forall j | from <= j < eol
      ensures !TerminatorAt(other, j)
    {
      assert !TerminatorAt(buf, j);
      assert other[j] == prefix[j] == buf[j] && other[j + 1] == prefix[j + 1] == buf[j + 1];
    }
    assert other[eol] == prefix[eol] && other[eol + 1] == prefix[eol + 1];
    FindTerminatorFirst(other, from, eol);
  }

  /** Unfolding `Parse` once: a complete header hands its line and what follows it to `ParseBody`. */
  lemma ParseOfHeader(buf: string)
    requires buf != [] && IsMarker(buf[0]) && FindTerminator(buf, 1).Some?
    ensures var eol := FindTerminator(buf, 1).value;
      Parse(buf) == Shift(ParseBody(buf[0], buf[1..eol], buf[eol + 2..]), eol + 2)
  {
  }

  /**
   * A decoded value is determined by the bytes it consumed: any buffer that
   * starts with the same `consumed` bytes decodes to the same value and
   * length, whatever follows.
   */
  lemma {:induction false} ParseDependsOnFrame(buf: string, other: string)
    requires Parse(buf).Ok?
    requires |other| >= Parse(buf).consumed
    requires other[..Parse(buf).consumed] == buf[..Parse(buf).consumed]
    ensures Parse(other) == Parse(buf)
    decreases |buf|, 2, 0
  {
    ParseOfHeader(buf);
    var eol := FindTerminator(buf, 1).value;
    var next := eol + 2;
    var body, body' := buf[next..], other[next..];
    var c := ParseBody(buf[0], buf[1..eol], body).consumed;
    SharedPrefix(buf, other, next, c);
    LineOfHeader(buf, other, eol);
    FindTerminatorOnPrefix(buf, other, 1);
    BodyDependsOnFrame(buf[0], buf[1..eol], body, body');
    ParseOfHeader(other);
  }

  /** Buffers that agree up to the end of a header agree on its marker and on its line. */
  lemma LineOfHeader(a: string, b: string, eol: nat)
    requires 1 <= eol && eol + 2 <= |a| && eol + 2 <= |b| && a[..eol + 2] == b[..eol + 2]
    ensures a[0] == b[0] && a[1..eol] == b[1..eol]
  {
    forall t | 0 <= t < eol
      ensures a[t] == b[t]
    {
      assert a[t] == a[..eol + 2][t];
    }
    assert a[1..eol] == b[1..eol];
  }

  /** `ParseDependsOnFrame` for what follows a header. */
  lemma {:induction false} BodyDependsOnFrame(marker: char, line: string, body: string, other: string)
    requires IsMarker(marker) && ParseBody(marker, line, body).Ok?
    requires |other| >= ParseBody(marker, line, body).consumed
    requires other[..ParseBody(marker, line, body).consumed] == body[..ParseBody(marker, line, body).consumed]
    ensures ParseBody(marker, line, other) == ParseBody(marker, line, body)
    decreases |body|, 4, 0
  {
    if (marker == '$' || marker == '*') && LexicalCastInt64(line).Some? && LexicalCastInt64(line).value >= 0 {
      var n := LexicalCastInt64(line).value;
      var c := ParseBody(marker, line, body).consumed;
      if marker == '$' {
        assert other[..n] == other[..c][..n] && body[..n] == body[..c][..n];
        assert other[n] == other[..c][n] && other[n + 1] == other[..c][n + 1];
        assert body[n] == body[..c][n] && body[n + 1] == body[..c][n + 1];
      } else {
        ElementsDependOnFrame(body, other, n);
      }
    }
  }

  /** `ParseDependsOnFrame` for a run of array elements. */
  lemma {:induction false} ElementsDependOnFrame(buf: string, other: string, count: nat)
    requires ParseElements(buf, count).Ok?
    requires |other| >= ParseElements(buf, count).consumed
    requires other[..ParseElements(buf, count).consumed] == buf[..ParseElements(buf, count).consumed]
    ensures ParseElements(other, count) == ParseElements(buf, count)
    decreases |buf|, 3, count
  {
    if count > 0 {
      var k := Parse(buf).consumed;
      ElementsParts(buf, count);
      SharedPrefix(buf, other, k, ParseElements(buf[k..], count - 1).consumed);
      ParseDependsOnFrame(buf, other);
      ElementsDependOnFrame(buf[k..], other[k..], count - 1);
      SameElementsAfterFirst(buf, other, count, k);
    }
  }

  /** A decoded run of elements is its first element, then the run of the others right after it. */
  lemma ElementsParts(buf: string, count: nat)
    requires count > 0 && ParseElements(buf, count).Ok?
    ensures Parse(buf).Ok?
    ensures var k := Parse(buf).consumed;
      && ParseElements(buf[k..], count - 1).Ok?
      && ParseElements(buf, count).consumed == k + ParseElements(buf[k..], count - 1).consumed
  {
  }

  /** Runs whose first elements decode alike, and whose other elements decode alike, decode alike. */
  lemma SameElementsAfterFirst(buf: string, other: string, count: nat, k: nat)
    requires count > 0 && Parse(buf).Ok? && Parse(buf).consumed == k && Parse(other) == Parse(buf)
    requires k <= |other| && ParseElements(other[k..], count - 1) == ParseElements(buf[k..], count - 1)
    ensures ParseElements(other, count) == ParseElements(buf, count)
  {
  }

  /** Two strings that agree on their first `total` bytes agree on each part of them. */
  lemma SharedPrefix(a: string, b: string, k: nat, m: nat)
    requires k + m <= |a| && k + m <= |b| && a[..k + m] == b[..k + m]
    ensures a[..k] == b[..k]
    ensures |a[k..]| >= m && |b[k..]| >= m && a[k..][..m] == b[k..][..m]
  {
    assert a[..k] == a[..k + m][..k] && b[..k] == b[..k + m][..k];
    assert a[k..][..m] == a[..k + m][k..] && b[k..][..m] == b[..k + m][k..];
  }

  /**
   * A protocol error is permanent: no bytes appended to the buffer turn it
   * into a value or into "need more".
   */
  lemma {:induction false} ParseErrorIsPermanent(buf: string, more: string)
    requires Parse(buf).Err?
    ensures Parse(buf + more) == Parse(buf)
    decreases |buf|, 2, 0
  {
    var whole := buf + more;
    assert whole[0] == buf[0];
    if IsMarker(buf[0]) {
      var eol := FindTerminator(buf, 1).value;
      var next := eol + 2;
      assert whole[..next] == buf[..next];
      FindTerminatorOnPrefix(buf, whole, 1);
      assert whole[1..eol] == buf[1..eol];
      assert whole[next..] == buf[next..] + more;
      ParseOfHeader(buf);
      BodyErrorIsPermanent(buf[0], buf[1..eol], buf[next..], more);
      ParseOfHeader(whole);
    }
  }

  /** `ParseErrorIsPermanent` for what follows a header. */
  lemma {:induction false} BodyErrorIsPermanent(marker: char, line: string, body: string, more: string)
    requires IsMarker(marker) && ParseBody(marker, line, body).Err?
    ensures ParseBody(marker, line, body + more) == ParseBody(marker, line, body)
    decreases |body|, 4, 0
  {
    if (marker == '$' || marker == '*') && LexicalCastInt64(line).Some? && LexicalCastInt64(line).value >= 0 {
      var n := LexicalCastInt64(line).value;
      if marker == '$' {
        assert (body + more)[n] == body[n] && (body + more)[n + 1] == body[n + 1];
      } else {
        ElementsErrorIsPermanent(body, more, n);
      }
    }
  }

  /** `ParseErrorIsPermanent` for a run of array elements. */
  lemma {:induction false} ElementsErrorIsPermanent(buf: string, more: string, count: nat)
    requires ParseElements(buf, count).Err?
    ensures ParseElements(buf + more, count) == ParseElements(buf, count)
    decreases |buf|, 3, count
  {
    var whole := buf + more;
    if Parse(buf).Err? {
      ParseErrorIsPermanent(buf, more);
    } else {
      var k := Parse(buf).consumed;
      assert whole[..k] == buf[..k];
      ParseDependsOnFrame(buf, whole);
      assert whole[k..] == buf[k..] + more;
      ElementsErrorIsPermanent(buf[k..], more, count - 1);
    }
  }

  /**
   * Every protocol error the decoder reports is one of its five messages, an
   * array element's error included: the error taxonomy is closed.
   */
  lemma {:induction false} ParseErrorsAreProtocolErrors(buf: string)
    requires Parse(buf).Err?
    ensures IsProtocolError(Parse(buf).what)
    decreases |buf|, 2, 0
  {
    if IsMarker(buf[0]) {
      var eol := FindTerminator(buf, 1).value;
      ParseOfHeader(buf);
      BodyErrorsAreProtocolErrors(buf[0], buf[1..eol], buf[eol + 2..]);
    }
  }

  lemma {:induction false} BodyErrorsAreProtocolErrors(marker: char, line: string, body: string)
    requires IsMarker(marker) && ParseBody(marker, line, body).Err?
    ensures IsProtocolError(ParseBody(marker, line, body).what)
    decreases |body|, 4, 0
  {
    if marker == '*' && LexicalCastInt64(line).Some? && LexicalCastInt64(line).value >= 0 {
      ElementsErrorsAreProtocolErrors(body, LexicalCastInt64(line).value);
    } else if marker == '*' && LexicalCastInt64(line).Some? && LexicalCastInt64(line).value < -1 {
      var n := LexicalCastInt64(line).value;
      assert ParseBody(marker, line, body).what == UnacceptableArrayCount(n);
    } else if marker == '$' && LexicalCastInt64(line).Some? && LexicalCastInt64(line).value < -1 {
      var n := LexicalCastInt64(line).value;
      assert ParseBody(marker, line, body).what == UnacceptableBulkLength(n);
    }
  }

  lemma {:induction false} ElementsErrorsAreProtocolErrors(buf: string, count: nat)
    requires ParseElements(buf, count).Err?
    ensures IsProtocolError(ParseElements(buf, count).what)
    decreases |buf|, 3, count
  {
    if Parse(buf).Err? {
      ParseErrorsAreProtocolErrors(buf);
    } else {
      var k := Parse(buf).consumed;
      ElementsErrorsAreProtocolErrors(buf[k..], count - 1);
    }
  }

  /**
   * Re-parsing a grown buffer is safe: once the outcome is a value or a
   * protocol error, appending bytes leaves it exactly as it was.
   */
  lemma DecidedOutcomeIsStable(buf: string, more: string)
    requires Parse(buf) != NeedMore
    ensures Parse(buf + more) == Parse(buf)
  {
    if Parse(buf).Err? {
      ParseErrorIsPermanent(buf, more);
    } else {
      var k := Parse(buf).consumed;
      assert (buf + more)[..k] == buf[..k];
      ParseDependsOnFrame(buf, buf + more);
    }
  }

  /**
   * The consumed prefix alone decodes to the same value: the caller may
   * discard exactly `consumed` bytes and keep the rest for the next value.
   */
  lemma ConsumedPrefixIsTheFrame(buf: string)
    requires Parse(buf).Ok?
    ensures Parse(buf[..Parse(buf).consumed]) == Parse(buf)
  {
    var k := Parse(buf).consumed;
    assert buf[..k][..k] == buf[..k];
    ParseDependsOnFrame(buf, buf[..k]);
  }

  /**
   * A buffer that decodes whole is one frame with nothing cut off: every
   * proper prefix of it is not consumed and not in error, so a reader that
   * stops anywhere inside the frame keeps waiting.
   */
  lemma WholeFramePrefixNeedsMore(buf: string, n: nat)
    requires Parse(buf).Ok? && Parse(buf).consumed == |buf| && n < |buf|
    ensures Parse(buf[..n]) == NeedMore
  {
    DecidedPrefix(buf, n);
  }

  /** A prefix already decided decides the whole buffer the same way. */
  lemma DecidedPrefix(buf: string, n: nat)
    requires n <= |buf|
    ensures Parse(buf[..n]) != NeedMore ==> Parse(buf) == Parse(buf[..n])
  {
    if Parse(buf[..n]) != NeedMore {
      DecidedOutcomeIsStable(buf[..n], buf[n..]);
      assert buf[..n] + buf[n..] == buf;
    }
  }

  // ---------------------------------------------------------------------
  // Frame by frame: what each marker's frame decodes to.
  // ---------------------------------------------------------------------

  /** `s` holds no "\r\n". */
  predicate NoTerminator(s: string) {
    forall j :: 0 <= j < |s| ==> !TerminatorAt(s, j)
  }

  /** The header line of a frame: marker, line, "\r\n". */
  function Header(marker: char, line: string): (h: string)
    ensures |h| == |line| + 3
  {
    [marker] + line + "\r\n"
  }

  /** A header whose line holds no "\r\n" ends at its own terminator, whatever follows. */
  lemma HeaderTerminator(marker: char, line: string, rest: string)
    requires NoTerminator(line)
    ensures FindTerminator(Header(marker, line) + rest, 1) == Some(|line| + 1)
  {
    var buf := Header(marker, line) + rest;
    forall j | 1 <= j < |line| + 1
      ensures !TerminatorAt(buf, j)
    {
      assert buf[j] == line[j - 1];
      if j < |line| {
        assert buf[j + 1] == line[j];
        assert !TerminatorAt(line, j - 1);
      } else {
        assert buf[j + 1] == '\r';
      }
    }
    assert buf[|line| + 1] == '\r' && buf[|line| + 2] == '\n';
    FindTerminatorFirst(buf, 1, |line| + 1);
  }

  /** Decimal text holds no "\r\n". */
  lemma DecimalHasNoTerminator(n: int)
    ensures NoTerminator(IntToDecimal(n))
  {
    var s := IntToDecimal(n);
    forall j | 0 <= j < |s|
      ensures !TerminatorAt(s, j)
    {
      if j + 1 < |s| && n < 0 {
        assert s[j + 1] == NatToDecimal(-n)[j];
      }
    }
  }

  /**
   * '+' and '-' frames: the line up to the first "\r\n" is the text of a
   * simple string or of an error.
   */
  lemma ParseLineFrame(marker: char, text: string, rest: string)
    requires marker == '+' || marker == '-'
    requires NoTerminator(text)
    ensures Parse(Header(marker, text) + rest)
         == Ok(if marker == '+' then SimpleString(text) else Error(text), |text| + 3)
  {
    var buf := Header(marker, text) + rest;
    HeaderTerminator(marker, text, rest);
    assert buf[1..|text| + 1] == text;
  }

  /** A '-' frame is a server error reply carrying the text of its line. */
  lemma ParseErrorFrame(text: string, rest: string)
    requires NoTerminator(text)
    ensures Parse(Header('-', text) + rest) == Ok(Error(text), |text| + 3)
  {
    ParseLineFrame('-', text, rest);
  }

  /**
   * ':' frames: the line is an integer when it casts to a 64-bit integer,
   * and a permanent lexical-cast error when it does not.
   */
  lemma ParseIntegerFrame(line: string, rest: string)
    requires NoTerminator(line)
    ensures LexicalCastInt64(line).Some? ==>
              Parse(Header(':', line) + rest) == Ok(Integer(LexicalCastInt64(line).value), |line| + 3)
    ensures LexicalCastInt64(line).None? ==> Parse(Header(':', line) + rest) == Err(BadLexicalCast)
  {
    var buf := Header(':', line) + rest;
    HeaderTerminator(':', line, rest);
    assert buf[1..|line| + 1] == line;
  }

  /** Every 64-bit integer written in decimal decodes to itself. */
  lemma IntegerRoundTrip(n: Int64, rest: string)
    ensures Parse(Header(':', IntToDecimal(n)) + rest) == Ok(Integer(n), |IntToDecimal(n)| + 3)
  {
    DecimalHasNoTerminator(n);
    LexicalCastOfDecimal(n);
    ParseIntegerFrame(IntToDecimal(n), rest);
  }

  /** An integer outside the 64-bit range, written in decimal, is the lexical-cast error. */
  lemma IntegerOutOfRange(n: int, rest: string)
    requires n < MinInt64 || n > MaxInt64
    ensures Parse(Header(':', IntToDecimal(n)) + rest) == Err(BadLexicalCast)
  {
    DecimalHasNoTerminator(n);
    LexicalCastRejectsOutOfRange(n);
    ParseIntegerFrame(IntToDecimal(n), rest);
  }

  /**
   * '$' frames, by the declared length L: -1 is Nil; below -1 is a permanent
   * error naming L; otherwise the frame needs L payload bytes and "\r\n" and
   * decodes to exactly those L bytes, waiting for more while they are short.
   */
  lemma ParseBulkFrame(line: string, body: string)
    requires NoTerminator(line) && LexicalCastInt64(line).Some?
    ensures var length: int, buf := LexicalCastInt64(line).value, Header('$', line) + body;
      && (length == -1 ==> Parse(buf) == Ok(Nil, |line| + 3))
      && (length < -1 ==> Parse(buf) == Err(UnacceptableBulkLength(length)))
      && (0 <= length && |body| < length + 2 ==> Parse(buf) == NeedMore)
      && (0 <= length && |body| >= length + 2 && TerminatorAt(body, length) ==>
            Parse(buf) == Ok(SimpleString(body[..length]), |line| + 3 + length + 2))
      && (0 <= length && |body| >= length + 2 && !TerminatorAt(body, length) ==>
            Parse(buf) == Err(BulkTerminatorMissing))
  {
    var length: int, buf := LexicalCastInt64(line).value, Header('$', line) + body;
    var next := |line| + 3;
    HeaderTerminator('$', line, body);
    assert buf[1..|line| + 1] == line;
    assert buf[next..] == body;
    if 0 <= length && |body| >= length + 2 {
      assert buf[next..next + length] == body[..length];
      assert buf[next + length] == body[length] && buf[next + length + 1] == body[length + 1];
    }
  }

  /**
   * '*' frames, by the declared count N: -1 is Nil; below -1 is a permanent
   * error naming N; otherwise the outcome is that of decoding N elements
   * from the bytes after the header, shifted by the header's length.
   */
  lemma ParseArrayFrame(line: string, body: string)
    requires NoTerminator(line) && LexicalCastInt64(line).Some?
    ensures var count, buf := LexicalCastInt64(line).value, Header('*', line) + body;
      && (count == -1 ==> Parse(buf) == Ok(Nil, |line| + 3))
      && (count < -1 ==> Parse(buf) == Err(UnacceptableArrayCount(count)))
      && (count >= 0 && ParseElements(body, count).Ok? ==>
            Parse(buf) == Ok(ParseElements(body, count).value, |line| + 3 + ParseElements(body, count).consumed))
      && (count >= 0 && !ParseElements(body, count).Ok? ==> Parse(buf) == ParseElements(body, count))
  {
    var buf := Header('*', line) + body;
    HeaderTerminator('*', line, body);
    assert buf[1..|line| + 1] == line;
    assert buf[|line| + 3..] == body;
  }

  /**
   * The branch the two lemmas above leave out: a '$' length or '*' count that
   * does not cast to a 64-bit integer is the lexical-cast error, whatever
   * follows the header.
   */
  lemma ParseUncastHeader(marker: char, line: string, body: string)
    requires marker == '$' || marker == '*'
    requires NoTerminator(line) && LexicalCastInt64(line).None?
    ensures Parse(Header(marker, line) + body) == Err(BadLexicalCast)
  {
    var buf := Header(marker, line) + body;
    HeaderTerminator(marker, line, body);
    assert buf[1..|line| + 1] == line;
  }

  // ---------------------------------------------------------------------
  // Array elements: decoded recursively, one after the other, in order.
  // ---------------------------------------------------------------------

  /** The frames written one after the other. */
  function Concat(frames: seq<string>): (s: string)
  {
    if frames == [] then [] else frames[0] + Concat(frames[1..])
  }

  lemma {:induction false} ConcatAppend(a: seq<string>, b: seq<string>)
    ensures Concat(a + b) == Concat(a) + Concat(b)
  {
    if a == [] {
      assert a + b == b;
    } else {
      assert (a + b)[1..] == a[1..] + b;
      ConcatAppend(a[1..], b);
    }
  }

  /** `frames` decode, each on its own, to `values`, consuming the whole frame. */
  predicate FramesDecodeTo(frames: seq<string>, values: seq<Value>) {
    && |frames| == |values|
    && forall i :: 0 <= i < |frames| ==> Parse(frames[i]) == Ok(values[i], |frames[i]|)
  }

  /** Unfolding `ParseElements` once, past a first element that decoded. */
  lemma ElementsAfterFirst(buf: string, count: nat)
    requires count > 0 && Parse(buf).Ok?
    ensures var first, k := Parse(buf).value, Parse(buf).consumed;
      var others := ParseElements(buf[k..], count - 1);
      && (others.Ok? ==> ParseElements(buf, count) == Ok(Array([first] + others.value.elements), k + others.consumed))
      && (!others.Ok? ==> ParseElements(buf, count) == others)
  {
  }

  /** An empty run of frames adds nothing before `rest`. */
  lemma NoFrames(frames: seq<string>, rest: string)
    requires frames == []
    ensures Concat(frames) + rest == rest
  {
    assert Concat(frames) == [];
  }

  /** One more complete frame in front leaves a run that is not decoded as it was. */
  lemma RunStep(frames: seq<string>, values: seq<Value>, rest: string, count: nat)
    requires FramesDecodeTo(frames, values) && frames != [] && !ParseElements(rest, count).Ok?
    requires ParseElements(Concat(frames[1..]) + rest, |frames| - 1 + count) == ParseElements(rest, count)
    ensures ParseElements(Concat(frames) + rest, |frames| + count) == ParseElements(rest, count)
  {
    FirstFrame(frames, values, rest);
    ElementsAfterFirst(Concat(frames) + rest, |frames| + count);
  }

  /** The frames after the first decode to the values after the first. */
  lemma DropFirstFrame(frames: seq<string>, values: seq<Value>)
    requires FramesDecodeTo(frames, values) && frames != []
    ensures FramesDecodeTo(frames[1..], values[1..])
  {
    forall i | 0 <= i < |frames| - 1
      ensures Parse(frames[1..][i]) == Ok(values[1..][i], |frames[1..][i]|)
    {
      assert Parse(frames[i + 1]) == Ok(values[i + 1], |frames[i + 1]|);
    }
  }

  /** A frame that decodes on its own decodes the same at the head of a buffer, which goes on after it. */
  lemma FrameAtHead(frame: string, rest: string)
    requires Parse(frame).Ok? && Parse(frame).consumed == |frame|
    ensures Parse(frame + rest) == Parse(frame)
    ensures (frame + rest)[|frame|..] == rest
  {
    assert (frame + rest)[..|frame|] == frame[..|frame|];
    ParseDependsOnFrame(frame, frame + rest);
  }

  /** The first frame decodes at the head of the frames written out, and the others follow it. */
  lemma FirstFrame(frames: seq<string>, values: seq<Value>, rest: string)
    requires FramesDecodeTo(frames, values) && frames != []
    ensures Parse(Concat(frames) + rest) == Ok(values[0], |frames[0]|)
    ensures (Concat(frames) + rest)[|frames[0]|..] == Concat(frames[1..]) + rest
    ensures FramesDecodeTo(frames[1..], values[1..])
  {
    assert Concat(frames) + rest == frames[0] + (Concat(frames[1..]) + rest);
    FrameAtHead(frames[0], Concat(frames[1..]) + rest);
    DropFirstFrame(frames, values);
  }

  /**
   * Elements are decoded in wire order: N frames that each decode to a value
   * decode, written one after the other, to the array of those N values, in
   * that order, whatever follows them.
   */
  lemma {:induction false} ElementsInOrder(frames: seq<string>, values: seq<Value>, rest: string)
    requires FramesDecodeTo(frames, values)
    ensures ParseElements(Concat(frames) + rest, |frames|) == Ok(Array(values), |Concat(frames)|)
  {
    if frames != [] {
      FirstFrame(frames, values, rest);
      ElementsInOrder(frames[1..], values[1..], rest);
      ElementsAfterFirst(Concat(frames) + rest, |frames|);
      assert [values[0]] + values[1..] == values;
    }
  }

  /**
   * An array frame whose elements are whole frames: N frames that each decode
   * to a value, behind the header "*N", decode to the array of those values.
   */
  lemma ArrayOfFrames(frames: seq<string>, values: seq<Value>)
    requires FramesDecodeTo(frames, values) && |frames| <= MaxInt64
    ensures Parse(Header('*', NatToDecimal(|frames|)) + Concat(frames))
         == Ok(Array(values), |NatToDecimal(|frames|)| + 3 + |Concat(frames)|)
  {
    ElementsInOrder(frames, values, []);
    assert Concat(frames) + [] == Concat(frames);
    DecimalHasNoTerminator(|frames|);
    LexicalCastOfDecimal(|frames|);
    ParseArrayFrame(NatToDecimal(|frames|), Concat(frames));
  }

  /**
   * Complete elements in front of a run that is not decoded: reading them
   * first changes nothing, the first element that needs more bytes or is in
   * error still decides the outcome.
   */
  lemma {:induction false} UndecidedAfterFrames(frames: seq<string>, values: seq<Value>, rest: string, count: nat)
    requires FramesDecodeTo(frames, values) && !ParseElements(rest, count).Ok?
    ensures ParseElements(Concat(frames) + rest, |frames| + count) == ParseElements(rest, count)
    decreases |frames|, 1
  {
    if frames == [] {
      NoFrames(frames, rest);
    } else {
      UndecidedAfterFirst(frames, values, rest, count);
    }
  }

  /** The same, past a first frame, for the frames after it. */
  lemma {:induction false} UndecidedAfterFirst(frames: seq<string>, values: seq<Value>, rest: string, count: nat)
    requires FramesDecodeTo(frames, values) && frames != [] && !ParseElements(rest, count).Ok?
    ensures ParseElements(Concat(frames) + rest, |frames| + count) == ParseElements(rest, count)
    decreases |frames|, 0
  {
    var tail, others := frames[1..], values[1..];
    DropFirstFrame(frames, values);
    UndecidedAfterFrames(tail, others, rest, count);
    RunStep(frames, values, rest, count);
  }

  /**
   * Elements that need more bytes after complete ones: the whole run needs
   * more bytes, so an array whose count exceeds the elements present is not
   * consumed and not in error.
   */
  lemma MissingElementsNeedMore(frames: seq<string>, values: seq<Value>, rest: string, missing: nat)
    requires FramesDecodeTo(frames, values)
    requires ParseElements(rest, missing) == NeedMore
    ensures ParseElements(Concat(frames) + rest, |frames| + missing) == NeedMore
  {
    UndecidedAfterFrames(frames, values, rest, missing);
  }

  /**
   * An array whose count exceeds the complete elements after its header,
   * where what follows them needs more bytes: the array is not consumed and
   * not in error, the caller waits for the rest.
   */
  lemma ArrayRunNeedsMore(frames: seq<string>, values: seq<Value>, rest: string, n: nat)
    requires FramesDecodeTo(frames, values) && |frames| <= n <= MaxInt64
    requires ParseElements(rest, n - |frames|) == NeedMore
    ensures Parse(Header('*', NatToDecimal(n)) + (Concat(frames) + rest)) == NeedMore
  {
    MissingElementsNeedMore(frames, values, rest, n - |frames|);
    UndecidedArray(Concat(frames) + rest, n);
  }

  /** An array whose elements are not decoded has the outcome of its elements. */
  lemma UndecidedArray(body: string, n: nat)
    requires n <= MaxInt64 && !ParseElements(body, n).Ok?
    ensures Parse(Header('*', NatToDecimal(n)) + body) == ParseElements(body, n)
  {
    DecimalHasNoTerminator(n);
    LexicalCastOfDecimal(n);
    ParseArrayFrame(NatToDecimal(n), body);
  }

  /** Fewer complete elements than the count, and nothing after them: the array waits for the rest. */
  lemma ArrayMissingElementsNeedMore(frames: seq<string>, values: seq<Value>, n: nat)
    requires FramesDecodeTo(frames, values) && |frames| < n <= MaxInt64
    ensures Parse(Header('*', NatToDecimal(n)) + Concat(frames)) == NeedMore
  {
    var body := Concat(frames);
    EmptyRunNeedsMore(n - |frames|);
    ArrayRunNeedsMore(frames, values, [], n);
    assert body + [] == body;
  }

  /** Elements still to come with no bytes left: the run waits for them. */
  lemma EmptyRunNeedsMore(missing: nat)
    requires missing > 0
    ensures ParseElements([], missing) == NeedMore
  {
  }

  /**
   * Complete elements followed by one that is a protocol error: the run, and
   * so the array around it, is that same error, however many elements are
   * still to come.
   */
  lemma ElementErrorPropagates(frames: seq<string>, values: seq<Value>, rest: string, more: nat)
    requires FramesDecodeTo(frames, values)
    requires Parse(rest).Err?
    ensures ParseElements(Concat(frames) + rest, |frames| + 1 + more) == Parse(rest)
  {
    assert ParseElements(rest, 1 + more) == Parse(rest);
    UndecidedAfterFrames(frames, values, rest, 1 + more);
  }

  /** The array around such a run: an element in error is the whole array's error. */
  lemma ArrayElementErrorPropagates(frames: seq<string>, values: seq<Value>, rest: string, n: nat)
    requires FramesDecodeTo(frames, values) && Parse(rest).Err? && |frames| < n <= MaxInt64
    ensures Parse(Header('*', NatToDecimal(n)) + (Concat(frames) + rest)) == Parse(rest)
  {
    ElementErrorPropagates(frames, values, rest, n - |frames| - 1);
    DecimalHasNoTerminator(n);
    LexicalCastOfDecimal(n);
    ParseArrayFrame(NatToDecimal(n), Concat(frames) + rest);
  }
}
