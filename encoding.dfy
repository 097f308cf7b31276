/**
 * The wire form of every RESP value, as the decoder reads it: the reference
 * against which `Protocol::parse` is checked. A simple string is written as a
 * bulk string, which carries any bytes; Nil as the bulk string of length -1.
 */
module Encoding {
  import opened Wrappers
  import opened Decimal
  import opened Protocol
  import opened ProtocolProperties

  /** The RESP frame of `v`. */
  function Encode(v: Value): (s: string)
    decreases v
    ensures |s| >= 3 && IsMarker(s[0])
  {
    match v
    case SimpleString(text) => Header('$', NatToDecimal(|text|)) + text + "\r\n"
    case Error(text) => Header('-', text)
    case Integer(n) => Header(':', IntToDecimal(n))
    case Nil => Header('$', "-1")
    case Array(elements) => Header('*', NatToDecimal(|elements|)) + Concat(EncodeEach(elements))
  }

  /** The frames of `values`, one per value, in order. */
  function EncodeEach(values: seq<Value>): (frames: seq<string>)
    decreases values
    ensures |frames| == |values|
    ensures forall i :: 0 <= i < |values| ==> frames[i] == Encode(values[i])
  {
    if values == [] then [] else [Encode(values[0])] + EncodeEach(values[1..])
  }

  /**
   * The values the wire can carry: strings and arrays no longer than the
   * 64-bit range the decoder reads lengths and counts in, and error texts
   * without "\r\n", which would end the line early.
   */
  ghost predicate Encodable(v: Value)
    decreases v
  {
    match v
    case SimpleString(text) => |text| <= MaxInt64
    case Error(text) => NoTerminator(text)
    case Integer(_) => true
    case Nil => true
    case Array(elements) => |elements| <= MaxInt64 && forall i :: 0 <= i < |elements| ==> Encodable(elements[i])
  }

  /** A length or count written in decimal is read back by the lexical cast. */
  lemma LengthRoundTrip(n: nat)
    requires n <= MaxInt64
    ensures NoTerminator(NatToDecimal(n))
    ensures LexicalCastInt64(NatToDecimal(n)) == Some(n)
  {
    DecimalHasNoTerminator(n);
    LexicalCastOfDecimal(n);
  }

  /** Every encodable value decodes from its own frame to itself, consuming the whole frame. */
  lemma {:induction false} DecodeEncoded(v: Value)
    requires Encodable(v)
    ensures Parse(Encode(v)) == Ok(v, |Encode(v)|)
    decreases v
  {
    match v
    case SimpleString(text) =>
      DecodeBulkString(text);
    case Error(text) =>
      ParseErrorFrame(text, []);
      assert Header('-', text) + [] == Header('-', text);
    case Integer(n) =>
      IntegerRoundTrip(n, []);
      assert Header(':', IntToDecimal(n)) + [] == Header(':', IntToDecimal(n));
    case Nil =>
      DecodeNil();
    case Array(elements) =>
      forall i | 0 <= i < |elements|
        ensures Parse(Encode(elements[i])) == Ok(elements[i], |Encode(elements[i])|)
      {
        DecodeEncoded(elements[i]);
      }
      DecodeArray(elements);
  }

  lemma DecodeBulkString(text: string)
    requires |text| <= MaxInt64
    ensures Parse(Encode(SimpleString(text))) == Ok(SimpleString(text), |Encode(SimpleString(text))|)
  {
    LengthRoundTrip(|text|);
    var body := text + "\r\n";
    assert body[..|text|] == text;
    ParseBulkFrame(NatToDecimal(|text|), body);
    assert Encode(SimpleString(text)) == Header('$', NatToDecimal(|text|)) + body;
  }

  lemma DecodeNil()
    ensures Parse(Encode(Nil)) == Ok(Nil, |Encode(Nil)|)
  {
    LexicalCastOfDecimal(-1);
    DecimalHasNoTerminator(-1);
    ParseBulkFrame("-1", []);
    assert Header('$', "-1") + [] == Header('$', "-1");
  }

  /** An array decodes when its elements do. */
  lemma DecodeArray(elements: seq<Value>)
    requires |elements| <= MaxInt64
    requires forall i :: 0 <= i < |elements| ==> Parse(Encode(elements[i])) == Ok(elements[i], |Encode(elements[i])|)
    ensures Parse(Encode(Array(elements))) == Ok(Array(elements), |Encode(Array(elements))|)
  {
    var frames := EncodeEach(elements);
    assert FramesDecodeTo(frames, elements);
    ElementsInOrder(frames, elements, []);
    assert Concat(frames) + [] == Concat(frames);
    LengthRoundTrip(|elements|);
    ParseArrayFrame(NatToDecimal(|elements|), Concat(frames));
  }

  /** A frame decodes the same with any bytes after it: the next frame stays in the buffer. */
  lemma DecodeEncodedThenMore(v: Value, more: string)
    requires Encodable(v)
    ensures Parse(Encode(v) + more) == Ok(v, |Encode(v)|)
  {
    DecodeEncoded(v);
    DecidedOutcomeIsStable(Encode(v), more);
  }

  /** No proper prefix of `frame` is decided: each one waits for more bytes. */
  ghost predicate PrefixesNeedMore(frame: string) {
    forall n :: 0 <= n < |frame| ==> Parse(frame[..n]) == NeedMore
  }

  /** A header cut short, before or inside its "\r\n", waits for more bytes. */
  lemma HeaderPrefixNeedsMore(marker: char, line: string, body: string, n: nat)
    requires IsMarker(marker) && NoTerminator(line) && n < |line| + 3
    ensures Parse((Header(marker, line) + body)[..n]) == NeedMore
  {
    var whole := Header(marker, line) + body;
    var p := whole[..n];
    if n > 0 {
      HeaderTerminator(marker, line, body);
      assert p[0] == marker;
      forall j | 1 <= j
        ensures !TerminatorAt(p, j)
      {
        if TerminatorAt(p, j) {
          assert p[j] == whole[j] && p[j + 1] == whole[j + 1];
          assert TerminatorAt(whole, j);
        }
      }
    }
  }

  /**
   * Every proper prefix of a frame is "not consumed, no error": bytes that
   * stop anywhere inside a well-formed frame are never taken for a protocol
   * error, so the caller keeps reading.
   */
  lemma EncodedPrefixNeedsMore(v: Value)
    requires Encodable(v)
    ensures PrefixesNeedMore(Encode(v))
  {
    forall n | 0 <= n < |Encode(v)|
      ensures Parse(Encode(v)[..n]) == NeedMore
    {
      PrefixNeedsMore(v, n);
    }
  }

  lemma PrefixNeedsMore(v: Value, n: nat)
    requires Encodable(v) && n < |Encode(v)|
    ensures Parse(Encode(v)[..n]) == NeedMore
  {
    DecodeEncoded(v);
    WholeFramePrefixNeedsMore(Encode(v), n);
  }

  lemma BulkStringPrefixNeedsMore(text: string, n: nat)
    requires |text| <= MaxInt64 && n < |Encode(SimpleString(text))|
    ensures Parse(Encode(SimpleString(text))[..n]) == NeedMore
  {
    DecodeBulkString(text);
    WholeFramePrefixNeedsMore(Encode(SimpleString(text)), n);
  }

  /** An array cut short waits for more bytes when its elements decode. */
  lemma ArrayPrefixNeedsMore(elements: seq<Value>, n: nat)
    requires |elements| <= MaxInt64 && n < |Encode(Array(elements))|
    requires forall i :: 0 <= i < |elements| ==> Parse(Encode(elements[i])) == Ok(elements[i], |Encode(elements[i])|)
    ensures Parse(Encode(Array(elements))[..n]) == NeedMore
  {
    DecodeArray(elements);
    WholeFramePrefixNeedsMore(Encode(Array(elements)), n);
  }
}
