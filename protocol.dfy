/**
 * The decoder of bredis's RESP (REdis Serialization Protocol, version 2)
 * codec, `Protocol::parse`: a stateless function from the bytes received so
 * far to one of three outcomes. It looks for exactly one value starting at
 * offset 0 and keeps nothing between calls; the caller appends bytes and
 * asks again until the outcome is no longer `NeedMore`.
 */
module Protocol {
  import opened Wrappers
  import opened Decimal

  /** A decoded RESP value: the variant held by `parse_result_t::result` on success. */
  datatype Value =
    | SimpleString(text: string)    // `string_holder_t`: a '+' line or a bulk string's payload
    | Error(text: string)           // `error_holder_t`: a '-' line
    | Integer(n: Int64)             // `int_result_t`: a ':' line
    | Nil                           // `nil_t`: a bulk string or array of length -1
    | Array(elements: seq<Value>)   // `array_holder_t`: a '*' frame and its elements, in wire order

  /**
   * The result of one call. `Ok` is the `consumed` case and carries the
   * number of bytes the value occupies; `NeedMore` is "not consumed, no
   * error" (a prefix that more bytes may complete); `Err` is "not consumed"
   * with a `protocol_error_t`, whose message is `what`.
   */
  datatype Outcome =
    | NeedMore
    | Err(what: string)
    | Ok(value: Value, consumed: nat)

  const WrongIntroduction: string := "wrong introduction"
  const BadLexicalCast: string := "bad lexical cast: source type value could not be interpreted as target"
  /** A bulk string whose declared payload is not followed by "\r\n". */
  const BulkTerminatorMissing: string := "terminator for bulk string not found"

  function UnacceptableBulkLength(n: int): string {
    "Value " + IntToDecimal(n) + " in unacceptable for bulk strings"
  }

  function UnacceptableArrayCount(n: int): string {
    "Value " + IntToDecimal(n) + " in unacceptable for arrays"
  }

  /** The messages the decoder can report: its whole error taxonomy. */
  ghost predicate IsProtocolError(what: string) {
    || what == WrongIntroduction
    || what == BadLexicalCast
    || what == BulkTerminatorMissing
    || (exists n: int :: n < -1 && what == UnacceptableBulkLength(n))
    || (exists n: int :: n < -1 && what == UnacceptableArrayCount(n))
  }

  /** The type markers of RESP2: simple string, error, integer, bulk string, array. */
  predicate IsMarker(c: char) {
    c == '+' || c == '-' || c == ':' || c == '$' || c == '*'
  }

  /** "\r\n" starts at offset `j` of `buf`. */
  predicate TerminatorAt(buf: string, j: int) {
    0 <= j && j + 1 < |buf| && buf[j] == '\r' && buf[j + 1] == '\n'
  }

  /** The offset of the first "\r\n" at or after `from`, if there is one. */
  function FindTerminator(buf: string, from: nat): (r: Option<nat>)
    decreases |buf| - from
    ensures r.Some? ==> from <= r.value && TerminatorAt(buf, r.value)
    ensures forall j :: from <= j && (r.None? || j < r.value) ==> !TerminatorAt(buf, j)
  {
    if from + 1 >= |buf| then None
    else if TerminatorAt(buf, from) then Some(from)
    else FindTerminator(buf, from + 1)
  }

  /**
   * `Protocol::parse`. The first byte selects the frame kind; the header line
   * runs from offset 1 to the first "\r\n", and what follows the header is
   * decoded by `ParseBody`.
   */
  function Parse(buf: string): (r: Outcome)
    decreases |buf|, 2, 0
    ensures r.Ok? ==> 0 < r.consumed <= |buf|
    ensures buf == [] ==> r == NeedMore
    ensures buf != [] && !IsMarker(buf[0]) ==> r == Err(WrongIntroduction)
  {
    if buf == [] then NeedMore
    else if !IsMarker(buf[0]) then Err(WrongIntroduction)
    else match FindTerminator(buf, 1)
      case None => NeedMore
      case Some(eol) => Shift(ParseBody(buf[0], buf[1..eol], buf[eol + 2..]), eol + 2)
  }

  /** An outcome whose consumed length is `header` bytes longer. */
  function Shift(r: Outcome, header: nat): (s: Outcome)
    ensures s.Ok? <==> r.Ok?
    ensures r.Ok? ==> s.value == r.value && s.consumed == header + r.consumed
    ensures !r.Ok? ==> s == r
  {
    match r
    case Ok(v, k) => Ok(v, header + k)
    case failure => failure
  }

  /**
   * A frame whose header, `marker` and `line`, has been read; `body` is what
   * follows the header's "\r\n" and the consumed length counts bytes of
   * `body`. '+' and '-' frames are the line itself; ':', '$' and '*' cast it
   * to a 64-bit integer, and '$' and '*' frames go on into the body with a
   * payload of that length or with that many elements.
   */
  function ParseBody(marker: char, line: string, body: string): (r: Outcome)
    requires IsMarker(marker)
    decreases |body|, 4, 0
    ensures r.Ok? ==> r.consumed <= |body|
  {
    if marker == '+' then Ok(SimpleString(line), 0)
    else if marker == '-' then Ok(Error(line), 0)
    else match LexicalCastInt64(line)
      case None => Err(BadLexicalCast)
      case Some(n) =>
        if marker == ':' then Ok(Integer(n), 0)
        else if marker == '$' then ParseBulkPayload(body, n)
        else if n == -1 then Ok(Nil, 0)
        else if n < -1 then Err(UnacceptableArrayCount(n))
        else ParseElements(body, n)
  }

  /**
   * The payload of a bulk string frame whose header declared `length`: -1 is
   * Nil, below -1 is an error, otherwise `length` bytes and "\r\n".
   */
  function ParseBulkPayload(body: string, length: Int64): (r: Outcome)
    ensures r.Ok? ==> r.consumed <= |body|
  {
    if length == -1 then Ok(Nil, 0)
    else if length < -1 then Err(UnacceptableBulkLength(length))
    else if |body| < length + 2 then NeedMore
    else if !TerminatorAt(body, length) then Err(BulkTerminatorMissing)
    else Ok(SimpleString(body[..length]), length + 2)
  }

  /**
   * `count` values decoded one after the other from the start of `buf`,
   * gathered into an `Array` in wire order. The first element that needs more
   * bytes or is in error decides the outcome of the whole sequence.
   */
  function ParseElements(buf: string, count: nat): (r: Outcome)
    decreases |buf|, 3, count
    ensures r.Ok? ==> r.value.Array? && |r.value.elements| == count && r.consumed <= |buf|
  {
    if count == 0 then Ok(Array([]), 0)
    else match Parse(buf)
      case Ok(first, k) =>
        (match ParseElements(buf[k..], count - 1)
          case Ok(rest, k') => Ok(Array([first] + rest.elements), k + k')
          case failure => failure)
      case failure => failure
  }
}
