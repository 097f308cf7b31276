# bredis RESP codec, modelled in Dafny

bredis is an asynchronous Redis client for C++. Its protocol layer has two
entry points, and `t/05-protocol.cpp` pins down the behaviour of both:

- `Protocol::parse` is a stateless decoder for one RESP2 value.
  - It takes the bytes received so far and answers in one of three ways:
    - *consumed*, with a value (a simple string, an error, a 64-bit integer, nil, or an array of nested values);
    - *not consumed* with no error: more bytes are needed;
    - *not consumed* with a `protocol_error_t` that carries a message.
  - The connection calls it again on its whole buffer after every read.
- `Protocol::serialize` writes a command and its arguments into a caller-owned
  `std::stringstream`. The request is a RESP multi-bulk array of bulk strings.

The model has six modules:

- `Decimal` (decimal.dfy) covers the decimal text of lengths, counts and integers.
  - `NatToDecimal` and `IntToDecimal` model what `std::ostream <<` writes.
  - `LexicalCastInt64` models `boost::lexical_cast<int64_t>` as a whole-string cast into the 64-bit signed range.
- `Protocol` (protocol.dfy) has the value type, the three-way `Outcome` and the decoder.
  - `Parse` reads a marker byte and a header line that ends at the first "\r\n".
  - `ParseBody` then handles the payload for each marker.
  - The bulk-string payload check is `ParseBulkPayload`.
  - Array elements are parsed by `ParseElements`, which calls `Parse` recursively on what follows each element.
  - `Ok` carries the number of bytes consumed.
- `ProtocolProperties` (properties.dfy) proves what the stateless design promises its caller:
  - a decided outcome never changes when more bytes arrive;
  - a value depends only on the bytes it consumed;
  - every error is one of the decoder's messages;
  - a buffer that decodes whole has no proper prefix that is decided;
  - the frame lemmas together describe every branch of a frame whose header line is complete;
  - array elements are decoded in wire order, and the first element that needs more bytes or is in error decides the array.
- `Encoding` (encoding.dfy) is an independent definition of the wire form of every value.
  - `Parse` is proved to invert it.
  - Every proper prefix of a frame is proved to need more bytes.
- `Serializer` (serializer.dfy) models `Protocol::serialize`.
  - The `Sink` class is the output stream.
  - `Serialize` and its helpers append to the sink, with a loop over the arguments.
  - The bytes written are proved to be the encoding of the command's array value, which decodes back to the command and its arguments.
- `ProtocolExamples` (examples.dfy) proves each test case of `t/05-protocol.cpp` about the model, with the test's exact input and expected result.

## Model

| member | source | states |
|---|---|---|
| Protocol.Parse | t/05-protocol.cpp:10-35 | A value consumes at least one byte and never more than the buffer; the empty buffer needs more bytes; a first byte other than `+ - : $ *` is the error "wrong introduction", whatever follows |
| ProtocolProperties.ParseLineFrame | t/05-protocol.cpp:10-15 | `+text\r\n` decodes to the string `text` and `-text\r\n` to the error `text`, consuming the line and nothing after it |
| ProtocolProperties.ParseErrorFrame | t/05-protocol.cpp:76-81 | The '-' case of the same lemma: `-text\r\n` decodes to the error `text`, consuming the line and nothing after it |
| ProtocolProperties.ParseIntegerFrame | t/05-protocol.cpp:37-74 | `:line\r\n` decodes to the integer the line casts to; a line that does not cast to a 64-bit integer gives "bad lexical cast: source type value could not be interpreted as target" |
| ProtocolProperties.IntegerRoundTrip | t/05-protocol.cpp:37-56 | Every 64-bit integer written in decimal after ':' decodes back to itself, whatever follows the frame |
| Decimal.LexicalCastOfDecimal | t/05-protocol.cpp:37-56 | The decimal text of any 64-bit integer casts back to that integer |
| Decimal.LexicalCastInt64 | t/05-protocol.cpp:58-74 | A line that casts is an optional sign followed by digits only, ending in a digit (a sign alone never casts); a negative result comes from a '-' line |
| Decimal.LexicalCastRejectsOutOfRange | t/05-protocol.cpp:67-74 | The decimal text of any integer outside the 64-bit signed range never casts, from 9223372036854775808 and -9223372036854775809 outwards; with `LexicalCastOfDecimal`, an integer's text casts exactly when it is in range |
| ProtocolProperties.IntegerOutOfRange | t/05-protocol.cpp:67-74 | A ':' frame holding an integer outside the 64-bit range is the "bad lexical cast" error, whatever follows |
| Decimal.LexicalCastRejectsLongNumerals | t/05-protocol.cpp:67-74 | Twenty or more significant digits, signed or not, never cast to a 64-bit integer |
| Decimal.NatToDecimal | t/05-protocol.cpp:187-194 | The length text reads back as the number and has no leading zero |
| ProtocolProperties.ParseBulkFrame | t/05-protocol.cpp:83-123 | Each branch of a bulk string once its length casts to a 64-bit integer. Length -1 gives Nil. A length below -1 gives "Value L in unacceptable for bulk strings". Fewer than L+2 bytes after the header need more. Exactly L bytes followed by "\r\n" give those bytes, consuming header + L + 2. Otherwise it is a permanent error |
| ProtocolProperties.ParseArrayFrame | t/05-protocol.cpp:125-153 | Each branch of an array once its count casts to a 64-bit integer. Count -1 gives Nil. A count below -1 gives "Value N in unacceptable for arrays". Otherwise the elements decide, and the consumed length adds the header |
| ProtocolProperties.ParseUncastHeader | t/05-protocol.cpp:58-65 | The remaining branch of '$' and '*' frames: a length or count that does not cast is the "bad lexical cast" error, whatever follows the header |
| ProtocolProperties.ElementsInOrder | t/05-protocol.cpp:155-185 | N frames that each decode whole, laid end to end, decode to the array of their values in wire order, consuming exactly their bytes |
| ProtocolProperties.ArrayOfFrames | t/05-protocol.cpp:155-185 | A count header followed by N such frames decodes to the array of their values |
| ProtocolProperties.UndecidedAfterFrames | t/05-protocol.cpp:141-153 | Complete elements in front of a run of elements that is not decoded leave its outcome unchanged: the first element that needs more bytes or is in error decides |
| ProtocolProperties.MissingElementsNeedMore | t/05-protocol.cpp:149-153 | A run of elements made of complete frames followed by elements that need more bytes needs more bytes as a whole, with no error |
| ProtocolProperties.ArrayRunNeedsMore | t/05-protocol.cpp:149-153 | A count header followed by complete frames and then elements that need more bytes is not consumed, with no error |
| ProtocolProperties.ArrayMissingElementsNeedMore | t/05-protocol.cpp:149-153 | A count header followed by fewer complete frames than its count, and nothing else, is not consumed, with no error |
| ProtocolProperties.ElementErrorPropagates | t/05-protocol.cpp:141-153 | Complete elements followed by an element that is a protocol error make the run that same error, however many elements are still to come |
| ProtocolProperties.ArrayElementErrorPropagates | t/05-protocol.cpp:141-153 | A count header followed by complete frames and then an element that is a protocol error is that same error |
| ProtocolProperties.ParseDependsOnFrame | t/05-protocol.cpp:10-15 | A decoded value is determined by the bytes it consumed: any buffer that starts with them decodes to the same value and length |
| ProtocolProperties.ConsumedPrefixIsTheFrame | t/05-protocol.cpp:10-15 | The consumed prefix alone decodes to the same value and length |
| ProtocolProperties.ParseErrorIsPermanent | t/05-protocol.cpp:29-35 | A protocol error stays the same error however many bytes are appended |
| ProtocolProperties.DecidedOutcomeIsStable | t/05-protocol.cpp:17-35 | Once a buffer gives a value or an error, appending bytes changes nothing; only "need more" can change |
| ProtocolProperties.WholeFramePrefixNeedsMore | t/05-protocol.cpp:17-27 | When a buffer decodes consuming all of it, every proper prefix of it needs more bytes: never an error, never a value |
| ProtocolProperties.ParseErrorsAreProtocolErrors | t/05-protocol.cpp:29-35 | Every error is one of the decoder's messages: wrong introduction, bad lexical cast, the bulk terminator error, or an unacceptable length or count below -1 |
| Encoding.DecodeEncoded | t/05-protocol.cpp:155-185 | Every value within the wire's limits decodes from its frame back to itself, consuming the whole frame |
| Encoding.DecodeEncodedThenMore | t/05-protocol.cpp:155-185 | The same holds when other bytes follow the frame |
| Encoding.EncodedPrefixNeedsMore | t/05-protocol.cpp:17-27 | Every proper prefix of a frame needs more bytes: never an error, never a value |
| Encoding.BulkStringPrefixNeedsMore | t/05-protocol.cpp:113-123 | Every proper prefix of a bulk string frame needs more bytes |
| Encoding.ArrayPrefixNeedsMore | t/05-protocol.cpp:149-153 | Every proper prefix of an array frame whose elements decode needs more bytes |
| Serializer.Sink.Write | t/05-protocol.cpp:188-193 | Writing to the stream appends the bytes and keeps what was written before |
| Serializer.Serialize | t/05-protocol.cpp:187-194 | The stream gains the encoding of the array [command, args...] of bulk strings; the earlier contents are unchanged |
| Serializer.WriteBulkStrings | t/05-protocol.cpp:187-194 | The loop appends each argument's bulk string, in order |
| Serializer.WriteBulkString | t/05-protocol.cpp:187-194 | One bulk string is "$", the byte length, "\r\n", the bytes, "\r\n" |
| Serializer.WriteArrayHeader | t/05-protocol.cpp:187-194 | The request starts with "*", the element count 1 + argc, "\r\n" |
| Serializer.CommandEncoding | t/05-protocol.cpp:187-194 | The request's frame is the count header, the command's bulk string, then each argument's bulk string |
| Serializer.SerializeRoundTrip | t/05-protocol.cpp:187-194 | A request decodes back to the command and its arguments, in order, consuming all of it, and none of its proper prefixes is decided early |
| ProtocolExamples.SimpleStringOk | t/05-protocol.cpp:10-15 | "+OK\r\n" is consumed as the string "OK" |
| ProtocolExamples.EmptyBufferNeedsMore | t/05-protocol.cpp:17-21 | "" is not consumed, with no error |
| ProtocolExamples.UnfinishedLineNeedsMore | t/05-protocol.cpp:23-27 | "+OK" is not consumed, with no error |
| ProtocolExamples.WrongStartMarker | t/05-protocol.cpp:29-35 | "!OK" is the error "wrong introduction" |
| ProtocolExamples.SimpleNumber | t/05-protocol.cpp:37-42 | ":55\r\n" is consumed as 55 |
| ProtocolExamples.LargeNumber | t/05-protocol.cpp:44-49 | ":9223372036854775801\r\n" is consumed as 9223372036854775801 |
| ProtocolExamples.NegativeNumber | t/05-protocol.cpp:51-56 | ":-922\r\n" is consumed as -922 |
| ProtocolExamples.WrongNumber | t/05-protocol.cpp:58-65 | ":-9ab22\r\n" is the bad lexical cast error |
| ProtocolExamples.TooLargeNumber | t/05-protocol.cpp:67-74 | The 38-digit integer frame is the bad lexical cast error |
| ProtocolExamples.SimpleError | t/05-protocol.cpp:76-81 | "-Ooops\r\n" is consumed as the error "Ooops" |
| ProtocolExamples.NilBulkString | t/05-protocol.cpp:83-89 | "$-1\r\n" is consumed as Nil |
| ProtocolExamples.MalformedBulkString | t/05-protocol.cpp:91-97 | "$-5\r\nsome\r\n" is the error "Value -5 in unacceptable for bulk strings" |
| ProtocolExamples.SomeBulkString | t/05-protocol.cpp:99-104 | "$4\r\nsome\r\n" is consumed as "some" |
| ProtocolExamples.EmptyBulkString | t/05-protocol.cpp:106-111 | "$0\r\n\r\n" is consumed as "" |
| ProtocolExamples.PartialBulkStringShort | t/05-protocol.cpp:113-117 | "$10\r\nsome\r\n" is not consumed, with no error |
| ProtocolExamples.PartialBulkStringTerminator | t/05-protocol.cpp:119-123 | "$4\r\nsome\r" is not consumed, with no error |
| ProtocolExamples.UnterminatedPayloadWaits | t/05-protocol.cpp:113-123 | "$4\r\nsomeX" is not consumed, with no error, although its fifth payload byte already rules out "\r\n" (the model's choice; no test fixes it) |
| ProtocolExamples.UnterminatedPayloadNeverDecodes | t/05-protocol.cpp:113-123 | No bytes appended to "$4\r\nsomeX" make it decode to a value |
| ProtocolExamples.UnterminatedPayloadError | t/05-protocol.cpp:113-123 | "$4\r\nsomeXY" is the bulk terminator error (the model's choice and message; no test fixes it) |
| ProtocolExamples.EmptyArray | t/05-protocol.cpp:125-131 | "*0\r\n" is consumed as an array of no elements |
| ProtocolExamples.NullArray | t/05-protocol.cpp:133-139 | "*-1\r\n" is consumed as Nil |
| ProtocolExamples.MalformedArray | t/05-protocol.cpp:141-147 | "*-4\r\nsome\r\n" is the error "Value -4 in unacceptable for arrays" |
| ProtocolExamples.PartialArray | t/05-protocol.cpp:149-153 | "*1\r\n" is not consumed, with no error |
| ProtocolExamples.MixedArray | t/05-protocol.cpp:155-166 | The three-element frame is consumed as ["some", 5, Nil], in that order |
| ProtocolExamples.NestedArrays | t/05-protocol.cpp:168-185 | The nested frame is consumed as [[1, 2, 3], ["Foo", error "Bar"]] |
| ProtocolExamples.SerializeLlen | t/05-protocol.cpp:187-194 | Serializing LLEN with the argument "fmm.cheap-travles2" into an empty stream writes exactly "*2\r\n$4\r\nLLEN\r\n$18\r\nfmm.cheap-travles2\r\n" |

## Left out

- The implementation header `bredis/Protocol.hpp` is not part of this model. The decoder is written from the behaviour `t/05-protocol.cpp` pins down.
  - Where the tests do not decide, the model makes a choice, and each choice is listed below.
- Once L+2 bytes follow a bulk header and the last two are not "\r\n", the frame is a permanent error in the model. The message "terminator for bulk string not found" is the model's own.
  - With fewer bytes the frame needs more, even when the bytes already there rule out "\r\n": "$4\r\nsomeX" waits, and "$4\r\nsomeXY" is the error (`ProtocolExamples.UnterminatedPayloadWaits`, `ProtocolExamples.UnterminatedPayloadError`).
  - No test fixes these cases.
- An array element that is a protocol error makes the whole array that error (`ElementErrorPropagates`, `ArrayElementErrorPropagates`). No test fixes this case either.
- Bulk lengths and array counts are read by the same 64-bit cast as integer frames. So "$+4", "$004" and "*+1" are accepted, and a length or count that does not cast ("$ab") is the "bad lexical cast" error. No test fixes these cases.
- A header line with no "\r\n" yet needs more bytes, even when its text can never cast (":abc", "$x"). The line is checked only once it is complete. No test fixes this case.
- `boost::lexical_cast<int64_t>` is modelled only by what it accepts and rejects: an optional '+' or '-', one or more decimal digits, and a value in the 64-bit signed range. Its failure message is a constant.
- The `boost::variant` result and the `boost::get` accessors become the `Value` and `Outcome` datatypes.
  - `parse_result_t.consumed` is the `Ok` case, which also carries the byte count.
  - `boost::string_ref` arguments become strings.
- A `char` stands for one byte. There is no character encoding, and every length is a byte count.
- `std::stringstream` is modelled as the `Sink` class, whose only state is the bytes written so far. Stream states and formatting flags are not modelled.
- The Catch test framework, the connection, sockets and asynchronous I/O are not modelled.
- The `Encoding.Encodable` limits come from the decoder's 64-bit lengths and counts. The model proves no round trip for strings or arrays longer than the 64-bit range, or for error texts that contain "\r\n", which the line-based frame cannot carry.
