/**
 * The encoder of bredis's RESP codec, `Protocol::serialize`: a command and
 * its arguments written into the caller's output stream as a RESP
 * multi-bulk request, an array of bulk strings with the command first.
 */
module Serializer {
  import opened Decimal
  import opened Protocol
  import opened ProtocolProperties
  import opened Encoding

  /** The caller-owned output stream (a `std::stringstream`): the bytes written to it so far. */
  class Sink {
    var contents: string

    constructor ()
      ensures contents == []
    {
      contents := [];
    }

    /** `operator<<`: appends `s` to what was written before. */
    method Write(s: string)
      modifies this
      ensures contents == old(contents) + s
    {
      contents := contents + s;
    }
  }

  /** The request `command args...` as a RESP value: bulk strings, the command first, the arguments in order. */
  function CommandValue(command: string, args: seq<string>): Value {
    Array([SimpleString(command)] + seq(|args|, i requires 0 <= i < |args| => SimpleString(args[i])))
  }

  /** The bulk string frames of `args`, in order. */
  function BulkFrames(args: seq<string>): (frames: seq<string>)
    ensures |frames| == |args|
  {
    seq(|args|, i requires 0 <= i < |args| => Encode(SimpleString(args[i])))
  }

  /**
   * `Protocol::serialize`: appends "*<1 + |args|>\r\n", then the command and
   * each argument in turn as "$<byte length>\r\n<bytes>\r\n". Nothing else in
   * the sink changes; there is no error path.
   */
  method Serialize(sink: Sink, command: string, args: seq<string>)
    modifies sink
    ensures sink.contents == old(sink.contents) + Encode(CommandValue(command, args))
  {
    ghost var written := sink.contents;
    ghost var header := Header('*', NatToDecimal(|args| + 1));
    ghost var bulk := Encode(SimpleString(command));
    ghost var rest := Concat(BulkFrames(args));
    WriteArrayHeader(sink, |args| + 1);
    WriteBulkString(sink, command);
    WriteBulkStrings(sink, args);
    Regroup(written, header, bulk, rest);
    CommandEncoding(command, args);
  }

  lemma Regroup(written: string, header: string, bulk: string, rest: string)
    ensures written + header + bulk + rest == written + (header + (bulk + rest))
  {
  }

  /** The arguments, each as a bulk string, in order. */
  method WriteBulkStrings(sink: Sink, args: seq<string>)
    modifies sink
    ensures sink.contents == old(sink.contents) + Concat(BulkFrames(args))
  {
    for i := 0 to |args|
      invariant sink.contents == old(sink.contents) + Concat(BulkFrames(args[..i]))
    {
      WriteBulkString(sink, args[i]);
      BulkFramesSnoc(args, i);
      AppendAfter(old(sink.contents), Concat(BulkFrames(args[..i])), Encode(SimpleString(args[i])),
                  Concat(BulkFrames(args[..i + 1])));
    }
    assert args[..|args|] == args;
  }

  /** One more argument adds its bulk string at the end. */
  lemma BulkFramesSnoc(args: seq<string>, i: nat)
    requires i < |args|
    ensures Concat(BulkFrames(args[..i + 1])) == Concat(BulkFrames(args[..i])) + Encode(SimpleString(args[i]))
  {
    var frame := Encode(SimpleString(args[i]));
    assert BulkFrames(args[..i + 1]) == BulkFrames(args[..i]) + [frame];
    ConcatAppend(BulkFrames(args[..i]), [frame]);
    assert Concat([frame]) == frame + Concat([]);
  }

  lemma AppendAfter(written: string, done: string, frame: string, all: string)
    requires all == done + frame
    ensures written + all == (written + done) + frame
  {
  }

  /** The request's frame: the array header, the command's bulk string, the arguments' bulk strings. */
  lemma CommandEncoding(command: string, args: seq<string>)
    ensures Encode(CommandValue(command, args))
         == Header('*', NatToDecimal(|args| + 1)) + (Encode(SimpleString(command)) + Concat(BulkFrames(args)))
  {
    var v := CommandValue(command, args);
    var frames := EncodeEach(v.elements);
    EncodeArray(v.elements);
    assert Encode(v) == Header('*', NatToDecimal(|args| + 1)) + Concat(frames);
    CommandFrames(command, args);
    assert Concat(frames) == frames[0] + Concat(frames[1..]);
  }

  lemma EncodeArray(elements: seq<Value>)
    ensures Encode(Array(elements)) == Header('*', NatToDecimal(|elements|)) + Concat(EncodeEach(elements))
  {
  }

  /** The request's elements are framed as the command's bulk string, then the arguments'. */
  lemma CommandFrames(command: string, args: seq<string>)
    ensures var frames := EncodeEach(CommandValue(command, args).elements);
      frames[0] == Encode(SimpleString(command)) && frames[1..] == BulkFrames(args)
  {
    var elements := CommandValue(command, args).elements;
    var frames := EncodeEach(elements);
    assert |frames| == |args| + 1;
    forall i | 0 <= i < |args|
      ensures frames[1..][i] == BulkFrames(args)[i]
    {
      assert elements[i + 1] == SimpleString(args[i]);
      assert frames[i + 1] == Encode(elements[i + 1]);
    }
    assert frames[0] == Encode(elements[0]);
  }

  /** The header of an array of `count` elements: "*", the count in decimal, "\r\n". */
  method WriteArrayHeader(sink: Sink, count: nat)
    modifies sink
    ensures sink.contents == old(sink.contents) + Header('*', NatToDecimal(count))
  {
    sink.Write("*");
    sink.Write(NatToDecimal(count));
    sink.Write("\r\n");
  }

  /** One bulk string: "$", the byte length in decimal, "\r\n", the bytes, "\r\n". */
  method WriteBulkString(sink: Sink, s: string)
    modifies sink
    ensures sink.contents == old(sink.contents) + Encode(SimpleString(s))
  {
    sink.Write("$");
    sink.Write(NatToDecimal(|s|));
    sink.Write("\r\n");
    sink.Write(s);
    sink.Write("\r\n");
  }

  /**
   * A request decodes back to the command and its arguments, in order, as
   * long as every length and the count fit the decoder's 64-bit range; and
   * it is never decided early: each of its proper prefixes needs more bytes.
   */
  lemma SerializeRoundTrip(command: string, args: seq<string>)
    requires |args| + 1 <= MaxInt64 && |command| <= MaxInt64
    requires forall i :: 0 <= i < |args| ==> |args[i]| <= MaxInt64
    ensures Parse(Encode(CommandValue(command, args))) == Ok(CommandValue(command, args), |Encode(CommandValue(command, args))|)
    ensures PrefixesNeedMore(Encode(CommandValue(command, args)))
  {
    var v := CommandValue(command, args);
    assert Encodable(v) by {
      forall i | 0 <= i < |v.elements|
        ensures Encodable(v.elements[i])
      {
        if i > 0 {
          assert v.elements[i] == SimpleString(args[i - 1]);
        }
      }
    }
    DecodeEncoded(v);
    EncodedPrefixNeedsMore(v);
  }
}
