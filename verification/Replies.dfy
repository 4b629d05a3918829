/**
 Replies: `_OpMsg.unpack` of pymongo/message.py, and a server's reply followed all the way from the
 bytes of the connection to the decoded document.
 */
module Replies {
  import opened Bytes
  import opened Bson
  import opened Encoder
  import opened Framing
  import Expectation = ReadBack
  import Decoder
  import Bits

  const OP_MSG := 2013
  const CHECKSUM_PRESENT := 1
  const MORE_TO_COME := 2

  datatype Reply = Reply(flags: nat, payload: Bytes)

  /** `_OpMsg.unpack`; None stands for its ProtocolErrors and for a message too short to unpack.
      `flags ^ MORE_TO_COME` is non-zero exactly if the two differ. */
  function UnpackOpMsg(msg: Bytes): (r: Option<Reply>)
  {
    if |msg| < 9 then None
    else
      var flags, firstType, firstSize := FromLe(msg[..4]), msg[4], UnpackInt32(msg[5..9]);
      if flags != 0 && (Bits.And(flags, CHECKSUM_PRESENT) != 0 || flags != MORE_TO_COME) then None
      else if firstType != 0 then None
      else if |msg| != firstSize + 5 then None
      else Some(Reply(flags, msg[5..]))
  }

  /** The bytes of a reply with one document section. */
  function ReplyBody(flags: nat, payload: Bytes): (r: Bytes) { Le(flags, 4) + [0] + payload }

  /** A message is accepted if and only if it is one document section whose length tiles it, without
      flags or with moreToCome alone. */
  lemma {:induction false} UnpackAcceptsIff(msg: Bytes, flags: nat, payload: Bytes)
    ensures UnpackOpMsg(msg) == Some(Reply(flags, payload)) <==>
            && (flags == 0 || flags == MORE_TO_COME) && msg == ReplyBody(flags, payload)
            && |payload| >= 4 && UnpackInt32(payload[..4]) == |payload|
  {
    hide UnpackInt32, FromLe, Le, Bits.And;
    MoreToComeHasNoChecksum();
    if (flags == 0 || flags == MORE_TO_COME) && msg == ReplyBody(flags, payload) && |payload| >= 4 {
      Pow256Values();
      Uint32RoundTrip(flags);
      assert msg[..4] == Le(flags, 4) && msg[5..] == payload && msg[5..9] == payload[..4];
    }
    if UnpackOpMsg(msg) == Some(Reply(flags, payload)) {
      UnpackUint32RoundTrip(msg[..4]);
      assert msg == msg[..4] + [msg[4]] + msg[5..];
      assert payload[..4] == msg[5..9];
    }
  }

  lemma {:induction false} MoreToComeHasNoChecksum()
    ensures Bits.And(MORE_TO_COME, CHECKSUM_PRESENT) == 0
  {
  }

  // ---- end to end -----------------------------------------------------------------------

  /** An uncompressed OP_MSG message as a server sends it. */
  function Sent(requestId: int, responseTo: int, body: Bytes): (r: Bytes)
    requires IsInt32(requestId) && IsInt32(responseTo) && |body| + 16 <= MAX_INT32
    ensures |r| == |body| + 16
  {
    PackInt32(|body| + 16) + PackInt32(requestId) + PackInt32(responseTo) + PackInt32(OP_MSG) + body
  }

  lemma {:induction false} SentHeader(requestId: int, responseTo: int, body: Bytes)
    requires IsInt32(requestId) && IsInt32(responseTo) && |body| + 16 <= MAX_INT32
    ensures var m := Sent(requestId, responseTo, body);
            && HeaderOf(m) == Header(|m|, responseTo, OP_MSG)
            && FrameOf(m) == Frame(OP_MSG, None, responseTo, body)
  {
    hide PackInt32, UnpackInt32;
    var m := Sent(requestId, responseTo, body);
    assert m[..4] == PackInt32(|body| + 16) && m[8..12] == PackInt32(responseTo) && m[12..16] == PackInt32(OP_MSG);
    Int32RoundTrip(|body| + 16);
    Int32RoundTrip(responseTo);
    Int32RoundTrip(OP_MSG);
    assert m[16..] == body;
  }

  /** The document of a reply within the limit arrives: the incremental reader delivers one frame,
      the pulling reader the same one, it unpacks to the flags and the payload, and the payload
      decodes to the document with `_id` first. */
  lemma {:induction false} ReplyArrives(max: int, requestId: int, responseTo: int, flags: nat, fs: Fields)
    requires IsInt32(requestId) && IsInt32(responseTo) && (flags == 0 || flags == MORE_TO_COME)
    requires Expectation.WellTypedAll(fs) && Expectation.PlainAll(fs) && EncodeDocument(fs, false).Some?
    requires |EncodeDocument(fs, false).value| + 21 <= max <= MAX_INT32
    ensures var body := ReplyBody(flags, EncodeDocument(fs, false).value);
            var m := Sent(requestId, responseTo, body);
            var frame := Frame(OP_MSG, None, responseTo, body);
            && Parse(max, m) == Parsed([frame], []) && Pull(max, m) == Some(frame)
            && UnpackOpMsg(frame.body) == Some(Reply(flags, EncodeDocument(fs, false).value))
            && Decoder.BsonToDict(EncodeDocument(fs, false).value) == Some(Expectation.ReadBackAll(IdFirst(fs)))
  {
    hide EncodeDocument, PackInt32, HeaderOf, FrameOf, UnpackOpMsg, Decoder.BsonToDict,
         Expectation.WellTypedAll, Expectation.PlainAll, Expectation.ReadBackAll, Sent, Le;
    var payload := EncodeDocument(fs, false).value;
    var body := ReplyBody(flags, payload);
    var m := Sent(requestId, responseTo, body);
    SentHeader(requestId, responseTo, body);
    assert m[..|m|] == m && m[|m|..] == [];
    MessagesAreParsed(max, [m]);
    OneMessage(max, m);
    DeclaresItsLength(fs);
    UnpackAcceptsIff(body, flags, payload);
    Expectation.DocumentRoundTrip(fs, false);
  }

  /** A compressed message as a server sends it (MongoDB Wire Protocol, section OP_COMPRESSED): the op
      code of the message inside, its size, the compressor, and the compressed body. */
  function SentCompressed(requestId: int, responseTo: int, opCode: int, size: int, compressor: byte,
                          payload: Bytes): (r: Bytes)
    requires IsInt32(requestId) && IsInt32(responseTo) && IsInt32(opCode) && IsInt32(size)
    requires |payload| + 25 <= MAX_INT32
    ensures |r| == |payload| + 25
  {
    PackInt32(|payload| + 25) + PackInt32(requestId) + PackInt32(responseTo) + PackInt32(2012)
    + PackInt32(opCode) + PackInt32(size) + [compressor] + payload
  }

  lemma {:induction false} CompressedHeader(requestId: int, responseTo: int, opCode: int, size: int, compressor: byte,
                                            payload: Bytes)
    requires IsInt32(requestId) && IsInt32(responseTo) && IsInt32(opCode) && IsInt32(size)
    requires |payload| + 25 <= MAX_INT32
    ensures var m := SentCompressed(requestId, responseTo, opCode, size, compressor, payload);
            && HeaderOf(m) == Header(|m|, responseTo, 2012)
            && FrameOf(m) == Frame(opCode, Some(compressor), responseTo, payload)
  {
    hide PackInt32, UnpackInt32;
    var m := SentCompressed(requestId, responseTo, opCode, size, compressor, payload);
    assert m[..4] == PackInt32(|payload| + 25) && m[8..12] == PackInt32(responseTo) && m[12..16] == PackInt32(2012);
    assert m[16..20] == PackInt32(opCode) && m[24] == compressor && m[25..] == payload;
    Int32RoundTrip(|payload| + 25);
    Int32RoundTrip(responseTo);
    Int32RoundTrip(opCode);
    Int32RoundTrip(2012);
  }

  /** A compressed message arrives as one frame with the op code and the compressor it names; the limit
      applies to it without its nine bytes of compression header. */
  lemma {:induction false} CompressedArrives(max: int, requestId: int, responseTo: int, opCode: int, size: int,
                                             compressor: byte, payload: Bytes)
    requires IsInt32(requestId) && IsInt32(responseTo) && IsInt32(opCode) && IsInt32(size) && payload != []
    requires |payload| + 25 <= MAX_INT32 && |payload| + 16 <= max
    ensures Parse(max, SentCompressed(requestId, responseTo, opCode, size, compressor, payload))
            == Parsed([Frame(opCode, Some(compressor), responseTo, payload)], [])
  {
    hide PackInt32, HeaderOf, FrameOf, SentCompressed;
    var m := SentCompressed(requestId, responseTo, opCode, size, compressor, payload);
    CompressedHeader(requestId, responseTo, opCode, size, compressor, payload);
    MessagesAreParsed(max, [m]);
    OneMessage(max, m);
  }

  lemma {:induction false} OneMessage(max: int, m: Bytes)
    requires IsMessage(max, m)
    ensures Flatten([m]) == m && FramesOf(max, [m]) == [FrameOf(m)]
  {
    hide HeaderOf, FrameOf;
    assert [m][1..] == [];
    assert m + [] == m;
  }
}
