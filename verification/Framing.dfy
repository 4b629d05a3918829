/**
 Framing of the MongoDB Wire Protocol in pymongo/network_layer.py: what a byte stream means as a
 sequence of frames, how `PyMongoProtocol` cuts it when fed chunk by chunk, and how
 `receive_message` pulls one frame from a socket.
 */
module Framing {

  import opened Bytes

  const OP_COMPRESSED := 2012
  const HEADER_SIZE := 16
  const COMPRESSED_HEADER_SIZE := 25

  /** What a reader is handed: for a compressed frame the op code and compressor come from the
      compression header, and the body is still compressed. */
  datatype Frame = Frame(opCode: int, compressor: Option<int>, responseTo: int, body: Bytes)

  datatype Header = Header(length: int, responseTo: int, opCode: int)
  {
    predicate Compressed() { opCode == OP_COMPRESSED }

    /** Bytes before the body. */
    function Prefix(): (n: nat) { if Compressed() then COMPRESSED_HEADER_SIZE else HEADER_SIZE }

    /** `process_header` accepts: the limit is compared after the compression header is taken off. */
    predicate Admitted(max: int)
    {
      if Compressed() then length > COMPRESSED_HEADER_SIZE && length - 9 <= max
      else length > HEADER_SIZE && length <= max
    }
  }

  function HeaderOf(s: Bytes): (h: Header)
    requires |s| >= HEADER_SIZE
  {
    Header(UnpackInt32(s[..4]), UnpackInt32(s[8..12]), UnpackInt32(s[12..16]))
  }

  /** The frame that the whole of `s` is. */
  function FrameOf(s: Bytes): (f: Frame)
    requires |s| >= HEADER_SIZE && |s| >= HeaderOf(s).Prefix()
  {
    var h := HeaderOf(s);
    if h.Compressed() then Frame(UnpackInt32(s[16..20]), Some(s[24]), h.responseTo, s[25..])
    else Frame(h.opCode, None, h.responseTo, s[16..])
  }

  // ---- the stream as a whole ------------------------------------------------------------

  datatype Verdict = Incomplete | Malformed | Complete(size: nat)

  function FirstFrame(max: int, s: Bytes): (v: Verdict)
    ensures v.Complete? ==>
              HEADER_SIZE < v.size <= |s| && v.size == HeaderOf(s).length && v.size >= HeaderOf(s).Prefix()
  {
    if |s| < HEADER_SIZE then Incomplete
    else
      var h := HeaderOf(s);
      if !h.Admitted(max) then Malformed
      else if |s| < h.length then Incomplete
      else Complete(h.length)
  }

  /** The frames of a stream, and what is left when no further frame is complete. */
  datatype Parsed = Parsed(frames: seq<Frame>, rest: Bytes)

  lemma {:induction false} HeaderOfPrefix(s: Bytes, n: nat)
    requires HEADER_SIZE <= n <= |s|
    ensures HeaderOf(s[..n]) == HeaderOf(s)
  {
    assert s[..n][..4] == s[..4] && s[..n][8..12] == s[8..12] && s[..n][12..16] == s[12..16];
  }

  function Parse(max: int, s: Bytes): (r: Parsed)
    ensures !FirstFrame(max, r.rest).Complete?
    decreases |s|
  {
    var v := FirstFrame(max, s);
    if v.Complete? then
      HeaderOfPrefix(s, v.size);
      var tail := Parse(max, s[v.size..]);
      Parsed([FrameOf(s[..v.size])] + tail.frames, tail.rest)
    else Parsed([], s)
  }

  predicate Broken(max: int, s: Bytes) { FirstFrame(max, Parse(max, s).rest).Malformed? }

  /** A verdict other than Incomplete does not change when more bytes follow. */
  lemma {:induction false} FirstFrameExtends(max: int, s: Bytes, more: Bytes)
    requires !FirstFrame(max, s).Incomplete?
    ensures FirstFrame(max, s + more) == FirstFrame(max, s)
    ensures FirstFrame(max, s).Complete? ==> (s + more)[..FirstFrame(max, s).size] == s[..FirstFrame(max, s).size]
  {
    HeaderOfPrefix(s + more, |s|);
    assert (s + more)[..|s|] == s;
  }

  /** Parsing can stop anywhere and go on from what was left. */
  lemma {:induction false} ParseAppends(max: int, s: Bytes, more: Bytes)
    ensures var a := Parse(max, s);
            var b := Parse(max, a.rest + more);
            Parse(max, s + more) == Parsed(a.frames + b.frames, b.rest)
    decreases |s|
  {
    hide HeaderOf, FrameOf, FirstFrame;
    var v := FirstFrame(max, s);
    if v.Complete? {
      FirstFrameExtends(max, s, more);
      assert (s + more)[v.size..] == s[v.size..] + more;
      ParseAppends(max, s[v.size..], more);
    }
  }

  /** `m` is one whole frame within the limit. */
  predicate IsMessage(max: int, m: Bytes)
  {
    |m| >= HEADER_SIZE && HeaderOf(m).length == |m| && HeaderOf(m).Admitted(max)
  }

  function FramesOf(max: int, ms: seq<Bytes>): (r: seq<Frame>)
    requires forall i :: 0 <= i < |ms| ==> IsMessage(max, ms[i])
  {
    if ms == [] then []
    else
      assert IsMessage(max, ms[0]);
      [FrameOf(ms[0])] + FramesOf(max, ms[1..])
  }

  /** A concatenation of messages parses into those messages. */
  lemma {:induction false} MessagesAreParsed(max: int, ms: seq<Bytes>)
    requires forall i :: 0 <= i < |ms| ==> IsMessage(max, ms[i])
    ensures Parse(max, Flatten(ms)) == Parsed(FramesOf(max, ms), [])
  {
    hide HeaderOf, FrameOf;
    if ms != [] {
      assert FirstFrame(max, ms[0]) == Complete(|ms[0]|);
      FirstFrameExtends(max, ms[0], Flatten(ms[1..]));
      MessagesAreParsed(max, ms[1..]);
      assert (ms[0] + Flatten(ms[1..]))[|ms[0]|..] == Flatten(ms[1..]);
    }
  }

  // ---- chunk by chunk -------------------------------------------------------------------

  /** A partly received frame whose header, if complete, has been accepted. */
  predicate Partial(cur: Bytes)
  {
    |cur| >= HEADER_SIZE ==> |cur| < HeaderOf(cur).length && HeaderOf(cur).Prefix() < HeaderOf(cur).length
  }

  /** The length of the buffer that `get_buffer` returns. */
  function Space(cur: Bytes): (n: nat)
    requires Partial(cur)
    ensures n > 0
  {
    if |cur| < HEADER_SIZE then HEADER_SIZE - |cur|
    else if |cur| < HeaderOf(cur).Prefix() then HeaderOf(cur).Prefix() - |cur|
    else HeaderOf(cur).length - |cur|
  }

  datatype Event = More | Refused | Arrived(frame: Frame)

  /** What the arrival of `chunk` amounts to. */
  function Absorb(max: int, cur: Bytes, chunk: Bytes): (e: Event)
    requires Partial(cur) && |chunk| <= Space(cur)
  {
    var c := cur + chunk;
    if |c| < HEADER_SIZE then More
    else if |cur| < HEADER_SIZE then
      if HeaderOf(c).Admitted(max) then More else Refused
    else if |c| < HeaderOf(cur).length then More
    else
      HeaderOfPrefix(c, |cur|);
      assert c[..|cur|] == cur;
      Arrived(FrameOf(c))
  }

  lemma {:induction false} AbsorbIsPartial(max: int, cur: Bytes, chunk: Bytes)
    requires Partial(cur) && |chunk| <= Space(cur) && Absorb(max, cur, chunk).More?
    ensures Partial(cur + chunk)
    ensures |cur| >= HEADER_SIZE ==> HeaderOf(cur + chunk) == HeaderOf(cur)
  {
    var c := cur + chunk;
    assert c[..|cur|] == cur;
    if |cur| >= HEADER_SIZE {
      HeaderOfPrefix(c, |cur|);
    }
  }

  /** The state of the incremental reader: frames delivered, the current partial frame, failed. */
  datatype Reader = Reader(frames: seq<Frame>, cur: Bytes, failed: bool)

  function Feed(max: int, r: Reader, chunk: Bytes): (r': Reader)
    requires r.failed || (Partial(r.cur) && |chunk| <= Space(r.cur))
    ensures r'.failed || Partial(r'.cur)
  {
    if r.failed then r
    else match Absorb(max, r.cur, chunk)
      case More => AbsorbIsPartial(max, r.cur, chunk); r.(cur := r.cur + chunk)
      case Refused => r.(cur := r.cur + chunk, failed := true)
      case Arrived(frame) => r.(frames := r.frames + [frame], cur := [])
  }

  lemma {:induction false} FeedTells(max: int, r: Reader, chunk: Bytes)
    requires !r.failed && Partial(r.cur) && |chunk| <= Space(r.cur)
    ensures var r' := Feed(max, r, chunk);
            match Absorb(max, r.cur, chunk)
            case More => !r'.failed && r'.cur == r.cur + chunk
            case Refused => r'.failed
            case Arrived(frame) => !r'.failed && r'.cur == []
  {
    hide Absorb;
  }

  /** Each chunk is non-empty and fits the buffer it is put into. */
  predicate Fits(max: int, r: Reader, chunks: seq<Bytes>)
    requires r.failed || Partial(r.cur)
    decreases |chunks|
  {
    chunks == [] || r.failed
    || (0 < |chunks[0]| <= Space(r.cur) && Fits(max, Feed(max, r, chunks[0]), chunks[1..]))
  }

  function FeedAll(max: int, r: Reader, chunks: seq<Bytes>): (r': Reader)
    requires (r.failed || Partial(r.cur)) && Fits(max, r, chunks)
    decreases |chunks|
  {
    if chunks == [] || r.failed then r else FeedAll(max, Feed(max, r, chunks[0]), chunks[1..])
  }

  /** The reader has seen the stream `s`, apart from what follows a refused header. */
  ghost predicate Agrees(max: int, r: Reader, s: Bytes)
  {
    && r.frames == Parse(max, s).frames
    && r.failed == Broken(max, s)
    && (!r.failed ==> Partial(r.cur) && r.cur == Parse(max, s).rest)
  }

  /** A reader in the middle of a frame has seen that much of a stream. */
  lemma {:induction false} PartialAgrees(max: int, cur: Bytes)
    requires Partial(cur) && FirstFrame(max, cur).Incomplete?
    ensures Agrees(max, Reader([], cur, false), cur)
  {
  }

  lemma {:induction false} AbsorbMeans(max: int, cur: Bytes, chunk: Bytes)
    requires Partial(cur) && FirstFrame(max, cur).Incomplete? && |chunk| <= Space(cur)
    ensures var c := cur + chunk;
            match Absorb(max, cur, chunk)
            case More => FirstFrame(max, c).Incomplete?
            case Refused => FirstFrame(max, c).Malformed?
            case Arrived(frame) => FirstFrame(max, c) == Complete(|c|) && frame == FrameOf(c)
  {
    var c := cur + chunk;
    assert c[..|cur|] == cur;
    if |cur| >= HEADER_SIZE {
      HeaderOfPrefix(c, |cur|);
    }
  }

  lemma {:induction false} FeedAgrees(max: int, r: Reader, s: Bytes, chunk: Bytes)
    requires Agrees(max, r, s)
    requires r.failed || |chunk| <= Space(r.cur)
    ensures Agrees(max, Feed(max, r, chunk), s + chunk)
  {
    ParseAppends(max, s, chunk);
    var rest := Parse(max, s).rest;
    if r.failed {
      FirstFrameExtends(max, rest, chunk);
    } else {
      AbsorbMeans(max, r.cur, chunk);
      var c := rest + chunk;
      if FirstFrame(max, c).Complete? {
        assert c[..|c|] == c && c[|c|..] == [];
      }
    }
  }

  /** Chunk independence: however a stream is cut, the reader delivers the frames of the whole
      stream, fails exactly when the stream has a refused header, and otherwise holds the rest. */
  lemma {:induction false} ChunkingDoesNotMatter(max: int, r: Reader, s: Bytes, chunks: seq<Bytes>)
    requires Agrees(max, r, s) && Fits(max, r, chunks)
    ensures Agrees(max, FeedAll(max, r, chunks), s + Flatten(chunks))
    decreases |chunks|
  {
    hide Parse, HeaderOf, Absorb, FirstFrame;
    if chunks == [] {
      assert s + Flatten(chunks) == s;
    } else if r.failed {
      FeedAgrees(max, r, s, Flatten(chunks));
    } else {
      FeedAgrees(max, r, s, chunks[0]);
      ChunkingDoesNotMatter(max, Feed(max, r, chunks[0]), s + chunks[0], chunks[1..]);
      assert s + chunks[0] + Flatten(chunks[1..]) == s + Flatten(chunks);
    }
  }

  lemma {:induction false} SameStreamSameFrames(max: int, a: seq<Bytes>, b: seq<Bytes>)
    requires var r := Reader([], [], false); Fits(max, r, a) && Fits(max, r, b)
    requires Flatten(a) == Flatten(b)
    ensures var r := Reader([], [], false);
            FeedAll(max, r, a).frames == FeedAll(max, r, b).frames
            && FeedAll(max, r, a).failed == FeedAll(max, r, b).failed
  {
    var r := Reader([], [], false);
    assert [] + Flatten(a) == Flatten(a);
    ChunkingDoesNotMatter(max, r, [], a);
    ChunkingDoesNotMatter(max, r, [], b);
  }

  // ---- pulling one frame ----------------------------------------------------------------

  /** `receive_message` up to decompression, on a socket that will deliver `s` and then close. */
  function Pull(max: int, s: Bytes): (r: Option<Frame>)
  {
    if |s| < HEADER_SIZE then None
    else
      var h := HeaderOf(s);
      if h.length <= HEADER_SIZE || h.length > max then None
      else if h.length < h.Prefix() || |s| < h.length then None
      else
        HeaderOfPrefix(s, h.length);
        Some(FrameOf(s[..h.length]))
  }

  /** The frames that both readers accept. */
  predicate LegalForBoth(max: int, h: Header) { h.Prefix() < h.length <= max }

  /** The readers differ on a compressed frame with an empty body, which only the pulling one takes,
      and on a compressed frame whose length exceeds the limit by at most nine, which only the
      incremental one takes. */
  predicate Disputed(max: int, h: Header)
  {
    h.Compressed() && ((h.length == COMPRESSED_HEADER_SIZE && h.length <= max)
                       || (max < h.length <= max + 9 && h.length > COMPRESSED_HEADER_SIZE))
  }

  /** On a complete frame both readers accept exactly what is legal for both, and then agree on
      every part of it; they disagree exactly on the disputed headers. */
  lemma {:induction false} PullMeetsParse(max: int, s: Bytes)
    requires |s| >= HEADER_SIZE && |s| >= HeaderOf(s).length
    ensures var h := HeaderOf(s);
            && (Pull(max, s).Some? && FirstFrame(max, s).Complete? <==> LegalForBoth(max, h))
            && (LegalForBoth(max, h) ==> Parse(max, s).frames != [] && Pull(max, s) == Some(Parse(max, s).frames[0]))
            && (Pull(max, s).Some? != FirstFrame(max, s).Complete? <==> Disputed(max, h))
  {
  }

  /** `receive_message` again and again, until one of the calls raises. */
  function PullAll(max: int, s: Bytes): (r: seq<Frame>)
    decreases |s|
  {
    if Pull(max, s).None? then [] else [Pull(max, s).value] + PullAll(max, s[HeaderOf(s).length..])
  }

  /** No frame of the stream has a disputed header. */
  ghost predicate Undisputed(max: int, s: Bytes)
    decreases |s|
  {
    && (|s| >= HEADER_SIZE && |s| >= HeaderOf(s).length ==> !Disputed(max, HeaderOf(s)))
    && (FirstFrame(max, s).Complete? ==> Undisputed(max, s[FirstFrame(max, s).size..]))
  }

  /** On such a stream, broken or not, both readers deliver the same frames. */
  lemma {:induction false} PullAllMeetsParse(max: int, s: Bytes)
    requires Undisputed(max, s)
    ensures PullAll(max, s) == Parse(max, s).frames
    decreases |s|
  {
    hide HeaderOf, FrameOf;
    if |s| >= HEADER_SIZE && |s| >= HeaderOf(s).length {
      PullMeetsParse(max, s);
    }
    if FirstFrame(max, s).Complete? {
      PullAllMeetsParse(max, s[FirstFrame(max, s).size..]);
    }
  }

  /** `recv_into`: received bytes land behind the part that is filled. */
  method RecvInto(buf: array<byte>, at: nat, bytes: Bytes)
    requires at + |bytes| <= buf.Length
    modifies buf
    ensures buf[..at + |bytes|] == old(buf[..at]) + bytes
  {
    forall i | 0 <= i < |bytes| {
      buf[at + i] := bytes[i];
    }
    assert buf[..at] == old(buf[..at]) && buf[at..at + |bytes|] == bytes;
    assert buf[..at + |bytes|] == buf[..at] + buf[at..at + |bytes|];
  }

  /** `receive_data`: fills a buffer from reads whose sizes the network chooses; a read of nothing
      means that the peer closed. */
  method ReceiveData(s: Bytes, start: nat, length: int, sizes: seq<nat>) returns (data: Option<Bytes>, next: nat)
    requires start <= |s|
    ensures data.Some? ==> length >= 0 && start + length <= |s| && data.value == s[start..start + length]
    ensures data.Some? ==> next == start + length
    ensures length >= 0 && start + length <= |s| ==> data.Some?
  {
    next := start;
    if length < 0 {
      return None, next;
    }
    var buf := new byte[length];
    var bytesRead := 0;
    var turn := 0;
    while bytesRead < length
      invariant 0 <= bytesRead <= length && next == start + bytesRead <= |s|
      invariant buf[..bytesRead] == s[start..next]
    {
      var hint := if turn < |sizes| && sizes[turn] > 0 then sizes[turn] else length;
      var room := if hint < length - bytesRead then hint else length - bytesRead;
      var chunk := if room < |s| - next then room else |s| - next;
      turn := turn + 1;
      if chunk == 0 {
        return None, next;
      }
      RecvInto(buf, bytesRead, s[next..next + chunk]);
      assert s[start..next] + s[next..next + chunk] == s[start..next + chunk];
      bytesRead, next := bytesRead + chunk, next + chunk;
    }
    return Some(buf[..]), next;
  }

  /** `receive_message` up to decompression and the reply's own format. */
  method ReceiveMessage(s: Bytes, request: Option<int>, max: int, sizes: seq<nat>) returns (r: Option<Frame>)
    ensures r == var p := Pull(max, s);
                 if p.Some? && request.Some? && request.value != p.value.responseTo then None else p
  {
    hide UnpackInt32;
    var header, at := ReceiveData(s, 0, 16, sizes);
    if header.None? {
      return None;
    }
    assert header.value == s[..16];
    HeaderOfPrefix(s, 16);
    var h := HeaderOf(header.value);
    if 16 <= h.length <= |s| {
      HeaderOfPrefix(s, h.length);
    }
    if request.Some? && request.value != h.responseTo {
      return None;
    }
    if h.length <= 16 || h.length > max {
      return None;
    }
    if h.opCode == OP_COMPRESSED {
      var second, from := ReceiveData(s, at, 9, sizes);
      if second.None? {
        return None;
      }
      var data, _ := ReceiveData(s, from, h.length - 25, sizes);
      if data.None? {
        return None;
      }
      assert second.value[..4] == s[16..20] && second.value[8] == s[24];
      assert s[..h.length][16..20] == s[16..20] && s[..h.length][25..] == s[25..h.length];
      return Some(Frame(UnpackInt32(second.value[..4]), Some(second.value[8]), h.responseTo, data.value));
    }
    var data, _ := ReceiveData(s, at, h.length - 16, sizes);
    if data.None? {
      return None;
    }
    assert s[..h.length][16..] == s[16..h.length];
    return Some(Frame(h.opCode, None, h.responseTo, data.value));
  }
}
