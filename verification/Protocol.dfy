/**
 The object `PyMongoProtocol` of pymongo/network_layer.py: its buffers and indices proved against
 the framing of Framing, its futures and queues against the steps of ReadMatching.
 */
module Protocol {

  import opened Bytes
  import opened Framing
  import R = ReadMatching

  const DRAIN_SIZE := 16384

  // ---- a stream and the reads it answers ------------------------------------------------

  /** The queues after what the reader has seen: its frames delivered, and a refusal closing them. */
  ghost function Outcome(was: R.State, r: Reader): (s: R.State)
    requires R.InRange(was)
  {
    var after := R.Deliver(was, r.frames);
    if !after.lost && r.failed then R.Close(after, R.Failed) else after
  }

  /** What one chunk does to the queues. */
  ghost predicate Steps(before: R.State, max: int, cur: Bytes, chunk: Bytes, after: R.State)
    requires R.InRange(before) && Partial(cur) && |chunk| <= Space(cur)
  {
    match Absorb(max, cur, chunk)
    case More => after == before
    case Refused => after == R.Close(before, R.Failed)
    case Arrived(frame) => after == R.Arrive(before, frame)
  }

  lemma {:induction false} OutcomeSteps(was: R.State, r: Reader, max: int, chunk: Bytes, after: R.State)
    requires R.InRange(was) && !r.failed && Partial(r.cur) && |chunk| <= Space(r.cur)
    requires !Outcome(was, r).lost && R.InRange(Outcome(was, r)) && Steps(Outcome(was, r), max, r.cur, chunk, after)
    ensures after == Outcome(was, Feed(max, r, chunk))
  {
    hide Absorb, R.Arrive, R.Resolve, R.InRange;
    match Absorb(max, r.cur, chunk)
    case More =>
    case Refused =>
    case Arrived(frame) =>
      R.DeliverAppends(was, r.frames, [frame]);
      R.DeliverOne(Outcome(was, r), frame);
  }

  /** Once the stream is read or the connection lost, the rest of the stream makes no difference. */
  lemma {:induction false} OutcomeIsFinal(was: R.State, r: Reader, max: int, seen: Bytes, more: Bytes)
    requires R.InRange(was) && Agrees(max, r, seen) && (more == [] || Outcome(was, r).lost)
    ensures var after := R.Deliver(was, Parse(max, seen + more).frames);
            && Outcome(was, r) == (if !after.lost && Broken(max, seen + more) then R.Close(after, R.Failed) else after)
            && (!Outcome(was, r).lost ==> r.cur == Parse(max, seen + more).rest)
  {
    hide Parse, Broken, R.Arrive, R.Resolve, R.InRange, R.Deliver;
    if more == [] {
      assert seen + more == seen;
    } else if r.failed {
      FeedAgrees(max, r, seen, more);
    } else {
      ParseAppends(max, seen, more);
      var frames := Parse(max, Parse(max, seen).rest + more).frames;
      R.DeliverAppends(was, r.frames, frames);
      R.LostTakesNone(Outcome(was, r), frames);
    }
  }

  lemma {:induction false} OutcomeAtFirst(was: R.State, r: Reader)
    requires R.InRange(was) && r.frames == [] && !r.failed
    ensures Outcome(was, r) == was
  {
  }

  class PyMongoProtocol {
    const header: array<byte>
    const compressionHeader: array<byte>
    var headerIndex: nat
    var compressionIndex: nat
    var message: array?<byte>
    var messageIndex: nat
    var expectingHeader: bool
    var expectingCompression: bool
    var messageSize: nat
    var opCode: int
    var connectionLost: bool
    var compressorId: Option<int>
    var maxMessageSize: int
    var responseTo: int
    var futs: seq<R.Future>
    var pendingMessages: seq<nat>
    var doneMessages: seq<nat>
    var task: R.Task
    var closing: bool
    ghost var outcomes: seq<R.Outcome>
    ghost var frames: seq<Frame>
    /** What each read asked for, and which of them were cancelled. */
    ghost var requests: seq<Option<int>>
    ghost var cancelled: set<nat>
    /** The bytes of the current frame received so far. */
    ghost var cur: Bytes

    ghost function View(): (s: R.State)
      reads this
    {
      R.State(futs, pendingMessages, doneMessages, task, outcomes, frames, closing, connectionLost,
              requests, cancelled)
    }

    /** The buffers hold exactly the current partial frame. */
    ghost predicate Holding()
      reads this, header, compressionHeader, message
      requires header.Length == 16 && compressionHeader.Length == 9
    {
      && Partial(cur)
      && (if expectingHeader then
            && |cur| < 16 && headerIndex == |cur| && header[..headerIndex] == cur
            && compressionIndex == 0 && messageIndex == 0 && compressorId == None && !expectingCompression
          else
            && |cur| >= 16 && header[..] == cur[..16]
            && message != null && message.Length == messageSize
            && var h := HeaderOf(cur);
            && messageSize == h.length - h.Prefix() && responseTo == h.responseTo
            && (if expectingCompression then
                  && h.Compressed() && |cur| < 25 && compressorId == None
                  && compressionIndex == |cur| - 16 && compressionHeader[..compressionIndex] == cur[16..]
                  && messageIndex == 0
                else
                  && |cur| >= h.Prefix()
                  && messageIndex == |cur| - h.Prefix() && message[..messageIndex] == cur[h.Prefix()..]
                  && opCode == FrameOf(cur).opCode && compressorId == FrameOf(cur).compressor))
    }

    ghost predicate Shape()
      reads this
    {
      && header.Length == 16 && compressionHeader.Length == 9
      && header != compressionHeader && message != header && message != compressionHeader
      && R.InRange(View())
    }

    ghost predicate Valid()
      reads this, header, compressionHeader, message
    {
      Shape() && (!connectionLost ==> Holding())
    }

    constructor (max: int)
      ensures Valid() && View() == R.INITIAL && cur == [] && maxMessageSize == max
      ensures fresh(header) && fresh(compressionHeader) && message == null
    {
      header := new byte[16];
      compressionHeader := new byte[9];
      headerIndex, compressionIndex, message, messageIndex := 0, 0, null, 0;
      expectingHeader, expectingCompression, messageSize, opCode := true, false, 0, 0;
      connectionLost, compressorId, maxMessageSize, responseTo := false, None, max, 0;
      futs, pendingMessages, doneMessages, task, closing := [], [], [], R.Idle, false;
      outcomes, frames, requests, cancelled, cur := [], [], [], {}, [];
    }

    // ---- buffers ------------------------------------------------------------------------

    /** `get_buffer`: never empty, and exactly as long as the part of the frame being read. */
    method GetBuffer() returns (buf: array<byte>, at: nat)
      requires Valid()
      modifies this`message
      ensures Valid() && at < buf.Length
      ensures message == old(message) || (connectionLost && fresh(message))
      ensures buf == header || buf == compressionHeader || buf == message
      ensures !connectionLost ==> buf.Length - at == Space(cur) && Target(buf, at)
    {
      if connectionLost {
        if message == null || message.Length == 0 {
          message := new byte[DRAIN_SIZE];
        }
        return message, 0;
      }
      if expectingHeader {
        return header, headerIndex;
      }
      if expectingCompression {
        return compressionHeader, compressionIndex;
      }
      return message, messageIndex;
    }

    /** Where the next bytes go. */
    ghost predicate Target(buf: array<byte>, at: nat)
      reads this
    {
      if expectingHeader then buf == header && at == headerIndex
      else if expectingCompression then buf == compressionHeader && at == compressionIndex
      else buf == message && at == messageIndex
    }

    /** The event loop has put `chunk` into the buffer. */
    ghost predicate Filled(chunk: Bytes)
      reads this, header, compressionHeader, message
      requires Valid() && !connectionLost
    {
      && |chunk| <= Space(cur)
      && (if expectingHeader then header[headerIndex..headerIndex + |chunk|] == chunk
          else if expectingCompression then compressionHeader[compressionIndex..compressionIndex + |chunk|] == chunk
          else message[messageIndex..messageIndex + |chunk|] == chunk)
    }

    // ---- queues -------------------------------------------------------------------------

    /** `_resolve_pending_messages`. */
    method ResolvePendingMessages(value: R.Future)
      requires R.InRange(View())
      modifies this`futs, this`doneMessages
      ensures View() == R.Resolve(old(View()), value)
    {
      var i := 0;
      while i < |pendingMessages|
        invariant 0 <= i <= |pendingMessages| && |futs| == |old(futs)|
        invariant doneMessages == old(doneMessages) + pendingMessages[..i]
        invariant forall k :: 0 <= k < |futs| ==>
                    futs[k] == if k in pendingMessages[..i] && old(futs)[k].Waiting? then value else old(futs)[k]
      {
        var msg := pendingMessages[i];
        assert pendingMessages[..i + 1] == pendingMessages[..i] + [msg];
        if futs[msg].Waiting? {
          futs := futs[msg := value];
        }
        doneMessages := doneMessages + [msg];
        i := i + 1;
      }
      assert pendingMessages[..i] == pendingMessages;
    }

    /** `close`. */
    method Close(value: R.Future)
      requires R.InRange(View())
      modifies this`futs, this`doneMessages, this`closing, this`connectionLost
      ensures View() == R.Close(old(View()), value) && R.InRange(View())
    {
      closing := true;
      ResolvePendingMessages(value);
      connectionLost := true;
    }

    /** `connection_lost`. */
    method ConnectionLost(value: R.Future)
      requires R.InRange(View())
      modifies this`futs, this`doneMessages, this`closing
      ensures View() == R.Resolve(old(View()), value).(closing := true)
    {
      closing := true;
      ResolvePendingMessages(value);
    }

    /** `read` up to its await. */
    method Read(request: Option<int>, max: int) returns (outcome: Option<R.Outcome>)
      requires R.InRange(View()) && task.Idle?
      modifies this`maxMessageSize, this`futs, this`pendingMessages, this`doneMessages, this`task
      modifies this`outcomes, this`requests
      ensures View() == R.StartRead(old(View()), request) && maxMessageSize == max
      ensures outcome.None? <==> task.Awaiting?
      ensures outcome.Some? ==> outcomes == old(outcomes) + [outcome.value]
      ensures outcome.Some? && outcome.value.Returned? ==> R.Ending(outcome.value.frame, request) == outcome.value
    {
      maxMessageSize := max;
      requests := requests + [request];
      if doneMessages != [] {
        var fut := doneMessages[0];
        doneMessages := doneMessages[1..];
        outcome := Some(R.Settle(futs[fut], request));
        outcomes := outcomes + [outcome.value];
      } else if closing {
        outcome := Some(R.Raised);
        outcomes := outcomes + [R.Raised];
      } else {
        var waiter := |futs|;
        futs := futs + [R.Waiting];
        pendingMessages := pendingMessages + [waiter];
        task := R.Awaiting(waiter, request, false);
        outcome := None;
      }
    }

    /** `read` after its await. */
    method ContinueRead() returns (outcome: R.Outcome)
      requires R.InRange(View()) && task.Awaiting? && !futs[task.fut].Waiting?
      modifies this`doneMessages, this`task, this`outcomes
      ensures View() == R.ResumeRead(old(View()))
      ensures outcomes == old(outcomes) + [outcome]
      ensures outcome.Returned? ==>
                !old(task).cancelRequested && R.Ending(outcome.frame, old(task).request) == outcome
    {
      doneMessages := R.WithoutFirst(doneMessages, task.fut);
      outcome := if task.cancelRequested then R.Raised else R.Settle(futs[task.fut], task.request);
      outcomes := outcomes + [outcome];
      task := R.Idle;
    }

    // ---- data ---------------------------------------------------------------------------

    /** `process_header`; None stands for the ProtocolError. */
    method ProcessHeader() returns (r: Option<(nat, int, int, bool)>)
      requires header.Length == 16
      ensures var h := HeaderOf(header[..]);
              r == if h.Admitted(maxMessageSize) then Some((h.length - h.Prefix(), h.opCode, h.responseTo,
                                                            h.Compressed()))
                   else None
    {
      var h := HeaderOf(header[..]);
      var length := h.length;
      var expecting := false;
      if h.opCode == OP_COMPRESSED {
        if length <= 25 {
          return None;
        }
        expecting := true;
        length := length - 9;
      }
      if length <= 16 || length > maxMessageSize {
        return None;
      }
      return Some((length - 16, h.opCode, h.responseTo, expecting));
    }

    /** Gives a finished frame to the first pending read, or keeps it for the next one. */
    method Deliver(frame: Frame)
      requires R.InRange(View())
      modifies this`frames, this`pendingMessages, this`doneMessages, this`futs, this`closing, this`connectionLost
      ensures View() == R.Arrive(old(View()), frame) && R.InRange(View())
    {
      frames := frames + [frame];
      var result;
      if pendingMessages != [] {
        result := pendingMessages[0];
        pendingMessages := pendingMessages[1..];
      } else {
        result := |futs|;
        futs := futs + [R.Waiting];
      }
      if !futs[result].Waiting? {
        Close(R.Nothing);
        return;
      }
      futs := futs[result := R.Message(frame)];
      doneMessages := doneMessages + [result];
    }

    /** The end of `buffer_updated`, once the body is complete. */
    method FinishMessage()
      requires Shape() && !connectionLost && !expectingCompression && message != null
      modifies this
      ensures View() == R.Arrive(old(View()), Frame(old(opCode), old(compressorId), old(responseTo), old(message[..])))
      ensures Valid() && (!connectionLost ==> cur == [])
      ensures message == null || message == old(message)
      ensures maxMessageSize == old(maxMessageSize)
    {
      hide R.Arrive, R.Close, R.Resolve, HeaderOf, FrameOf, Partial, R.InRange;
      ghost var frame := Frame(opCode, compressorId, responseTo, message[..]);
      expectingHeader := true;
      Deliver(Frame(opCode, compressorId, responseTo, message[..]));
      assert View() == R.Arrive(old(View()), frame);
      if !connectionLost {
        Reset();
        assert View() == R.Arrive(old(View()), frame);
      }
    }

    /** Ready for the next message. */
    method Reset()
      requires header.Length == 16 && compressionHeader.Length == 9 && expectingHeader && !expectingCompression
      modifies this`headerIndex, this`compressionIndex, this`messageIndex, this`messageSize
      modifies this`message, this`opCode, this`compressorId, this`responseTo, this`cur
      ensures Holding() && cur == [] && message == null
    {
      headerIndex, compressionIndex, messageIndex, messageSize := 0, 0, 0, 0;
      message, opCode, compressorId, responseTo := null, 0, None, 0;
      cur := [];
    }

    /** What `buffer_updated` makes of `nbytes` more bytes. */
    ghost predicate Updated(before: R.State, was: Bytes, max: int, chunk: Bytes)
      reads this
      requires R.InRange(before)
      requires before.lost || (Partial(was) && |chunk| <= Space(was))
    {
      if chunk == [] then View() == R.Close(before, R.Failed)
      else if before.lost then View() == before
      else match Absorb(max, was, chunk)
        case More => View() == before && cur == was + chunk
        case Refused => View() == R.Close(before, R.Failed)
        case Arrived(frame) => View() == R.Arrive(before, frame) && (!connectionLost ==> cur == [])
    }

    /** Makes room for the body of an accepted header. */
    method StartBody(size: nat, op: int, response: int, compressed: bool)
      requires header.Length == 16 && compressionHeader.Length == 9 && header[..] == cur
      requires var h := HeaderOf(cur);
               h.Prefix() < h.length && size == h.length - h.Prefix() && op == h.opCode && response == h.responseTo
               && compressed == h.Compressed()
      requires !expectingHeader && compressionIndex == 0 && messageIndex == 0 && compressorId == None
      modifies this`messageSize, this`opCode, this`responseTo, this`expectingCompression, this`message
      ensures fresh(message) && Holding()
    {
      hide UnpackInt32;
      messageSize, opCode, responseTo, expectingCompression := size, op, response, compressed;
      message := new byte[messageSize];
      assert cur[..16] == cur && cur[16..] == [];
    }

    /** The sixteenth byte of a header is there. */
    method FinishHeader()
      requires Shape() && !connectionLost && !expectingCompression && header[..] == cur
      requires compressionIndex == 0 && messageIndex == 0 && compressorId == None
      modifies this`expectingHeader, this`messageSize, this`opCode, this`responseTo, this`expectingCompression
      modifies this`message, this`futs, this`doneMessages, this`closing, this`connectionLost
      ensures Shape() && (message == old(message) || fresh(message))
      ensures if HeaderOf(cur).Admitted(maxMessageSize) then Holding() && View() == old(View())
              else View() == R.Close(old(View()), R.Failed)
    {
      hide HeaderOf, R.Close, R.Resolve, R.InRange, Holding;
      expectingHeader := false;
      var processed := ProcessHeader();
      if processed.None? {
        Close(R.Failed);
      } else {
        StartBody(processed.value.0, processed.value.1, processed.value.2, processed.value.3);
      }
    }

    method UpdateHeader(nbytes: nat, ghost chunk: Bytes)
      requires Valid() && !connectionLost && expectingHeader && |chunk| == nbytes > 0 && Filled(chunk)
      modifies this
      ensures Valid() && Updated(old(View()), old(cur), maxMessageSize, chunk)
      ensures maxMessageSize == old(maxMessageSize)
      ensures message == old(message) || fresh(message)
    {
      hide HeaderOf, FrameOf, R.Resolve;
      headerIndex := headerIndex + nbytes;
      cur := cur + chunk;
      assert header[..headerIndex] == cur;
      if headerIndex >= 16 {
        assert header[..] == cur;
        FinishHeader();
      }
    }

    method UpdateCompression(nbytes: nat, ghost chunk: Bytes)
      requires Valid() && !connectionLost && !expectingHeader && expectingCompression
      requires |chunk| == nbytes > 0 && Filled(chunk)
      modifies this
      ensures Valid() && Updated(old(View()), old(cur), maxMessageSize, chunk)
      ensures maxMessageSize == old(maxMessageSize) && message == old(message)
    {
      AbsorbIsPartial(maxMessageSize, cur, chunk);
      compressionIndex := compressionIndex + nbytes;
      cur := cur + chunk;
      assert cur[..16] == old(cur)[..16];
      assert compressionHeader[..compressionIndex] == cur[16..];
      if compressionIndex >= 9 {
        expectingCompression := false;
        opCode := UnpackInt32(compressionHeader[..4]);
        compressorId := Some(compressionHeader[8]);
        assert compressionHeader[..4] == cur[16..20] && compressionHeader[8] == cur[24];
      }
    }

    method UpdateMessage(nbytes: nat, ghost chunk: Bytes)
      requires Valid() && !connectionLost && !expectingHeader && !expectingCompression
      requires |chunk| == nbytes > 0 && Filled(chunk)
      modifies this
      ensures Valid() && Updated(old(View()), old(cur), maxMessageSize, chunk)
      ensures maxMessageSize == old(maxMessageSize) && (message == null || message == old(message))
    {
      hide UnpackInt32, R.Arrive;
      messageIndex := messageIndex + nbytes;
      ghost var c := cur + chunk;
      assert c[..|cur|] == cur;
      HeaderOfPrefix(c, |cur|);
      ghost var from := HeaderOf(c).Prefix();
      assert c[from..] == cur[from..] + chunk;
      assert message[..messageIndex] == c[from..];
      assert HeaderOf(c).Compressed() ==> c[16..20] == cur[16..20] && c[24] == cur[24];
      if messageIndex >= messageSize {
        assert message[..] == message[..messageIndex];
        FinishMessage();
      } else {
        cur := c;
        assert c[..16] == old(cur)[..16];
      }
    }

    /** `buffer_updated`. */
    method BufferUpdated(nbytes: nat, ghost chunk: Bytes)
      requires Valid() && |chunk| == nbytes && (!connectionLost ==> Filled(chunk))
      modifies this
      ensures Valid() && Updated(old(View()), old(cur), maxMessageSize, chunk)
      ensures maxMessageSize == old(maxMessageSize)
      ensures message == null || message == old(message) || fresh(message)
    {
      if nbytes == 0 {
        Close(R.Failed);
        return;
      }
      if connectionLost {
        return;
      }
      if expectingHeader {
        UpdateHeader(nbytes, chunk);
      } else if expectingCompression {
        UpdateCompression(nbytes, chunk);
      } else {
        UpdateMessage(nbytes, chunk);
      }
    }

    lemma {:induction false} HoldsPartial()
      requires Valid() && !connectionLost
      ensures Partial(cur)
    {
    }

    // ---- the event loop -----------------------------------------------------------------

    /** The transport writes received bytes into the buffer it was given. */
    method Fill(buf: array<byte>, at: nat, chunk: Bytes)
      requires Valid() && !connectionLost && Target(buf, at) && |chunk| <= Space(cur) && at + |chunk| <= buf.Length
      modifies buf
      ensures Valid() && Filled(chunk)
    {
      hide UnpackInt32, R.InRange, FrameOf;
      forall i | 0 <= i < |chunk| {
        buf[at + i] := chunk[i];
      }
      assert buf[..at] == old(buf[..at]);
      assert buf[at..at + |chunk|] == chunk;
    }

    /** A whole stream, cut by the event loop wherever `hints` say and the buffers allow.  Its frames,
        with what was left of an earlier frame, go to the reads one after another, as `Deliver` says,
        until one of them meets a cancelled read; a header that is refused closes the connection. */
    method ReceiveStream(data: Bytes, hints: seq<nat>)
      requires Valid() && !connectionLost && FirstFrame(maxMessageSize, cur).Incomplete?
      modifies this, header, compressionHeader, message
      ensures Valid() && maxMessageSize == old(maxMessageSize)
      ensures var stream := old(cur) + data;
              var after := R.Deliver(old(View()), Parse(maxMessageSize, stream).frames);
              && View() == (if !after.lost && Broken(maxMessageSize, stream) then R.Close(after, R.Failed) else after)
              && (!connectionLost ==> cur == Parse(maxMessageSize, stream).rest)
    {
      hide Holding, HeaderOf, FrameOf, R.Resolve, R.InRange, R.Arrive, R.Deliver, Parse, FirstFrame, Absorb,
           Filled, Feed, Broken, Outcome;
      var at := 0;
      var turn := 0;
      ghost var r := Reader([], cur, false);
      ghost var was, head := View(), cur;
      HoldsPartial();
      PartialAgrees(maxMessageSize, cur);
      assert View() == Outcome(was, r) by {
        OutcomeAtFirst(was, r);
      }
      assert head + data[..0] == head;
      while at < |data| && !connectionLost
        invariant at <= |data| && Valid() && maxMessageSize == old(maxMessageSize)
        invariant Agrees(maxMessageSize, r, head + data[..at])
        invariant View() == Outcome(was, r)
        invariant !connectionLost ==> !r.failed && cur == r.cur
        invariant message == null || message == old(message) || fresh(message)
        decreases |data| - at
      {
        HoldsPartial();
        var buf, from := GetBuffer();
        var space := buf.Length - from;
        var hint := if turn < |hints| && hints[turn] > 0 then hints[turn] else space;
        var room := if hint < space then hint else space;
        var n := if room < |data| - at then room else |data| - at;
        var chunk := data[at..at + n];
        FeedAgrees(maxMessageSize, r, head + data[..at], chunk);
        assert head + data[..at] + chunk == head + data[..at + n];
        ghost var before := View();
        Fill(buf, from, chunk);
        BufferUpdated(n, chunk);
        OutcomeSteps(was, r, maxMessageSize, chunk, View());
        FeedTells(maxMessageSize, r, chunk);
        r := Feed(maxMessageSize, r, chunk);
        at, turn := at + n, turn + 1;
      }
      OutcomeIsFinal(was, r, maxMessageSize, head + data[..at], data[at..]);
      assert head + data[..at] + data[at..] == head + data;
    }
  }
}
