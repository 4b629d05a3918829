/**
 The client-level bulk write: pymongo/_client_bulk_shared.py merges the replies of its batches,
 each called with the number of operations sent before it.
 */
module ClientMerge {
  import opened Bytes
  import opened Bson

  /** An operation's type and its document. */
  datatype Op = Op(kind: Bytes, doc: Fields)

  datatype ServerError = ServerError(idx: int, code: int, message: Bytes)

  /** Counters missing from a reply are 0. */
  datatype Counts = Counts(inserted: int, deleted: int, matched: int, modified: int, upserted: int)
  {
    function Plus(c: Counts): (r: Counts)
    {
      Counts(inserted + c.inserted, deleted + c.deleted, matched + c.matched, modified + c.modified,
             upserted + c.upserted)
    }
  }

  datatype Reply = Reply(error: Option<Bytes>, counts: Counts, writeErrors: seq<ServerError>,
                         writeConcernError: Option<Bytes>)
  {
    ghost predicate InRange(size: nat)
    {
      forall k :: 0 <= k < |writeErrors| ==> 0 <= writeErrors[k].idx < size
    }
  }

  datatype WriteError = WriteError(idx: int, code: int, message: Bytes, op: Fields)

  datatype Totals = Totals(error: Option<Bytes>, counts: Counts, writeErrors: seq<WriteError>,
                           writeConcernErrors: seq<Bytes>)

  const ZERO: Totals := Totals(None, Counts(0, 0, 0, 0, 0), [], [])

  function Shifted(ops: seq<Op>, offset: nat, docs: seq<ServerError>): (r: seq<WriteError>)
    requires forall k :: 0 <= k < |docs| ==> 0 <= docs[k].idx + offset < |ops|
    ensures |r| == |docs|
  {
    seq(|docs|, k requires 0 <= k < |docs| =>
      WriteError(docs[k].idx + offset, docs[k].code, docs[k].message, ops[docs[k].idx + offset].doc))
  }

  function Merge(t: Totals, ops: seq<Op>, offset: nat, reply: Reply): (r: Totals)
    requires forall k :: 0 <= k < |reply.writeErrors| ==> 0 <= reply.writeErrors[k].idx + offset < |ops|
  {
    Totals(if reply.error.Some? then reply.error else t.error, t.counts.Plus(reply.counts),
           t.writeErrors + Shifted(ops, offset, reply.writeErrors),
           t.writeConcernErrors + if reply.writeConcernError.Some? then [reply.writeConcernError.value] else [])
  }

  class FullResult {
    var error: Option<Bytes>
    var counts: Counts
    var writeErrors: seq<WriteError>
    var writeConcernErrors: seq<Bytes>

    ghost function View(): (t: Totals)
      reads this
    {
      Totals(error, counts, writeErrors, writeConcernErrors)
    }

    constructor ()
      ensures View() == ZERO
    {
      error, counts, writeErrors, writeConcernErrors := None, Counts(0, 0, 0, 0, 0), [], [];
    }

    /** `_merge_command`. */
    method MergeCommand(ops: seq<Op>, offset: nat, reply: Reply)
      requires offset <= |ops| && reply.InRange(|ops| - offset)
      modifies this
      ensures View() == Merge(old(View()), ops, offset, reply)
    {
      if reply.error.Some? {
        error := reply.error;
      }
      counts := counts.(inserted := counts.inserted + reply.counts.inserted);
      counts := counts.(deleted := counts.deleted + reply.counts.deleted);
      counts := counts.(matched := counts.matched + reply.counts.matched);
      counts := counts.(modified := counts.modified + reply.counts.modified);
      counts := counts.(upserted := counts.upserted + reply.counts.upserted);
      for i := 0 to |reply.writeErrors|
        invariant error == (if reply.error.Some? then reply.error else old(error))
        invariant counts == old(counts).Plus(reply.counts) && writeConcernErrors == old(writeConcernErrors)
        invariant writeErrors == old(writeErrors) + Shifted(ops, offset, reply.writeErrors)[..i]
      {
        var doc := reply.writeErrors[i];
        var originalIndex := doc.idx + offset;
        writeErrors := writeErrors + [WriteError(originalIndex, doc.code, doc.message, ops[originalIndex].doc)];
      }
      if reply.writeConcernError.Some? {
        writeConcernErrors := writeConcernErrors + [reply.writeConcernError.value];
      }
    }
  }

  // ---- histories ------------------------------------------------------------------------

  /** How many operations each command sent, and the reply. */
  datatype Batch = Batch(size: nat, reply: Reply)

  ghost function SentBefore(history: seq<Batch>): (n: nat)
  {
    if history == [] then 0 else SentBefore(history[..|history| - 1]) + history[|history| - 1].size
  }

  ghost predicate ValidHistory(ops: seq<Op>, history: seq<Batch>)
  {
    && (forall h :: 0 <= h < |history| ==> history[h].reply.InRange(history[h].size))
    && SentBefore(history) <= |ops|
  }

  lemma {:induction false} ShorterIsValid(ops: seq<Op>, history: seq<Batch>)
    requires ValidHistory(ops, history) && history != []
    ensures ValidHistory(ops, history[..|history| - 1])
  {
  }

  /** The replies merged in order, each with the number of operations sent before it. */
  ghost function MergeAll(ops: seq<Op>, history: seq<Batch>): (t: Totals)
    requires ValidHistory(ops, history)
  {
    if history == [] then ZERO
    else
      ShorterIsValid(ops, history);
      var before := history[..|history| - 1];
      Merge(MergeAll(ops, before), ops, SentBefore(before), history[|history| - 1].reply)
  }

  /** The operations that batch `h` sent. */
  ghost function SentBy(ops: seq<Op>, history: seq<Batch>, h: nat): (r: seq<Op>)
    requires h < |history| && SentBefore(history[..h + 1]) <= |ops|
  {
    PrefixGrows(history, h);
    ops[SentBefore(history[..h])..SentBefore(history[..h + 1])]
  }

  lemma {:induction false} PrefixGrows(history: seq<Batch>, h: nat)
    requires h < |history|
    ensures SentBefore(history[..h + 1]) == SentBefore(history[..h]) + history[h].size
  {
    assert history[..h + 1][..h] == history[..h];
  }

  /** Error `e` was reported by batch `h` about its `k`-th operation, and tells so. */
  ghost predicate Tells(e: WriteError, ops: seq<Op>, history: seq<Batch>, h: nat, k: nat)
    requires h < |history| && SentBefore(history[..h + 1]) <= |ops| && k < |history[h].reply.writeErrors|
  {
    var s := history[h].reply.writeErrors[k];
    PrefixGrows(history, h);
    && 0 <= s.idx < |SentBy(ops, history, h)|
    && e.idx == SentBefore(history[..h]) + s.idx && e.code == s.code && e.message == s.message
    && e.op == SentBy(ops, history, h)[s.idx].doc && 0 <= e.idx < |ops| && e.op == ops[e.idx].doc
  }

  ghost function ErrorCount(history: seq<Batch>): (n: nat)
  {
    if history == [] then 0 else ErrorCount(history[..|history| - 1]) + |history[|history| - 1].reply.writeErrors|
  }

  ghost function InsertedBy(h: seq<Batch>): (r: seq<int>)
  {
    seq(|h|, i requires 0 <= i < |h| => h[i].reply.counts.inserted)
  }

  ghost function DeletedBy(h: seq<Batch>): (r: seq<int>)
  {
    seq(|h|, i requires 0 <= i < |h| => h[i].reply.counts.deleted)
  }

  ghost function MatchedBy(h: seq<Batch>): (r: seq<int>)
  {
    seq(|h|, i requires 0 <= i < |h| => h[i].reply.counts.matched)
  }

  ghost function ModifiedBy(h: seq<Batch>): (r: seq<int>)
  {
    seq(|h|, i requires 0 <= i < |h| => h[i].reply.counts.modified)
  }

  ghost function UpsertedBy(h: seq<Batch>): (r: seq<int>)
  {
    seq(|h|, i requires 0 <= i < |h| => h[i].reply.counts.upserted)
  }

  ghost function ConcernsOf(h: seq<Batch>): (r: seq<Option<Bytes>>)
  {
    seq(|h|, i requires 0 <= i < |h| => h[i].reply.writeConcernError)
  }

  /** Over any sequence of batches each counter is the sum of that counter over the replies, and no
      write error is dropped. */
  lemma {:induction false} MergedIsTold(ops: seq<Op>, history: seq<Batch>)
    requires ValidHistory(ops, history)
    ensures var t := MergeAll(ops, history);
            && t.counts.inserted == Sum(InsertedBy(history))
            && t.counts.deleted == Sum(DeletedBy(history))
            && t.counts.matched == Sum(MatchedBy(history))
            && t.counts.modified == Sum(ModifiedBy(history))
            && t.counts.upserted == Sum(UpsertedBy(history))
            && |t.writeErrors| == ErrorCount(history)
    decreases |history|
  {
    hide Shifted;
    if history != [] {
      var before := history[..|history| - 1];
      ShorterIsValid(ops, history);
      MergedIsTold(ops, before);
      var k := |before|;
      assert InsertedBy(history)[..k] == InsertedBy(before) && DeletedBy(history)[..k] == DeletedBy(before);
      assert MatchedBy(history)[..k] == MatchedBy(before) && ModifiedBy(history)[..k] == ModifiedBy(before);
      assert UpsertedBy(history)[..k] == UpsertedBy(before);
    }
  }

  /** The full result's top-level error is that of the last reply with one, and its write concern errors
      are those of the replies, in order. */
  lemma {:induction false} OtherErrorsAreTold(ops: seq<Op>, history: seq<Batch>)
    requires ValidHistory(ops, history)
    ensures var t := MergeAll(ops, history);
            && t.writeConcernErrors == Present(ConcernsOf(history))
            && (t.error.None? <==> forall h :: 0 <= h < |history| ==> history[h].reply.error.None?)
            && (t.error.Some? ==>
                  exists h :: 0 <= h < |history| && history[h].reply.error == t.error
                              && forall later :: h < later < |history| ==> history[later].reply.error.None?)
    decreases |history|
  {
    hide Shifted, SentBefore, ErrorCount, Counts.Plus;
    if history != [] {
      var before := history[..|history| - 1];
      ShorterIsValid(ops, history);
      OtherErrorsAreTold(ops, before);
      assert ConcernsOf(history)[..|before|] == ConcernsOf(before);
      assert forall h :: 0 <= h < |before| ==> history[h] == before[h];
    }
  }

  lemma {:induction false} PrefixIsValid(ops: seq<Op>, history: seq<Batch>, h: nat)
    requires ValidHistory(ops, history) && h <= |history|
    ensures ValidHistory(ops, history[..h])
    decreases |history| - h
  {
    if h < |history| {
      PrefixIsValid(ops, history, h + 1);
      PrefixGrows(history, h);
    } else {
      assert history[..h] == history;
    }
  }

  /** Every error of every batch stands in the full result, in order, with the original index and
      document of the operation that the server meant. */
  lemma {:induction false} ErrorsTellTheirOperation(ops: seq<Op>, history: seq<Batch>, h: nat, k: nat)
    requires ValidHistory(ops, history) && h < |history| && k < |history[h].reply.writeErrors|
    ensures var t := MergeAll(ops, history);
            && SentBefore(history[..h + 1]) <= |ops|
            && ErrorCount(history[..h]) + k < |t.writeErrors|
            && Tells(t.writeErrors[ErrorCount(history[..h]) + k], ops, history, h, k)
    decreases |history|
  {
    hide Shifted, Tells;
    var last := |history| - 1;
    var before := history[..last];
    ShorterIsValid(ops, history);
    PrefixIsValid(ops, history, h + 1);
    MergedIsTold(ops, before);
    var t := MergeAll(ops, before);
    if h < last {
      ErrorsTellTheirOperation(ops, before, h, k);
      assert before[..h] == history[..h] && before[..h + 1] == history[..h + 1];
      ToldStays(t.writeErrors[ErrorCount(history[..h]) + k], ops, before, history, h, k);
    } else {
      assert history[..h + 1] == history;
      LastIsTold(ops, history, k);
    }
  }

  lemma {:induction false} ToldStays(e: WriteError, ops: seq<Op>, before: seq<Batch>, history: seq<Batch>, h: nat,
                                     k: nat)
    requires h < |before| && before <= history
    requires SentBefore(before[..h + 1]) <= |ops| && k < |before[h].reply.writeErrors| && Tells(e, ops, before, h, k)
    ensures SentBefore(history[..h + 1]) <= |ops| && Tells(e, ops, history, h, k)
  {
    assert before[..h] == history[..h] && before[..h + 1] == history[..h + 1];
  }

  lemma {:induction false} LastIsTold(ops: seq<Op>, history: seq<Batch>, k: nat)
    requires ValidHistory(ops, history) && history != []
    requires SentBefore(history[..|history|]) <= |ops| && k < |history[|history| - 1].reply.writeErrors|
    ensures ValidHistory(ops, history[..|history| - 1])
    ensures var last := |history| - 1;
            var offset := SentBefore(history[..last]);
            var errors := history[last].reply.writeErrors;
            && (forall i :: 0 <= i < |errors| ==> 0 <= errors[i].idx + offset < |ops|)
            && Tells(Shifted(ops, offset, errors)[k], ops, history, last, k)
  {
    ShorterIsValid(ops, history);
    PrefixGrows(history, |history| - 1);
    assert history[..|history|] == history;
  }
}
