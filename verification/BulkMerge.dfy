/**
 Bulk writes of a collection: how pymongo/synchronous/bulk.py groups the operations into runs,
 how pymongo/bulk_shared.py merges each server reply into the full result, and what the indices
 and counters of the full result mean in terms of the operations the application gave.
 */
module BulkMerge {
  import opened Bytes
  import opened Bson
  import OpMsg

  datatype Kind = Insert | Update | Delete

  datatype Op = Op(kind: Kind, body: Fields)

  // ---- runs -----------------------------------------------------------------------------

  /** What a `_Run` holds. */
  datatype Run = Run(kind: Kind, indexMap: seq<nat>, ops: seq<Op>)
  {
    function Add(index: nat, op: Op): (r: Run)
    {
      Run(kind, indexMap + [index], ops + [op])
    }

    /** Each entry is an operation of `all` of this run's kind, at the place the map says. */
    ghost predicate Valid(all: seq<Op>)
    {
      && |indexMap| == |ops|
      && forall k :: 0 <= k < |ops| ==> indexMap[k] < |all| && all[indexMap[k]] == ops[k] && ops[k].kind == kind
    }
  }

  /** `_Run`: parallel lists that grow together. */
  class RunBuilder {
    const kind: Kind
    var indexMap: seq<nat>
    var ops: seq<Op>

    function View(): (r: Run)
      reads this
    {
      Run(kind, indexMap, ops)
    }

    constructor (kind: Kind)
      ensures View() == Run(kind, [], [])
    {
      this.kind := kind;
      indexMap, ops := [], [];
    }

    /** `add`. */
    method Add(originalIndex: nat, op: Op)
      modifies this
      ensures View() == old(View()).Add(originalIndex, op)
    {
      indexMap := indexMap + [originalIndex];
      ops := ops + [op];
    }
  }

  ghost predicate ValidRuns(runs: seq<Run>, all: seq<Op>)
  {
    forall r :: 0 <= r < |runs| ==> runs[r].Valid(all)
  }

  /** The index maps of the runs, one after another. */
  function Positions(runs: seq<Run>): (r: seq<nat>)
  {
    if runs == [] then [] else Positions(runs[..|runs| - 1]) + runs[|runs| - 1].indexMap
  }

  function Range(n: nat): (r: seq<nat>)
  {
    seq(n, i requires 0 <= i < n => i)
  }

  lemma {:induction false} AddKeeps(run: Run, all: seq<Op>, idx: nat)
    requires run.Valid(all) && idx < |all| && all[idx].kind == run.kind
    ensures run.Add(idx, all[idx]).Valid(all)
    ensures multiset(run.Add(idx, all[idx]).indexMap) == multiset(run.indexMap) + multiset{idx}
  {
  }

  lemma {:induction false} PositionsSnoc(runs: seq<Run>, run: Run)
    ensures Positions(runs + [run]) == Positions(runs) + run.indexMap
  {
    assert (runs + [run])[..|runs|] == runs;
  }

  /** No run is empty, and neighbours differ in kind. */
  ghost predicate Stretches(runs: seq<Run>)
  {
    && (forall r :: 0 <= r < |runs| ==> runs[r].ops != [])
    && (forall r :: 0 <= r < |runs| - 1 ==> runs[r].kind != runs[r + 1].kind)
  }

  /** `gen_ordered`: maximal stretches of one kind, in order; `none` tells that a bulk without
      operations yields None instead of a run. */
  method GenOrdered(ops: seq<Op>) returns (runs: seq<Run>, none: bool)
    ensures none <==> ops == []
    ensures ValidRuns(runs, ops) && Positions(runs) == Range(|ops|)
    ensures Stretches(runs)
  {
    hide Run.Valid, Range, Positions, ValidRuns, Stretches;
    runs, none := [], false;
    EmptyRuns(ops);
    if ops == [] {
      return [], true;
    }
    RangeGrows(0);
    var run := new RunBuilder(ops[0].kind);
    AddKeeps(run.View(), ops, 0);
    run.Add(0, ops[0]);
    for idx := 1 to |ops|
      invariant fresh(run)
      invariant ValidRuns(runs, ops) && run.View().Valid(ops) && run.ops != []
      invariant Positions(runs) + run.indexMap == Range(idx)
      invariant Stretches(runs) && (runs != [] ==> runs[|runs| - 1].kind != run.kind)
    {
      if run.kind != ops[idx].kind {
        RunsGrow(runs, run.View(), ops);
        runs := runs + [run.View()];
        run := new RunBuilder(ops[idx].kind);
      }
      RangeGrows(idx);
      AddKeeps(run.View(), ops, idx);
      assert Positions(runs) + (run.indexMap + [idx]) == Positions(runs) + run.indexMap + [idx];
      run.Add(idx, ops[idx]);
    }
    RunsGrow(runs, run.View(), ops);
    runs := runs + [run.View()];
  }

  lemma {:induction false} RunsGrow(runs: seq<Run>, run: Run, all: seq<Op>)
    requires ValidRuns(runs, all) && run.Valid(all) && run.ops != [] && Stretches(runs)
    requires runs != [] ==> runs[|runs| - 1].kind != run.kind
    ensures var more := runs + [run];
            ValidRuns(more, all) && Stretches(more) && Positions(more) == Positions(runs) + run.indexMap
  {
    hide Run.Valid, Positions;
    PositionsSnoc(runs, run);
    var more := runs + [run];
    assert forall r :: 0 <= r < |runs| ==> more[r] == runs[r];
  }

  lemma {:induction false} RangeGrows(n: nat)
    ensures Range(n + 1) == Range(n) + [n]
    ensures multiset(Range(n + 1)) == multiset(Range(n)) + multiset{n}
  {
    assert Range(n + 1) == Range(n) + [n];
  }

  /** `gen_unordered`: one run per kind, in the order insert, update, delete, without empty ones, each
      in the order of the input. */
  method GenUnordered(ops: seq<Op>) returns (runs: seq<Run>)
    ensures ValidRuns(runs, ops) && multiset(Positions(runs)) == multiset(Range(|ops|))
    ensures forall r :: 0 <= r < |runs| ==> runs[r].ops != [] && Ascending(runs[r].indexMap, |ops|)
    ensures forall r :: 0 <= r < |runs| - 1 ==> Code(runs[r].kind) < Code(runs[r + 1].kind)
  {
    hide Range, Positions, ValidRuns, Run.Valid, Spread, Ascending, Code;
    var inserts := new RunBuilder(Insert);
    var updates := new RunBuilder(Update);
    var deletes := new RunBuilder(Delete);
    NothingSpread(ops);
    for idx := 0 to |ops|
      invariant fresh(inserts) && fresh(updates) && fresh(deletes)
      invariant inserts != updates && updates != deletes && inserts != deletes
      invariant inserts.kind == Insert && updates.kind == Update && deletes.kind == Delete
      invariant Spread(inserts.View(), updates.View(), deletes.View(), ops, idx)
    {
      var run: RunBuilder := match ops[idx].kind
        case Insert => inserts
        case Update => updates
        case Delete => deletes;
      SpreadGrows(inserts.View(), updates.View(), deletes.View(), ops, idx);
      run.Add(idx, ops[idx]);
    }
    runs := Keep(Keep(Keep([], inserts.View()), updates.View()), deletes.View());
    SpreadIsKept(inserts.View(), updates.View(), deletes.View(), ops);
  }

  function Keep(runs: seq<Run>, run: Run): (r: seq<Run>)
  {
    if run.ops != [] then runs + [run] else runs
  }

  /** The positions stand in the order of the input. */
  ghost predicate Ascending(positions: seq<nat>, bound: nat)
  {
    && (forall i :: 0 <= i < |positions| ==> positions[i] < bound)
    && (forall i, j :: 0 <= i < j < |positions| ==> positions[i] < positions[j])
  }

  lemma {:induction false} AscendingGrows(positions: seq<nat>, bound: nat)
    requires Ascending(positions, bound)
    ensures Ascending(positions, bound + 1) && Ascending(positions + [bound], bound + 1)
  {
  }

  /** The operations before `n`, told apart by kind. */
  ghost predicate Spread(inserts: Run, updates: Run, deletes: Run, all: seq<Op>, n: nat)
  {
    && inserts.kind == Insert && updates.kind == Update && deletes.kind == Delete
    && inserts.Valid(all) && updates.Valid(all) && deletes.Valid(all)
    && Ascending(inserts.indexMap, n) && Ascending(updates.indexMap, n) && Ascending(deletes.indexMap, n)
    && multiset(inserts.indexMap) + multiset(updates.indexMap) + multiset(deletes.indexMap) == multiset(Range(n))
  }

  lemma {:induction false} NothingSpread(all: seq<Op>)
    ensures Spread(Run(Insert, [], []), Run(Update, [], []), Run(Delete, [], []), all, 0)
  {
  }

  lemma {:induction false} SpreadGrows(inserts: Run, updates: Run, deletes: Run, all: seq<Op>, n: nat)
    requires Spread(inserts, updates, deletes, all, n) && n < |all|
    ensures match all[n].kind
            case Insert => Spread(inserts.Add(n, all[n]), updates, deletes, all, n + 1)
            case Update => Spread(inserts, updates.Add(n, all[n]), deletes, all, n + 1)
            case Delete => Spread(inserts, updates, deletes.Add(n, all[n]), all, n + 1)
  {
    hide Run.Valid, Range, Ascending;
    RangeGrows(n);
    AscendingGrows(inserts.indexMap, n);
    AscendingGrows(updates.indexMap, n);
    AscendingGrows(deletes.indexMap, n);
    match all[n].kind
    case Insert => AddKeeps(inserts, all, n);
    case Update => AddKeeps(updates, all, n);
    case Delete => AddKeeps(deletes, all, n);
  }

  lemma {:induction false} SpreadIsKept(inserts: Run, updates: Run, deletes: Run, all: seq<Op>)
    requires Spread(inserts, updates, deletes, all, |all|)
    ensures var runs := Keep(Keep(Keep([], inserts), updates), deletes);
            && ValidRuns(runs, all) && multiset(Positions(runs)) == multiset(Range(|all|))
            && (forall r :: 0 <= r < |runs| ==> runs[r].ops != [] && Ascending(runs[r].indexMap, |all|))
            && (forall r :: 0 <= r < |runs| - 1 ==> Code(runs[r].kind) < Code(runs[r + 1].kind))
  {
    hide Run.Valid, Range, Ascending, Positions;
    EmptyRuns(all);
    KeepPositions([], inserts, all);
    KeepPositions(Keep([], inserts), updates, all);
    KeepPositions(Keep(Keep([], inserts), updates), deletes, all);
  }

  lemma {:induction false} KeepPositions(runs: seq<Run>, run: Run, all: seq<Op>)
    requires run.Valid(all)
    ensures multiset(Positions(Keep(runs, run))) == multiset(Positions(runs)) + multiset(run.indexMap)
  {
    PositionsSnoc(runs, run);
  }

  lemma {:induction false} EmptyRuns(all: seq<Op>)
    ensures Run(Insert, [], []).Valid(all) && Run(Update, [], []).Valid(all) && Run(Delete, [], []).Valid(all)
    ensures Range(0) == [] && Positions([]) == [] && ValidRuns([], all) && Stretches([]) && Ascending([], 0)
  {
  }

  // ---- replies and results --------------------------------------------------------------

  datatype Upserted = Upserted(index: int, id: Value)

  datatype ServerError = ServerError(index: int, code: int, message: Bytes)

  /** A write command's reply: `n` is 0 when missing, a missing list is None. */
  datatype Reply = Reply(n: int, nModified: int, upserted: seq<Upserted>, writeErrors: Option<seq<ServerError>>,
                         writeConcernError: Option<Bytes>)
  {
    function Errors(): (r: seq<ServerError>) { if writeErrors.Some? then writeErrors.value else [] }

    /** The server speaks about the operations of a batch of this size. */
    ghost predicate InRange(size: nat)
    {
      && (forall k :: 0 <= k < |upserted| ==> 0 <= upserted[k].index < size)
      && (forall k :: 0 <= k < |Errors()| ==> 0 <= Errors()[k].index < size)
    }
  }

  datatype WriteError = WriteError(index: int, code: int, message: Bytes, op: Op)

  datatype Totals = Totals(nInserted: int, nRemoved: int, nMatched: int, nModified: int, nUpserted: int,
                           upserted: seq<Upserted>, writeErrors: seq<WriteError>, writeConcernErrors: seq<Bytes>)

  const ZERO: Totals := Totals(0, 0, 0, 0, 0, [], [], [])

  function RemapUpserts(run: Run, offset: nat, docs: seq<Upserted>): (r: seq<Upserted>)
    requires forall k :: 0 <= k < |docs| ==> 0 <= docs[k].index + offset < |run.indexMap|
    ensures |r| == |docs|
  {
    seq(|docs|, k requires 0 <= k < |docs| => docs[k].(index := run.indexMap[docs[k].index + offset]))
  }

  function RemapErrors(run: Run, offset: nat, docs: seq<ServerError>): (r: seq<WriteError>)
    requires |run.indexMap| == |run.ops|
    requires forall k :: 0 <= k < |docs| ==> 0 <= docs[k].index + offset < |run.ops|
    ensures |r| == |docs|
  {
    seq(|docs|, k requires 0 <= k < |docs| =>
      WriteError(run.indexMap[docs[k].index + offset], docs[k].code, docs[k].message, run.ops[docs[k].index + offset]))
  }

  /** One reply merged into the totals. */
  function Merge(t: Totals, run: Run, offset: nat, reply: Reply): (r: Totals)
    requires |run.indexMap| == |run.ops| && offset <= |run.ops|
    requires forall k :: 0 <= k < |reply.upserted| ==> 0 <= reply.upserted[k].index + offset < |run.ops|
    requires forall k :: 0 <= k < |reply.Errors()| ==> 0 <= reply.Errors()[k].index + offset < |run.ops|
  {
    var counted :=
      match run.kind
      case Insert => t.(nInserted := t.nInserted + reply.n)
      case Delete => t.(nRemoved := t.nRemoved + reply.n)
      case Update => t.(nMatched := t.nMatched + reply.n - |reply.upserted|,
                        nUpserted := t.nUpserted + |reply.upserted|,
                        nModified := t.nModified + reply.nModified,
                        upserted := t.upserted + RemapUpserts(run, offset, reply.upserted));
    counted.(writeErrors := t.writeErrors + RemapErrors(run, offset, reply.Errors()),
             writeConcernErrors := t.writeConcernErrors
                                   + if reply.writeConcernError.Some? then [reply.writeConcernError.value] else [])
  }

  class FullResult {
    var nInserted: int
    var nRemoved: int
    var nMatched: int
    var nModified: int
    var nUpserted: int
    var upserted: seq<Upserted>
    var writeErrors: seq<WriteError>
    var writeConcernErrors: seq<Bytes>

    ghost function View(): (t: Totals)
      reads this
    {
      Totals(nInserted, nRemoved, nMatched, nModified, nUpserted, upserted, writeErrors, writeConcernErrors)
    }

    constructor ()
      ensures View() == ZERO
    {
      nInserted, nRemoved, nMatched, nModified, nUpserted := 0, 0, 0, 0, 0;
      upserted, writeErrors, writeConcernErrors := [], [], [];
    }

    /** `_merge_command`. */
    method MergeCommand(run: Run, offset: nat, reply: Reply)
      requires |run.indexMap| == |run.ops| && offset <= |run.ops|
      requires reply.InRange(|run.ops| - offset)
      modifies this
      ensures View() == Merge(old(View()), run, offset, reply)
    {
      match run.kind {
        case Insert => nInserted := nInserted + reply.n;
        case Delete => nRemoved := nRemoved + reply.n;
        case Update => {
          if reply.upserted != [] {
            var docs := reply.upserted;
            for i := 0 to |docs|
              invariant |docs| == |reply.upserted|
              invariant forall k :: 0 <= k < i ==> docs[k] == RemapUpserts(run, offset, reply.upserted)[k]
              invariant forall k :: i <= k < |docs| ==> docs[k] == reply.upserted[k]
            {
              docs := docs[i := docs[i].(index := run.indexMap[docs[i].index + offset])];
            }
            assert docs == RemapUpserts(run, offset, reply.upserted);
            upserted := upserted + docs;
            nUpserted := nUpserted + |docs|;
            nMatched := nMatched + (reply.n - |docs|);
          } else {
            nMatched := nMatched + reply.n;
          }
          nModified := nModified + reply.nModified;
        }
      }
      AddErrors(run, offset, reply.Errors());
      if reply.writeConcernError.Some? {
        writeConcernErrors := writeConcernErrors + [reply.writeConcernError.value];
      }
    }

    method AddErrors(run: Run, offset: nat, docs: seq<ServerError>)
      requires |run.indexMap| == |run.ops|
      requires forall k :: 0 <= k < |docs| ==> 0 <= docs[k].index + offset < |run.ops|
      modifies this`writeErrors
      ensures writeErrors == old(writeErrors) + RemapErrors(run, offset, docs)
    {
      for i := 0 to |docs|
        invariant writeErrors == old(writeErrors) + RemapErrors(run, offset, docs)[..i]
      {
        var idx := docs[i].index + offset;
        writeErrors := writeErrors + [WriteError(run.indexMap[idx], docs[i].code, docs[i].message, run.ops[idx])];
      }
    }
  }

  // ---- histories ------------------------------------------------------------------------

  /** One command: operations `offset` to `offset + size` of a run, and what the server said. */
  datatype Batch = Batch(run: nat, offset: nat, size: nat, reply: Reply)

  ghost predicate ValidBatch(runs: seq<Run>, b: Batch)
  {
    && b.run < |runs| && b.offset + b.size <= |runs[b.run].ops| && b.size > 0
    && b.reply.InRange(b.size)
  }

  /** The original positions of the operations a batch sent. */
  function Sent(runs: seq<Run>, b: Batch): (r: seq<nat>)
    requires b.run < |runs| && b.offset + b.size <= |runs[b.run].indexMap|
    ensures |r| == b.size
  {
    runs[b.run].indexMap[b.offset..b.offset + b.size]
  }

  ghost predicate ValidHistory(runs: seq<Run>, all: seq<Op>, history: seq<Batch>)
  {
    ValidRuns(runs, all) && forall h :: 0 <= h < |history| ==> ValidBatch(runs, history[h])
  }

  /** The full result after a history. */
  ghost function MergeAll(runs: seq<Run>, all: seq<Op>, history: seq<Batch>): (r: Totals)
    requires ValidHistory(runs, all, history)
  {
    if history == [] then ZERO
    else
      var b := history[|history| - 1];
      Merge(MergeAll(runs, all, history[..|history| - 1]), runs[b.run], b.offset, b.reply)
  }

  /** What the reports should be: the server's, told in original positions. */
  ghost function Reported(runs: seq<Run>, all: seq<Op>, history: seq<Batch>): (r: seq<WriteError>)
    requires ValidHistory(runs, all, history)
  {
    if history == [] then []
    else
      var b := history[|history| - 1];
      Reported(runs, all, history[..|history| - 1]) + ReportedBy(runs, all, b)
  }

  /** Server error `e` of a batch is about the operation that the batch sent at place `e.index`. */
  ghost function ReportedBy(runs: seq<Run>, all: seq<Op>, b: Batch): (r: seq<WriteError>)
    requires ValidRuns(runs, all) && ValidBatch(runs, b)
  {
    var errors := b.reply.Errors();
    seq(|errors|, k requires 0 <= k < |errors| =>
      var at := Sent(runs, b)[errors[k].index];
      WriteError(at, errors[k].code, errors[k].message, all[at]))
  }

  ghost function UpsertedAt(runs: seq<Run>, all: seq<Op>, history: seq<Batch>): (r: seq<Upserted>)
    requires ValidHistory(runs, all, history)
  {
    if history == [] then []
    else
      var b := history[|history| - 1];
      UpsertedAt(runs, all, history[..|history| - 1]) + UpsertedBy(runs, b)
  }

  ghost function SumN(runs: seq<Run>, all: seq<Op>, history: seq<Batch>, kind: Kind): (n: int)
    requires ValidHistory(runs, all, history)
  {
    if history == [] then 0
    else
      var b := history[|history| - 1];
      SumN(runs, all, history[..|history| - 1], kind) + if runs[b.run].kind == kind then b.reply.n else 0
  }

  /** What each command says was modified, which only updates say. */
  ghost function ModifiedBy(runs: seq<Run>, all: seq<Op>, history: seq<Batch>): (r: seq<int>)
    requires ValidHistory(runs, all, history)
  {
    seq(|history|, h requires 0 <= h < |history| =>
      if runs[history[h].run].kind == Update then history[h].reply.nModified else 0)
  }

  ghost function ConcernsOf(history: seq<Batch>): (r: seq<Option<Bytes>>)
  {
    seq(|history|, h requires 0 <= h < |history| => history[h].reply.writeConcernError)
  }

  /** The modified documents are summed over the update batches, and every write concern error is kept,
      in order. */
  lemma {:induction false} ModifiedAndConcernsAreTold(runs: seq<Run>, all: seq<Op>, history: seq<Batch>)
    requires ValidHistory(runs, all, history)
    ensures var t := MergeAll(runs, all, history);
            && t.nModified == Sum(ModifiedBy(runs, all, history))
            && t.writeConcernErrors == Present(ConcernsOf(history))
    decreases |history|
  {
    hide RemapErrors, RemapUpserts;
    if history != [] {
      var before := history[..|history| - 1];
      ModifiedAndConcernsAreTold(runs, all, before);
      assert ModifiedBy(runs, all, history)[..|before|] == ModifiedBy(runs, all, before);
      assert ConcernsOf(history)[..|before|] == ConcernsOf(before);
    }
  }

  /** Over any sequence of batches: every reported error carries the original position of the
      operation the server meant and that operation itself, upserts carry original positions, and
      matches and upserts together are what the update batches counted. */
  lemma {:induction false} MergedMeansReported(runs: seq<Run>, all: seq<Op>, history: seq<Batch>)
    requires ValidHistory(runs, all, history)
    ensures var t := MergeAll(runs, all, history);
            && t.writeErrors == Reported(runs, all, history)
            && t.upserted == UpsertedAt(runs, all, history)
            && t.nUpserted == |t.upserted|
            && t.nMatched + t.nUpserted == SumN(runs, all, history, Update)
            && t.nInserted == SumN(runs, all, history, Insert)
            && t.nRemoved == SumN(runs, all, history, Delete)
    decreases |history|
  {
    hide Merge, ReportedBy, Sent;
    if history != [] {
      MergedMeansReported(runs, all, history[..|history| - 1]);
      BatchMeansReported(runs, all, history[|history| - 1], MergeAll(runs, all, history[..|history| - 1]));
    }
  }

  ghost function UpsertedBy(runs: seq<Run>, b: Batch): (r: seq<Upserted>)
    requires ValidBatch(runs, b) && |runs[b.run].indexMap| == |runs[b.run].ops|
  {
    if runs[b.run].kind.Update? then
      seq(|b.reply.upserted|, k requires 0 <= k < |b.reply.upserted| =>
        b.reply.upserted[k].(index := Sent(runs, b)[b.reply.upserted[k].index]))
    else []
  }

  lemma {:induction false} BatchMeansReported(runs: seq<Run>, all: seq<Op>, b: Batch, t: Totals)
    requires ValidRuns(runs, all) && ValidBatch(runs, b)
    ensures var m := Merge(t, runs[b.run], b.offset, b.reply);
            && m.writeErrors == t.writeErrors + ReportedBy(runs, all, b)
            && m.upserted == t.upserted + UpsertedBy(runs, b)
            && m.nUpserted == t.nUpserted + |UpsertedBy(runs, b)|
            && m.nMatched + m.nUpserted == t.nMatched + t.nUpserted
                + (if runs[b.run].kind.Update? then b.reply.n else 0)
            && m.nInserted == t.nInserted + (if runs[b.run].kind.Insert? then b.reply.n else 0)
            && m.nRemoved == t.nRemoved + (if runs[b.run].kind.Delete? then b.reply.n else 0)
  {
    var run := runs[b.run];
    assert RemapErrors(run, b.offset, b.reply.Errors()) == ReportedBy(runs, all, b);
    if run.kind.Update? {
      assert RemapUpserts(run, b.offset, b.reply.upserted) == UpsertedBy(runs, b);
    }
  }

  /** In particular each error names a position of the input and the operation that stands there. */
  lemma {:induction false} ErrorsNameTheirOperation(runs: seq<Run>, all: seq<Op>, history: seq<Batch>)
    requires ValidHistory(runs, all, history)
    ensures forall k :: 0 <= k < |Reported(runs, all, history)| ==>
              var e := Reported(runs, all, history)[k]; 0 <= e.index < |all| && e.op == all[e.index]
    decreases |history|
  {
    if history != [] {
      ErrorsNameTheirOperation(runs, all, history[..|history| - 1]);
    }
  }

  // ---- execution ------------------------------------------------------------------------

  /** The original positions sent by a history, in order. */
  ghost function SentAll(runs: seq<Run>, all: seq<Op>, history: seq<Batch>): (r: seq<nat>)
    requires ValidHistory(runs, all, history)
  {
    if history == [] then []
    else SentAll(runs, all, history[..|history| - 1]) + Sent(runs, history[|history| - 1])
  }

  /** No reply holds an empty list of errors: servers leave the field out. */
  ghost predicate NoEmptyLists(history: seq<Batch>)
  {
    forall h :: 0 <= h < |history| && history[h].reply.writeErrors.Some? ==> history[h].reply.writeErrors.value != []
  }

  lemma {:induction false} PositionsOfPrefix(runs: seq<Run>, r: nat)
    requires r <= |runs|
    ensures Positions(runs[..r]) <= Positions(runs)
    decreases |runs| - r
  {
    if r < |runs| {
      assert runs[..r + 1][..r] == runs[..r];
      PositionsOfPrefix(runs, r + 1);
    } else {
      assert runs[..r] == runs;
    }
  }

  /** Appending one more batch to a history. */
  lemma {:induction false} HistoryGrows(runs: seq<Run>, all: seq<Op>, history: seq<Batch>, b: Batch)
    requires ValidHistory(runs, all, history) && ValidBatch(runs, b)
    ensures var more := history + [b];
            && ValidHistory(runs, all, more)
            && MergeAll(runs, all, more) == Merge(MergeAll(runs, all, history), runs[b.run], b.offset, b.reply)
            && SentAll(runs, all, more) == SentAll(runs, all, history) + Sent(runs, b)
  {
    assert (history + [b])[..|history|] == history;
  }

  /** `_INSERT`, `_UPDATE` and `_DELETE`. */
  function Code(kind: Kind): (code: int)
    ensures OpMsg.OpMsgIdentifier(code).Some?
  {
    match kind
    case Insert => 0
    case Update => 1
    case Delete => 2
  }

  /** The documents of a run go out under the name of its kind. */
  lemma {:induction false} CodeNames(kind: Kind)
    ensures var name := match kind
              case Insert => Ascii("documents")
              case Update => Ascii("updates")
              case Delete => Ascii("deletes");
            OpMsg.OpMsgIdentifier(Code(kind)) == Some(name + [0])
  {
    match kind
    case Insert => assert Ascii("documents") + [0] == [0x64, 0x6f, 0x63, 0x75, 0x6d, 0x65, 0x6e, 0x74, 0x73, 0];
    case Update => assert Ascii("updates") + [0] == [0x75, 0x70, 0x64, 0x61, 0x74, 0x65, 0x73, 0];
    case Delete => assert Ascii("deletes") + [0] == [0x64, 0x65, 0x6c, 0x65, 0x74, 0x65, 0x73, 0];
  }

  function Bodies(ops: seq<Op>): (r: seq<Fields>)
    ensures |r| == |ops|
  {
    seq(|ops|, i requires 0 <= i < |ops| => ops[i].body)
  }

  /** What surrounds the commands: the command built for an offset of a run, its request id, and the
      server, which answers for the operations it was sent. */
  datatype Setting = Setting(commandAt: (nat, nat) -> Fields, requestIdAt: (nat, nat) -> int, limits: OpMsg.Limits,
                             serve: (nat, nat, nat) -> Reply)

  ghost predicate ValidSetting(setting: Setting)
  {
    && setting.limits.maxWriteBatchSize >= 1
    && (forall a, o :: IsInt32(setting.requestIdAt(a, o)))
    && (forall a, o, n :: setting.serve(a, o, n).InRange(n))
  }

  /** What the splitter makes of the operations from `offset` on. */
  ghost function Split(run: Run, r: nat, offset: nat, setting: Setting): (spec: OpMsg.Outcome<(nat, Bytes)>)
    requires offset < |run.ops|
  {
    OpMsg.BatchSpec(Code(run.kind), setting.commandAt(r, offset), Bodies(run.ops[offset..]), true, setting.limits, 16)
  }

  /** The splitter refuses, or the message is longer than its length field can say. */
  ghost predicate Refuses(run: Run, r: nat, offset: nat, setting: Setting)
  {
    && offset < |run.ops|
    && var spec := Split(run, r, offset, setting);
       spec.Raised? || |spec.value.1| + 16 > MAX_INT32
  }

  /** One command: the splitter says how many of the operations left it takes. */
  method NextBatch(run: Run, r: nat, offset: nat, setting: Setting) returns (size: Option<nat>)
    requires offset < |run.ops| && ValidSetting(setting)
    ensures size.None? <==> Refuses(run, r, offset, setting)
    ensures size.Some? ==> Split(run, r, offset, setting).Done? && size.value == Split(run, r, offset, setting).value.0
    ensures size.Some? ==> 1 <= size.value <= |run.ops| - offset && size.value <= setting.limits.maxWriteBatchSize
  {
    hide OpMsg.BatchSpec, OpMsg.Message, Code;
    var docs := Bodies(run.ops[offset..]);
    var command := setting.commandAt(r, offset);
    var requestId := setting.requestIdAt(r, offset);
    var batch := OpMsg.BatchedOpMsg(Code(run.kind), command, docs, true, setting.limits, requestId);
    if batch.Raised? {
      return None;
    }
    OpMsg.BatchIsMaximal(Code(run.kind), command, docs, true, setting.limits, false);
    return Some(|batch.value.1|);
  }

  /** The commands of one run, from its first operation on; None stands for a document that the
      splitter refuses. */
  method ExecuteRun(runs: seq<Run>, ghost all: seq<Op>, r: nat, ordered: bool, setting: Setting, full: FullResult,
                    ghost before: seq<Batch>)
    returns (refused: bool, ghost history: seq<Batch>, ghost sent: nat)
    requires r < |runs| && ValidHistory(runs, all, before) && full.View() == MergeAll(runs, all, before)
    requires ValidSetting(setting)
    modifies full
    ensures ValidHistory(runs, all, history) && full.View() == MergeAll(runs, all, history)
    ensures before <= history && sent <= |runs[r].indexMap|
    ensures SentAll(runs, all, history) == SentAll(runs, all, before) + runs[r].indexMap[..sent]
    ensures sent < |runs[r].indexMap| && !refused ==>
              ordered && |before| < |history| && history[|history| - 1].reply.writeErrors.Some?
    ensures refused ==> Refuses(runs[r], r, sent, setting)
  {
    hide MergeAll, SentAll, Merge, FullResult.View, OpMsg.BatchSpec, Code, Refuses, Split;
    var run := runs[r];
    history, sent, refused := before, 0, false;
    var offset := 0;
    assert SentAll(runs, all, before) + run.indexMap[..0] == SentAll(runs, all, before);
    while offset < |run.ops|
      invariant offset == sent <= |run.ops| && ValidHistory(runs, all, history) && before <= history
      invariant full.View() == MergeAll(runs, all, history) && !refused
      invariant SentAll(runs, all, history) == SentAll(runs, all, before) + run.indexMap[..offset]
      decreases |run.ops| - offset
    {
      var size := NextBatch(run, r, offset, setting);
      if size.None? {
        refused := true;
        return;
      }
      var reply := setting.serve(r, offset, size.value);
      ghost var b := Batch(r, offset, size.value, reply);
      HistoryGrows(runs, all, history, b);
      full.MergeCommand(run, offset, reply);
      history, sent := history + [b], sent + size.value;
      assert run.indexMap[..sent] == run.indexMap[..offset] + Sent(runs, b);
      if ordered && reply.writeErrors.Some? {
        break;
      }
      offset := offset + size.value;
    }
  }

  /** `_execute_command` over acknowledged writes: the full result is the merge of the commands sent,
      and those commands send the operations in the order of the runs, each once.  Everything is
      sent unless a document is refused or an ordered bulk stops at an error. */
  method ExecuteCommand(runs: seq<Run>, ghost all: seq<Op>, ordered: bool, setting: Setting)
    returns (full: FullResult, refused: bool, ghost history: seq<Batch>)
    requires ValidRuns(runs, all) && ValidSetting(setting)
    ensures ValidHistory(runs, all, history) && full.View() == MergeAll(runs, all, history)
    ensures !ordered || NoEmptyLists(history) ==> SentAll(runs, all, history) <= Positions(runs)
    ensures !refused && (!ordered || (NoEmptyLists(history) && Reported(runs, all, history) == [])) ==>
              SentAll(runs, all, history) == Positions(runs)
    ensures refused ==> exists r, o: nat :: 0 <= r < |runs| && Refuses(runs[r], r, o, setting)
  {
    hide Refuses, MergeAll, Merge, ValidRuns, ValidHistory, Reported, SentAll, Positions, NoEmptyLists, Reply.InRange,
         UpsertedAt, SumN, ValidSetting;
    full := new FullResult();
    history, refused := [], false;
    NothingMerged(runs, all);
    var r := 0;
    while r < |runs|
      invariant r <= |runs| && ValidHistory(runs, all, history) && full.View() == MergeAll(runs, all, history)
      invariant !ordered || NoEmptyLists(history) ==> SentAll(runs, all, history) == Positions(runs[..r])
      invariant !refused
    {
      ghost var before := history;
      ghost var sent;
      refused, history, sent := ExecuteRun(runs, all, r, ordered, setting, full, before);
      MergedMeansReported(runs, all, history);
      AfterRun(runs, all, before, history, r, sent, ordered, refused);
      if refused || (ordered && full.writeErrors != []) {
        return;
      }
      r := r + 1;
    }
    assert runs[..r] == runs;
  }

  /** What one run adds, and that an incomplete one shows in the reports. */
  lemma {:induction false} AfterRun(runs: seq<Run>, all: seq<Op>, before: seq<Batch>, history: seq<Batch>, r: nat,
                                    sent: nat, ordered: bool, refused: bool)
    requires r < |runs| && ValidHistory(runs, all, history) && ValidHistory(runs, all, before) && before <= history
    requires sent <= |runs[r].indexMap|
    requires SentAll(runs, all, history) == SentAll(runs, all, before) + runs[r].indexMap[..sent]
    requires sent < |runs[r].indexMap| && !refused ==>
               ordered && |before| < |history| && history[|history| - 1].reply.writeErrors.Some?
    requires !ordered || NoEmptyLists(before) ==> SentAll(runs, all, before) == Positions(runs[..r])
    ensures !ordered || NoEmptyLists(history) ==> SentAll(runs, all, history) <= Positions(runs)
    ensures !refused && (!ordered || (NoEmptyLists(history) && Reported(runs, all, history) == [])) ==>
              SentAll(runs, all, history) == Positions(runs[..r + 1])
  {
    hide SentAll, Reported, MergeAll, ValidHistory;
    assert NoEmptyLists(history) ==> NoEmptyLists(before) by {
      assert forall h :: 0 <= h < |before| ==> before[h] == history[h];
    }
    assert runs[..r + 1][..r] == runs[..r];
    PositionsOfPrefix(runs, r + 1);
    if sent == |runs[r].indexMap| {
      assert runs[r].indexMap[..sent] == runs[r].indexMap;
    } else if NoEmptyLists(history) && !refused {
      LastErrorsCount(runs, all, history);
    }
  }

  lemma {:induction false} NothingMerged(runs: seq<Run>, all: seq<Op>)
    requires ValidRuns(runs, all)
    ensures ValidHistory(runs, all, []) && MergeAll(runs, all, []) == ZERO && SentAll(runs, all, []) == []
    ensures Positions(runs[..0]) == []
    ensures NoEmptyLists([])
  {
  }

  lemma {:induction false} LastErrorsCount(runs: seq<Run>, all: seq<Op>, history: seq<Batch>)
    requires ValidHistory(runs, all, history) && history != []
    requires history[|history| - 1].reply.Errors() != []
    ensures Reported(runs, all, history) != []
  {
  }
}
