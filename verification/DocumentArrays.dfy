/**
 `_array_of_documents_to_buffer` of bson/__init__.py on arbitrary bytes.  A declared size may be
 negative, so the position can move backwards, become negative, and come back to where it was; the
 loop then never ends.  `Turn` is one turn of the loop, and the theorems say when the loop ends and
 what it returns.
 */
module DocumentArrays {
  import opened Bytes
  import opened Grammar
  import opened Decoder
  import opened Streams

  // ---- positions that may be negative ---------------------------------------------------

  /** `_UNPACK_INT_FROM(data, pos)[0]`: a negative offset counts from the end. */
  function UnpackIntAt(data: Bytes, pos: int): (r: Option<int>)
  {
    if pos >= 0 then UnpackIntFrom(data, pos)
    else if pos + 4 <= 0 && |data| + pos >= 0 then UnpackIntFrom(data, |data| + pos)
    else None
  }

  /** Offsets and indices down to minus the length count from the end; others are refused. */
  lemma {:induction false} NegativeOffsets(data: Bytes, k: int)
    requires k > 0
    ensures UnpackIntAt(data, -k)
            == if 4 <= k <= |data| then Some(UnpackInt32(data[|data| - k..|data| - k + 4])) else None
    ensures At(data, -k) == if k <= |data| then Some(data[|data| - k]) else None
  {
  }

  /** `_get_object_size`. */
  function SizeAt(data: Bytes, pos: int, objEnd: int): (r: Option<int>)
    ensures r.Some? ==> -|data| <= pos + r.value - 1 < |data| && pos + r.value - 1 < objEnd
  {
    var size := UnpackIntAt(data, pos);
    if size.None? then None
    else
      var end := pos + size.value - 1;
      if end >= objEnd || At(data, end) != Some(0) then None
      else if pos == 0 && size.value != objEnd then None
      else size
  }

  lemma {:induction false} SizeAtIsGetObjectSize(data: Bytes, pos: nat, objEnd: int)
    ensures SizeAt(data, pos, objEnd).Some? <==> GetObjectSize(data, pos, objEnd).Some?
    ensures SizeAt(data, pos, objEnd).Some? ==>
              GetObjectSize(data, pos, objEnd).value.0 == SizeAt(data, pos, objEnd).value
  {
  }

  /** The index of the NUL that ends the key, or nothing when the scan runs out of the data. */
  function KeyEnd(data: Bytes, pos: int): (r: Option<int>)
    decreases |data| - pos
    ensures r.Some? ==> pos <= r.value < |data|
  {
    var b := At(data, pos);
    if b.None? then None
    else if b.value == 0 then Some(pos)
    else KeyEnd(data, pos + 1)
  }

  // ---- the loop -------------------------------------------------------------------------

  /** Where the loop stands: going on, left with these buffers, or raised. */
  datatype Status = Looping(pos: int, buffers: Bytes) | Left(pos: int, buffers: Bytes) | Failed

  /** One test of the guard and one turn. */
  function Turn(data: Bytes, end: int, s: Status): (r: Status)
  {
    if !s.Looping? then s
    else if s.pos >= end - 1 then Left(s.pos, s.buffers)
    else
      var key := KeyEnd(data, s.pos);
      if key.None? then Failed
      else
        var size := SizeAt(data, key.value + 1, end);
        if size.None? then Failed
        else
          var pos := key.value + 1;
          Looping(pos + size.value, s.buffers + Slice(data, pos, pos + size.value))
  }

  function Turns(data: Bytes, end: int, s: Status, n: nat): (r: Status)
    decreases n
  {
    if n == 0 then s else Turns(data, end, Turn(data, end, s), n - 1)
  }

  function Begin(): (s: Status) { Looping(4, []) }

  /** The loop after `n` turns. */
  function After(data: Bytes, end: int, n: nat): (r: Status)
  {
    Turns(data, end, Begin(), n)
  }

  lemma {:induction false} TurnsAdd(data: Bytes, end: int, s: Status, n: nat, m: nat)
    ensures Turns(data, end, s, n + m) == Turns(data, end, Turns(data, end, s, n), m)
    decreases n
  {
    hide Turn;
    if n > 0 {
      TurnsAdd(data, end, Turn(data, end, s), n - 1, m);
    }
  }

  lemma {:induction false} EndedStays(data: Bytes, end: int, s: Status, n: nat)
    requires !s.Looping?
    ensures Turns(data, end, s, n) == s
  {
    if n > 0 {
      EndedStays(data, end, s, n - 1);
    }
  }

  lemma {:induction false} AfterNext(data: Bytes, end: int, n: nat)
    ensures After(data, end, n + 1) == Turn(data, end, After(data, end, n))
  {
    TurnsAdd(data, end, Begin(), n, 1);
    assert Turns(data, end, After(data, end, n), 1) == Turns(data, end, Turn(data, end, After(data, end, n)), 0);
  }

  /** A loop that is going on after `n` turns was going on before. */
  lemma {:induction false} LoopedBefore(data: Bytes, end: int, i: nat, n: nat)
    requires i <= n && After(data, end, n).Looping?
    ensures After(data, end, i).Looping?
  {
    TurnsAdd(data, end, Begin(), i, n - i);
    if !After(data, end, i).Looping? {
      EndedStays(data, end, After(data, end, i), n - i);
    }
  }

  /** Positions stay within the data, counted from either end. */
  lemma {:induction false} PositionBounds(data: Bytes, end: int, n: nat)
    requires After(data, end, n).Looping?
    ensures n > 0 ==> -|data| < After(data, end, n).pos <= |data|
  {
    if n > 0 {
      AfterNext(data, end, n - 1);
    }
  }

  // ---- when it ends ---------------------------------------------------------------------

  /** The loop comes back to a position. */
  ghost predicate Revisits(data: Bytes, end: int, i: nat, j: nat)
  {
    i < j && After(data, end, j).Looping? && After(data, end, i).Looping?
    && After(data, end, i).pos == After(data, end, j).pos
  }

  /** What happens next depends only on the position. */
  lemma {:induction false} SameFuture(data: Bytes, end: int, s: Status, t: Status, m: nat)
    requires s.Looping? && t.Looping? && s.pos == t.pos
    ensures Turns(data, end, s, m).Looping? <==> Turns(data, end, t, m).Looping?
    decreases m
  {
    hide KeyEnd, SizeAt, Slice;
    if m > 0 {
      var s', t' := Turn(data, end, s), Turn(data, end, t);
      if s'.Looping? {
        SameFuture(data, end, s', t', m - 1);
      } else {
        EndedStays(data, end, s', m - 1);
        EndedStays(data, end, t', m - 1);
      }
    }
  }

  lemma {:induction false} RevisitIsForEver(data: Bytes, end: int, i: nat, j: nat, n: nat)
    requires Revisits(data, end, i, j)
    ensures After(data, end, n).Looping?
    decreases n
  {
    if n <= j {
      LoopedBefore(data, end, n, j);
    } else {
      RevisitIsForEver(data, end, i, j, n - (j - i));
      TurnsAdd(data, end, Begin(), i, n - j);
      TurnsAdd(data, end, Begin(), j, n - j);
      SameFuture(data, end, After(data, end, i), After(data, end, j), n - j);
    }
  }

  /** More values than room for them: one occurs twice. */
  lemma {:induction false} Pigeonhole(s: seq<int>, lo: int, hi: int) returns (i: nat, j: nat)
    requires lo < hi && |s| > hi - lo && forall k :: 0 <= k < |s| ==> lo <= s[k] < hi
    ensures i < j < |s| && s[i] == s[j]
    decreases hi - lo
  {
    if k :| 0 <= k < |s| && s[k] == hi - 1 {
      var rest := s[..k] + s[k + 1..];
      if m :| 0 <= m < |rest| && rest[m] == hi - 1 {
        var other := if m < k then m else m + 1;
        i, j := if k < other then k else other, if k < other then other else k;
      } else {
        assert lo <= rest[0] < hi - 1;
        i, j := Pigeonhole(rest, lo, hi - 1);
        i, j := if i < k then i else i + 1, if j < k then j else j + 1;
      }
    } else {
      assert lo <= s[0] < hi - 1;
      i, j := Pigeonhole(s, lo, hi - 1);
    }
  }

  /** A turn for every position there could be. */
  function Bound(data: Bytes): (n: nat) { 2 * |data| + 1 }

  /** The loop ends if and only if it has ended after twice as many turns as there are bytes, and it
      runs for ever if and only if it comes back to a position. */
  lemma {:induction false} EndsIff(data: Bytes, end: int)
    ensures (forall n: nat :: After(data, end, n).Looping?) <==> After(data, end, Bound(data)).Looping?
    ensures After(data, end, Bound(data)).Looping? <==> exists i: nat, j: nat :: Revisits(data, end, i, j)
  {
    hide After;
    var n := Bound(data);
    if After(data, end, n).Looping? {
      forall k | 1 <= k <= n ensures After(data, end, k).Looping? && -|data| < After(data, end, k).pos <= |data| {
        LoopedBefore(data, end, k, n);
        PositionBounds(data, end, k);
      }
      var s := seq(n, k requires 0 <= k < n => After(data, end, k + 1).pos);
      var i, j := Pigeonhole(s, -|data| + 1, |data| + 1);
      assert Revisits(data, end, i + 1, j + 1);
    }
    if i: nat, j: nat :| Revisits(data, end, i, j) {
      forall n: nat ensures After(data, end, n).Looping? {
        RevisitIsForEver(data, end, i, j, n);
      }
    }
  }

  /** Every declared size met on the way keeps the position moving forward. */
  ghost predicate MovesForward(data: Bytes, end: int)
  {
    forall n: nat :: After(data, end, n).Looping? && After(data, end, n + 1).Looping? ==>
      After(data, end, n).pos < After(data, end, n + 1).pos
  }

  lemma {:induction false} Ascends(data: Bytes, end: int, i: nat, j: nat)
    requires MovesForward(data, end) && i < j && After(data, end, j).Looping?
    ensures After(data, end, i).Looping? && After(data, end, i).pos < After(data, end, j).pos
    decreases j
  {
    hide After;
    LoopedBefore(data, end, j - 1, j);
    assert After(data, end, (j - 1) + 1).Looping?;
    if i < j - 1 {
      Ascends(data, end, i, j - 1);
    }
  }

  /** Then the loop ends. */
  lemma {:induction false} ForwardEnds(data: Bytes, end: int)
    requires MovesForward(data, end)
    ensures !After(data, end, Bound(data)).Looping?
  {
    hide After;
    EndsIff(data, end);
    if i: nat, j: nat :| Revisits(data, end, i, j) {
      Ascends(data, end, i, j);
    }
  }

  /** No declared size that would be accepted is negative: the condition on the bytes themselves. */
  ghost predicate NoNegativeSize(data: Bytes, end: int)
  {
    forall pos :: SizeAt(data, pos, end).Some? ==> SizeAt(data, pos, end).value >= 0
  }

  lemma {:induction false} NoNegativeSizeEnds(data: Bytes, end: int)
    requires NoNegativeSize(data, end)
    ensures MovesForward(data, end) && !After(data, end, Bound(data)).Looping?
  {
    hide After, SizeAt, Slice;
    forall n: nat | After(data, end, n).Looping? && After(data, end, n + 1).Looping?
      ensures After(data, end, n).pos < After(data, end, n + 1).pos
    {
      AfterNext(data, end, n);
    }
    ForwardEnds(data, end);
  }

  // ---- the whole function ---------------------------------------------------------------

  datatype Outcome = Returned(bytes: Bytes) | Raised | Endless

  /** What the function does with any bytes. */
  function Specified(data: Bytes): (r: Outcome)
  {
    var size := SizeAt(data, 0, |data|);
    if size.None? then Raised
    else
      var end := size.value - 1;
      match After(data, end, Bound(data))
      case Looping(_, _) => Endless
      case Failed => Raised
      case Left(pos, buffers) => if pos == end then Returned(buffers) else Raised
  }

  /** The first number of turns after which the loop has ended decides what is returned. */
  lemma {:induction false} SpecifiedByAnyEnd(data: Bytes, n: nat)
    requires SizeAt(data, 0, |data|).Some? && !After(data, SizeAt(data, 0, |data|).value - 1, n).Looping?
    ensures var end := SizeAt(data, 0, |data|).value - 1;
            After(data, end, Bound(data)) == After(data, end, n)
  {
    hide Turns, SizeAt;
    var end := SizeAt(data, 0, |data|).value - 1;
    EndsIff(data, end);
    var b := Bound(data);
    if n <= b {
      TurnsAdd(data, end, Begin(), n, b - n);
      EndedStays(data, end, After(data, end, n), b - n);
    } else {
      TurnsAdd(data, end, Begin(), b, n - b);
      EndedStays(data, end, After(data, end, b), n - b);
    }
  }

  /** `_array_of_documents_to_buffer`.  The count of turns is the model's own: by `EndsIff` it stops
      exactly the runs that would never end. */
  method ArrayOfDocumentsToBuffer(data: Bytes) returns (r: Outcome)
    ensures r == Specified(data)
  {
    hide Turns, SizeAt, Slice;
    var size := SizeAt(data, 0, |data|);
    if size.None? {
      return Raised;
    }
    var end := size.value - 1;
    var position: int := 4;
    var buffers: Bytes := [];
    var turns := 0;
    NoTurns(data, end);
    while position < end - 1 && turns < Bound(data)
      invariant turns <= Bound(data) && After(data, end, turns) == Looping(position, buffers)
      decreases Bound(data) - turns
    {
      AfterNext(data, end, turns);
      var keyEnd := SkipKey(data, position);
      var objSize := if keyEnd.None? then None else SizeAt(data, keyEnd.value + 1, end);
      if objSize.None? {
        SpecifiedByAnyEnd(data, turns + 1);
        return Raised;
      }
      position := keyEnd.value + 1;
      buffers := buffers + Slice(data, position, position + objSize.value);
      position := position + objSize.value;
      turns := turns + 1;
    }
    if position < end - 1 {
      return Endless;
    }
    AfterNext(data, end, turns);
    SpecifiedByAnyEnd(data, turns + 1);
    return if position != end then Raised else Returned(buffers);
  }

  lemma {:induction false} NoTurns(data: Bytes, end: int)
    ensures After(data, end, 0) == Looping(4, [])
  {
  }

  /** The inner loop: forward to the NUL that ends the key. */
  method SkipKey(data: Bytes, start: int) returns (r: Option<int>)
    ensures r == KeyEnd(data, start)
  {
    var position := start;
    while At(data, position).Some? && At(data, position) != Some(0)
      invariant KeyEnd(data, start) == KeyEnd(data, position)
      decreases |data| - position
    {
      position := position + 1;
    }
    return if At(data, position).None? then None else Some(position);
  }

  // ---- arrays of documents --------------------------------------------------------------

  /** One entry: its key is skipped and its document taken. */
  lemma {:induction false} EntryTurn(names: seq<Bytes>, docs: seq<Bytes>, data: Bytes, pos: nat, end: int,
                                     buffers: Bytes)
    requires docs != [] && |names| == |docs| && Entries(names, docs)
    requires Has(data, pos, ArrayBody(names, docs)) && pos + |ArrayBody(names, docs)| == end < |data|
    ensures var next := pos + |names[0]| + 2 + |docs[0]|;
            && Turn(data, end, Looping(pos, buffers)) == Looping(next, buffers + docs[0])
            && Has(data, next, ArrayBody(names[1..], docs[1..]))
            && next + |ArrayBody(names[1..], docs[1..])| == end && Entries(names[1..], docs[1..])
  {
    hide Has, Framed, GetObjectSize, ArrayBody, SizeAt;
    BodyLength(names, docs);
    EntryAt(names, docs, data, pos, end);
    KeyIsFound(data, pos, [0x03] + names[0]);
    SizeAtIsGetObjectSize(data, pos + |names[0]| + 2, end);
  }

  lemma {:induction false} KeyIsFound(data: Bytes, pos: nat, key: Bytes)
    requires NoNul(key) && Has(data, pos, key + [0])
    ensures KeyEnd(data, pos) == Some(pos + |key|)
    decreases |key|
  {
    if key == [] {
      assert data[pos] == (key + [0])[0];
    } else {
      assert data[pos] == (key + [0])[0] == key[0];
      assert key + [0] == [key[0]] + (key[1..] + [0]);
      HasSplit(data, pos, [key[0]], key[1..] + [0]);
      KeyIsFound(data, pos + 1, key[1..]);
    }
  }

  lemma {:induction false} EntriesTurns(names: seq<Bytes>, docs: seq<Bytes>, data: Bytes, pos: nat, end: int,
                                        buffers: Bytes)
    requires |names| == |docs| && Entries(names, docs)
    requires Has(data, pos, ArrayBody(names, docs)) && pos + |ArrayBody(names, docs)| == end < |data|
    ensures Turns(data, end, Looping(pos, buffers), |docs| + 1) == Left(end, buffers + Flatten(docs))
    decreases |docs|
  {
    hide Entries, Has, Framed, Turn, Turns;
    BodyLength(names, docs);
    if docs == [] {
      OneTurn(data, end, Looping(pos, buffers));
      GuardFails(data, end, pos, buffers);
      assert buffers + [] == buffers;
    } else {
      EntryTurn(names, docs, data, pos, end, buffers);
      var next := pos + |names[0]| + 2 + |docs[0]|;
      EntriesTurns(names[1..], docs[1..], data, next, end, buffers + docs[0]);
      TurnsAdd(data, end, Looping(pos, buffers), 1, |docs|);
      OneTurn(data, end, Looping(pos, buffers));
      assert buffers + docs[0] + Flatten(docs[1..]) == buffers + Flatten(docs);
    }
  }

  lemma {:induction false} OneTurn(data: Bytes, end: int, s: Status)
    ensures Turns(data, end, s, 1) == Turn(data, end, s)
  {
    hide Turn;
    assert Turns(data, end, Turn(data, end, s), 0) == Turn(data, end, s);
  }

  lemma {:induction false} GuardFails(data: Bytes, end: int, pos: int, buffers: Bytes)
    requires pos >= end - 1
    ensures Turn(data, end, Looping(pos, buffers)) == Left(pos, buffers)
  {
  }

  /** On an array of documents the loop ends, and the result is exactly the concatenation of them. */
  lemma {:induction false} ArrayIsConcatenated(data: Bytes, names: seq<Bytes>, docs: seq<Bytes>)
    requires |names| == |docs| && Entries(names, docs) && |ArrayBody(names, docs)| + 5 <= MAX_INT32
    requires data == Container(ArrayBody(names, docs))
    ensures Specified(data) == Returned(Flatten(docs))
  {
    hide Entries, Has, Turns, ArrayBody, Container, GetObjectSize, SizeAt;
    var body := ArrayBody(names, docs);
    HeaderAt(body);
    SizeAtIsGetObjectSize(data, 0, |data|);
    EntriesTurns(names, docs, data, 4, |body| + 4, []);
    assert [] + Flatten(docs) == Flatten(docs);
    SpecifiedByAnyEnd(data, |docs| + 1);
  }

  // ---- bytes on which the source never returns ------------------------------------------

  /** Twelve bytes: an array with one entry, whose declared size is -3. */
  const ENDLESS: Bytes := [12, 0, 0, 0, 3, 0x30, 0, 0xfd, 0xff, 0xff, 0xff, 0]

  /** The position goes from 4 to 7 and back to 4, for ever. */
  lemma {:induction false} EndlessInput(n: nat)
    ensures SizeAt(ENDLESS, 0, 12) == Some(12) && SizeAt(ENDLESS, 7, 11) == Some(-3)
    ensures After(ENDLESS, 11, n).Looping?
    ensures Specified(ENDLESS) == Endless
  {
    hide After, Turn, Turns, KeyEnd, SizeAt;
    EndlessSizes();
    NoTurns(ENDLESS, 11);
    AfterNext(ENDLESS, 11, 0);
    EndlessTurn();
    assert Revisits(ENDLESS, 11, 0, 1);
    RevisitIsForEver(ENDLESS, 11, 0, 1, n);
    RevisitIsForEver(ENDLESS, 11, 0, 1, Bound(ENDLESS));
  }

  lemma {:induction false} EndlessSizes()
    ensures SizeAt(ENDLESS, 0, 12) == Some(12) && SizeAt(ENDLESS, 7, 11) == Some(-3)
  {
    var d := ENDLESS;
    assert d[0..4] == [d[0], d[1], d[2], d[3]] && d[7..11] == [d[7], d[8], d[9], d[10]];
    FourBytes(12, 0, 0, 0);
    FourBytes(0xfd, 0xff, 0xff, 0xff);
  }

  lemma {:induction false} FourBytes(a: byte, b: byte, c: byte, d: byte)
    ensures FromLe([a, b, c, d]) == a + 256 * (b + 256 * (c + 256 * d))
  {
    assert [d][1..] == [] && [c, d][1..] == [d] && [b, c, d][1..] == [c, d] && [a, b, c, d][1..] == [b, c, d];
    assert FromLe([d]) == d;
    assert FromLe([c, d]) == c + 256 * d;
    assert FromLe([b, c, d]) == b + 256 * (c + 256 * d);
  }

  lemma {:induction false} EndlessTurn()
    ensures Turn(ENDLESS, 11, Looping(4, [])) == Looping(4, [])
  {
    hide SizeAt;
    EndlessSizes();
    assert KeyEnd(ENDLESS, 6) == Some(6);
    assert KeyEnd(ENDLESS, 5) == Some(6);
    assert KeyEnd(ENDLESS, 4) == Some(6);
    assert Slice(ENDLESS, 7, 4) == [];
  }

  /** Sizes below five: the smallest that a document can have is not enforced, but one never passes. */
  lemma {:induction false} SizeOneIsRefused(data: Bytes, pos: nat, objEnd: int)
    ensures SizeAt(data, pos, objEnd) != Some(1)
  {
    if pos + 4 <= |data| {
      FirstByteOfOne(data[pos..pos + 4]);
    }
  }

  lemma {:induction false} FirstByteOfOne(s: Bytes)
    requires |s| == 4
    ensures UnpackInt32(s) == 1 ==> s[0] == 1
  {
    UnpackInt32RoundTrip(s);
    assert PackInt32(1)[0] == 1;
  }

  /** An entry of declared size 0, 2, 3 or 4 is taken as it is: nothing, or the first bytes of what follows. */
  lemma {:induction false} SmallSizesAreTaken(data: Bytes, pos: nat, end: int, buffers: Bytes, size: int)
    requires pos < end - 1 && KeyEnd(data, pos).Some? && 0 <= size <= 4
    requires SizeAt(data, KeyEnd(data, pos).value + 1, end) == Some(size)
    ensures var at := KeyEnd(data, pos).value + 1;
            && size != 1 && at + size <= |data|
            && Turn(data, end, Looping(pos, buffers)) == Looping(at + size, buffers + data[at..at + size])
            && pos < at + size
  {
    hide SizeAt, KeyEnd;
    SizeOneIsRefused(data, KeyEnd(data, pos).value + 1, end);
  }
}
