/**
 The C form of the OP_MSG splitter, `_batched_op_msg` of pymongo/_cmessagemodule.c: it encodes a
 document straight into the buffer, looks at where that left the position, and rolls the position
 back when the document does not belong to this batch.  It refines the Python form, which encodes
 to a separate string and looks ahead, on the documents as the C encoder sees them.
 */
module CBatch {
  import opened Bytes
  import opened Bson
  import opened Encoder
  import opened OpMsg
  import opened CBuffer
  import opened CValues
  import CWriter
  import Streams
  import Expectation = ReadBack

  /** `Overflow` is the C-only failure: the buffer would outgrow a C int. */
  datatype Result = Batch(sent: seq<Fields>) | Failed(failure: Failure) | Overflow

  /** The documents as the C encoder sees them. */
  function AsCDocs(docs: seq<Fields>): (r: seq<Fields>)
    ensures |r| == |docs|
  {
    seq(|docs|, i requires 0 <= i < |docs| => AsCAll(docs[i]))
  }

  /** Some document, written where the loop stands when it reaches it, would pass 2 GiB. */
  ghost predicate PassesIntLimit(docs: seq<Fields>, base: nat)
  {
    exists k :: 0 <= k < |docs| && DocumentPasses(docs, k, base)
  }

  ghost predicate DocumentPasses(docs: seq<Fields>, k: nat, base: nat)
    requires k < |docs|
  {
    && EncodeDocument(docs[k], false).Some? && Streams.EncodeStream(docs[..k]).Some?
    && base + |Stream(docs[..k])| + |EncodeDocument(docs[k], false).value| > MAX_INT32
  }

  /** Writes that can only fail for lack of room. */
  method Put(buffer: Buffer, s: Bytes, ghost open: Bytes, ghost done: Bytes) returns (ok: bool)
    requires buffer.Valid() && |s| <= MAX_INT32 && buffer.Contents() == open + done
    modifies buffer, buffer.data
    ensures buffer.Valid() && (buffer.data == old(buffer.data) || fresh(buffer.data))
    ensures ok <==> |open| + |done| + |s| <= MAX_INT32
    ensures ok ==> buffer.Contents() == open + (done + s)
  {
    ok := buffer.Write(s);
    assert open + done + s == open + (done + s);
  }

  /** Flags, the type-0 section, and the type byte of the document section. */
  method WriteCommandSection(buffer: Buffer, ack: bool, command: Fields) returns (ok: bool)
    requires buffer.Valid() && EncodeNested(AsCAll(command), false).Some?
    modifies buffer, buffer.data
    ensures buffer.Valid() && (buffer.data == old(buffer.data) || fresh(buffer.data))
    ensures var c, cmd := old(buffer.Contents()), EncodeNested(AsCAll(command), false).value;
            && ok == (|c| + |cmd| + 6 <= MAX_INT32)
            && (ok ==> buffer.Contents() == c + (Flags(ack) + [0] + cmd + [1]))
  {
    hide EncodeNested, AsCAll, Flags;
    ghost var c, cmd := buffer.Contents(), EncodeNested(AsCAll(command), false).value;
    FourFlags(ack);
    assert c + [] == c && [] + Flags(ack) == Flags(ack);
    ok := Put(buffer, Flags(ack), c, []);
    if !ok {
      return;
    }
    ok := Put(buffer, [0], c, Flags(ack));
    if !ok {
      return;
    }
    ok := CWriter.WriteDict(buffer, command, false);
    if !ok {
      return;
    }
    assert c + (Flags(ack) + [0]) + cmd == c + (Flags(ack) + [0] + cmd);
    assert buffer.Contents() == c + (Flags(ack) + [0] + cmd);
    ok := Put(buffer, [1], c, Flags(ack) + [0] + cmd);
  }

  /** The command section, four bytes saved for the size, and the identifier. */
  method WritePreamble(buffer: Buffer, ack: bool, command: Fields, identifier: Bytes) returns (sizeLocation: int)
    requires buffer.Valid() && |identifier| <= 10 && EncodeNested(AsCAll(command), false).Some?
    modifies buffer, buffer.data
    ensures buffer.Valid() && (buffer.data == old(buffer.data) || fresh(buffer.data))
    ensures var c, cmd := old(buffer.Contents()), EncodeNested(AsCAll(command), false).value;
            if |c| + |cmd| + |identifier| + 10 > MAX_INT32 then sizeLocation == -1
            else && sizeLocation == |c| + |cmd| + 6
                 && |buffer.Contents()| == |c| + |cmd| + |identifier| + 10
                 && buffer.Contents()[..sizeLocation] == c + (Flags(ack) + [0] + cmd + [1])
                 && buffer.Contents()[sizeLocation + 4..] == identifier
  {
    hide EncodeNested;
    var ok := WriteCommandSection(buffer, ack, command);
    if !ok {
      return -1;
    }
    sizeLocation := buffer.SaveSpace(4);
    if sizeLocation == -1 {
      return -1;
    }
    ghost var open := buffer.Contents();
    ok := buffer.Write(identifier);
    if !ok {
      return -1;
    }
    assert (open + identifier)[..sizeLocation] == open[..sizeLocation];
    assert (open + identifier)[sizeLocation + 4..] == identifier;
  }

  /** The loop: write the document, then decide; `start` is what precedes the documents. */
  method AppendDocuments(buffer: Buffer, docs: seq<Fields>, ack: bool, limits: Limits) returns (r: Result)
    requires buffer.Valid()
    modifies buffer, buffer.data
    ensures buffer.Valid() && (buffer.data == old(buffer.data) || fresh(buffer.data))
    ensures var seen := AsCDocs(docs);
            var n := Select(seen, 0, old(|buffer.Contents()|), ack, limits);
            match r
            case Overflow => PassesIntLimit(seen, old(|buffer.Contents()|))
            case Failed(f) => n == Raised(f)
            case Batch(sent) =>
              && n.Done? && sent == docs[..n.value] && Streams.EncodeStream(seen[..n.value]).Some?
              && buffer.Contents() == old(buffer.Contents()) + Stream(seen[..n.value])
  {
    hide EncodeDocument, AsCAll, Streams.EncodeStream;
    ghost var start := buffer.Contents();
    ghost var seen := AsCDocs(docs);
    EmptyPrefix(seen);
    ghost var spec := Select(seen, 0, |start|, ack, limits);
    var toPublish: seq<Fields> := [];
    var idx := 0;
    assert start + [] == start && seen[..0] == [];
    while idx < |docs|
      invariant 0 <= idx <= |docs| && toPublish == docs[..idx] && buffer.Valid()
      invariant buffer.data == old(buffer.data) || fresh(buffer.data)
      invariant Streams.EncodeStream(seen[..idx]).Some? && buffer.Contents() == start + Stream(seen[..idx])
      invariant spec == Select(seen, idx, |buffer.Contents()|, ack, limits)
    {
      var curDocBegin := buffer.position;
      ghost var kept := buffer.Contents();
      var value := EncodeDocument(AsCAll(docs[idx]), false);
      var ok := CWriter.WriteDict(buffer, docs[idx], true);
      if !ok {
        assert value.Some? ==> DocumentPasses(seen, idx, |start|);
        return if value.None? then Failed(NotEncodable) else Overflow;
      }
      var curSize := buffer.position - curDocBegin;
      var docTooLarge := idx == 0 && buffer.position > limits.maxMessageSize;
      var unackedDocTooLarge := !ack && curSize > limits.maxBsonSize;
      if docTooLarge || unackedDocTooLarge {
        return Failed(DocumentTooLarge(curSize));
      }
      if buffer.position > limits.maxMessageSize {
        // Roll back to the beginning of the last document encoded.
        buffer.UpdatePosition(curDocBegin);
        assert buffer.Contents() == kept;
        return Batch(toPublish);
      }
      StreamSnoc(seen, idx);
      assert start + Stream(seen[..idx]) + value.value == start + (Stream(seen[..idx]) + value.value);
      toPublish := toPublish + [docs[idx]];
      assert toPublish == docs[..idx + 1];
      idx := idx + 1;
      if idx == limits.maxWriteBatchSize {
        return Batch(toPublish);
      }
    }
    return Batch(toPublish);
  }

  /** `_batched_op_msg`: for every command without a top-level `_id` the same bytes, the same documents
      and the same refusals as the look-ahead form has for the documents as the C encoder sees them;
      the only other outcome is the 2 GiB failure. */
  method BatchedOpMsg(buffer: Buffer, operation: int, command: Fields, docs: seq<Fields>, ack: bool, limits: Limits)
    returns (r: Result)
    requires buffer.Valid() && !HasKey(command, ID_KEY)
    modifies buffer, buffer.data
    ensures buffer.Valid() && (buffer.data == old(buffer.data) || fresh(buffer.data))
    ensures var c, cmd, seen := old(buffer.Contents()), AsCAll(command), AsCDocs(docs);
            var spec := BatchSpec(operation, cmd, seen, ack, limits, |c|);
            match r
            case Overflow =>
              && EncodeDocument(cmd, false).Some? && OpMsgIdentifier(operation).Some?
              && (Base(|c|, cmd, operation) > MAX_INT32 || PassesIntLimit(seen, Base(|c|, cmd, operation)))
            case Failed(f) => spec == Raised(f)
            case Batch(sent) =>
              && spec.Done? && sent == docs[..spec.value.0] && buffer.Contents() == c + spec.value.1
  {
    hide EncodeNested, HasKey, Select, OpMsgIdentifier, PassesIntLimit, Body, Preamble, PackInt32,
         Streams.EncodeStream, Flags,
         AsCAll, AsCDocs;
    ghost var c := buffer.Contents();
    AsCGet(command, ID_KEY);
    if EncodeNested(AsCAll(command), false).None? {
      return Failed(NotEncodable);
    }
    var identifier := OpMsgIdentifier(operation);
    if identifier.None? {
      return Failed(UnknownCommand);
    }
    IdentifierLength(operation);
    var sizeLocation := WritePreamble(buffer, ack, command, identifier.value);
    if sizeLocation == -1 {
      return Overflow;
    }
    ghost var open := buffer.Contents();
    r := AppendDocuments(buffer, docs, ack, limits);
    if !r.Batch? {
      return;
    }
    ghost var n := Select(AsCDocs(docs), 0, |open|, ack, limits).value;
    ghost var cmd, stream := EncodeNested(AsCAll(command), false).value, Stream(AsCDocs(docs)[..n]);
    PatchSize(buffer, sizeLocation, c, ack, cmd, identifier.value, stream, open);
  }

  /** Writes the size of the document section into the space saved for it. */
  method PatchSize(buffer: Buffer, sizeLocation: int, ghost c: Bytes, ghost ack: bool, ghost cmd: Bytes,
                   ghost identifier: Bytes, ghost stream: Bytes, ghost open: Bytes)
    requires buffer.Valid() && buffer.Contents() == open + stream
    requires sizeLocation == |c| + |cmd| + 6 && |open| == |c| + |cmd| + |identifier| + 10
    requires open[..sizeLocation] == c + (Flags(ack) + [0] + cmd + [1]) && open[sizeLocation + 4..] == identifier
    modifies buffer.data
    ensures buffer.Valid() && |identifier| + |stream| + 4 <= MAX_INT32
    ensures buffer.Contents() == c + Body(ack, cmd, identifier, stream)
  {
    hide Body, Flags, PackInt32;
    var length := buffer.position - sizeLocation;
    PatchedOpMsg(c, ack, cmd, identifier, stream, open);
    buffer.Patch(sizeLocation, PackInt32(length));
  }

  lemma {:induction false} IdentifierLength(operation: int)
    requires OpMsgIdentifier(operation).Some?
    ensures |OpMsgIdentifier(operation).value| <= 10
  {
  }

  lemma {:induction false} PatchedOpMsg(c: Bytes, ack: bool, cmd: Bytes, identifier: Bytes, stream: Bytes, open: Bytes)
    requires |open| == |c| + |cmd| + |identifier| + 10 && |open| + |stream| <= MAX_INT32
    requires open[..|c| + |cmd| + 6] == c + (Flags(ack) + [0] + cmd + [1])
    requires open[|c| + |cmd| + 10..] == identifier
    ensures var at := |c| + |cmd| + 6;
            var all := open + stream;
            all[..at] + PackInt32(|all| - at) + all[at + 4..] == c + Body(ack, cmd, identifier, stream)
  {
    hide PackInt32, Flags;
    var at := |c| + |cmd| + 6;
    var all := open + stream;
    var pre, size := Flags(ack) + [0] + cmd + [1], PackInt32(|all| - at);
    assert all[..at] == c + pre;
    assert all[at + 4..] == identifier + stream;
    assert Body(ack, cmd, identifier, stream) == pre + size + identifier + stream;
    Reassociate(c, pre, size, identifier, stream);
  }

  lemma {:induction false} Reassociate(a: Bytes, b: Bytes, c: Bytes, d: Bytes, e: Bytes)
    ensures a + b + c + (d + e) == a + (b + c + d + e)
  {
  }

  // ---- when the two splitters agree -----------------------------------------------------

  /** With `n` documents taken the loop over `docs` ends: there is no more, the count is reached, or
      the next one is encoded and does not fit. */
  ghost predicate StopsAt(docs: seq<Fields>, n: nat, base: nat, limits: Limits)
    requires n <= |docs|
  {
    || n == |docs| || n == limits.maxWriteBatchSize
    || (&& EncodeDocument(docs[n], false).Some? && Streams.EncodeStream(docs[..n]).Some?
        && base + |Stream(docs[..n])| + |EncodeDocument(docs[n], false).value| > limits.maxMessageSize)
  }

  lemma {:induction false} SelectStops(docs: seq<Fields>, i: nat, base: nat, ack: bool, limits: Limits)
    requires i <= |docs| && Streams.EncodeStream(docs[..i]).Some?
    requires Select(docs, i, base + |Stream(docs[..i])|, ack, limits).Done?
    ensures StopsAt(docs, Select(docs, i, base + |Stream(docs[..i])|, ack, limits).value, base, limits)
    decreases |docs| - i
  {
    hide EncodeDocument, Streams.EncodeStream;
    if i < |docs| {
      StreamSnoc(docs, i);
      var size := base + |Stream(docs[..i])| + |EncodeDocument(docs[i], false).value|;
      if size <= limits.maxMessageSize && i + 1 != limits.maxWriteBatchSize {
        SelectStops(docs, i + 1, base, ack, limits);
      }
    }
  }

  /** Document `k` of `seen` is encoded like document `k` of `docs`. */
  ghost predicate SameAt(docs: seq<Fields>, seen: seq<Fields>, k: nat)
    requires k < |docs| == |seen|
  {
    EncodeDocument(docs[k], false) == EncodeDocument(seen[k], false)
  }

  lemma {:induction false} SameStream(docs: seq<Fields>, seen: seq<Fields>, n: nat)
    requires n <= |docs| == |seen| && forall k :: 0 <= k < n ==> SameAt(docs, seen, k)
    ensures Streams.EncodeStream(docs[..n]) == Streams.EncodeStream(seen[..n])
  {
    hide EncodeDocument, Streams.EncodeStream;
    if n > 0 {
      SameStream(docs, seen, n - 1);
      assert docs[..n] == docs[..n - 1] + [docs[n - 1]] && seen[..n] == seen[..n - 1] + [seen[n - 1]];
      StreamAppend(docs[..n - 1], [docs[n - 1]]);
      StreamAppend(seen[..n - 1], [seen[n - 1]]);
      assert SameAt(docs, seen, n - 1);
      StreamOfOne(docs[n - 1]);
      StreamOfOne(seen[n - 1]);
    } else {
      assert docs[..n] == [] && seen[..n] == [];
    }
  }

  /** If the taken documents are encoded alike and the loop over `seen` ends there too, it takes the same. */
  lemma {:induction false} SelectAgrees(docs: seq<Fields>, seen: seq<Fields>, i: nat, size: nat, ack: bool,
                                        limits: Limits)
    requires i <= |docs| == |seen| && (i == 0 || i != limits.maxWriteBatchSize)
    requires Select(docs, i, size, ack, limits).Done?
    requires var n := Select(docs, i, size, ack, limits).value;
             && (forall k :: i <= k < n ==> SameAt(docs, seen, k))
             && (n < |docs| && n != limits.maxWriteBatchSize ==>
                   && EncodeDocument(seen[n], false).Some? && EncodeDocument(docs[n], false).Some?
                   && |EncodeDocument(seen[n], false).value| <= |EncodeDocument(docs[n], false).value|
                   && size + Taken(docs, i, n) + |EncodeDocument(seen[n], false).value| > limits.maxMessageSize)
    ensures Select(seen, i, size, ack, limits) == Select(docs, i, size, ack, limits)
    decreases |docs| - i
  {
    hide EncodeDocument;
    var n := Select(docs, i, size, ack, limits).value;
    if i < n {
      assert SameAt(docs, seen, i);
      var newSize := size + |EncodeDocument(docs[i], false).value|;
      if i + 1 != limits.maxWriteBatchSize {
        SelectAgrees(docs, seen, i + 1, newSize, ack, limits);
      }
    }
  }

  /** The encoded length of documents `i` to `n`. */
  ghost function Taken(docs: seq<Fields>, i: nat, n: nat): (r: nat)
    requires n <= |docs|
    decreases n - i
  {
    if i >= n then 0
    else
      var value := EncodeDocument(docs[i], false);
      (if value.Some? then |value.value| else 0) + Taken(docs, i + 1, n)
  }

  lemma {:induction false} TakenIsStream(docs: seq<Fields>, i: nat, n: nat)
    requires i <= n <= |docs| && Streams.EncodeStream(docs[..n]).Some?
    ensures Streams.EncodeStream(docs[..i]).Some? && |Stream(docs[..n])| == |Stream(docs[..i])| + Taken(docs, i, n)
    decreases n - i
  {
    hide EncodeDocument, Streams.EncodeStream;
    if i < n {
      TakenIsStream(docs, i + 1, n);
      assert docs[..i + 1] == docs[..i] + [docs[i]];
      StreamAppend(docs[..i], [docs[i]]);
      StreamOfOne(docs[i]);
    }
  }

  /** Two byte strings that start with their own length: one way to cut. */
  lemma {:induction false} CutIsUnique(a: Bytes, x: Bytes, b: Bytes, y: Bytes)
    requires |a| >= 4 && |b| >= 4 && UnpackInt32(a[..4]) == |a| && UnpackInt32(b[..4]) == |b| && a + x == b + y
    ensures a == b && x == y
  {
    hide UnpackInt32;
    assert (a + x)[..4] == a[..4] && (b + y)[..4] == b[..4];
    assert (a + x)[..|a|] == a && (b + y)[..|b|] == b && (a + x)[|a|..] == x && (b + y)[|b|..] == y;
  }

  /** Equal streams hold equally encoded documents. */
  lemma {:induction false} StreamsTell(docs: seq<Fields>, seen: seq<Fields>)
    requires |docs| == |seen| && Streams.EncodeStream(docs).Some?
    requires Streams.EncodeStream(docs) == Streams.EncodeStream(seen)
    ensures forall k :: 0 <= k < |docs| ==> SameAt(docs, seen, k)
  {
    hide EncodeDocument, UnpackInt32;
    if docs != [] {
      DeclaresItsLength(docs[0]);
      DeclaresItsLength(seen[0]);
      CutIsUnique(EncodeDocument(docs[0], false).value, Streams.EncodeStream(docs[1..]).value,
                  EncodeDocument(seen[0], false).value, Streams.EncodeStream(seen[1..]).value);
      StreamsTell(docs[1..], seen[1..]);
      forall k | 0 <= k < |docs| ensures SameAt(docs, seen, k) {
        if k > 0 {
          assert SameAt(docs[1..], seen[1..], k - 1);
        }
      }
    }
  }

  /** Equal bodies hold equal commands and equal streams. */
  lemma {:induction false} BodiesTell(ack: bool, c1: Bytes, s1: Bytes, c2: Bytes, s2: Bytes, identifier: Bytes)
    requires |c1| >= 4 && |c2| >= 4 && UnpackInt32(c1[..4]) == |c1| && UnpackInt32(c2[..4]) == |c2|
    requires |identifier| + |s1| + 4 <= MAX_INT32 && |identifier| + |s2| + 4 <= MAX_INT32
    requires Body(ack, c1, identifier, s1) == Body(ack, c2, identifier, s2)
    ensures c1 == c2 && s1 == s2
  {
    hide UnpackInt32, PackInt32, Flags;
    var b1, b2 := Body(ack, c1, identifier, s1), Body(ack, c2, identifier, s2);
    var t1 := [1] + PackInt32(|identifier| + |s1| + 4) + identifier + s1;
    var t2 := [1] + PackInt32(|identifier| + |s2| + 4) + identifier + s2;
    var head := |Flags(ack)| + 1;
    assert b1[head..] == c1 + t1 && b2[head..] == c2 + t2;
    CutIsUnique(c1, t1, c2, t2);
    assert t1[|identifier| + 5..] == s1 && t2[|identifier| + 5..] == s2;
  }

  /** What C writes for a document is no longer than what Python writes. */
  lemma {:induction false} DocumentIsShorter(fs: Fields)
    requires Expectation.WellTypedAll(fs) && EncodeDocument(fs, false).Some? && EncodeDocument(AsCAll(fs), false).Some?
    ensures |EncodeDocument(AsCAll(fs), false).value| <= |EncodeDocument(fs, false).value|
  {
    hide EncodeDocument, EncodeFields, AsCAll, SameInCAll, IdFirst, PackInt32, Distinct;
    EncodeDocumentIsIdFirst(fs, false);
    EncodeDocumentIsIdFirst(AsCAll(fs), false);
    AsCIdFirst(fs);
    IdFirstIsTyped(fs);
    FieldsTell(IdFirst(fs));
  }

  /** Everything the C splitter would do differently is absent. */
  ghost predicate NothingDiffers(command: Fields, docs: seq<Fields>, n: nat, base: nat, limits: Limits)
    requires n <= |docs|
  {
    SameInCAll(command) && (forall k :: 0 <= k < n ==> SameInCAll(docs[k])) && StopsAt(AsCDocs(docs), n, base, limits)
  }

  lemma {:induction false} SeenAt(docs: seq<Fields>, k: nat)
    requires k < |docs| && Expectation.WellTypedAll(docs[k])
    ensures EncodeDocument(docs[k], false).Some? ==> (SameAt(docs, AsCDocs(docs), k) <==> SameInCAll(docs[k]))
    ensures SameInCAll(docs[k]) ==> SameAt(docs, AsCDocs(docs), k)
  {
    hide EncodeDocument, AsCAll, SameInCAll, Expectation.WellTypedAll, EncodeNested;
    SameDocumentIff(docs[k]);
  }

  lemma {:induction false} SelectedEncodes(docs: seq<Fields>, base: nat, ack: bool, limits: Limits)
    requires Select(docs, 0, base, ack, limits).Done?
    requires Streams.EncodeStream(docs[..Select(docs, 0, base, ack, limits).value]).Some?
    ensures forall k :: 0 <= k < Select(docs, 0, base, ack, limits).value ==> EncodeDocument(docs[k], false).Some?
  {
    hide EncodeDocument, Select;
    var n := Select(docs, 0, base, ack, limits).value;
    forall k | 0 <= k < n ensures EncodeDocument(docs[k], false).Some? {
      StreamMember(docs[..n], k);
    }
  }

  lemma {:induction false} StreamMember(docs: seq<Fields>, k: nat)
    requires k < |docs| && Streams.EncodeStream(docs).Some?
    ensures EncodeDocument(docs[k], false).Some?
  {
    hide EncodeDocument;
    if k > 0 {
      StreamMember(docs[1..], k - 1);
    }
  }

  /** For every batch the look-ahead form makes, the roll-back form makes the same one if and only if
      the command and every document sent are encoded alike and the loop still ends at that place. */
  lemma {:induction false} RollBackAgreesIff(operation: int, command: Fields, docs: seq<Fields>, ack: bool,
                                             limits: Limits, start: nat)
    requires Expectation.WellTypedAll(command)
    requires forall k :: 0 <= k < |docs| ==> Expectation.WellTypedAll(docs[k])
    requires BatchSpec(operation, command, docs, ack, limits, start).Done?
    ensures var spec := BatchSpec(operation, command, docs, ack, limits, start);
            BatchSpec(operation, AsCAll(command), AsCDocs(docs), ack, limits, start) == spec
            <==> NothingDiffers(command, docs, spec.value.0, Base(start, command, operation), limits)
  {
    hide EncodeDocument, Select, OpMsgIdentifier, Streams.EncodeStream, Body, AsCAll, AsCDocs, NothingDiffers,
         Expectation.WellTypedAll;
    if BatchSpec(operation, AsCAll(command), AsCDocs(docs), ack, limits, start)
       == BatchSpec(operation, command, docs, ack, limits, start) {
      AgreementTells(operation, command, docs, ack, limits, start);
    }
    if NothingDiffers(command, docs, BatchSpec(operation, command, docs, ack, limits, start).value.0,
                      Base(start, command, operation), limits) {
      NothingDiffersAgrees(operation, command, docs, ack, limits, start);
    }
  }

  lemma {:induction false} AgreementTells(operation: int, command: Fields, docs: seq<Fields>, ack: bool,
                                          limits: Limits, start: nat)
    requires Expectation.WellTypedAll(command)
    requires forall k :: 0 <= k < |docs| ==> Expectation.WellTypedAll(docs[k])
    requires BatchSpec(operation, command, docs, ack, limits, start).Done?
    requires BatchSpec(operation, AsCAll(command), AsCDocs(docs), ack, limits, start)
             == BatchSpec(operation, command, docs, ack, limits, start)
    ensures EncodeDocument(command, false).Some? && OpMsgIdentifier(operation).Some?
    ensures NothingDiffers(command, docs, BatchSpec(operation, command, docs, ack, limits, start).value.0,
                           Base(start, command, operation), limits)
  {
    hide EncodeDocument, EncodeNested, Select, OpMsgIdentifier, Streams.EncodeStream, Body, AsCAll, SameInCAll,
         UnpackInt32,
         Expectation.WellTypedAll, AsCDocs, StopsAt, SameAt;
    var seen, cmd := AsCDocs(docs), AsCAll(command);
    var n := BatchSpec(operation, command, docs, ack, limits, start).value.0;
    var stream, other := Stream(docs[..n]), Stream(seen[..n]);
    DeclaresItsLength(command);
    DeclaresItsLength(cmd);
    BodiesTell(ack, EncodeDocument(command, false).value, stream, EncodeDocument(cmd, false).value, other,
               OpMsgIdentifier(operation).value);
    SameDocumentIff(command);
    StreamsTell(docs[..n], seen[..n]);
    SelectedEncodes(docs, Base(start, command, operation), ack, limits);
    forall k | 0 <= k < n ensures SameInCAll(docs[k]) {
      SameAtPrefix(docs, seen, n, k);
      SeenAt(docs, k);
    }
    EmptyPrefix(seen);
    SelectStops(seen, 0, Base(start, command, operation), ack, limits);
  }

  lemma {:induction false} SameAtPrefix(docs: seq<Fields>, seen: seq<Fields>, n: nat, k: nat)
    requires k < n <= |docs| == |seen|
    ensures SameAt(docs[..n], seen[..n], k) <==> SameAt(docs, seen, k)
  {
    hide EncodeDocument;
  }

  lemma {:induction false} EmptyPrefix(docs: seq<Fields>)
    ensures docs[..0] == [] && Streams.EncodeStream(docs[..0]) == Some([])
  {
  }

  lemma {:induction false} NothingDiffersAgrees(operation: int, command: Fields, docs: seq<Fields>, ack: bool,
                                                limits: Limits, start: nat)
    requires Expectation.WellTypedAll(command)
    requires forall k :: 0 <= k < |docs| ==> Expectation.WellTypedAll(docs[k])
    requires BatchSpec(operation, command, docs, ack, limits, start).Done?
    requires NothingDiffers(command, docs, BatchSpec(operation, command, docs, ack, limits, start).value.0,
                            Base(start, command, operation), limits)
    ensures BatchSpec(operation, AsCAll(command), AsCDocs(docs), ack, limits, start)
            == BatchSpec(operation, command, docs, ack, limits, start)
  {
    hide EncodeDocument, EncodeNested, Select, OpMsgIdentifier, Streams.EncodeStream, Body, AsCAll, SameInCAll,
         UnpackInt32,
         Expectation.WellTypedAll, AsCDocs, SameAt, StopsAt;
    var seen := AsCDocs(docs);
    var base := Base(start, command, operation);
    var n := BatchSpec(operation, command, docs, ack, limits, start).value.0;
    SameDocumentIff(command);
    forall k | 0 <= k < n ensures SameAt(docs, seen, k) {
      SeenAt(docs, k);
    }
    SameStream(docs, seen, n);
    LoopAgrees(docs, n, base, ack, limits);
  }

  lemma {:induction false} LoopAgrees(docs: seq<Fields>, n: nat, base: nat, ack: bool, limits: Limits)
    requires forall k :: 0 <= k < |docs| ==> Expectation.WellTypedAll(docs[k])
    requires Select(docs, 0, base, ack, limits) == Done(n) && Streams.EncodeStream(docs[..n]).Some?
    requires Streams.EncodeStream(AsCDocs(docs)[..n]) == Streams.EncodeStream(docs[..n])
    requires (forall k :: 0 <= k < n ==> SameAt(docs, AsCDocs(docs), k)) && StopsAt(AsCDocs(docs), n, base, limits)
    ensures Select(AsCDocs(docs), 0, base, ack, limits) == Done(n)
  {
    hide EncodeDocument, Select, Streams.EncodeStream, AsCAll, Expectation.WellTypedAll, SameAt;
    var seen := AsCDocs(docs);
    TakenIsStream(docs, 0, n);
    EmptyPrefix(docs);
    if n < |docs| && n != limits.maxWriteBatchSize {
      NextIsEncoded(docs, 0, base, ack, limits);
      DocumentIsShorter(docs[n]);
    }
    SelectAgrees(docs, seen, 0, base, ack, limits);
  }

  /** A batch that ends before the count is reached has looked at the next document. */
  lemma {:induction false} NextIsEncoded(docs: seq<Fields>, i: nat, size: nat, ack: bool, limits: Limits)
    requires i <= |docs| && Select(docs, i, size, ack, limits).Done?
    ensures var n := Select(docs, i, size, ack, limits).value;
            n < |docs| && n != limits.maxWriteBatchSize ==> EncodeDocument(docs[n], false).Some?
    decreases |docs| - i
  {
    hide EncodeDocument;
    if i < |docs| && EncodeDocument(docs[i], false).Some? {
      var newSize := size + |EncodeDocument(docs[i], false).value|;
      if newSize <= limits.maxMessageSize && i + 1 != limits.maxWriteBatchSize {
        NextIsEncoded(docs, i + 1, newSize, ack, limits);
      }
    }
  }

  lemma {:induction false} SelectAlike(docs: seq<Fields>, seen: seq<Fields>, i: nat, size: nat, ack: bool,
                                       limits: Limits)
    requires i <= |docs| == |seen| && forall k :: 0 <= k < |docs| ==> SameAt(docs, seen, k)
    ensures Select(seen, i, size, ack, limits) == Select(docs, i, size, ack, limits)
    decreases |docs| - i
  {
    hide EncodeDocument;
    if i < |docs| {
      assert SameAt(docs, seen, i);
      var value := EncodeDocument(docs[i], false);
      if value.Some? {
        SelectAlike(docs, seen, i + 1, size + |value.value|, ack, limits);
      }
    }
  }

  /** Where the encoders agree on everything the splitters agree on every outcome, refusals included. */
  lemma {:induction false} AlikeInEverything(operation: int, command: Fields, docs: seq<Fields>, ack: bool,
                                             limits: Limits, start: nat)
    requires Expectation.WellTypedAll(command) && SameInCAll(command)
    requires forall k :: 0 <= k < |docs| ==> Expectation.WellTypedAll(docs[k]) && SameInCAll(docs[k])
    ensures BatchSpec(operation, AsCAll(command), AsCDocs(docs), ack, limits, start)
            == BatchSpec(operation, command, docs, ack, limits, start)
  {
    hide EncodeDocument, EncodeNested, Select, OpMsgIdentifier, Streams.EncodeStream, Body, AsCAll, SameInCAll,
         Expectation.WellTypedAll, AsCDocs, SameAt;
    var seen := AsCDocs(docs);
    SameDocumentIff(command);
    forall k | 0 <= k < |docs| ensures SameAt(docs, seen, k) {
      SeenAt(docs, k);
    }
    var cmd := EncodeDocument(command, false);
    if cmd.Some? && OpMsgIdentifier(operation).Some? {
      var base := Base(start, command, operation);
      SelectAlike(docs, seen, 0, base, ack, limits);
      var n := Select(docs, 0, base, ack, limits);
      if n.Done? {
        SameStream(docs, seen, n.value);
      }
    }
  }
}
