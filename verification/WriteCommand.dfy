/**
 The write command assembled by splicing: `_batched_write_command_impl` overwrites the command's
 final NUL, appends an array of documents and patches both lengths; the encrypted bulk context
 then cuts the command out of the message.  The result is a document of its own: the encoding of
 the command extended with the array.
 */
module WriteCommand {
  import opened Bytes
  import opened Bson
  import opened Encoder
  import opened ByteStream
  import opened ReadBack
  import opened OpMsg
  import Decoder
  import Streams

  const COMMAND_OVERHEAD: int := 16382
  const SKIP_LIMIT: Bytes := [0, 0, 0, 0, 0xff, 0xff, 0xff, 0xff]

  datatype SplitLimits = SplitLimits(maxBsonSize: int, maxWriteBatchSize: int, maxSplitSize: int)

  /** The array field of the command, without its NUL. */
  function PayloadName(operation: int): (r: Bytes)
    requires OpMsgIdentifier(operation).Some?
    ensures OpMsgIdentifier(operation).value == r + [0] && NoNul(r) && ValidUtf8(r)
  {
    var id := OpMsgIdentifier(operation).value;
    IdentifierIsName(operation);
    id[..|id| - 1]
  }

  lemma {:induction false} IdentifierIsName(operation: int)
    requires OpMsgIdentifier(operation).Some?
    ensures var id := OpMsgIdentifier(operation).value;
            var name := id[..|id| - 1];
            name + [0] == id && NoNul(name) && ValidUtf8(name)
  {
    hide ValidUtf8;
    var id := OpMsgIdentifier(operation).value;
    var name := id[..|id| - 1];
    assert name + [0] == id;
    assert forall i :: 0 <= i < |name| ==> name[i] == id[i];
    assert forall i :: 0 <= i < |id| - 1 ==> 0 < id[i] < 0x80;
    AsciiIsUtf8(name);
  }

  /** How many documents the loop takes from index `i`, with the stream at position `pos`. */
  function SelectEntries(docs: seq<Fields>, i: nat, pos: nat, limits: SplitLimits): (r: Outcome<nat>)
    requires i <= |docs|
    decreases |docs| - i
    ensures r.Done? ==> i <= r.value <= |docs|
  {
    if i == |docs| then Done(i)
    else
      var value := EncodeDocument(docs[i], false);
      if value.None? then Raised(NotEncodable)
      else
        var key := Digits(i);
        if |value.value| > limits.maxBsonSize + COMMAND_OVERHEAD then Raised(DocumentTooLarge(|value.value|))
        else if (i >= 1 && pos + |key| + |value.value| >= limits.maxSplitSize) || i >= limits.maxWriteBatchSize
        then Done(i)
        else SelectEntries(docs, i + 1, pos + |key| + |value.value| + 2, limits)
  }

  // ---- the array as the encoder would write it ------------------------------------------

  /** The entries the loop writes for `docs`, numbered from `i`. */
  function Entries(docs: seq<Fields>, i: nat): (r: Option<Bytes>)
  {
    if docs == [] then Some([])
    else
      var value := EncodeDocument(docs[0], false);
      if value.None? then None else Concat(Some(Streams.Entry(Digits(i), value.value)), Entries(docs[1..], i + 1))
  }

  function Items(docs: seq<Fields>): (r: seq<Value>)
  {
    seq(|docs|, k requires 0 <= k < |docs| => Mapping(IdFirst(docs[k])))
  }

  lemma {:induction false} EntriesAreItems(docs: seq<Fields>, i: nat)
    decreases |docs|
    ensures EncodeItems(Items(docs), i, false) == Entries(docs, i)
  {
    hide EncodeDocument, EncodeNested, Digits, EncodeValue, IdFirst;
    if docs != [] {
      assert Items(docs)[1..] == Items(docs[1..]);
      EntriesAreItems(docs[1..], i + 1);
      Streams.MappingUnfolds(IdFirst(docs[0]), Digits(i) + [0]);
      EncodeDocumentIsIdFirst(docs[0], false);
      var value := EncodeDocument(docs[0], false);
      if value.Some? {
        assert [0x03] + (Digits(i) + [0]) + value.value == Streams.Entry(Digits(i), value.value);
      }
    }
  }

  lemma {:induction false} EntriesAppend(a: seq<Fields>, b: seq<Fields>, i: nat)
    decreases |a|
    ensures Entries(a + b, i) == Concat(Entries(a, i), Entries(b, i + |a|))
  {
    hide EncodeDocument, Streams.Entry;
    if a == [] {
      assert a + b == b;
      var rest := Entries(b, i);
      if rest.Some? {
        assert [] + rest.value == rest.value;
      }
    } else {
      EntriesAppend(a[1..], b, i + 1);
      assert (a + b)[1..] == a[1..] + b && (a + b)[0] == a[0];
      var value, rest := EncodeDocument(a[0], false), Entries(a[1..], i + 1);
      if value.Some? && rest.Some? {
        ConcatAssoc(Streams.Entry(Digits(i), value.value), rest.value, Entries(b, i + |a|));
      }
    }
  }

  lemma {:induction false} EntriesSnoc(docs: seq<Fields>, i: nat)
    requires i < |docs| && Entries(docs[..i], 0).Some? && EncodeDocument(docs[i], false).Some?
    ensures Entries(docs[..i + 1], 0)
            == Some(Entries(docs[..i], 0).value + Streams.Entry(Digits(i), EncodeDocument(docs[i], false).value))
  {
    hide EncodeDocument, Streams.Entry;
    assert docs[..i + 1] == docs[..i] + [docs[i]];
    EntriesAppend(docs[..i], [docs[i]], 0);
    assert [docs[i]][1..] == [];
    var e := Streams.Entry(Digits(i), EncodeDocument(docs[i], false).value);
    assert Entries([docs[i]], i) == Concat(Some(e), Some([]));
    assert e + [] == e;
  }

  /** With these documents the stream stays below the split size, as the loop measures it: the two
      bytes that close the last entry's head and the array are not counted. */
  ghost predicate BelowSplit(docs: seq<Fields>, n: nat, base: nat, limits: SplitLimits)
    requires n <= |docs|
  {
    Entries(docs[..n], 0).Some? && base + |Entries(docs[..n], 0).value| - 2 < limits.maxSplitSize
  }

  /** The prefix the loop takes, `base` bytes into the stream: the first document always, more only
      below the split size and within the count, no document too large, and no longer prefix. */
  ghost predicate MaximalEntries(docs: seq<Fields>, n: nat, base: nat, limits: SplitLimits)
  {
    && 1 <= n <= |docs| && n <= limits.maxWriteBatchSize && Entries(docs[..n], 0).Some?
    && (n > 1 ==> BelowSplit(docs, n, base, limits))
    && (n < |docs| && n < limits.maxWriteBatchSize ==>
          Entries(docs[..n + 1], 0).Some? && !BelowSplit(docs, n + 1, base, limits))
  }

  lemma {:induction false} EntriesSelected(docs: seq<Fields>, i: nat, base: nat, limits: SplitLimits)
    requires i < |docs| && i < limits.maxWriteBatchSize && Entries(docs[..i], 0).Some?
    requires i > 1 ==> BelowSplit(docs, i, base, limits)
    requires SelectEntries(docs, i, base + |Entries(docs[..i], 0).value|, limits).Done?
    decreases |docs| - i
    ensures MaximalEntries(docs, SelectEntries(docs, i, base + |Entries(docs[..i], 0).value|, limits).value, base,
                           limits)
  {
    hide EncodeDocument, Digits, Entries;
    EntriesSnoc(docs, i);
    var pos := base + |Entries(docs[..i], 0).value|;
    var value := EncodeDocument(docs[i], false).value;
    var next := base + |Entries(docs[..i + 1], 0).value|;
    assert next == pos + |Digits(i)| + |value| + 2;
    if !(i >= 1 && pos + |Digits(i)| + |value| >= limits.maxSplitSize) {
      if i + 1 < |docs| && i + 1 < limits.maxWriteBatchSize {
        EntriesSelected(docs, i + 1, base, limits);
      } else if i + 1 < |docs| {
        CountStops(docs, i + 1, next, limits);
      }
    }
  }

  /** At the count limit the loop takes no more. */
  lemma {:induction false} CountStops(docs: seq<Fields>, i: nat, pos: nat, limits: SplitLimits)
    requires i < |docs| && i >= limits.maxWriteBatchSize && SelectEntries(docs, i, pos, limits).Done?
    ensures SelectEntries(docs, i, pos, limits).value == i
  {
    hide EncodeDocument, Digits;
  }

  /** Document `k` is refused for this reason. */
  ghost predicate EntryRefused(docs: seq<Fields>, k: nat, limits: SplitLimits, failure: Failure)
    requires k < |docs|
  {
    var value := EncodeDocument(docs[k], false);
    match failure
    case UnknownCommand => false
    case NotEncodable => value.None?
    case DocumentTooLarge(size) => value.Some? && size == |value.value| && size > limits.maxBsonSize + 16382
  }

  lemma {:induction false} EntriesRefusal(docs: seq<Fields>, i: nat, pos: nat, limits: SplitLimits)
    requires i <= |docs| && SelectEntries(docs, i, pos, limits).Raised?
    decreases |docs| - i
    ensures exists k: nat :: k < |docs| && EntryRefused(docs, k, limits, SelectEntries(docs, i, pos, limits).failure)
  {
    hide EncodeDocument, Digits;
    var value := EncodeDocument(docs[i], false);
    if value.None? || |value.value| > limits.maxBsonSize + COMMAND_OVERHEAD {
      assert EntryRefused(docs, i, limits, SelectEntries(docs, i, pos, limits).failure);
    } else {
      EntriesRefusal(docs, i + 1, pos + |Digits(i)| + |value.value| + 2, limits);
    }
  }

  /** The documents taken are encodable. */
  lemma {:induction false} EntriesEncode(docs: seq<Fields>, i: nat, pos: nat, limits: SplitLimits)
    requires i <= |docs| && SelectEntries(docs, i, pos, limits).Done? && Entries(docs[..i], 0).Some?
    decreases |docs| - i
    ensures Entries(docs[..SelectEntries(docs, i, pos, limits).value], 0).Some?
  {
    hide EncodeDocument, Digits, Entries;
    if i < |docs| && SelectEntries(docs, i, pos, limits).value > i {
      EntriesSnoc(docs, i);
      EntriesEncode(docs, i + 1, pos + |Digits(i)| + |EncodeDocument(docs[i], false).value| + 2, limits);
    }
  }

  // ---- the spliced bytes ----------------------------------------------------------------

  /** The command with the array of sent documents as its last field. */
  function Extended(operation: int, command: Fields, sent: seq<Fields>): (r: Fields)
    requires OpMsgIdentifier(operation).Some?
  {
    IdFirst(command) + [Field(PayloadName(operation), List(Items(sent)))]
  }

  /** The command's elements, between its length and its final NUL. */
  function Elements(command: Fields): (r: Bytes)
    requires EncodeDocument(command, false).Some?
  {
    var c := EncodeDocument(command, false).value;
    c[4..|c| - 1]
  }

  lemma {:induction false} CommandParts(command: Fields)
    requires EncodeDocument(command, false).Some?
    ensures EncodeFields(IdFirst(command), false) == Some(Elements(command))
    ensures EncodeDocument(command, false).value
            == PackInt32(|EncodeDocument(command, false).value|) + Elements(command) + [0]
  {
    hide EncodeFields, IdFirst, EncodeDocument, PackInt32;
    EncodeDocumentIsIdFirst(command, false);
    var body := EncodeFields(IdFirst(command), false).value;
    var c := EncodeDocument(command, false).value;
    assert c[4..|c| - 1] == body;
  }

  /** Prefix length, the command's elements, the array with its own length, and two NULs. */
  function Spliced(operation: int, elements: Bytes, entries: Bytes, listLength: Bytes, length: Bytes): (r: Bytes)
    requires OpMsgIdentifier(operation).Some?
  {
    length + (elements + ([0x04] + OpMsgIdentifier(operation).value) + (listLength + entries + [0])) + [0]
  }

  function SplicedSize(operation: int, command: Fields, entries: Bytes): (r: nat)
    requires EncodeDocument(command, false).Some? && OpMsgIdentifier(operation).Some?
  {
    |Elements(command)| + |OpMsgIdentifier(operation).value| + |entries| + 11
  }

  lemma {:induction false} TailElement(operation: int, items: seq<Value>)
    requires OpMsgIdentifier(operation).Some?
    ensures EncodeFields([Field(PayloadName(operation), List(items))], false)
            == Tagged(0x04, OpMsgIdentifier(operation).value, Enclose(EncodeItems(items, 0, false)))
  {
    hide EncodeItems, ValidUtf8, OpMsgIdentifier, Enclose;
    var f := Field(PayloadName(operation), List(items));
    assert [f][1..] == [];
    assert EncodeElement(f, false) == EncodeValue(PayloadName(operation) + [0], List(items), false);
    var e := EncodeElement(f, false);
    if e.Some? {
      assert e.value + [] == e.value;
    }
  }

  /** The splice is the encoding of the extended command, whenever its length is representable. */
  lemma {:induction false} SpliceIsEncoding(operation: int, command: Fields, sent: seq<Fields>)
    requires EncodeDocument(command, false).Some? && OpMsgIdentifier(operation).Some?
    requires Entries(sent, 0).Some? && SplicedSize(operation, command, Entries(sent, 0).value) <= MAX_INT32
    ensures var entries := Entries(sent, 0).value;
            EncodeNested(Extended(operation, command, sent), false)
            == Some(Spliced(operation, Elements(command), entries, PackInt32(|entries| + 5),
                            PackInt32(SplicedSize(operation, command, entries))))
  {
    hide EncodeFields, EncodeDocument, Entries, OpMsgIdentifier, PackInt32, Items, IdFirst, EncodeItems,
         PayloadName, Elements;
    CommandParts(command);
    EntriesAreItems(sent, 0);
    TailElement(operation, Items(sent));
    EncodeFieldsAppend(IdFirst(command), [Field(PayloadName(operation), List(Items(sent)))], false);
    var entries := Entries(sent, 0).value;
    var list := PackInt32(|entries| + 5) + entries + [0];
    assert Elements(command) + ([0x04] + OpMsgIdentifier(operation).value + list)
        == Elements(command) + ([0x04] + OpMsgIdentifier(operation).value) + list;
  }

  /** Everything before the command: options, namespace, skip and limit. */
  function QueryHeader(namespace: Bytes): (r: Bytes)
    ensures |r| == |namespace| + 13
  {
    [0, 0, 0, 0] + namespace + [0] + SKIP_LIMIT
  }

  ghost function CommandSpec(operation: int, command: Fields, docs: seq<Fields>, limits: SplitLimits,
                             namespace: Bytes): (r: Outcome<nat>)
    ensures r.Done? ==> r.value <= |docs|
  {
    if EncodeDocument(command, false).None? then Raised(NotEncodable)
    else if OpMsgIdentifier(operation).None? then Raised(UnknownCommand)
    else
      var pos := |namespace| + 22 + |Elements(command)| + |OpMsgIdentifier(operation).value|;
      var n := SelectEntries(docs, 0, pos, limits);
      if n.Raised? then n
      else
        var entries := Entries(docs[..n.value], 0);
        if entries.None? || SplicedSize(operation, command, entries.value) > MAX_INT32 then Raised(NotEncodable)
        else n
  }

  /** Every call that does not raise on a non-empty list sends such a maximal prefix. */
  lemma {:induction false} CommandIsMaximal(operation: int, command: Fields, docs: seq<Fields>, limits: SplitLimits,
                                            namespace: Bytes)
    requires docs != [] && limits.maxWriteBatchSize >= 1
    requires CommandSpec(operation, command, docs, limits, namespace).Done?
    ensures var base := |namespace| + 22 + |Elements(command)| + |OpMsgIdentifier(operation).value|;
            MaximalEntries(docs, CommandSpec(operation, command, docs, limits, namespace).value, base, limits)
  {
    hide EncodeDocument, OpMsgIdentifier, SelectEntries, Digits;
    assert docs[..0] == [];
    EntriesSelected(docs, 0, |namespace| + 22 + |Elements(command)| + |OpMsgIdentifier(operation).value|, limits);
  }

  /** A refused call: an operation without a name, a command or a document that cannot be encoded, a
      document that is too large, or a command longer than its length field can say. */
  lemma {:induction false} CommandRefusal(operation: int, command: Fields, docs: seq<Fields>, limits: SplitLimits,
                                          namespace: Bytes)
    requires CommandSpec(operation, command, docs, limits, namespace).Raised?
    ensures var failure := CommandSpec(operation, command, docs, limits, namespace).failure;
            || (failure == NotEncodable && EncodeDocument(command, false).None?)
            || (failure == UnknownCommand && operation != 0 && operation != 1 && operation != 2)
            || (exists k: nat :: k < |docs| && EntryRefused(docs, k, limits, failure))
            || (&& failure == NotEncodable && EncodeDocument(command, false).Some? && OpMsgIdentifier(operation).Some?
                && exists n: nat :: n <= |docs| && Entries(docs[..n], 0).Some?
                     && SplicedSize(operation, command, Entries(docs[..n], 0).value) > MAX_INT32)
  {
    hide EncodeDocument, SelectEntries, Entries, Elements, SplicedSize;
    if EncodeDocument(command, false).Some? && OpMsgIdentifier(operation).Some? {
      var pos := |namespace| + 22 + |Elements(command)| + |OpMsgIdentifier(operation).value|;
      var n := SelectEntries(docs, 0, pos, limits);
      if n.Raised? {
        EntriesRefusal(docs, 0, pos, limits);
      } else {
        NoEntries(docs);
        EntriesEncode(docs, 0, pos, limits);
      }
    }
  }

  lemma {:induction false} NoEntries(docs: seq<Fields>)
    ensures docs[..0] == [] && Entries([], 0) == Some([])
  {
  }

  /** `_batched_write_command_impl` on an empty stream. */
  method BatchedWriteCommandImpl(namespace: Bytes, operation: int, command: Fields, docs: seq<Fields>,
                                 limits: SplitLimits,
                                 buf: BytesIO)
    returns (r: Outcome<seq<Fields>>)
    requires buf.Valid() && buf.data == [] && buf.pos == 0
    modifies buf
    ensures var n := CommandSpec(operation, command, docs, limits, namespace);
            if n.Raised? then r == Raised(n.failure)
            else && r == Done(docs[..n.value])
                 && EncodeNested(Extended(operation, command, docs[..n.value]), false).Some?
                 && buf.data == QueryHeader(namespace)
                                + EncodeNested(Extended(operation, command, docs[..n.value]), false).value
  {
    hide EncodeDocument, SelectEntries, Entries, OpMsgIdentifier, Elements, Overwrite, PackInt32, EncodeNested,
         Extended, Spliced;
    var cmd := EncodeDocument(command, false);
    if cmd.None? {
      return Raised(NotEncodable);
    }
    var identifier := OpMsgIdentifier(operation);
    if identifier.None? {
      return Raised(UnknownCommand);
    }
    var commandStart, listStart := WriteHead(namespace, cmd.value, command, operation, buf);
    ghost var before := buf.data;
    var toSend, failure := AppendEntries(docs, limits, buf);
    if failure.Some? {
      return Raised(failure.value);
    }
    // Close list and command documents
    buf.Write([0, 0]);
    var length := buf.pos;
    ghost var entries := Entries(toSend, 0).value;
    assert |buf.data| == |before| + |entries| + 2;
    if length - commandStart > MAX_INT32 {
      return Raised(NotEncodable);
    }
    PatchBoth(namespace, operation, command, cmd.value[..4], entries, length);
    buf.Seek(listStart);
    buf.Write(PackInt32(length - listStart - 1));
    buf.Seek(commandStart);
    buf.Write(PackInt32(length - commandStart));
    SpliceIsEncoding(operation, command, toSend);
    return Done(toSend);
  }

  /** The stream before any document: the header, then the command with an open array in place of
      its final NUL. */
  function Opened(namespace: Bytes, length: Bytes, elements: Bytes, identifier: Bytes): (r: Bytes)
  {
    QueryHeader(namespace) + length + elements + [0x04] + identifier + [0, 0, 0, 0]
  }

  method WriteQueryHeader(namespace: Bytes, buf: BytesIO)
    requires buf.Valid() && buf.data == [] && buf.pos == 0
    modifies buf
    ensures buf.Valid() && buf.pos == |buf.data| == |namespace| + 13 && buf.data == QueryHeader(namespace)
  {
    hide Overwrite;
    buf.Write([0, 0, 0, 0]);
    buf.Write(namespace);
    buf.Write([0]);
    buf.Write(SKIP_LIMIT);
  }

  method WriteHead(namespace: Bytes, cmd: Bytes, ghost command: Fields, operation: int, buf: BytesIO)
    returns (commandStart: nat, listStart: nat)
    requires buf.Valid() && buf.data == [] && buf.pos == 0
    requires EncodeDocument(command, false) == Some(cmd) && OpMsgIdentifier(operation).Some?
    modifies buf
    ensures buf.Valid() && buf.pos == |buf.data|
    ensures commandStart == |namespace| + 13
    ensures listStart == |namespace| + |Elements(command)| + |OpMsgIdentifier(operation).value| + 18
    ensures buf.data == Opened(namespace, cmd[..4], Elements(command), OpMsgIdentifier(operation).value)
  {
    hide EncodeDocument, OpMsgIdentifier, Overwrite, QueryHeader;
    WriteQueryHeader(namespace, buf);
    commandStart := buf.pos;
    buf.Write(cmd);
    // Start of payload
    buf.Seek(|buf.data| - 1);
    CommandParts(command);
    ghost var kept := QueryHeader(namespace) + cmd[..4] + Elements(command);
    assert cmd == cmd[..4] + Elements(command) + [0];
    assert buf.data == kept + [0];
    ReplaceLast(kept, [0x04] + OpMsgIdentifier(operation).value + [0, 0, 0, 0]);
    buf.Write([0x04] + OpMsgIdentifier(operation).value + [0, 0, 0, 0]);
    listStart := buf.pos - 4;
  }

  lemma {:induction false} ReplaceLast(kept: Bytes, s: Bytes)
    requires |s| >= 1
    ensures Overwrite(kept + [0], |kept|, s) == kept + s
  {
    assert (kept + [0])[..|kept|] == kept;
  }

  /** The loop over the documents. */
  method AppendEntries(docs: seq<Fields>, limits: SplitLimits, buf: BytesIO)
    returns (toSend: seq<Fields>, failure: Option<Failure>)
    requires buf.Valid() && buf.pos == |buf.data|
    modifies buf
    ensures buf.Valid() && buf.pos == |buf.data|
    ensures var n := SelectEntries(docs, 0, old(|buf.data|), limits);
            if n.Raised? then failure == Some(n.failure)
            else && failure.None? && toSend == docs[..n.value]
                 && Entries(toSend, 0).Some? && buf.data == old(buf.data) + Entries(toSend, 0).value
  {
    hide EncodeDocument, Digits;
    ghost var spec := SelectEntries(docs, 0, |buf.data|, limits);
    ghost var start := buf.data;
    toSend := [];
    assert start + [] == start;
    var idx := 0;
    while idx < |docs|
      invariant idx <= |docs| && toSend == docs[..idx]
      invariant buf.Valid() && buf.pos == |buf.data|
      invariant Entries(toSend, 0).Some? && buf.data == start + Entries(toSend, 0).value
      invariant spec == SelectEntries(docs, idx, |buf.data|, limits)
    {
      var key := Digits(idx);
      var value := EncodeDocument(docs[idx], false);
      if value.None? {
        return toSend, Some(NotEncodable);
      }
      if |value.value| > limits.maxBsonSize + COMMAND_OVERHEAD {
        return toSend, Some(DocumentTooLarge(|value.value|));
      }
      var enoughData := idx >= 1 && buf.pos + |key| + |value.value| >= limits.maxSplitSize;
      var enoughDocuments := idx >= limits.maxWriteBatchSize;
      if enoughData || enoughDocuments {
        break;
      }
      EntriesSnoc(docs, idx);
      WriteEntry(idx, value.value, buf);
      assert start + Entries(toSend, 0).value + Streams.Entry(Digits(idx), value.value)
          == start + (Entries(toSend, 0).value + Streams.Entry(Digits(idx), value.value));
      toSend := toSend + [docs[idx]];
      assert toSend == docs[..idx + 1];
      idx := idx + 1;
    }
    return toSend, None;
  }

  method WriteEntry(idx: nat, value: Bytes, buf: BytesIO)
    requires buf.Valid() && buf.pos == |buf.data|
    modifies buf
    ensures buf.Valid() && buf.pos == |buf.data|
    ensures buf.data == old(buf.data) + Streams.Entry(Digits(idx), value)
    ensures |Streams.Entry(Digits(idx), value)| == |Digits(idx)| + |value| + 2
  {
    hide Digits;
    ghost var start := buf.data;
    buf.Write([0x03]);
    buf.Write(Digits(idx));
    buf.Write([0]);
    buf.Write(value);
    assert buf.data == start + Streams.Entry(Digits(idx), value);
  }

  /** Patching the array's length, then the command's. */
  lemma {:induction false} PatchBoth(namespace: Bytes, operation: int, command: Fields, oldLength: Bytes,
                                     entries: Bytes, length: nat)
    requires EncodeDocument(command, false).Some? && OpMsgIdentifier(operation).Some? && |oldLength| == 4
    requires length == |namespace| + 13 + SplicedSize(operation, command, entries)
    requires SplicedSize(operation, command, entries) <= MAX_INT32
    ensures var id := OpMsgIdentifier(operation).value;
            var data := Opened(namespace, oldLength, Elements(command), id) + entries + [0, 0];
            var commandStart := |namespace| + 13;
            var listStart := |namespace| + |Elements(command)| + |id| + 18;
            && |data| == length
            && Overwrite(Overwrite(data, listStart, PackInt32(length - listStart - 1)), commandStart,
                         PackInt32(length - commandStart))
               == QueryHeader(namespace) + Spliced(operation, Elements(command), entries, PackInt32(|entries| + 5),
                                                   PackInt32(SplicedSize(operation, command, entries)))
  {
    hide EncodeDocument, OpMsgIdentifier, Elements, PackInt32, Overwrite, QueryHeader;
    var id, elements, header := OpMsgIdentifier(operation).value, Elements(command), QueryHeader(namespace);
    var zero4: Bytes := [0, 0, 0, 0];
    var listLength, total := PackInt32(|entries| + 5), PackInt32(SplicedSize(operation, command, entries));
    var a := header + oldLength + elements + [0x04] + id;
    var b := entries + [0, 0];
    var data := Opened(namespace, oldLength, elements, id) + entries + [0, 0];
    assert data == a + zero4 + b;
    OverwriteHole(a, zero4, b, listLength);
    var tail := elements + [0x04] + id + listLength + entries + [0, 0];
    assert a + listLength + b == header + oldLength + tail;
    OverwriteHole(header, oldLength, tail, total);
    assert header + total + tail == header + Spliced(operation, elements, entries, listLength, total);
  }

  // ---- the encrypted context ------------------------------------------------------------

  datatype Command = EmptyWrite | Refused(failure: Failure) | Ready(bytes: Bytes, sent: seq<Fields>)

  /** `_EncryptedBulkWriteContext.batch_command`: cuts the command out of the message at the
      namespace's NUL plus nine. */
  method BatchCommand(namespace: Bytes, operation: int, command: Fields, docs: seq<Fields>, limits: SplitLimits)
    returns (r: Command)
    requires NoNul(namespace)
    ensures var n := CommandSpec(operation, command, docs, limits, namespace);
            if n.Raised? then r == Refused(n.failure)
            else if n.value == 0 then r == EmptyWrite
            else && r.Ready? && r.sent == docs[..n.value]
                 && EncodeNested(Extended(operation, command, r.sent), false) == Some(r.bytes)
  {
    hide CommandSpec, EncodeNested, Extended;
    var buf := new BytesIO();
    var impl := BatchedWriteCommandImpl(namespace, operation, command, docs, limits, buf);
    if impl.Raised? {
      return Refused(impl.failure);
    }
    if impl.value == [] {
      return EmptyWrite;
    }
    var msg := buf.data;
    assert Has(msg, 4, namespace + [0]) by {
      assert msg[4..4 + |namespace + [0]|] == namespace + [0];
    }
    IndexOfNulAt(msg, 4, namespace);
    var cmdStart := IndexOfNul(msg, 4).value + 9;
    assert msg[cmdStart..] == msg[|QueryHeader(namespace)|..];
    return Ready(msg[cmdStart..], impl.value);
  }

  lemma {:induction false} PlainAppend(a: Fields, b: Fields)
    ensures PlainAll(a + b) <==> PlainAll(a) && PlainAll(b)
  {
    hide Plain;
    PlainMembers(a);
    PlainMembers(b);
    PlainMembers(a + b);
    assert forall f :: f in a + b <==> f in a || f in b;
  }

  lemma {:induction false} ItemsReadBackAt(docs: seq<Fields>)
    decreases |docs|
    ensures ReadBackItems(Items(docs))
            == seq(|docs|, i requires 0 <= i < |docs| => Mapping(ReadBackAll(IdFirst(docs[i]))))
    ensures PlainItems(Items(docs)) <==> forall i :: 0 <= i < |docs| ==> Plain(Mapping(IdFirst(docs[i])))
  {
    hide IdFirst, ReadBackAll, PlainAll, LooksLikeDBRef;
    if docs != [] {
      ItemsReadBackAt(docs[1..]);
      assert Items(docs)[1..] == Items(docs[1..]);
      assert forall i :: 0 < i < |docs| ==> docs[i] == docs[1..][i - 1];
    }
  }

  lemma {:induction false} ExtendedIsWellTyped(operation: int, command: Fields, sent: seq<Fields>)
    requires OpMsgIdentifier(operation).Some?
    requires WellTypedAll(command) && !HasKey(command, PayloadName(operation))
    requires forall i :: 0 <= i < |sent| ==> WellTypedAll(sent[i])
    ensures WellTypedAll(Extended(operation, command, sent))
  {
    hide OpMsgIdentifier, PayloadName, IdFirst;
    IdFirstPermutes(command);
    forall i | 0 <= i < |sent|
      ensures WellTyped(Items(sent)[i])
    {
      IdFirstPermutes(sent[i]);
    }
    var r := Extended(operation, command, sent);
    var n := |r| - 1;
    forall i | 0 <= i < n
      ensures r[i].key != r[n].key
    {
      assert r[i] in multiset(IdFirst(command));
      assert r[i] in command;
    }
    assert WellTyped(r[n].value);
  }

  /** What the cut bytes decode to, for every command without a field of the payload's name: the
      command's own fields and then the array of exactly the documents sent, in order.  It holds if
      and only if no mapping in them is mistaken for a DBRef. */
  lemma {:induction false} SplicedCommandDecodes(operation: int, command: Fields, sent: seq<Fields>)
    requires OpMsgIdentifier(operation).Some?
    requires WellTypedAll(command) && !HasKey(command, PayloadName(operation))
    requires forall i :: 0 <= i < |sent| ==> WellTypedAll(sent[i])
    requires EncodeNested(Extended(operation, command, sent), false).Some?
    ensures var documents := seq(|sent|, i requires 0 <= i < |sent| => Mapping(ReadBackAll(IdFirst(sent[i]))));
            Decoder.BsonToDict(EncodeNested(Extended(operation, command, sent), false).value)
            == Some(ReadBackAll(IdFirst(command)) + [Field(PayloadName(operation), List(documents))])
            <==> PlainAll(command) && forall i :: 0 <= i < |sent| ==> Plain(Mapping(IdFirst(sent[i])))
  {
    hide OpMsgIdentifier, PayloadName, IdFirst, EncodeFields, ReadBackAll, PlainAll, Items, Decoder.BsonToDict,
         WellTypedAll, Meanings;
    var fs := Extended(operation, command, sent);
    var last := Field(PayloadName(operation), List(Items(sent)));
    ExtendedIsWellTyped(operation, command, sent);
    WellTypedIsDistinct(fs);
    DecodeEncoded(fs, false);
    FieldsReadBack(fs, false);
    ItemsReadBackAt(sent);
    ReadBackAppend(IdFirst(command), [last]);
    PlainAppend(IdFirst(command), [last]);
    OneField(last);
    PlainIdFirst(command);
  }

  lemma {:induction false} WellTypedIsDistinct(fs: Fields)
    requires WellTypedAll(fs)
    ensures Distinct(fs)
  {
  }

  lemma {:induction false} OneField(f: Field)
    ensures ReadBackAll([f]) == [Field(f.key, ReadBack.ReadBack(f.value))]
    ensures PlainAll([f]) <==> Plain(f.value)
  {
    hide Plain, ReadBack.ReadBack;
    assert [f][1..] == [];
    assert ReadBackAll([]) == [] && PlainAll([]);
  }

  lemma {:induction false} PlainIdFirst(fs: Fields)
    requires WellTypedAll(fs)
    ensures PlainAll(IdFirst(fs)) <==> PlainAll(fs)
  {
    hide Plain, WellTypedAll, IdFirst;
    IdFirstPermutes(fs);
    PlainMembers(fs);
    PlainMembers(IdFirst(fs));
    assert forall f :: f in fs <==> f in multiset(fs);
    assert forall f :: f in IdFirst(fs) <==> f in multiset(IdFirst(fs));
  }
}
