/**
 Concatenated documents: `_decode_all`, `decode_iter` and `_array_of_documents_to_buffer`.
 */
module Streams {
  import opened Bytes
  import opened Bson
  import opened Grammar
  import opened Decoder
  import opened Encoder
  import RoundTrip
  import Parsing
  import opened ReadBack

  /** Python slicing `data[lo:hi]`: negative bounds count from the end, all bounds are clamped. */
  function Slice(data: Bytes, lo: int, hi: int): (r: Bytes)
  {
    var n := |data|;
    var l := Clamp(lo, n);
    var h := Clamp(hi, n);
    if l <= h then data[l..h] else []
  }

  function Clamp(i: int, n: nat): (r: nat)
    ensures r <= n
  {
    if i < 0 then (if i + n < 0 then 0 else i + n) else if i > n then n else i
  }

  /** Index `k` of `n` lies at or after the bound, which counts from the end when it is negative. */
  ghost predicate AtOrAfter(k: int, bound: int, n: nat)
  {
    if bound < 0 then k - n >= bound else k >= bound
  }

  /** A slice holds the elements from the one bound up to the other. */
  lemma {:induction false} SliceHolds(data: Bytes, lo: int, hi: int) returns (a: nat, b: nat)
    ensures a <= b <= |data| && Slice(data, lo, hi) == data[a..b]
    ensures forall k :: 0 <= k < |data| ==> (a <= k < b <==> AtOrAfter(k, lo, |data|) && !AtOrAfter(k, hi, |data|))
  {
    a, b := Clamp(lo, |data|), Clamp(hi, |data|);
    if a > b {
      b := a;
    }
  }

  // ---- decode_all -----------------------------------------------------------------------

  /** One document at `pos`: its fields and the position after it. */
  function DocumentAt(data: Bytes, pos: nat): (r: Option<(Fields, nat)>)
    ensures r.Some? ==> pos + 5 <= r.value.1 <= |data|
  {
    var size := UnpackIntFrom(data, pos);
    if size.None? || |data| - pos < size.value then None
    else
      var objEnd := pos + size.value - 1;
      if At(data, objEnd) != Some(0) then None
      else
        var doc := ElementsSpec(data, pos + 4, objEnd, []);
        if doc.None? then None else Some((doc.value, pos + size.value))
  }

  function DecodeAllSpec(data: Bytes, pos: nat, acc: seq<Fields>): (r: Option<seq<Fields>>)
    requires pos <= |data|
    decreases |data| - pos
  {
    if pos < |data| - 1 then
      var doc := DocumentAt(data, pos);
      if doc.None? then None else DecodeAllSpec(data, doc.value.1, acc + [doc.value.0])
    else Some(acc)
  }

  /** `_decode_all`. */
  method DecodeAll(data: Bytes) returns (result: Option<seq<Fields>>)
    ensures result == DecodeAllSpec(data, 0, [])
  {
    hide ElementsSpec, At, UnpackIntFrom;
    var docs: seq<Fields> := [];
    var position := 0;
    var end := |data| - 1;
    while position < end
      invariant position <= |data|
      invariant DecodeAllSpec(data, 0, []) == DecodeAllSpec(data, position, docs)
      decreases |data| - position
    {
      var objSize := UnpackIntFrom(data, position);
      if objSize.None? || |data| - position < objSize.value {
        return None;
      }
      var objEnd := position + objSize.value - 1;
      if At(data, objEnd) != Some(0) {
        return None;
      }
      var doc := ElementsToDict(data, position + 4, objEnd);
      if doc.None? {
        return None;
      }
      docs := docs + [doc.value];
      position := position + objSize.value;
    }
    return Some(docs);
  }

  // ---- decode_iter ----------------------------------------------------------------------

  /** What the generator yields from `pos` on, and whether it ends without raising. */
  function DecodeIterSpec(data: Bytes, pos: nat, acc: seq<Fields>): (r: (seq<Fields>, bool))
    requires pos <= |data|
    decreases |data| - pos
  {
    if pos < |data| - 1 then
      var size := UnpackIntFrom(data, pos);
      if size.None? then (acc, false)
      else
        var elements := Slice(data, pos, pos + size.value);
        var doc := BsonToDict(elements);
        if doc.None? then (acc, false)
        else
          SliceProgress(data, pos, size.value);
          DecodeIterSpec(data, pos + size.value, acc + [doc.value])
    else (acc, true)
  }

  /** A slice that decodes has the length its own first four bytes declare. */
  lemma {:induction false} SliceProgress(data: Bytes, pos: nat, size: int)
    requires UnpackIntFrom(data, pos) == Some(size)
    requires BsonToDict(Slice(data, pos, pos + size)).Some?
    ensures size >= 5 && pos + size <= |data|
  {
    var elements := Slice(data, pos, pos + size);
    assert UnpackIntFrom(elements, 0).Some?;
    assert elements[0..4] == data[pos..pos + 4];
    assert UnpackIntFrom(elements, 0) == Some(size);
  }

  /** `decode_iter`, run to the end: the documents yielded, and whether it finished normally. */
  method DecodeIter(data: Bytes) returns (docs: seq<Fields>, finished: bool)
    ensures (docs, finished) == DecodeIterSpec(data, 0, [])
  {
    hide BsonToDict, Slice, UnpackIntFrom;
    docs := [];
    var position := 0;
    var end := |data| - 1;
    while position < end
      invariant position <= |data|
      invariant DecodeIterSpec(data, 0, []) == DecodeIterSpec(data, position, docs)
      decreases |data| - position
    {
      var objSize := UnpackIntFrom(data, position);
      if objSize.None? {
        return docs, false;
      }
      var elements := Slice(data, position, position + objSize.value);
      var doc := BsonToDict(elements);
      if doc.None? {
        return docs, false;
      }
      SliceProgress(data, position, objSize.value);
      docs := docs + [doc.value];
      position := position + objSize.value;
    }
    return docs, true;
  }

  // ---- what the streams return ----------------------------------------------------------

  /** The concatenated top-level encodings of `docs`. */
  function EncodeStream(docs: seq<Fields>): (r: Option<Bytes>)
  {
    if docs == [] then Some([]) else Concat(EncodeDocument(docs[0], false), EncodeStream(docs[1..]))
  }

  /** Documents that survive the round trip. */
  predicate Faithful(docs: seq<Fields>)
  {
    forall i :: 0 <= i < |docs| ==> WellTypedAll(docs[i]) && PlainAll(docs[i])
  }

  function ReadBackDocs(docs: seq<Fields>): (r: seq<Fields>)
  {
    seq(|docs|, i requires 0 <= i < |docs| => ReadBackAll(IdFirst(docs[i])))
  }

  /** An encoded document standing anywhere in `data` is read by the body of both loops. */
  lemma {:induction false} DocumentInStream(fs: Fields, data: Bytes, pos: nat)
    requires WellTypedAll(fs) && PlainAll(fs) && EncodeDocument(fs, false).Some?
    requires Has(data, pos, EncodeDocument(fs, false).value)
    ensures var bytes := EncodeDocument(fs, false).value;
            && DocumentAt(data, pos) == Some((ReadBackAll(IdFirst(fs)), pos + |bytes|))
            && UnpackIntFrom(data, pos) == Some(|bytes|)
            && BsonToDict(bytes) == Some(ReadBackAll(IdFirst(fs)))
  {
    hide ValidUtf8, Container, BsonToDict, ReadBackAll, PlainAll, WellTyped, EncodeFields, EncodeDocument, ElementsSpec;
    var r := IdFirst(fs);
    EncodeDocumentIsIdFirst(fs, false);
    DocumentRoundTrip(fs, false);
    IdFirstPermutes(fs);
    DecodeEncoded(r, false);
    RoundTrip.FieldsAreDerivation(r, false);
    var es := RoundTrip.TreesOf(r);
    RoundTrip.EncloseIsContainer(Yield(es));
    Parsing.ContainerComplete(Yield(es), data, pos);
    Parsing.ElementsComplete(es, data, pos + 4, pos + |Yield(es)| + 4, []);
    Parsing.DerivableIsDecoded(es, Container(Yield(es)));
  }

  /** Whatever follows a list of encoded documents, both readers have read the list when they come to it. */
  lemma {:induction false} StreamIsReadFirst(docs: seq<Fields>, tail: Bytes, data: Bytes, pos: nat, acc: seq<Fields>)
    requires Faithful(docs) && EncodeStream(docs).Some?
    requires pos <= |data| && data[pos..] == EncodeStream(docs).value + tail
    decreases |docs|
    ensures |tail| <= |data| - pos
    ensures DecodeAllSpec(data, pos, acc) == DecodeAllSpec(data, |data| - |tail|, acc + ReadBackDocs(docs))
    ensures DecodeIterSpec(data, pos, acc) == DecodeIterSpec(data, |data| - |tail|, acc + ReadBackDocs(docs))
  {
    hide EncodeDocument, BsonToDict, DocumentAt, ReadBackAll, PlainAll, WellTypedAll, ReadBackDocs, EncodeStream,
         Has, Slice;
    NoDocs(docs);
    if docs == [] {
      assert acc + [] == acc && [] + tail == tail;
    } else {
      StreamHead(docs, tail, data, pos);
      var bytes := EncodeDocument(docs[0], false).value;
      var read := ReadBackAll(IdFirst(docs[0]));
      DocumentInStream(docs[0], data, pos);
      StreamIsReadFirst(docs[1..], tail, data, pos + |bytes|, acc + [read]);
      ReadBackDocsHead(docs);
      assert acc + ([read] + ReadBackDocs(docs[1..])) == acc + [read] + ReadBackDocs(docs[1..]);
    }
  }

  /** Every list of documents: decoding the concatenated encodings returns the list. */
  lemma {:induction false} DecodeAllReturnsTheList(docs: seq<Fields>, data: Bytes, pos: nat, acc: seq<Fields>)
    requires Faithful(docs) && EncodeStream(docs).Some?
    requires pos <= |data| && data[pos..] == EncodeStream(docs).value
    ensures DecodeAllSpec(data, pos, acc) == Some(acc + ReadBackDocs(docs))
    ensures DecodeIterSpec(data, pos, acc) == (acc + ReadBackDocs(docs), true)
  {
    hide EncodeStream, Faithful, ReadBackDocs, DocumentAt, BsonToDict;
    assert EncodeStream(docs).value + [] == EncodeStream(docs).value;
    StreamIsReadFirst(docs, [], data, pos, acc);
  }

  /** One byte too many is left unread; two or three make `_decode_all` raise, and `decode_iter` raise
      after the list. */
  lemma {:induction false} ShortTails(docs: seq<Fields>, tail: Bytes, data: Bytes)
    requires Faithful(docs) && EncodeStream(docs).Some? && data == EncodeStream(docs).value + tail
    requires 1 <= |tail| <= 3
    ensures DecodeAllSpec(data, 0, []) == if |tail| == 1 then Some(ReadBackDocs(docs)) else None
    ensures DecodeIterSpec(data, 0, []) == (ReadBackDocs(docs), |tail| == 1)
  {
    hide EncodeStream, Faithful, ReadBackDocs, BsonToDict;
    assert data[0..] == data;
    StreamIsReadFirst(docs, tail, data, 0, []);
    assert [] + ReadBackDocs(docs) == ReadBackDocs(docs);
  }

  lemma {:induction false} NoDocs(docs: seq<Fields>)
    ensures docs == [] ==> EncodeStream(docs) == Some([]) && ReadBackDocs(docs) == []
  {
  }

  lemma {:induction false} ReadBackDocsHead(docs: seq<Fields>)
    requires docs != []
    ensures ReadBackDocs(docs) == [ReadBackAll(IdFirst(docs[0]))] + ReadBackDocs(docs[1..])
  {
    hide ReadBackAll, IdFirst;
  }

  /** The first document of a stream and what follows it. */
  lemma {:induction false} StreamHead(docs: seq<Fields>, tail: Bytes, data: Bytes, pos: nat)
    requires docs != [] && EncodeStream(docs).Some? && pos <= |data| && data[pos..] == EncodeStream(docs).value + tail
    ensures EncodeDocument(docs[0], false).Some? && EncodeStream(docs[1..]).Some?
    ensures var bytes := EncodeDocument(docs[0], false).value;
            && Has(data, pos, bytes) && pos + |bytes| <= |data| && Slice(data, pos, pos + |bytes|) == bytes
            && data[pos + |bytes|..] == EncodeStream(docs[1..]).value + tail
  {
    hide EncodeDocument;
    var bytes, rest := EncodeDocument(docs[0], false).value, EncodeStream(docs[1..]).value;
    assert data[pos..] == bytes + (rest + tail);
    assert data[pos..][..|bytes|] == bytes;
    assert data[pos + |bytes|..] == data[pos..][|bytes|..] == rest + tail;
  }

  // ---- arrays of documents --------------------------------------------------------------

  /** One element of an array of documents. */
  function Entry(name: Bytes, doc: Bytes): (r: Bytes) { [0x03] + name + [0] + doc }

  /** The bytes of a BSON array whose items are the documents `docs` under the names `names`. */
  function ArrayBody(names: seq<Bytes>, docs: seq<Bytes>): (r: Bytes)
    requires |names| == |docs|
  {
    if docs == [] then [] else Entry(names[0], docs[0]) + ArrayBody(names[1..], docs[1..])
  }

  /** A byte string shaped like a document: its length and its final NUL are right. */
  predicate Framed(doc: Bytes)
  {
    5 <= |doc| <= MAX_INT32 && doc[..4] == PackInt32(|doc|) && doc[|doc| - 1] == 0
  }

  lemma {:induction false} FramedAt(doc: Bytes, data: Bytes, pos: nat, end: int)
    requires Framed(doc) && Has(data, pos, doc) && 0 < pos && pos + |doc| <= end
    ensures GetObjectSize(data, pos, end) == Some((|doc|, pos + |doc| - 1))
  {
    assert data[pos..pos + 4] == doc[..4];
    Int32RoundTrip(|doc|);
    assert data[pos + |doc| - 1] == doc[|doc| - 1];
  }

  predicate Entries(names: seq<Bytes>, docs: seq<Bytes>)
  {
    |names| == |docs| && forall i :: 0 <= i < |docs| ==> NoNul(names[i]) && Framed(docs[i])
  }

  /** One entry at `pos`: the key ends after the name, the document has its declared size. */
  lemma {:induction false} EntryAt(names: seq<Bytes>, docs: seq<Bytes>, data: Bytes, pos: nat, end: int)
    requires docs != [] && Entries(names, docs)
    requires Has(data, pos, ArrayBody(names, docs)) && pos + |ArrayBody(names, docs)| == end
    ensures NoNul([0x03] + names[0]) && Has(data, pos, [0x03] + names[0] + [0])
    ensures var at := pos + |names[0]| + 2;
            && GetObjectSize(data, at, end) == Some((|docs[0]|, at + |docs[0]| - 1))
            && at + |docs[0]| <= |data| && data[at..at + |docs[0]|] == docs[0]
            && Has(data, at + |docs[0]|, ArrayBody(names[1..], docs[1..]))
            && at + |docs[0]| + |ArrayBody(names[1..], docs[1..])| == end
    ensures |docs[0]| >= 5 && Entries(names[1..], docs[1..])
  {
    hide GetObjectSize;
    var head := [0x03] + names[0] + [0];
    HasSplit(data, pos, head + docs[0], ArrayBody(names[1..], docs[1..]));
    HasSplit(data, pos, head, docs[0]);
    FramedAt(docs[0], data, pos + |head|, end);
  }

  lemma {:induction false} BodyLength(names: seq<Bytes>, docs: seq<Bytes>)
    requires |names| == |docs|
    ensures if docs == [] then |ArrayBody(names, docs)| == 0 else |ArrayBody(names, docs)| >= 2
  {
  }

  lemma {:induction false} HeaderAt(body: Bytes)
    requires |body| + 5 <= MAX_INT32
    ensures var data := Container(body);
            && GetObjectSize(data, 0, |data|) == Some((|body| + 5, |body| + 4))
            && Has(data, 4, body)
  {
    var data := Container(body);
    assert data[0..|data|] == data;
    Parsing.ContainerComplete(body, data, 0);
  }

  /** The names and the encodings of the documents of a list, from index `i` on. */
  function ListNames(docs: seq<Fields>, i: nat): (r: seq<Bytes>)
    ensures |r| == |docs|
  {
    seq(|docs|, k requires 0 <= k < |docs| => Digits(i + k))
  }

  function ListDocs(docs: seq<Fields>): (r: seq<Bytes>)
    requires forall k :: 0 <= k < |docs| ==> EncodeNested(docs[k], false).Some?
    ensures |r| == |docs|
  {
    seq(|docs|, k requires 0 <= k < |docs| => EncodeNested(docs[k], false).value)
  }

  function Mappings(docs: seq<Fields>): (r: seq<Value>)
  {
    seq(|docs|, k requires 0 <= k < |docs| => Mapping(docs[k]))
  }

  lemma {:induction false} EncodedIsFramed(fs: Fields)
    requires EncodeNested(fs, false).Some?
    ensures Framed(EncodeNested(fs, false).value)
  {
    hide EncodeFields;
    var doc := EncodeNested(fs, false).value;
    assert doc[..4] == PackInt32(|doc|);
  }

  /** What the encoder writes for a list of documents is an array of their encodings, so the
      buffer extracted from it is exactly their concatenation. */
  lemma {:induction false} EncodedListIsArrayOfDocuments(docs: seq<Fields>, i: nat)
    requires EncodeItems(Mappings(docs), i, false).Some?
    decreases |docs|
    ensures forall k :: 0 <= k < |docs| ==> EncodeNested(docs[k], false).Some?
    ensures Entries(ListNames(docs, i), ListDocs(docs))
    ensures EncodeItems(Mappings(docs), i, false) == Some(ArrayBody(ListNames(docs, i), ListDocs(docs)))
  {
    hide EncodeNested, Framed, EncodeFields, Digits;
    if docs != [] {
      var rest := docs[1..];
      assert Mappings(docs)[1..] == Mappings(rest);
      assert EncodeValue(Digits(i) + [0], Mapping(docs[0]), false)
          == Tagged(0x03, Digits(i) + [0], EncodeNested(docs[0], false)) by {
        MappingUnfolds(docs[0], Digits(i) + [0]);
      }
      EncodedListIsArrayOfDocuments(rest, i + 1);
      assert forall k :: 0 < k < |docs| ==> docs[k] == rest[k - 1];
      assert ListNames(docs, i)[1..] == ListNames(rest, i + 1);
      assert ListDocs(docs)[1..] == ListDocs(rest);
      EncodedIsFramed(docs[0]);
      assert NoNul(Digits(i));
      var names, encoded := ListNames(docs, i), ListDocs(docs);
      forall k | 0 <= k < |docs|
        ensures NoNul(names[k]) && Framed(encoded[k])
      {
        if k > 0 {
          assert names[k] == ListNames(rest, i + 1)[k - 1] && encoded[k] == ListDocs(rest)[k - 1];
        }
      }
      assert [0x03] + (Digits(i) + [0]) + encoded[0] == [0x03] + names[0] + [0] + encoded[0];
    }
  }

  lemma {:induction false} MappingUnfolds(fs: Fields, name: Bytes)
    ensures EncodeValue(name, Mapping(fs), false) == Tagged(0x03, name, EncodeNested(fs, false))
  {
  }
}
