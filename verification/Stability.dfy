/**
 What the decoder returns is settled: a proper Python value, with nothing left in it that would be
 mistaken for something else, so that encoding it again and decoding that changes nothing.
 */
module Stability {
  import opened Bytes
  import opened Bson
  import opened Grammar
  import opened Encoder
  import opened Expectation = ReadBack
  import Decoder
  import Dictionaries
  import Parsing
  import References

  /** Well typed, plain, and read back as itself. */
  ghost predicate Settled(v: Value) { WellTyped(v) && Plain(v) && ReadBack(v) == v }

  ghost predicate AllSettled(fs: Fields)
  {
    forall i :: 0 <= i < |fs| ==> Settled(fs[i].value)
  }

  // ---- lists of settled values ----------------------------------------------------------

  lemma {:induction false} SettledFields(fs: Fields)
    requires AllSettled(fs) && Distinct(fs)
    ensures WellTypedAll(fs) && PlainAll(fs) && ReadBackAll(fs) == fs
  {
    hide WellTyped, Plain, ReadBack;
    if fs != [] {
      SettledFields(fs[1..]);
      assert fs == [fs[0]] + fs[1..];
    }
  }

  lemma {:induction false} SettledItems(items: seq<Value>)
    requires forall i :: 0 <= i < |items| ==> Settled(items[i])
    ensures WellTypedItems(items) && PlainItems(items) && ReadBackItems(items) == items
  {
    hide WellTyped, Plain, ReadBack;
    if items != [] {
      SettledItems(items[1..]);
      assert items == [items[0]] + items[1..];
    }
  }

  lemma {:induction false} FirstExists(fs: Fields, key: Bytes) returns (i: int)
    requires HasKey(fs, key)
    ensures Dictionaries.FirstAt(fs, i, key)
  {
    if fs[0].key == key {
      i := 0;
    } else {
      var k :| 0 <= k < |fs| && fs[k].key == key;
      assert fs[1..][k - 1] == fs[k];
      i := FirstExists(fs[1..], key);
      assert forall j :: 0 <= j < i ==> fs[1..][j] == fs[j + 1];
      i := i + 1;
    }
  }

  lemma {:induction false} PutSettled(fs: Fields, key: Bytes, v: Value)
    requires AllSettled(fs) && Distinct(fs) && Settled(v)
    ensures AllSettled(Put(fs, key, v)) && Distinct(Put(fs, key, v))
  {
    hide Settled, Put;
    Dictionaries.PutTells(fs, key, v);
    if HasKey(fs, key) {
      var i := FirstExists(fs, key);
      assert Put(fs, key, v) == fs[i := Field(key, v)];
    } else {
      assert Put(fs, key, v) == fs + [Field(key, v)];
    }
  }

  // ---- what recognition leaves ----------------------------------------------------------

  lemma {:induction false} GetSettled(fs: Fields, key: Bytes)
    requires AllSettled(fs)
    ensures Settled(Get(fs, key))
  {
    hide Settled;
    NullSettled();
    if fs != [] && fs[0].key != key {
      GetSettled(fs[1..], key);
    }
  }

  lemma {:induction false} NullSettled()
    ensures Settled(Null)
  {
  }

  lemma {:induction false} RemoveSettled(fs: Fields, key: Bytes)
    requires AllSettled(fs) && Distinct(fs)
    ensures AllSettled(Remove(fs, key)) && Distinct(Remove(fs, key))
  {
    hide Settled, Remove;
    RemoveDistinct(fs, key);
    var r := Remove(fs, key);
    forall i | 0 <= i < |r| ensures Settled(r[i].value) {
      assert r[i] in fs;
    }
  }

  /** The three keys are gone from the extra fields. */
  lemma {:induction false} PartsAreGone(fs: Fields)
    ensures NoReserved(References.Others(fs))
  {
    References.KeysAsText();
    if fs != [] {
      PartsAreGone(fs[1..]);
    }
  }

  lemma {:induction false} RecogniseSettled(fs: Fields)
    requires AllSettled(fs) && Distinct(fs)
    ensures Settled(Recognise(fs))
  {
    hide Settled, AllSettled, Get, Remove, HasKey, NoReserved;
    if LooksLikeDBRef(fs) {
      var one := Remove(fs, REF_KEY);
      var two := Remove(one, DOLLAR_ID_KEY);
      var extra := Remove(two, DB_KEY);
      RemoveSettled(fs, REF_KEY);
      RemoveSettled(one, DOLLAR_ID_KEY);
      RemoveSettled(two, DB_KEY);
      References.OthersAreRemoved(fs);
      PartsAreGone(fs);
      GetSettled(fs, REF_KEY);
      GetSettled(fs, DOLLAR_ID_KEY);
      GetSettled(fs, DB_KEY);
      SettledRef(Get(fs, REF_KEY), Get(fs, DOLLAR_ID_KEY), Get(fs, DB_KEY), extra);
    } else {
      SettledMapping(fs);
    }
  }

  lemma {:induction false} SettledRef(c: Value, id: Value, db: Value, extra: Fields)
    requires Settled(c) && Settled(id) && Settled(db) && AllSettled(extra) && Distinct(extra)
    requires IsStr(c) && (db.Null? || IsStr(db)) && NoReserved(extra)
    ensures Settled(DBRef(c, id, db, extra))
  {
    SettledFields(extra);
  }

  lemma {:induction false} SettledMapping(fs: Fields)
    requires AllSettled(fs) && Distinct(fs) && !LooksLikeDBRef(fs)
    ensures Settled(Mapping(fs))
  {
    SettledFields(fs);
  }

  lemma {:induction false} SettledScope(code: Bytes, fs: Fields)
    requires Settled(Mapping(fs))
    ensures Settled(CodeWithScope(code, fs))
  {
  }

  lemma {:induction false} SettledFlags(pattern: Bytes, options: Bytes)
    ensures Settled(Regex(pattern, FlagsOfLetters(options)))
  {
    MaskHasFlags(0x69 in options, 0x6c in options, 0x6d in options, 0x73 in options, 0x75 in options, 0x78 in options);
  }

  // ---- everything that is decoded -------------------------------------------------------

  /** The meaning of every tree is settled. */
  lemma {:induction false} MeaningSettled(n: Node)
    requires Meaning(n).Some?
    ensures Settled(Meaning(n).value)
    decreases n
  {
    hide Recognise, FlagsOfLetters, Fold, Items;
    match n
    case NDocument(es) => DocumentSettled(es);
    case NArray(es) =>
      ItemsSettled(es, []);
      SettledItems(Items(es, []).value);
    case NCodeWithScope(s, es) =>
      DocumentSettled(es);
      SettledScope(s, Recognise(Fold(es, []).value).fields);
    case NRegex(pattern, options) => SettledFlags(pattern, options);
    case NDBPointer(s, oid) => SettledRef(Text(s), ObjectId(oid), Null, []);
    case _ =>
  }

  lemma {:induction false} DocumentSettled(es: Elements)
    requires Fold(es, []).Some?
    ensures Settled(Recognise(Fold(es, []).value))
    decreases es, 1
  {
    hide Recognise, Fold;
    FoldSettled(es, []);
    RecogniseSettled(Fold(es, []).value);
  }

  lemma {:induction false} FoldSettled(es: Elements, acc: Fields)
    requires AllSettled(acc) && Distinct(acc) && Fold(es, acc).Some?
    ensures AllSettled(Fold(es, acc).value) && Distinct(Fold(es, acc).value)
    decreases es, 0
  {
    hide Settled, Meaning, Put, AllSettled;
    if es != [] {
      var v := Meaning(es[0].node).value;
      MeaningSettled(es[0].node);
      PutSettled(acc, es[0].name, v);
      FoldSettled(es[1..], Put(acc, es[0].name, v));
    }
  }

  lemma {:induction false} ItemsSettled(es: Elements, acc: seq<Value>)
    requires (forall i :: 0 <= i < |acc| ==> Settled(acc[i])) && Items(es, acc).Some?
    ensures forall i :: 0 <= i < |Items(es, acc).value| ==> Settled(Items(es, acc).value[i])
    decreases es, 0
  {
    hide Settled, Meaning;
    if es != [] {
      MeaningSettled(es[0].node);
      ItemsSettled(es[1..], acc + [Meaning(es[0].node).value]);
    }
  }

  /** Whatever is decoded from any bytes: its keys are distinct, its values well typed, and nothing in it
      would be mistaken for a DBRef or come back changed. */
  lemma {:induction false} DecodedIsSettled(data: Bytes)
    requires Decoder.BsonToDict(data).Some?
    ensures var fs := Decoder.BsonToDict(data).value;
            WellTypedAll(fs) && PlainAll(fs) && ReadBackAll(fs) == fs
  {
    hide Decoder.BsonToDict, Fold, WellTypedAll, PlainAll, ReadBackAll, AllSettled;
    var es := Parsing.AcceptedIsDerivable(data);
    NothingSettled();
    FoldSettled(es, []);
    SettledFields(Fold(es, []).value);
  }

  lemma {:induction false} NothingSettled()
    ensures AllSettled([]) && Distinct([])
  {
  }

  /** Decoding what was decoded and encoded again gives the same document, `_id` first, for all bytes
      that decode at all and fit when written again. */
  lemma {:induction false} DecodingIsStable(data: Bytes)
    requires Decoder.BsonToDict(data).Some?
    requires EncodeDocument(Decoder.BsonToDict(data).value, false).Some?
    ensures var fs := Decoder.BsonToDict(data).value;
            Decoder.BsonToDict(EncodeDocument(fs, false).value) == Some(IdFirst(fs))
  {
    hide Decoder.BsonToDict, EncodeDocument, WellTypedAll, PlainAll, ReadBackAll, IdFirst;
    var fs := Decoder.BsonToDict(data).value;
    DecodedIsSettled(data);
    DocumentRoundTrip(fs, false);
    IdFirstIsSettled(fs);
  }

  lemma {:induction false} IdFirstIsSettled(fs: Fields)
    requires WellTypedAll(fs) && ReadBackAll(fs) == fs
    ensures ReadBackAll(IdFirst(fs)) == IdFirst(fs)
  {
    hide Expectation.ReadBack, IdFirst, WellTyped;
    IdFirstPermutes(fs);
    References.ReadBackValues(fs);
    References.ReadBackValues(IdFirst(fs));
    var r := IdFirst(fs);
    forall i | 0 <= i < |r| ensures ReadBackAll(r)[i] == r[i] {
      assert r[i] in multiset(fs);
      var k :| 0 <= k < |fs| && fs[k] == r[i];
      assert ReadBackAll(fs)[k] == fs[k];
    }
  }
}
