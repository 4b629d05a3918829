/**
 Which subdocuments become a `DBRef`, told by their keys rather than by the decoder's test: the
 lookups of `_get_object` in bson/__init__.py go by name, so the order of the keys makes no difference.
 */
module References {
  import opened Bytes
  import opened Bson
  import opened Grammar
  import opened Encoder
  import opened RoundTrip
  import opened Expectation = ReadBack
  import Decoder

  /** The special keys, as the source spells them. */
  lemma {:induction false} KeysAsText()
    ensures ID_KEY == Ascii("_id")
    ensures REF_KEY == Ascii("$ref") && DOLLAR_ID_KEY == Ascii("$id") && DB_KEY == Ascii("$db")
  {
  }

  predicate IsPart(key: Bytes) { key == Ascii("$ref") || key == Ascii("$id") || key == Ascii("$db") }

  /** The fields that are no part of a reference, in order. */
  function Others(fs: Fields): (r: Fields)
  {
    if fs == [] then [] else (if IsPart(fs[0].key) then [] else [fs[0]]) + Others(fs[1..])
  }

  ghost predicate At(fs: Fields, i: int, key: Bytes) { 0 <= i < |fs| && fs[i].key == key }

  /** A `$ref` that is a str, a `$id`, and no `$db` but a str or None: the three conditions on the keys,
      wherever they stand. */
  ghost predicate IsReference(fs: Fields)
  {
    && (exists i :: At(fs, i, Ascii("$ref")) && (fs[i].value.Text? || fs[i].value.Code? || fs[i].value.CodeWithScope?))
    && (exists j :: At(fs, j, Ascii("$id")))
    && (forall k :: At(fs, k, Ascii("$db")) ==>
          fs[k].value.Text? || fs[k].value.Code? || fs[k].value.CodeWithScope? || fs[k].value.Null?)
  }

  lemma {:induction false} GetTells(fs: Fields, key: Bytes)
    requires Distinct(fs)
    ensures forall i :: At(fs, i, key) ==> Get(fs, key) == fs[i].value
    ensures (forall i :: !At(fs, i, key)) ==> Get(fs, key) == Null
    ensures HasKey(fs, key) <==> exists i :: At(fs, i, key)
  {
    hide Get;
    if HasKey(fs, key) {
      var i :| 0 <= i < |fs| && fs[i].key == key;
      assert At(fs, i, key);
      GetAt(fs, i);
    } else {
      GetAbsent(fs, key);
    }
  }

  lemma {:induction false} OthersAreRemoved(fs: Fields)
    ensures Remove(Remove(Remove(fs, REF_KEY), DOLLAR_ID_KEY), DB_KEY) == Others(fs)
  {
    KeysAsText();
    if fs != [] {
      OthersAreRemoved(fs[1..]);
      var rest := fs[1..];
      assert fs == [fs[0]] + rest;
      RemoveHead(fs[0], rest, REF_KEY);
      RemoveHead(fs[0], Remove(rest, REF_KEY), DOLLAR_ID_KEY);
      RemoveHead(fs[0], Remove(Remove(rest, REF_KEY), DOLLAR_ID_KEY), DB_KEY);
    }
  }

  /** The decoded fields of a subdocument become a `DBRef` exactly if they hold those keys, in whatever
      order, and its parts are the values that stand under them. */
  lemma {:induction false} DBRefByName(fs: Fields)
    requires Distinct(fs)
    ensures var v := Recognise(fs);
            && (v.DBRef? <==> IsReference(fs))
            && (!v.DBRef? ==> v == Mapping(fs))
            && (v.DBRef? ==>
                  && (forall i :: At(fs, i, Ascii("$ref")) ==> v.collection == fs[i].value)
                  && (forall i :: At(fs, i, Ascii("$id")) ==> v.id == fs[i].value)
                  && (forall i :: At(fs, i, Ascii("$db")) ==> v.database == fs[i].value)
                  && ((forall i :: !At(fs, i, Ascii("$db"))) ==> v.database == Null)
                  && v.extra == Others(fs))
  {
    hide Remove, Get, HasKey, Others;
    KeysAsText();
    GetTells(fs, REF_KEY);
    GetTells(fs, DOLLAR_ID_KEY);
    GetTells(fs, DB_KEY);
    OthersAreRemoved(fs);
  }

  /** In another order the same fields stand somewhere. */
  lemma {:induction false} StandsSomewhere(fs: Fields, gs: Fields, i: int, key: Bytes)
    requires multiset(fs) == multiset(gs) && At(fs, i, key)
    ensures exists j :: At(gs, j, key) && gs[j] == fs[i]
  {
    assert fs[i] in multiset(gs);
    var j :| 0 <= j < |gs| && gs[j] == fs[i];
    assert At(gs, j, key);
  }

  lemma {:induction false} OthersPermute(fs: Fields, f: Field)
    ensures multiset(Others(fs))[f] == if IsPart(f.key) then 0 else multiset(fs)[f]
  {
    hide IsPart;
    if fs != [] {
      OthersPermute(fs[1..], f);
      assert fs == [fs[0]] + fs[1..];
    }
  }

  lemma {:induction false} ReferencePermutes(fs: Fields, gs: Fields)
    requires multiset(fs) == multiset(gs) && IsReference(fs)
    ensures IsReference(gs)
  {
    var i :| At(fs, i, Ascii("$ref")) && (fs[i].value.Text? || fs[i].value.Code? || fs[i].value.CodeWithScope?);
    StandsSomewhere(fs, gs, i, Ascii("$ref"));
    var j :| At(fs, j, Ascii("$id"));
    StandsSomewhere(fs, gs, j, Ascii("$id"));
    forall k | At(gs, k, Ascii("$db"))
      ensures gs[k].value.Text? || gs[k].value.Code? || gs[k].value.CodeWithScope? || gs[k].value.Null?
    {
      StandsSomewhere(gs, fs, k, Ascii("$db"));
    }
  }

  /** The order of the fields makes no difference to what is recognised: the same collection, id and
      database, and the same extra fields. */
  lemma {:induction false} OrderDoesNotMatter(fs: Fields, gs: Fields)
    requires Distinct(fs) && Distinct(gs) && multiset(fs) == multiset(gs)
    ensures var v, w := Recognise(fs), Recognise(gs);
            && (v.DBRef? <==> w.DBRef?)
            && (v.DBRef? ==>
                  && v.collection == w.collection && v.id == w.id && v.database == w.database
                  && multiset(v.extra) == multiset(w.extra))
  {
    hide Recognise, Others, IsReference;
    DBRefByName(fs);
    DBRefByName(gs);
    if IsReference(fs) {
      ReferencePermutes(fs, gs);
      SameParts(fs, gs);
    }
    if IsReference(gs) {
      ReferencePermutes(gs, fs);
    }
  }

  lemma {:induction false} SameParts(fs: Fields, gs: Fields)
    requires Distinct(fs) && Distinct(gs) && multiset(fs) == multiset(gs) && IsReference(fs) && IsReference(gs)
    ensures var v, w := Recognise(fs), Recognise(gs);
            && v.DBRef? && w.DBRef?
            && v.collection == w.collection && v.id == w.id && v.database == w.database
            && multiset(v.extra) == multiset(w.extra)
  {
    hide Recognise, Others;
    DBRefByName(fs);
    DBRefByName(gs);
    var i :| At(fs, i, Ascii("$ref"));
    StandsSomewhere(fs, gs, i, Ascii("$ref"));
    var j :| At(fs, j, Ascii("$id"));
    StandsSomewhere(fs, gs, j, Ascii("$id"));
    if k :| At(fs, k, Ascii("$db")) {
      StandsSomewhere(fs, gs, k, Ascii("$db"));
    } else {
      forall k ensures !At(gs, k, Ascii("$db")) {
        if At(gs, k, Ascii("$db")) {
          StandsSomewhere(gs, fs, k, Ascii("$db"));
        }
      }
    }
    forall f: Field ensures multiset(Others(fs))[f] == multiset(Others(gs))[f] {
      OthersPermute(fs, f);
      OthersPermute(gs, f);
    }
    assert multiset(Others(fs)) == multiset(Others(gs));
  }

  // ---- from bytes -----------------------------------------------------------------------

  /** A mapping of one field: what its encoding decodes to. */
  lemma {:induction false} OneField(key: Bytes, v: Value, checkKeys: bool)
    requires EncodeDocument([Field(key, v)], checkKeys).Some?
    ensures Decoder.BsonToDict(EncodeDocument([Field(key, v)], checkKeys).value) == FieldMeaning(Field(key, v))
  {
    hide Decoder.BsonToDict, Meaning, TreeOf, EncodeValue, EncodeFields;
    var fs := [Field(key, v)];
    assert IdFirst(fs) == fs by {
      assert fs[1..] == [];
      assert HasKey(fs, ID_KEY) ==> key == ID_KEY;
    }
    EncodeDocumentIsIdFirst(fs, checkKeys);
    DecodeEncoded(fs, checkKeys);
    MeaningsOne(fs[0]);
  }

  /** Written as a plain mapping under any key, the fields of a reference are read as a `DBRef`, in any
      order; all other fields are read as a mapping. */
  lemma {:induction false} SubdocumentIsRead(key: Bytes, fs: Fields, checkKeys: bool)
    requires WellTypedAll(fs) && PlainAll(fs) && EncodeDocument([Field(key, Mapping(fs))], checkKeys).Some?
    ensures var r := Decoder.BsonToDict(EncodeDocument([Field(key, Mapping(fs))], checkKeys).value);
            && r.Some? && |r.value| == 1 && r.value[0].key == key
            && var v := r.value[0].value;
               if IsReference(fs) then
                 && v.DBRef?
                 && (forall i :: At(fs, i, Ascii("$ref")) ==> v.collection == Expectation.ReadBack(fs[i].value))
                 && (forall i :: At(fs, i, Ascii("$id")) ==> v.id == Expectation.ReadBack(fs[i].value))
                 && (forall i :: At(fs, i, Ascii("$db")) ==> v.database == Expectation.ReadBack(fs[i].value))
                 && ((forall i :: !At(fs, i, Ascii("$db"))) ==> v.database == Null)
                 && v.extra == Others(ReadBackAll(fs))
               else v == Mapping(ReadBackAll(fs))
  {
    hide Decoder.BsonToDict, Recognise, Others, WellTypedAll, PlainAll, IsReference, EncodeDocument;
    OneField(key, Mapping(fs), checkKeys);
    MappingMeans(key, fs, checkKeys);
    var gs := ReadBackAll(fs);
    DistinctReadBack(fs);
    DBRefByName(gs);
    ReferenceReadsBack(fs);
    ReadBackValues(fs);
    assert forall i, k :: At(gs, i, k) <==> At(fs, i, k);
  }

  lemma {:induction false} DistinctReadBack(fs: Fields)
    requires WellTypedAll(fs)
    ensures Distinct(ReadBackAll(fs))
  {
  }

  lemma {:induction false} ReadBackValues(fs: Fields)
    ensures forall i :: 0 <= i < |fs| ==> ReadBackAll(fs)[i].value == Expectation.ReadBack(fs[i].value)
  {
    hide Expectation.ReadBack;
    if fs != [] {
      ReadBackValues(fs[1..]);
      assert ReadBackAll(fs)[1..] == ReadBackAll(fs[1..]);
    }
  }

  /** The same keys, and under them values of the same kind. */
  ghost predicate SameKinds(fs: Fields, gs: Fields)
  {
    && |fs| == |gs|
    && forall i :: 0 <= i < |fs| ==>
         && gs[i].key == fs[i].key
         && (gs[i].value.Text? <==> fs[i].value.Text?) && (gs[i].value.Code? <==> fs[i].value.Code?)
         && (gs[i].value.CodeWithScope? <==> fs[i].value.CodeWithScope?)
         && (gs[i].value.Null? <==> fs[i].value.Null?)
  }

  lemma {:induction false} KindsDecide(fs: Fields, gs: Fields)
    requires SameKinds(fs, gs) && IsReference(fs)
    ensures IsReference(gs)
  {
    var i :| At(fs, i, Ascii("$ref")) && (fs[i].value.Text? || fs[i].value.Code? || fs[i].value.CodeWithScope?);
    assert At(gs, i, Ascii("$ref"));
    var j :| At(fs, j, Ascii("$id"));
    assert At(gs, j, Ascii("$id"));
    assert forall k :: At(gs, k, Ascii("$db")) ==> At(fs, k, Ascii("$db"));
  }

  lemma {:induction false} ReferenceReadsBack(fs: Fields)
    ensures IsReference(ReadBackAll(fs)) <==> IsReference(fs)
  {
    hide IsReference;
    var gs := ReadBackAll(fs);
    ReadBackValues(fs);
    assert SameKinds(fs, gs) && SameKinds(gs, fs);
    if IsReference(fs) {
      KindsDecide(fs, gs);
    }
    if IsReference(gs) {
      KindsDecide(gs, fs);
    }
  }

  lemma {:induction false} MappingMeans(key: Bytes, fs: Fields, checkKeys: bool)
    requires WellTypedAll(fs) && PlainAll(fs) && EncodeDocument([Field(key, Mapping(fs))], checkKeys).Some?
    ensures Meaning(TreeOf(Mapping(fs))) == Some(Recognise(ReadBackAll(fs)))
  {
    hide Recognise, WellTypedAll, PlainAll, ReadBackAll, Fold, TreesOf, EncodeFields;
    FieldsEncode(key, fs, checkKeys);
    FieldsReadBack(fs, checkKeys);
    DistinctMeaning(fs);
  }

  lemma {:induction false} FieldsEncode(key: Bytes, fs: Fields, checkKeys: bool)
    requires EncodeDocument([Field(key, Mapping(fs))], checkKeys).Some?
    ensures EncodeFields(fs, checkKeys).Some?
  {
    hide ValidUtf8;
    var one := [Field(key, Mapping(fs))];
    assert IdFirst(one) == one by {
      assert one[1..] == [];
      assert HasKey(one, ID_KEY) ==> key == ID_KEY;
    }
    EncodeDocumentIsIdFirst(one, checkKeys);
    assert EncodeFields(one, checkKeys) == Concat(EncodeElement(one[0], checkKeys), EncodeFields(one[1..], checkKeys));
    hide EncodeFields;
    assert EncodeValue(CString(key).value, Mapping(fs), checkKeys).Some?;
  }

  /** A reference with its id first, as test/test_dbref.py has it. */
  lemma {:induction false} IdBeforeRef(key: Bytes, checkKeys: bool)
    requires var fs := [Field(Ascii("$id"), Int(1)), Field(Ascii("$ref"), Text(Ascii("coll0")))];
             EncodeDocument([Field(key, Mapping(fs))], checkKeys).Some?
    ensures var fs := [Field(Ascii("$id"), Int(1)), Field(Ascii("$ref"), Text(Ascii("coll0")))];
            Decoder.BsonToDict(EncodeDocument([Field(key, Mapping(fs))], checkKeys).value)
            == Some([Field(key, DBRef(Text(Ascii("coll0")), Int(1), Null, []))])
  {
    hide Decoder.BsonToDict, EncodeDocument, IsReference;
    var fs := [Field(Ascii("$id"), Int(1)), Field(Ascii("$ref"), Text(Ascii("coll0")))];
    ThisIsReference(fs);
    hide Others, ReadBackAll, Recognise;
    SubdocumentIsRead(key, fs, checkKeys);
    assert At(fs, 0, Ascii("$id")) && At(fs, 1, Ascii("$ref"));
    var r := Decoder.BsonToDict(EncodeDocument([Field(key, Mapping(fs))], checkKeys).value);
    assert r.value[0].value == DBRef(Text(Ascii("coll0")), Int(1), Null, []);
    assert r.value == [r.value[0]];
  }

  lemma {:induction false} ThisIsReference(fs: Fields)
    requires fs == [Field(Ascii("$id"), Int(1)), Field(Ascii("$ref"), Text(Ascii("coll0")))]
    ensures IsReference(fs) && WellTypedAll(fs) && PlainAll(fs) && Others(ReadBackAll(fs)) == []
    ensures forall k :: !At(fs, k, Ascii("$db"))
  {
    assert Ascii("$id")[1] != Ascii("$ref")[1] && Ascii("$db")[1] != Ascii("$id")[1];
    assert |Ascii("$db")| != |Ascii("$ref")|;
    assert At(fs, 0, Ascii("$id")) && At(fs, 1, Ascii("$ref"));
    assert fs[1..] == [fs[1]] && fs[1..][1..] == [];
    assert ReadBackAll(fs[1..]) == [fs[1]] + ReadBackAll([]);
    assert ReadBackAll(fs) == fs;
    assert Others(fs[1..]) == [] + Others(fs[1..][1..]);
    assert Others(fs) == [] + Others(fs[1..]);
  }
}
