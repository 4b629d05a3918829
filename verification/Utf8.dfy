/**
 What the text test of the codec accepts: exactly the encodings of Unicode scalar values (RFC 3629,
 section 3), which leaves out overlong forms, surrogates and everything above U+10FFFF.
 */
module Utf8 {
  import opened Bytes
  import opened Bson

  predicate Scalar(c: nat) { c <= 0x10ffff && !(0xd800 <= c <= 0xdfff) }

  /** The table of RFC 3629. */
  function EncodePoint(c: nat): (s: Bytes)
    requires c <= 0x10ffff
  {
    if c < 0x80 then [c]
    else if c < 0x800 then [0xc0 + c / 64, 0x80 + c % 64]
    else if c < 0x10000 then [0xe0 + c / 4096, 0x80 + c / 64 % 64, 0x80 + c % 64]
    else [0xf0 + c / 262144, 0x80 + c / 4096 % 64, 0x80 + c / 64 % 64, 0x80 + c % 64]
  }

  function EncodeText(cs: seq<nat>): (s: Bytes)
    requires forall i :: 0 <= i < |cs| ==> Scalar(cs[i])
  {
    if cs == [] then []
    else
      assert Scalar(cs[0]);
      EncodePoint(cs[0]) + EncodeText(cs[1..])
  }

  lemma {:induction false} PointHasHead(c: nat, rest: Bytes)
    requires Scalar(c)
    ensures Utf8Head(EncodePoint(c) + rest) == |EncodePoint(c)| > 0
  {
    var e := EncodePoint(c);
    var s := e + rest;
    assert forall i :: 0 <= i < |e| ==> s[i] == e[i];
  }

  lemma {:induction false} TwoBytes(a: nat, b: nat)
    requires 0xc2 <= a < 0xe0 && 0x80 <= b < 0xc0
    ensures var c := (a - 0xc0) * 64 + (b - 0x80); Scalar(c) && EncodePoint(c) == [a, b]
  {
  }

  lemma {:induction false} ThreeBytes(a: nat, b: nat, d: nat)
    requires 0xe0 <= a < 0xf0 && 0x80 <= b < 0xc0 && 0x80 <= d < 0xc0
    requires (a == 0xe0 ==> b >= 0xa0) && (a == 0xed ==> b < 0xa0)
    ensures var c := (a - 0xe0) * 4096 + (b - 0x80) * 64 + (d - 0x80); Scalar(c) && EncodePoint(c) == [a, b, d]
  {
    var c := (a - 0xe0) * 4096 + (b - 0x80) * 64 + (d - 0x80);
    assert c / 64 == (a - 0xe0) * 64 + (b - 0x80);
  }

  lemma {:induction false} FourBytes(a: nat, b: nat, d: nat, e: nat)
    requires 0xf0 <= a < 0xf5 && 0x80 <= b < 0xc0 && 0x80 <= d < 0xc0 && 0x80 <= e < 0xc0
    requires (a == 0xf0 ==> b >= 0x90) && (a == 0xf4 ==> b < 0x90)
    ensures var c := (a - 0xf0) * 262144 + (b - 0x80) * 4096 + (d - 0x80) * 64 + (e - 0x80);
            Scalar(c) && EncodePoint(c) == [a, b, d, e]
  {
    var c := (a - 0xf0) * 262144 + (b - 0x80) * 4096 + (d - 0x80) * 64 + (e - 0x80);
    assert c / 64 == (a - 0xf0) * 4096 + (b - 0x80) * 64 + (d - 0x80);
    assert c / 4096 == (a - 0xf0) * 64 + (b - 0x80);
  }

  lemma {:induction false} HeadIsPoint(s: Bytes) returns (c: nat)
    requires s != [] && Utf8Head(s) > 0
    ensures Scalar(c) && EncodePoint(c) == s[..Utf8Head(s)]
  {
    var n := Utf8Head(s);
    var a: nat := s[0];
    if n == 1 {
      c := a;
      assert s[..1] == [s[0]];
    } else {
      var b: nat := s[1];
      if n == 2 {
        TwoBytes(a, b);
        c := (a - 0xc0) * 64 + (b - 0x80);
        assert s[..2] == [s[0], s[1]];
      } else {
        var d: nat := s[2];
        if n == 3 {
          ThreeBytes(a, b, d);
          c := (a - 0xe0) * 4096 + (b - 0x80) * 64 + (d - 0x80);
          assert s[..3] == [s[0], s[1], s[2]];
        } else {
          var e: nat := s[3];
          FourBytes(a, b, d, e);
          c := (a - 0xf0) * 262144 + (b - 0x80) * 4096 + (d - 0x80) * 64 + (e - 0x80);
          assert s[..4] == [s[0], s[1], s[2], s[3]];
        }
      }
    }
  }

  /** Every sequence of scalar values is accepted. */
  lemma {:induction false} EncodedIsValid(cs: seq<nat>)
    requires forall i :: 0 <= i < |cs| ==> Scalar(cs[i])
    ensures ValidUtf8(EncodeText(cs))
  {
    hide Utf8Head, EncodePoint;
    if cs != [] {
      var rest := EncodeText(cs[1..]);
      var e := EncodePoint(cs[0]);
      EncodedIsValid(cs[1..]);
      PointHasHead(cs[0], rest);
      assert (e + rest)[|e|..] == rest;
    }
  }

  /** Nothing else is. */
  lemma {:induction false} ValidIsEncoded(s: Bytes) returns (cs: seq<nat>)
    requires ValidUtf8(s)
    ensures forall i :: 0 <= i < |cs| ==> Scalar(cs[i])
    ensures EncodeText(cs) == s
  {
    hide Utf8Head, EncodePoint, Scalar;
    if s == [] {
      cs := [];
    } else {
      var c := HeadIsPoint(s);
      var tail := ValidIsEncoded(s[Utf8Head(s)..]);
      cs := [c] + tail;
      assert cs[1..] == tail;
      assert s == s[..Utf8Head(s)] + s[Utf8Head(s)..];
    }
  }

  /** The two together. */
  lemma {:induction false} ValidIff(s: Bytes)
    ensures ValidUtf8(s) <==> exists cs: seq<nat> ::
              (forall i :: 0 <= i < |cs| ==> Scalar(cs[i])) && EncodeText(cs) == s
  {
    hide ValidUtf8, EncodeText, Scalar;
    if ValidUtf8(s) {
      var cs := ValidIsEncoded(s);
      assert EncodeText(cs) == s;
    }
    forall cs: seq<nat> | (forall i :: 0 <= i < |cs| ==> Scalar(cs[i])) && EncodeText(cs) == s ensures ValidUtf8(s) {
      EncodedIsValid(cs);
    }
  }
}
