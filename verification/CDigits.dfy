/** `cbson_long_long_to_str`: decimal names written backwards and reversed in place. */
module CDigits {
  import opened Bytes
  import opened Bson

  /** `str(num)`. */
  function SignedDigits(num: int): (s: Bytes)
  {
    if num < 0 then [0x2d] + Digits(-num) else Digits(num)
  }

  function Reversed(s: Bytes): (r: Bytes)
    ensures |r| == |s|
  {
    if s == [] then [] else Reversed(s[1..]) + [s[0]]
  }

  lemma {:induction false} ReversedAt(s: Bytes, k: nat)
    requires k < |s|
    ensures Reversed(s)[k] == s[|s| - 1 - k]
  {
    if k < |s| - 1 {
      ReversedAt(s[1..], k);
    }
  }

  lemma {:induction false} ReversedSnoc(s: Bytes, b: byte)
    ensures Reversed(s + [b]) == [b] + Reversed(s)
  {
    if s != [] {
      ReversedSnoc(s[1..], b);
      assert (s + [b])[1..] == s[1..] + [b];
    }
  }

  function Pow10(k: nat): (r: nat)
    ensures r > 0
  {
    if k == 0 then 1 else 10 * Pow10(k - 1)
  }

  lemma {:induction false} DigitsLength(n: nat, k: nat)
    requires n < Pow10(k) && k >= 1
    ensures |Digits(n)| <= k
  {
    if n >= 10 {
      assert n / 10 < Pow10(k - 1);
      DigitsLength(n / 10, k - 1);
    }
  }

  /** Every 64-bit integer's name, sign and NUL included, fits the 21-byte buffer. */
  lemma {:induction false} NameFits(num: int)
    requires IsInt64(num)
    ensures |SignedDigits(num)| + 1 <= 21
    ensures num >= 0 ==> |SignedDigits(num)| + 1 <= 20
  {
    assert Pow10(5) == 100_000;
    assert Pow10(10) == 100_000 * Pow10(5);
    assert Pow10(15) == 100_000 * Pow10(10);
    assert Pow10(19) == 10_000 * Pow10(15);
    DigitsLength(if num < 0 then -num else num, 19);
  }

  /** The digits above those already written. */
  function Remaining(rest: nat): (r: Bytes) { if rest == 0 then [] else Digits(rest) }

  lemma {:induction false} LastDigit(n: nat)
    requires n > 0
    ensures Remaining(n) == Remaining(n / 10) + [0x30 + n % 10]
  {
    if n < 10 {
      assert [] + [0x30 + n] == [0x30 + n];
    }
  }

  /** The digit loop: least significant digit first. */
  method WriteDigits(magnitude: nat, str: array<byte>) returns (index: nat)
    requires |Remaining(magnitude)| < str.Length
    modifies str
    ensures index == |Remaining(magnitude)| && Reversed(str[..index]) == Remaining(magnitude)
  {
    hide Remaining, Digits;
    index := 0;
    var absNum := magnitude;
    assert Remaining(magnitude) + [] == Remaining(magnitude);
    while absNum > 0
      invariant index + |Remaining(absNum)| == |Remaining(magnitude)|
      invariant Remaining(magnitude) == Remaining(absNum) + Reversed(str[..index])
      decreases absNum
    {
      var digit := absNum % 10;
      ghost var done := str[..index];
      LastDigit(absNum);
      str[index] := digit + 0x30;
      index := index + 1;
      absNum := absNum / 10;
      assert str[..index] == done + [0x30 + digit];
      ReversedSnoc(done, 0x30 + digit);
    }
    assert Remaining(0) == [] by { NothingRemains(); }
  }

  lemma {:induction false} NothingRemains()
    ensures Remaining(0) == []
  {
  }

  /** `cbson_long_long_to_str`; a result of -1 stands for the raised error. */
  method LongLongToStr(num: int, str: array<byte>) returns (res: int, ghost length: nat)
    requires IsInt64(num)
    modifies str
    ensures str.Length < 21 <==> res == -1
    ensures res == -1 || res == 0
    ensures res == 0 ==> length < str.Length && str[..length] == SignedDigits(num) && str[length] == 0
  {
    hide Digits, Reversed;
    if str.Length < 21 {
      return -1, 0;
    }
    NameFits(num);
    var index := 0;
    if num == 0 {
      str[0] := 0x30;
      str[1] := 0;
      assert str[..1] == [0x30];
      assert Digits(0) == [0x30] by { ZeroDigit(); }
      return 0, 1;
    }
    // Convert to unsigned to handle -LLONG_MIN overflow
    var absNum: nat := if num < 0 then (0 - (num + TWO_64)) % TWO_64 else num;
    assert absNum == (if num < 0 then -num else num);
    index := WriteDigits(absNum, str);
    if num < 0 {
      ghost var digits := str[..index];
      str[index] := 0x2d;
      index := index + 1;
      assert str[..index] == digits + [0x2d];
      ReversedSnoc(digits, 0x2d);
    }
    ghost var before := str[..index];
    str[index] := 0;
    assert str[..index] == before;
    ReverseInPlace(str, index);
    return 0, index;
  }

  lemma {:induction false} ZeroDigit()
    ensures Digits(0) == [0x30]
  {
  }

  /** The reversal loop over the first `n` bytes. */
  method ReverseInPlace(str: array<byte>, n: nat)
    requires n <= str.Length
    modifies str
    ensures str[..n] == Reversed(old(str[..n]))
    ensures forall k :: n <= k < str.Length ==> str[k] == old(str[k])
  {
    var start, end := 0, n - 1;
    while start < end
      invariant 0 <= start <= n && start + end == n - 1 && -1 <= end
      invariant forall k :: 0 <= k < start ==> str[k] == old(str[n - 1 - k]) && str[n - 1 - k] == old(str[k])
      invariant forall k :: start <= k < n - start ==> str[k] == old(str[k])
      invariant forall k :: n <= k < str.Length ==> str[k] == old(str[k])
    {
      var temp := str[start];
      str[start] := str[end];
      start := start + 1;
      str[end] := temp;
      end := end - 1;
    }
    ghost var was := old(str[..n]);
    forall k | 0 <= k < n
      ensures str[..n][k] == Reversed(was)[k]
    {
      ReversedAt(was, k);
    }
  }
}
