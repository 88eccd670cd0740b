/** Positional numbers and base58 (draft-msporny-base58 section 4). */
module Base58 {
  import opened Common

  /** The two radices in use. */
  type Radix = b: int | b == 58 || b == 256 witness 58

  // the products and quotients by a radix, written out so that each is by a constant

  function Scaled(x: int, b: Radix): int { if b == 58 then 58 * x else 256 * x }

  function Quot(x: nat, b: Radix): (q: nat)
    ensures x > 0 ==> q < x
  {
    if b == 58 then x / 58 else x / 256
  }

  function Rem(x: nat, b: Radix): (r: int)
    ensures 0 <= r < b && x == Scaled(Quot(x, b), b) + r
  {
    if b == 58 then x % 58 else x % 256
  }

  function Pow(b: Radix, n: nat): (p: int)
    ensures p > 0
  {
    if n == 0 then 1 else Scaled(Pow(b, n - 1), b)
  }

  predicate Digits(ds: seq<int>, b: Radix) { forall k :: 0 <= k < |ds| ==> 0 <= ds[k] < b }

  function FromDigits(ds: seq<int>, b: Radix): int {
    if ds == [] then 0 else Scaled(FromDigits(ds[..|ds| - 1], b), b) + ds[|ds| - 1]
  }

  /** The digits of n, most significant first and without leading zeros. */
  function ToDigits(n: nat, b: Radix): (ds: seq<int>)
    ensures Digits(ds, b)
    ensures ds != [] ==> ds[0] != 0
    ensures n > 0 ==> ds != []
  {
    if n == 0 then [] else ToDigits(Quot(n, b), b) + [Rem(n, b)]
  }

  lemma Unshift(q: nat, r: int, b: Radix)
    requires 0 <= r < b
    ensures Quot(Scaled(q, b) + r, b) == q && Rem(Scaled(q, b) + r, b) == r
  {
  }

  lemma {:induction false} FromTo(n: nat, b: Radix)
    ensures FromDigits(ToDigits(n, b), b) == n
  {
    if n == 0 {
    } else {
      FromTo(Quot(n, b), b);
      assert ToDigits(n, b)[..|ToDigits(n, b)| - 1] == ToDigits(Quot(n, b), b);
    }
  }

  lemma {:induction false} FromDigitsNat(ds: seq<int>, b: Radix)
    requires Digits(ds, b)
    ensures FromDigits(ds, b) >= 0
    ensures ds != [] && ds[0] != 0 ==> FromDigits(ds, b) > 0
  {
    if ds == [] {
    } else {
      FromDigitsNat(ds[..|ds| - 1], b);
    }
  }

  lemma {:induction false} ToFrom(ds: seq<int>, b: Radix)
    requires Digits(ds, b) && (ds == [] || ds[0] != 0)
    ensures FromDigits(ds, b) >= 0 && ToDigits(FromDigits(ds, b), b) == ds
  {
    FromDigitsNat(ds, b);
    if ds == [] {
    } else {
      var init, last := ds[..|ds| - 1], ds[|ds| - 1];
      ToFrom(init, b);
      Unshift(FromDigits(init, b), last, b);
      assert ds == init + [last];
    }
  }

  lemma FromMore(ds: seq<int>, d: int, b: Radix)
    ensures FromDigits(ds + [d], b) == Scaled(FromDigits(ds, b), b) + d
  {
    assert (ds + [d])[..|ds|] == ds;
  }

  // ----- leading zeros

  function Zeros(ds: seq<int>): (z: nat)
    ensures z <= |ds| && (forall k :: 0 <= k < z ==> ds[k] == 0) && (z < |ds| ==> ds[z] != 0)
  {
    if ds != [] && ds[0] == 0 then 1 + Zeros(ds[1..]) else 0
  }

  function Padding(z: nat): (p: seq<int>)
    ensures |p| == z && forall k :: 0 <= k < z ==> p[k] == 0
  {
    seq(z, k => 0)
  }

  lemma PaddingIsZeros(z: nat, ds: seq<int>)
    requires ds == [] || ds[0] != 0
    ensures Zeros(Padding(z) + ds) == z
  {
    var all := Padding(z) + ds;
    assert z < |all| ==> all[z] == ds[0];
    assert forall k :: 0 <= k < z ==> all[k] == 0;
  }

  lemma {:induction false} PaddingIsNothing(z: nat, ds: seq<int>, b: Radix)
    ensures FromDigits(Padding(z) + ds, b) == FromDigits(ds, b)
  {
    var all := Padding(z) + ds;
    if ds != [] {
      assert all[..|all| - 1] == Padding(z) + ds[..|ds| - 1];
      PaddingIsNothing(z, ds[..|ds| - 1], b);
    } else if z > 0 {
      assert all[..|all| - 1] == Padding(z - 1) + ds;
      PaddingIsNothing(z - 1, ds, b);
    }
  }

  /** Change of radix that keeps the leading zeros: both directions of base58. */
  function Recode(ds: seq<int>, from: Radix, to: Radix): (out: seq<int>)
    requires Digits(ds, from)
    ensures Digits(out, to)
  {
    FromDigitsNat(ds, from);
    Padding(Zeros(ds)) + ToDigits(FromDigits(ds, from), to)
  }

  lemma RecodeBack(ds: seq<int>, from: Radix, to: Radix)
    requires Digits(ds, from)
    ensures Recode(Recode(ds, from, to), to, from) == ds
  {
    var z, n := Zeros(ds), FromDigits(ds, from);
    FromDigitsNat(ds, from);
    PaddingIsZeros(z, ToDigits(n, to));
    PaddingIsNothing(z, ToDigits(n, to), to);
    FromTo(n, to);
    assert ds == Padding(z) + ds[z..];
    PaddingIsNothing(z, ds[z..], from);
    ToFrom(ds[z..], from);
  }

  // ----- the alphabet

  /** The character of a digit, in 123456789ABCDEFGHJKLMNPQRSTUVWXYZabcdefghijkmnopqrstuvwxyz. */
  function CharOf(d: int): Byte
    requires 0 <= d < 58
  {
    if d < 9 then 0x31 + d
    else if d < 17 then 0x41 + (d - 9)
    else if d < 22 then 0x4A + (d - 17)
    else if d < 33 then 0x50 + (d - 22)
    else if d < 44 then 0x61 + (d - 33)
    else 0x6D + (d - 44)
  }

  function DigitOf(c: Byte): Option<int> {
    var x: int := c;
    if 0x31 <= x <= 0x39 then Some(x - 0x31)
    else if 0x41 <= x <= 0x48 then Some(x - 0x41 + 9)
    else if 0x4A <= x <= 0x4E then Some(x - 0x4A + 17)
    else if 0x50 <= x <= 0x5A then Some(x - 0x50 + 22)
    else if 0x61 <= x <= 0x6B then Some(x - 0x61 + 33)
    else if 0x6D <= x <= 0x7A then Some(x - 0x6D + 44)
    else None
  }

  /** The digits are, in ASCII order, the letters and the figures without 0, I, O and l. */
  lemma DigitsAreAlphabet()
    ensures forall c: Byte :: DigitOf(c).Some? <==>
              (0x30 <= c <= 0x39 || 0x41 <= c <= 0x5A || 0x61 <= c <= 0x7A)
              && c != 0x30 && c != 0x49 && c != 0x4F && c != 0x6C
    ensures forall d, e :: 0 <= d < e < 58 ==> CharOf(d) < CharOf(e)
    ensures forall c: Byte, d :: DigitOf(c) == Some(d) <==> 0 <= d < 58 && CharOf(d) == c
  {
  }

  predicate IsText(text: seq<Byte>) { forall k :: 0 <= k < |text| ==> DigitOf(text[k]).Some? }

  function Chars(ds: seq<int>): (text: seq<Byte>)
    requires Digits(ds, 58)
    ensures |text| == |ds| && forall k :: 0 <= k < |ds| ==> text[k] == CharOf(ds[k])
  {
    seq(|ds|, k requires 0 <= k < |ds| => CharOf(ds[k]))
  }

  function Read(text: seq<Byte>): (ds: seq<int>)
    requires IsText(text)
    ensures Digits(ds, 58) && |ds| == |text| && forall k :: 0 <= k < |ds| ==> ds[k] == DigitOf(text[k]).value
  {
    seq(|text|, k requires 0 <= k < |text| => DigitOf(text[k]).value)
  }

  lemma ReadChars(ds: seq<int>)
    requires Digits(ds, 58)
    ensures IsText(Chars(ds)) && Read(Chars(ds)) == ds
  {
    forall k | 0 <= k < |ds| ensures DigitOf(Chars(ds)[k]) == Some(ds[k]) {}
  }

  function AsBytes(ds: seq<int>): (bs: seq<Byte>)
    requires Digits(ds, 256)
    ensures bs == ds
  {
    seq(|ds|, k requires 0 <= k < |ds| => ds[k])
  }

  function Encode(bytes: seq<Byte>): seq<Byte> { Chars(Recode(bytes, 256, 58)) }

  function Decode(text: seq<Byte>): Option<seq<Byte>> {
    if IsText(text) then Some(AsBytes(Recode(Read(text), 58, 256))) else None
  }

  /** Decoding gives back whatever bytes were encoded. */
  lemma DecodeEncode(bytes: seq<Byte>)
    ensures Decode(Encode(bytes)) == Some(bytes)
  {
    ReadChars(Recode(bytes, 256, 58));
    RecodeBack(bytes, 256, 58);
  }

  /** Every alphabet text is the encoding of what it decodes to, so no two texts decode alike. */
  lemma EncodeDecode(text: seq<Byte>)
    requires IsText(text)
    ensures Encode(Decode(text).value) == text
  {
    RecodeBack(Read(text), 58, 256);
    forall k | 0 <= k < |text| ensures CharOf(Read(text)[k]) == text[k] {}
  }

  // ----- size and leading digit

  lemma Associate(x: int, y: int, b: Radix)
    ensures Scaled(x * y, b) == Scaled(x, b) * y == x * Scaled(y, b)
  {
  }

  lemma {:induction false} PowSum(b: Radix, i: nat, j: nat)
    ensures Pow(b, i + j) == Pow(b, i) * Pow(b, j)
  {
    if i == 0 {
    } else {
      PowSum(b, i - 1, j);
      Associate(Pow(b, i - 1), Pow(b, j), b);
    }
  }

  lemma ShiftIn(h: int, p: int, l: int, d: int, b: Radix)
    requires 0 <= l < p && 0 <= d < b
    ensures Scaled(h * p + l, b) + d == h * Scaled(p, b) + (Scaled(l, b) + d) && 0 <= Scaled(l, b) + d < Scaled(p, b)
  {
    Associate(h, p, b);
    var hp := h * p;
  }

  /** Splitting a number at a digit position. */
  lemma {:induction false} Split(hi: seq<int>, lo: seq<int>, b: Radix)
    requires Digits(lo, b)
    ensures FromDigits(hi + lo, b) == FromDigits(hi, b) * Pow(b, |lo|) + FromDigits(lo, b)
    ensures 0 <= FromDigits(lo, b) < Pow(b, |lo|)
  {
    if lo == [] {
      assert hi + lo == hi;
    } else {
      var n := |lo| - 1;
      Split(hi, lo[..n], b);
      assert (hi + lo)[..|hi| + n] == hi + lo[..n];
      ShiftIn(FromDigits(hi, b), Pow(b, n), FromDigits(lo[..n], b), lo[n], b);
    }
  }

  lemma Positive(f: int, p: int)
    requires f > 0 && p > 0
    ensures f * p > 0
  {
  }

  lemma Quotient(n: nat, b: Radix, lo: int, hi: int)
    requires Scaled(lo, b) <= n < Scaled(hi, b)
    ensures lo <= Quot(n, b) < hi
  {
  }

  /** The number of digits and the leading digit of n are those of its place between two multiples of a power. */
  lemma {:induction false} Leading(n: nat, b: Radix, m: nat, f: int)
    requires 0 < f < b && f * Pow(b, m) <= n < (f + 1) * Pow(b, m)
    ensures |ToDigits(n, b)| == m + 1 && ToDigits(n, b)[0] == f
  {
    if m == 0 {
      Unshift(0, n, b);
      assert ToDigits(0, b) == [];
    } else {
      var p := Pow(b, m - 1);
      Associate(f, p, b);
      Associate(f + 1, p, b);
      Quotient(n, b, f * p, (f + 1) * p);
      Positive(f, p);
      Leading(Quot(n, b), b, m - 1, f);
    }
  }

  lemma {:induction false} FewDigits(n: nat, b: Radix, m: nat)
    requires n < Pow(b, m)
    ensures |ToDigits(n, b)| <= m
  {
    if n == 0 {
    } else {
      assert m > 0;
      Quotient(n, b, 0, Pow(b, m - 1));
      FewDigits(Quot(n, b), b, m - 1);
    }
  }
}
