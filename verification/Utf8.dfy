/** UTF-8 as in RFC 3629, decoded the way Go ranges over a string: an invalid byte is U+FFFD, one byte wide. */
module Utf8 {
  import opened Common
  import opened Pieces

  type Rune = r: int | 0 <= r < 0xD800 || 0xE000 <= r <= 0x10FFFF

  const REPLACEMENT: Rune := 0xFFFD

  predicate Tail(b: Byte) { 0x80 <= b <= 0xBF }

  /** A byte that does not continue a rune: utf8.RuneStart. */
  predicate RuneStart(b: Byte) { !Tail(b) }

  predicate Lead3(a: Byte, b: Byte) {
    Tail(b) && 0xE0 <= a <= 0xEF && (a == 0xE0 ==> 0xA0 <= b) && (a == 0xED ==> b <= 0x9F)
  }

  predicate Lead4(a: Byte, b: Byte) {
    Tail(b) && 0xF0 <= a <= 0xF4 && (a == 0xF0 ==> 0x90 <= b) && (a == 0xF4 ==> b <= 0x8F)
  }

  /** The width of the UTF8-char production (RFC 3629 section 4) at the start of s, 0 when there is none. */
  function Width(s: Bytes): (n: nat)
    ensures n <= 4 && n <= |s|
  {
    if s == [] then 0
    else if s[0] < 0x80 then 1
    else if |s| >= 2 && 0xC2 <= s[0] <= 0xDF && Tail(s[1]) then 2
    else if |s| >= 3 && Lead3(s[0], s[1]) && Tail(s[2]) then 3
    else if |s| >= 4 && Lead4(s[0], s[1]) && Tail(s[2]) && Tail(s[3]) then 4
    else 0
  }

  /** The six payload bits of a continuation byte appended to the bits read before it. */
  function Shift(high: int, b: Byte): int { high * 64 + (b as int - 0x80) }

  function Value(s: Bytes): Rune
    requires Width(s) > 0
  {
    var a: int := s[0];
    match Width(s)
    case 1 => a
    case 2 => Shift(a - 0xC0, s[1])
    case 3 => Shift(Shift(a - 0xE0, s[1]), s[2])
    case _ => Shift(Shift(Shift(a - 0xF0, s[1]), s[2]), s[3])
  }

  function Low(r: nat): (b: Byte)
    ensures Tail(b) && Shift(r / 64, b) == r
  {
    0x80 + r % 64
  }

  function Encode(r: Rune): (s: Bytes)
    ensures 1 <= |s| <= 4
  {
    if r < 0x80 then [r]
    else if r < 0x800 then [0xC0 + r / 64, Low(r)]
    else if r < 0x10000 then [0xE0 + r / 64 / 64, Low(r / 64), Low(r)]
    else [0xF0 + r / 64 / 64 / 64, Low(r / 64 / 64), Low(r / 64), Low(r)]
  }

  function Encoded(rs: seq<Rune>): (ps: seq<Bytes>)
    ensures |ps| == |rs| && forall k :: 0 <= k < |rs| ==> ps[k] == Encode(rs[k])
  {
    seq(|rs|, k requires 0 <= k < |rs| => Encode(rs[k]))
  }

  function EncodeAll(rs: seq<Rune>): Bytes { Flatten(Encoded(rs)) }

  function DecodeAll(s: Bytes): seq<Rune> {
    if s == [] then []
    else if Width(s) == 0 then [REPLACEMENT] + DecodeAll(s[1..])
    else [Value(s)] + DecodeAll(s[Width(s)..])
  }

  /** Valid UTF-8: a sequence of UTF8-char productions. */
  predicate Valid(s: Bytes) {
    s == [] || (Width(s) > 0 && Valid(s[Width(s)..]))
  }

  lemma ShiftLow(high: nat, b: Byte)
    requires Tail(b)
    ensures Shift(high, b) / 64 == high && Low(Shift(high, b)) == b
  {
  }

  /** An encoded rune is read back whatever follows it; only its first byte starts a rune. */
  lemma EncodedReadsBack(r: Rune, rest: Bytes)
    ensures Width(Encode(r) + rest) == |Encode(r)| && Value(Encode(r) + rest) == r
    ensures RuneStart(Encode(r)[0])
    ensures forall k :: 0 < k < |Encode(r)| ==> !RuneStart(Encode(r)[k])
  {
    var s := Encode(r) + rest;
    assert s[0] == Encode(r)[0];
    if r >= 0x80 { assert s[1] == Encode(r)[1]; }
    if r >= 0x800 { assert s[2] == Low(if r < 0x10000 then r else r / 64); }
    if r >= 0x10000 { assert s[3] == Low(r); }
  }

  lemma Read2(s: Bytes)
    requires Width(s) == 2
    ensures Encode(Value(s)) == s[..2]
  {
    ShiftLow(s[0] as int - 0xC0, s[1]);
  }

  lemma Read3(s: Bytes)
    requires Width(s) == 3
    ensures Encode(Value(s)) == s[..3]
  {
    var v := Shift(s[0] as int - 0xE0, s[1]);
    ShiftLow(s[0] as int - 0xE0, s[1]);
    ShiftLow(v, s[2]);
  }

  lemma FourParts(v: Rune, v2: nat, v1: nat, a: nat)
    requires v >= 0x10000 && v / 64 == v2 && v2 / 64 == v1 && v1 / 64 == a
    ensures a <= 4 && Encode(v) == [0xF0 + a, Low(v1), Low(v2), Low(v)]
  {
  }

  lemma Range4(a: nat, b: Byte, c: Byte, d: Byte)
    requires a <= 4 && Tail(b) && Tail(c) && Tail(d) && (a == 0 ==> 0x90 <= b) && (a == 4 ==> b <= 0x8F)
    ensures 0x10 <= Shift(a, b) < 0x110
    ensures 0x10000 <= Shift(Shift(Shift(a, b), c), d) <= 0x10FFFF
  {
  }

  function Number4(a: Byte, b: Byte, c: Byte, d: Byte): int { Shift(Shift(Shift(a as int - 0xF0, b), c), d) }

  /** Four bytes in range are the encoding of the number they shift together. */
  lemma Encode4(a: Byte, b: Byte, c: Byte, d: Byte)
    requires Lead4(a, b) && Tail(c) && Tail(d)
    ensures 0x10000 <= Number4(a, b, c, d) <= 0x10FFFF && Encode(Number4(a, b, c, d)) == [a, b, c, d]
  {
    var v0 := a as int - 0xF0;
    var v1 := Shift(v0, b);
    var v2 := Shift(v1, c);
    Range4(v0, b, c, d);
    ShiftLow(v0, b);
    ShiftLow(v1, c);
    ShiftLow(v2, d);
    FourParts(Shift(v2, d), v2, v1, v0);
  }

  lemma Read4(s: Bytes)
    requires Width(s) == 4
    ensures Encode(Value(s)) == s[..4]
  {
    Encode4(s[0], s[1], s[2], s[3]);
    assert Value(s) == Number4(s[0], s[1], s[2], s[3]);
    assert s[..4] == [s[0], s[1], s[2], s[3]];
  }

  lemma ReadIsEncoded(s: Bytes)
    requires Width(s) > 0
    ensures Encode(Value(s)) == s[..Width(s)]
  {
    match Width(s) {
      case 2 => Read2(s);
      case 3 => Read3(s);
      case 4 => Read4(s);
      case _ =>
    }
  }

  lemma EncodeCons(r: Rune, rs: seq<Rune>)
    ensures EncodeAll([r] + rs) == Encode(r) + EncodeAll(rs)
  {
    assert Encoded([r] + rs) == [Encode(r)] + Encoded(rs);
  }

  lemma RoundTripCons(first: Bytes, r: Rune, rest: Bytes, rs: seq<Rune>)
    requires first != [] && Width(first + rest) == |first| && Value(first + rest) == r
    requires DecodeAll(rest) == rs && Valid(rest)
    ensures DecodeAll(first + rest) == [r] + rs && Valid(first + rest)
  {
    assert (first + rest)[|first|..] == rest;
  }

  lemma {:induction false} RoundTrip(rs: seq<Rune>)
    ensures DecodeAll(EncodeAll(rs)) == rs && Valid(EncodeAll(rs))
  {
    if rs == [] {
    } else {
      var rest := EncodeAll(rs[1..]);
      RoundTrip(rs[1..]);
      assert [rs[0]] + rs[1..] == rs;
      EncodeCons(rs[0], rs[1..]);
      EncodedReadsBack(rs[0], rest);
      RoundTripCons(Encode(rs[0]), rs[0], rest, rs[1..]);
    }
  }

  lemma Reencode(s: Bytes, w: nat, r: Rune, rs: seq<Rune>)
    requires w <= |s| && Encode(r) == s[..w] && EncodeAll(rs) == s[w..]
    ensures EncodeAll([r] + rs) == s
  {
    EncodeCons(r, rs);
    assert s[..w] + s[w..] == s;
  }

  lemma {:induction false} ValidReencodes(s: Bytes)
    requires Valid(s)
    ensures EncodeAll(DecodeAll(s)) == s
  {
    if s == [] {
    } else {
      ReadIsEncoded(s);
      ValidReencodes(s[Width(s)..]);
      Reencode(s, Width(s), Value(s), DecodeAll(s[Width(s)..]));
    }
  }

  ghost predicate StartsNoRune(s: Bytes) { forall r: Rune :: !(Encode(r) <= s) }

  /** Decoding takes an encoded rune off the front, or else one byte for U+FFFD: this says what it does to any
      string. */
  lemma DecodeSteps(r: Rune, rest: Bytes, s: Bytes)
    ensures DecodeAll([]) == []
    ensures DecodeAll(Encode(r) + rest) == [r] + DecodeAll(rest)
    ensures s != [] && StartsNoRune(s) ==> DecodeAll(s) == [0xFFFD] + DecodeAll(s[1..])
  {
    EncodedReadsBack(r, rest);
    assert (Encode(r) + rest)[|Encode(r)|..] == rest;
    if s != [] && Width(s) > 0 {
      ReadIsEncoded(s);
      assert Encode(Value(s)) <= s;
    }
  }

  /** Decoding and encoding again changes a string exactly when it is not valid UTF-8. */
  lemma ValidMeansUnchanged(s: Bytes)
    ensures Valid(s) <==> EncodeAll(DecodeAll(s)) == s
  {
    RoundTrip(DecodeAll(s));
    if Valid(s) { ValidReencodes(s); }
  }
}
