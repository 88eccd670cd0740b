/** Multihash peer IDs and their text form: which texts decode, and to what. */
module Multihash {
  import opened Common
  import opened Base58

  datatype Varint = Varint(value: int, width: nat)

  /** An unsigned varint at the start of bs: minimal and at most nine bytes. */
  function Uvarint(bs: seq<Byte>): (v: Option<Varint>)
    ensures v.Some? ==> 0 < v.value.width <= |bs| && v.value.value >= 0
  {
    if bs == [] then None
    else
      var b: int := bs[0];
      if b < 0x80 then Some(Varint(b, 1))
      else
        match Uvarint(bs[1..])
        case None => None
        case Some(Varint(v, w)) =>
          if v == 0 || w == 9 then None else Some(Varint(b - 0x80 + 0x80 * v, w + 1))
  }

  /** A code, a digest length, and exactly that many digest bytes. */
  predicate WellFormed(bs: seq<Byte>) {
    && |bs| >= 2
    && Uvarint(bs).Some?
    && var rest := bs[Uvarint(bs).value.width..];
       && Uvarint(rest).Some?
       && |rest| == Uvarint(rest).value.width + Uvarint(rest).value.value
  }

  lemma LongVarint(bs: seq<Byte>)
    requires bs != [] && bs[0] >= 0x80 && Uvarint(bs).Some?
    ensures Uvarint(bs).value.value >= 0x80
  {
  }

  /** The unsigned varint of n: seven bits a byte, the lowest first. */
  function PutUvarint(n: nat): (bs: seq<Byte>)
    ensures bs != []
  {
    if n < 0x80 then [n] else [0x80 + n % 0x80] + PutUvarint(n / 0x80)
  }

  lemma {:induction false} UvarintReads(n: nat, rest: seq<Byte>)
    requires |PutUvarint(n)| <= 9
    ensures Uvarint(PutUvarint(n) + rest) == Some(Varint(n, |PutUvarint(n)|))
  {
    if n < 0x80 {
    } else {
      UvarintReads(n / 0x80, rest);
      assert (PutUvarint(n) + rest)[1..] == PutUvarint(n / 0x80) + rest;
    }
  }

  lemma UnshiftUvarint(b: Byte, v: nat)
    requires b >= 0x80 && v > 0
    ensures PutUvarint(b as int - 0x80 + 0x80 * v) == [b] + PutUvarint(v)
  {
    var n := b as int - 0x80 + 0x80 * v;
    assert n % 0x80 == b as int - 0x80 && n / 0x80 == v;
  }

  lemma {:induction false} UvarintIsPut(bs: seq<Byte>)
    requires Uvarint(bs).Some?
    ensures var v := Uvarint(bs).value; v.width <= 9 && bs[..v.width] == PutUvarint(v.value)
  {
    if bs[0] >= 0x80 {
      UvarintIsPut(bs[1..]);
      var v := Uvarint(bs[1..]).value;
      UnshiftUvarint(bs[0], v.value);
      assert bs[..v.width + 1] == [bs[0]] + bs[1..][..v.width];
    }
  }

  /** A multihash: the varint of a code, the varint of a length, and that many bytes; both varints of nine bytes at
      most. */
  predicate IsMultihash(bs: seq<Byte>, code: nat, digest: seq<Byte>) {
    && |PutUvarint(code)| <= 9 && |PutUvarint(|digest|)| <= 9
    && bs == PutUvarint(code) + (PutUvarint(|digest|) + digest)
  }

  /** Exactly the multihashes are well-formed. */
  lemma WellFormedIsMultihash(bs: seq<Byte>)
    ensures WellFormed(bs) <==> exists code: nat, digest :: IsMultihash(bs, code, digest)
  {
    if WellFormed(bs) {
      var code := Uvarint(bs).value;
      var rest := bs[code.width..];
      var length := Uvarint(rest).value;
      var digest := rest[length.width..];
      UvarintIsPut(bs);
      UvarintIsPut(rest);
      assert rest == rest[..length.width] + digest && bs == bs[..code.width] + rest;
      assert IsMultihash(bs, code.value, digest);
    }
    if code: nat, digest :| IsMultihash(bs, code, digest) {
      var rest := PutUvarint(|digest|) + digest;
      UvarintReads(code, rest);
      UvarintReads(|digest|, digest);
      assert bs[|PutUvarint(code)|..] == rest;
    }
  }

  /** Code 0 and a digest whose length fits one byte: the second byte is the length of the rest. */
  lemma IdentityLength(bs: seq<Byte>)
    requires 2 <= |bs| <= 129 && bs[0] == 0
    ensures WellFormed(bs) <==> bs[1] as int == |bs| - 2
  {
    var rest := bs[1..];
    assert Uvarint(bs) == Some(Varint(0, 1));
    if rest[0] >= 0x80 && Uvarint(rest).Some? {
      LongVarint(rest);
    }
  }

  const MIN_PEER_ID_BYTES := 34

  /** The three shapes of ID that libp2p derives from a key. */
  predicate Sha256Id(id: PeerId) { |id| == 34 && id[0] == 0x12 && id[1] == 0x20 }

  predicate Head6(id: PeerId, a: Byte, b: Byte, c: Byte, d: Byte, e: Byte) {
    |id| >= 6 && id[0] == 0 && id[1] == a && id[2] == b && id[3] == c && id[4] == d && id[5] == e
  }

  predicate Ed25519Id(id: PeerId) { |id| == 38 && Head6(id, 0x24, 0x08, 0x01, 0x12, 0x20) }

  predicate Secp256k1Id(id: PeerId) { |id| == 39 && Head6(id, 0x25, 0x08, 0x02, 0x12, 0x21) }

  predicate RealId(id: PeerId) { Sha256Id(id) || Ed25519Id(id) || Secp256k1Id(id) }

  const ONE: Byte := 0x31
  const QM: seq<Byte> := [0x51, 0x6D]

  predicate InBase58Form(text: seq<Byte>) { QM <= text || [ONE] <= text }

  /** Decoding of an ID text. Texts in neither base58 form are left to the CID decoder, which wants two bytes at
      least. */
  function PeerDecode(cid: seq<Byte> -> Option<PeerId>, text: seq<Byte>): Option<PeerId> {
    if InBase58Form(text) then
      match Decode(text)
      case Some(bs) => if WellFormed(bs) then Some(bs) else None
      case None => None
    else if |text| < 2 then None
    else cid(text)
  }

  // ----- prefixes of an ID text

  function Value(id: PeerId): nat {
    FromDigitsNat(id, 256);
    FromDigits(id, 256)
  }

  /** The text of z zero bytes before a number. */
  function TextOf(z: nat, n: nat): (text: seq<Byte>)
    ensures |text| == z + |ToDigits(n, 58)|
  {
    Chars(Padding(z) + ToDigits(n, 58))
  }

  lemma EncodeIsTextOf(id: PeerId)
    ensures Encode(id) == TextOf(Zeros(id), Value(id))
  {
  }

  /** n divided by 58, k times over. */
  function Chop(n: nat, k: nat): nat { if k == 0 then n else Chop(n, k - 1) / 58 }

  lemma ChopOnce(n: nat, k: nat, v: nat, d: int)
    requires k > 0 && 0 <= d < 58 && Chop(n, k - 1) == 58 * v + d
    ensures Chop(n, k) == v
  {
  }

  lemma OneLess(ds: seq<int>, m: nat)
    requires Digits(ds, 58) && m < |ds|
    ensures var v := FromDigits(ds[..m], 58); v >= 0 && FromDigits(ds[..m + 1], 58) == 58 * v + ds[m]
  {
    assert ds[..m + 1] == ds[..m] + [ds[m]];
    FromMore(ds[..m], ds[m], 58);
    FromDigitsNat(ds[..m], 58);
  }

  /** The first m digits of n, of m + k, make n chopped k times. */
  lemma {:induction false} KeptDigits(n: nat, m: nat, k: nat)
    requires m + k == |ToDigits(n, 58)|
    ensures FromDigits(ToDigits(n, 58)[..m], 58) == Chop(n, k)
    decreases k
  {
    var ds := ToDigits(n, 58);
    if k == 0 {
      FromTo(n, 58);
      assert ds[..m] == ds;
    } else {
      KeptDigits(n, m + 1, k - 1);
      OneLess(ds, m);
      ChopOnce(n, k, FromDigits(ds[..m], 58), ds[m]);
    }
  }

  lemma {:induction false} ChopFalls(n: nat, j: nat, k: nat)
    requires j <= k
    ensures Chop(n, k) <= Chop(n, j)
  {
    if j == k {
    } else {
      ChopFalls(n, j, k - 1);
    }
  }

  lemma ReadPrefix(z: nat, n: nat, j: nat)
    requires z <= j <= |TextOf(z, n)|
    ensures var text := TextOf(z, n)[..j]; IsText(text) && Read(text) == Padding(z) + ToDigits(n, 58)[..j - z]
  {
    ReadChars(Padding(z) + ToDigits(n, 58));
  }

  lemma RecodePadded(z: nat, ds: seq<int>)
    requires Digits(ds, 58) && (ds == [] || ds[0] != 0)
    ensures FromDigits(ds, 58) >= 0
    ensures Recode(Padding(z) + ds, 58, 256) == Padding(z) + ToDigits(FromDigits(ds, 58), 256)
  {
    FromDigitsNat(ds, 58);
    PaddingIsZeros(z, ds);
    PaddingIsNothing(z, ds, 58);
  }

  lemma DecodeIs(text: seq<Byte>, ds: seq<int>)
    requires IsText(text) && Recode(Read(text), 58, 256) == ds
    ensures Decode(text) == Some(AsBytes(ds))
  {
  }

  lemma KeptDecodes(z: nat, n: nat, j: nat, v: nat)
    requires z <= j <= |TextOf(z, n)| && FromDigits(ToDigits(n, 58)[..j - z], 58) == v
    ensures Decode(TextOf(z, n)[..j]) == Some(AsBytes(Padding(z) + ToDigits(v, 256)))
  {
    ReadPrefix(z, n, j);
    RecodePadded(z, ToDigits(n, 58)[..j - z]);
    DecodeIs(TextOf(z, n)[..j], Padding(z) + ToDigits(v, 256));
  }

  /** The bytes that a prefix decodes to, with k characters dropped. */
  function Left(z: nat, n: nat, k: nat): (bs: seq<Byte>)
    ensures |bs| == z + |ToDigits(Chop(n, k), 256)|
  {
    AsBytes(Padding(z) + ToDigits(Chop(n, k), 256))
  }

  /** A prefix of a text decodes to the chopped number behind the same zeros. */
  lemma PrefixDecodes(z: nat, n: nat, j: nat, k: nat)
    requires z <= j && j + k == |TextOf(z, n)|
    ensures Decode(TextOf(z, n)[..j]) == Some(Left(z, n, k))
  {
    KeptDigits(n, j - z, k);
    KeptDecodes(z, n, j, Chop(n, k));
  }

  lemma Chops(n: nat)
    ensures Chop(n, 1) == n / 58 && Chop(n, 2) == Chop(n, 1) / 58 && Chop(n, 3) == Chop(n, 2) / 58
    ensures Chop(n, 4) == Chop(n, 3) / 58 && Chop(n, 5) == Chop(n, 4) / 58 && Chop(n, 6) == Chop(n, 5) / 58
    ensures Chop(n, 7) == Chop(n, 6) / 58 && Chop(n, 8) == Chop(n, 7) / 58
  {
  }

  lemma PowersFrom32()
    ensures var b := Pow(256, 32);
            && Pow(256, 33) == 0x100 * b && Pow(256, 34) == 0x1_0000 * b && Pow(256, 35) == 0x100_0000 * b
            && Pow(256, 36) == 0x1_0000_0000 * b
  {
    assert Pow(256, 34) == 256 * Pow(256, 33);
    assert Pow(256, 35) == 256 * Pow(256, 34);
    assert Pow(256, 36) == 256 * Pow(256, 35);
  }

  /** Behind a zero byte, v makes fewer than 34 bytes or no multihash. */
  predicate NoLongMultihash(v: nat) {
    |ToDigits(v, 256)| <= 32 || !WellFormed(AsBytes(Padding(1) + ToDigits(v, 256)))
  }

  /** The byte after the zero is the leading byte f, and it would have to be the number m of bytes after it. */
  lemma IllFormed(v: nat, m: nat, f: int)
    requires 0 < f < 256 && f * Pow(256, m) <= v < (f + 1) * Pow(256, m)
    requires f != m && m <= 120
    ensures NoLongMultihash(v)
  {
    Leading(v, 256, m, f);
    var bs := AsBytes(Padding(1) + ToDigits(v, 256));
    assert bs[1] as int == f;
    IdentityLength(bs);
  }

  /** Where the chopped numbers lie, in units of b = 256^32. */
  lemma Ed25519Places(b: int, n: int, v1: int, v2: int, v3: int, v4: int, v5: int, v6: int)
    requires b > 0 && 0x2408011220 * b <= n < 0x2408011221 * b
    requires v1 == n / 58 && v2 == v1 / 58 && v3 == v2 / 58 && v4 == v3 / 58 && v5 == v4 / 58 && v6 == v5 / 58
    ensures 159 * 0x100_0000 * b <= v1 < 160 * 0x100_0000 * b && 2 * 0x100_0000 * b <= v2 < 3 * 0x100_0000 * b
    ensures 12 * 0x1_0000 * b <= v3 < 13 * 0x1_0000 * b && 53 * 0x100 * b <= v4 < 54 * 0x100 * b
    ensures 235 * b <= v5 < 236 * b && 4 * b <= v6 < 5 * b
  {
  }

  lemma Secp256k1Places(b: int, n: int, v1: int, v2: int, v3: int, v4: int)
    requires b > 0 && 0x2508021221 * 0x100 * b <= n < 0x2508021222 * 0x100 * b
    requires v1 == n / 58 && v2 == v1 / 58 && v3 == v2 / 58 && v4 == v3 / 58
    ensures 163 * 0x1_0000_0000 * b <= v1 < 164 * 0x1_0000_0000 * b
    ensures 2 * 0x1_0000_0000 * b <= v2 < 3 * 0x1_0000_0000 * b && 12 * 0x100_0000 * b <= v3 < 13 * 0x100_0000 * b
    ensures 54 * 0x1_0000 * b <= v4 < 55 * 0x1_0000 * b
    ensures 11316496 * v4 <= n < 11316496 * (v4 + 1)
  {
  }

  lemma Secp256k1MorePlaces(b: int, n: int, v4: int, v5: int, v6: int, v7: int)
    requires b > 0 && 0x2508021221 * 0x100 * b <= n < 0x2508021222 * 0x100 * b
    requires 11316496 * v4 <= n < 11316496 * (v4 + 1) && v5 == v4 / 58 && v6 == v5 / 58 && v7 == v6 / 58
    ensures 242 * 0x100 * b <= v5 < 243 * 0x100 * b
    ensures 4 * 0x100 * b <= v6 < 5 * 0x100 * b && 18 * b <= v7 < 19 * b
  {
  }

  /** What is left of a 38-byte Ed25519 ID's text after dropping k characters is too short or no multihash. */
  lemma Ed25519Prefix(n: nat, k: nat)
    requires var b := Pow(256, 32); 0x2408011220 * b <= n < 0x2408011221 * b
    requires k > 0
    ensures NoLongMultihash(Chop(n, k))
  {
    Chops(n);
    PowersFrom32();
    Ed25519Places(Pow(256, 32), n, Chop(n, 1), Chop(n, 2), Chop(n, 3), Chop(n, 4), Chop(n, 5), Chop(n, 6));
    if k == 1 { IllFormed(Chop(n, 1), 35, 159); }
    else if k == 2 { IllFormed(Chop(n, 2), 35, 2); }
    else if k == 3 { IllFormed(Chop(n, 3), 34, 12); }
    else if k == 4 { IllFormed(Chop(n, 4), 33, 53); }
    else if k == 5 { IllFormed(Chop(n, 5), 32, 235); }
    else if k == 6 { IllFormed(Chop(n, 6), 32, 4); }
    else {
      ChopFalls(n, 7, k);
      FewDigits(Chop(n, k), 256, 32);
    }
  }

  lemma Secp256k1Prefix(n: nat, k: nat)
    requires var b := Pow(256, 33); 0x2508021221 * b <= n < 0x2508021222 * b
    requires k > 0
    ensures NoLongMultihash(Chop(n, k))
  {
    Chops(n);
    PowersFrom32();
    Secp256k1Places(Pow(256, 32), n, Chop(n, 1), Chop(n, 2), Chop(n, 3), Chop(n, 4));
    Secp256k1MorePlaces(Pow(256, 32), n, Chop(n, 4), Chop(n, 5), Chop(n, 6), Chop(n, 7));
    if k == 1 { IllFormed(Chop(n, 1), 36, 163); }
    else if k == 2 { IllFormed(Chop(n, 2), 36, 2); }
    else if k == 3 { IllFormed(Chop(n, 3), 35, 12); }
    else if k == 4 { IllFormed(Chop(n, 4), 34, 54); }
    else if k == 5 { IllFormed(Chop(n, 5), 33, 242); }
    else if k == 6 { IllFormed(Chop(n, 6), 33, 4); }
    else if k == 7 { IllFormed(Chop(n, 7), 32, 18); }
    else {
      ChopFalls(n, 8, k);
      FewDigits(Chop(n, k), 256, 32);
    }
  }

  lemma Sha256Prefix(n: nat, k: nat)
    requires n < 0x13 * Pow(256, 33) && k > 0
    ensures |ToDigits(Chop(n, k), 256)| <= 33
  {
    Chops(n);
    ChopFalls(n, 1, k);
    FewDigits(Chop(n, k), 256, 33);
  }

  lemma Distribute(h: int, p: int)
    ensures (h + 1) * p == h * p + p
  {
  }

  /** The value of an ID lies between its head and the next one, times the power of its tail. */
  lemma HeadBounds(id: PeerId, h: nat)
    requires h <= |id|
    ensures var p, f := Pow(256, |id| - h), FromDigits(id[..h], 256); f * p <= Value(id) < (f + 1) * p
  {
    var head, tail: seq<int> := id[..h], id[h..];
    assert head + tail == id;
    Split(head, tail, 256);
    Distribute(FromDigits(head, 256), Pow(256, |tail|));
  }

  lemma HeadValue2(a: int, b: int, radix: Radix)
    ensures FromDigits([a, b], radix) == Scaled(a, radix) + b
  {
    FromMore([], a, radix);
    FromMore([a], b, radix);
    assert [] + [a] == [a] && [a] + [b] == [a, b];
  }

  lemma Sha256Head(id: PeerId)
    requires Sha256Id(id)
    ensures Zeros(id) == 0 && Value(id) < 0x13 * Pow(256, 33)
    ensures 0x1220 * Pow(256, 32) <= Value(id) < 0x1221 * Pow(256, 32)
  {
    assert id[..2] == [0x12, 0x20];
    HeadBounds(id, 2);
    HeadValue2(0x12, 0x20, 256);
    PowersFrom32();
  }

  lemma HeadValue6(a: int, b: int, c: int, d: int, e: int)
    ensures FromDigits([0, a, b, c, d, e], 256) == (((a * 256 + b) * 256 + c) * 256 + d) * 256 + e
  {
    HeadValue2(0, a, 256);
    FromMore([0, a], b, 256);
    FromMore([0, a, b], c, 256);
    FromMore([0, a, b, c], d, 256);
    FromMore([0, a, b, c, d], e, 256);
    assert [0, a] + [b] == [0, a, b] && [0, a, b] + [c] == [0, a, b, c];
    assert [0, a, b, c] + [d] == [0, a, b, c, d] && [0, a, b, c, d] + [e] == [0, a, b, c, d, e];
  }

  lemma Ed25519Head(id: PeerId)
    requires Ed25519Id(id)
    ensures Zeros(id) == 1 && 0x2408011220 * Pow(256, 32) <= Value(id) < 0x2408011221 * Pow(256, 32)
  {
    assert id[..6] == [0x00, 0x24, 0x08, 0x01, 0x12, 0x20];
    HeadBounds(id, 6);
    HeadValue6(0x24, 0x08, 0x01, 0x12, 0x20);
  }

  lemma Secp256k1Head(id: PeerId)
    requires Secp256k1Id(id)
    ensures Zeros(id) == 1 && 0x2508021221 * Pow(256, 33) <= Value(id) < 0x2508021222 * Pow(256, 33)
  {
    assert id[..6] == [0x00, 0x25, 0x08, 0x02, 0x12, 0x21];
    HeadBounds(id, 6);
    HeadValue6(0x25, 0x08, 0x02, 0x12, 0x21);
  }

  /** The two leading base-58 digits of a number just over 0x1220 * 256^32 make 1378. */
  lemma QmRange(n: int, x: int, l: int, p: int)
    requires p == 389790918707373377135528568990913592653094657612049369038476873218241589149696
    requires n == x * p + l && 0 <= l < p
    requires 0x1220 * 115792089237316195423570985008687907853269984665640564039457584007913129639936 <= n
    requires n < 0x1221 * 115792089237316195423570985008687907853269984665640564039457584007913129639936
    ensures x == 1378
  {
  }

  lemma BigPowers()
    ensures Pow(58, 44) == 389790918707373377135528568990913592653094657612049369038476873218241589149696
    ensures Pow(256, 32) == 115792089237316195423570985008687907853269984665640564039457584007913129639936
  {
    assert Pow(58, 11) == 24986644000165537792;
    PowSum(58, 11, 11);
    assert Pow(58, 22) == 624332378391008467754527498760580235264;
    PowSum(58, 22, 22);
    PowSum(256, 8, 8);
    assert Pow(256, 16) == 340282366920938463463374607431768211456;
    PowSum(256, 16, 16);
  }

  lemma TwoHighDigits(n: nat)
    requires 0x1220 * Pow(256, 32) <= n < 0x1221 * Pow(256, 32)
    ensures |ToDigits(n, 58)| == 46 && ToDigits(n, 58)[..2] == [23, 44]
  {
    BigPowers();
    assert Pow(58, 45) == 58 * Pow(58, 44);
    Leading(n, 58, 45, 23);
    var ds := ToDigits(n, 58);
    FromTo(n, 58);
    Split(ds[..2], ds[2..], 58);
    assert ds[..2] + ds[2..] == ds && ds[..2] == [ds[0], ds[1]];
    QmRange(n, FromDigits(ds[..2], 58), FromDigits(ds[2..], 58), Pow(58, 44));
    HeadValue2(ds[0], ds[1], 58);
  }

  lemma QmChars(ds: seq<int>)
    requires Digits(ds, 58) && |ds| >= 2 && ds[..2] == [23, 44]
    ensures QM <= Chars(ds)
  {
    assert ds[0] == ds[..2][0] && ds[1] == ds[..2][1];
  }

  lemma QmText(n: nat)
    requires 0x1220 * Pow(256, 32) <= n < 0x1221 * Pow(256, 32)
    ensures QM <= TextOf(0, n)
  {
    TwoHighDigits(n);
    QmChars(ToDigits(n, 58));
    assert Padding(0) + ToDigits(n, 58) == ToDigits(n, 58);
  }

  lemma OneText(z: nat, n: nat)
    requires z > 0
    ensures [ONE] <= TextOf(z, n)
  {
    var ds := Padding(z) + ToDigits(n, 58);
    assert ds[0] == 0;
    assert Chars(ds)[..1] == [ONE];
  }

  lemma Sha256Start(id: PeerId)
    requires Sha256Id(id)
    ensures QM <= Encode(id)
  {
    Sha256Head(id);
    EncodeIsTextOf(id);
    QmText(Value(id));
  }

  lemma IdentityStart(id: PeerId)
    requires id != [] && id[0] == 0
    ensures [ONE] <= Encode(id)
  {
    EncodeIsTextOf(id);
    OneText(Zeros(id), Value(id));
  }

  lemma PrefixLeaves(id: PeerId, j: nat, k: nat)
    requires Zeros(id) <= j && j + k == |Encode(id)|
    ensures Decode(Encode(id)[..j]) == Some(Left(Zeros(id), Value(id), k))
  {
    EncodeIsTextOf(id);
    PrefixDecodes(Zeros(id), Value(id), j, k);
  }

  lemma Sha256Leaves(id: PeerId, k: nat)
    requires Sha256Id(id) && k > 0
    ensures Zeros(id) == 0 && |Left(0, Value(id), k)| < MIN_PEER_ID_BYTES
  {
    Sha256Head(id);
    Sha256Prefix(Value(id), k);
  }

  lemma IdentityLeaves(id: PeerId, k: nat)
    requires (Ed25519Id(id) || Secp256k1Id(id)) && k > 0
    ensures Zeros(id) == 1
    ensures |Left(1, Value(id), k)| < MIN_PEER_ID_BYTES || !WellFormed(Left(1, Value(id), k))
  {
    if Ed25519Id(id) {
      Ed25519Head(id);
      Ed25519Prefix(Value(id), k);
    } else {
      Secp256k1Head(id);
      Secp256k1Prefix(Value(id), k);
    }
  }

  lemma DecodesInForm(cid: seq<Byte> -> Option<PeerId>, text: seq<Byte>, bs: seq<Byte>)
    requires InBase58Form(text) && Decode(text) == Some(bs)
    ensures PeerDecode(cid, text) == if WellFormed(bs) then Some(bs) else None
  {
  }

  lemma Sha256PrefixIsNoPeer(cid: seq<Byte> -> Option<PeerId>, id: PeerId, j: nat, k: nat)
    requires Sha256Id(id) && j + k == |Encode(id)| && k > 0
    ensures var out := PeerDecode(cid, Encode(id)[..j]); out.Some? ==> |out.value| < MIN_PEER_ID_BYTES
  {
    var text := Encode(id)[..j];
    Sha256Start(id);
    if j >= 2 {
      Sha256Leaves(id, k);
      PrefixLeaves(id, j, k);
      assert QM <= text;
      DecodesInForm(cid, text, Left(0, Value(id), k));
    } else if j == 1 {
      assert text[0] == QM[0];
    }
  }

  lemma IdentityPrefixIsNoPeer(cid: seq<Byte> -> Option<PeerId>, id: PeerId, j: nat, k: nat)
    requires (Ed25519Id(id) || Secp256k1Id(id)) && j + k == |Encode(id)| && k > 0
    ensures var out := PeerDecode(cid, Encode(id)[..j]); out.Some? ==> |out.value| < MIN_PEER_ID_BYTES
  {
    if j > 0 {
      var text := Encode(id)[..j];
      IdentityStart(id);
      IdentityLeaves(id, k);
      PrefixLeaves(id, j, k);
      assert [ONE] <= text;
      DecodesInForm(cid, text, Left(1, Value(id), k));
    }
  }

  /** No proper prefix of a real ID's text decodes to an ID of 34 bytes or more. */
  lemma ProperPrefixIsNoPeer(cid: seq<Byte> -> Option<PeerId>, id: PeerId, j: nat)
    requires RealId(id) && j < |Encode(id)|
    ensures var out := PeerDecode(cid, Encode(id)[..j]); out.Some? ==> |out.value| < MIN_PEER_ID_BYTES
  {
    if Sha256Id(id) {
      Sha256PrefixIsNoPeer(cid, id, j, |Encode(id)| - j);
    } else {
      IdentityPrefixIsNoPeer(cid, id, j, |Encode(id)| - j);
    }
  }

  // ----- whole texts

  /** An ID that its own text can name: a multihash in one of the two base58 forms. */
  predicate Writable(id: PeerId) { WellFormed(id) && (id[0] == 0 || Sha256Id(id)) }

  lemma RealIdIsWritable(id: PeerId)
    requires RealId(id)
    ensures Writable(id)
  {
    if Sha256Id(id) {
      assert Uvarint(id) == Some(Varint(0x12, 1)) && Uvarint(id[1..]) == Some(Varint(0x20, 1));
    } else {
      IdentityLength(id);
    }
  }

  /** A writable ID's whole text is in a base58 form and decodes to that ID. */
  lemma WholeTextDecodes(cid: seq<Byte> -> Option<PeerId>, id: PeerId)
    requires Writable(id)
    ensures InBase58Form(Encode(id)) && PeerDecode(cid, Encode(id)) == Some(id)
  {
    DecodeEncode(id);
    if Sha256Id(id) { Sha256Start(id); } else { IdentityStart(id); }
  }

  lemma {:induction false} TwoDigitsPerByte(k: nat)
    ensures Pow(256, k) <= Pow(58, 2 * k)
  {
    if k == 0 {
    } else {
      TwoDigitsPerByte(k - 1);
      assert Pow(58, 2 * k) == 58 * Pow(58, 2 * k - 1) == 58 * (58 * Pow(58, 2 * (k - 1)));
    }
  }

  /** A text is at most twice as long as its ID. */
  lemma TextLength(id: PeerId)
    ensures |Encode(id)| <= 2 * |id|
  {
    var z := Zeros(id);
    assert id == Padding(z) + id[z..];
    PaddingIsNothing(z, id[z..], 256);
    Split([], id[z..], 256);
    assert [] + id[z..] == id[z..];
    TwoDigitsPerByte(|id| - z);
    FewDigits(Value(id), 58, 2 * (|id| - z));
  }

  lemma {:induction false} LessPerDigit(k: nat)
    ensures Pow(58, k) <= Pow(256, k)
  {
    if k == 0 {
    } else {
      LessPerDigit(k - 1);
    }
  }

  /** A text is at least as long as its ID. */
  lemma TextIsLonger(id: PeerId)
    ensures |id| <= |Encode(id)|
  {
    var z, n := Zeros(id), Value(id);
    var ds := ToDigits(n, 58);
    assert id == Padding(z) + id[z..];
    PaddingIsNothing(z, id[z..], 256);
    ToFrom(id[z..], 256);
    FromTo(n, 58);
    Split([], ds, 58);
    assert [] + ds == ds;
    LessPerDigit(|ds|);
    FewDigits(n, 256, |ds|);
  }

  /** A well-formed ID's whole text decodes to that ID exactly when it is in a base58 form or the CID decoder says
      so. */
  lemma WholeTextDecodesIff(cid: seq<Byte> -> Option<PeerId>, id: PeerId)
    requires WellFormed(id)
    ensures PeerDecode(cid, Encode(id)) == Some(id) <==> InBase58Form(Encode(id)) || cid(Encode(id)) == Some(id)
  {
    DecodeEncode(id);
    TextIsLonger(id);
  }

  lemma TwelveCharacters(n: nat)
    requires 0x2408011220 * Pow(256, 32) <= n < 0x2408011221 * Pow(256, 32)
    ensures |ToDigits(n, 58)| == 51
    ensures var v := Chop(n, 40); |ToDigits(v, 256)| == 8 && ToDigits(v, 256)[0] == 7
  {
    BigPowers();
    var p40, p50 := 34444488709877454747081479018851205589883534409595458615323760395288576,
      14838830640714294999983396511843381888381117770762056659674968992599706869653743415066624;
    PowSum(58, 40, 10);
    assert Pow(58, 10) == 430804206899405824;
    assert Pow(58, 40) == p40 by {
      PowSum(58, 40, 4);
      assert Pow(58, 4) == 11316496;
    }
    assert Pow(58, 50) == p50;
    Leading(n, 58, 50, 1);
    var ds := ToDigits(n, 58);
    FromTo(n, 58);
    Split(ds[..11], ds[11..], 58);
    assert ds[..11] + ds[11..] == ds;
    KeptDigits(n, 11, 40);
    var v := Chop(n, 40);
    assert v * Pow(58, 40) == v * p40;
    assert Pow(256, 7) == 72057594037927936;
    Leading(v, 256, 7, 7);
  }

  /** The length check is needed: twelve characters of any Ed25519 ID's text name another, well-formed, shorter ID. */
  lemma ShortPrefixIsAnotherPeer(cid: seq<Byte> -> Option<PeerId>, id: PeerId)
    requires Ed25519Id(id)
    ensures |Encode(id)| == 52
    ensures var out := PeerDecode(cid, Encode(id)[..12]); out.Some? && |out.value| == 9
  {
    Ed25519Head(id);
    EncodeIsTextOf(id);
    TwelveCharacters(Value(id));
    PrefixDecodes(1, Value(id), 12, 40);
    var bs := Decode(Encode(id)[..12]).value;
    assert bs[1] as int == 7;
    IdentityLength(bs);
    IdentityStart(id);
    assert [ONE] <= Encode(id)[..12];
  }
}
