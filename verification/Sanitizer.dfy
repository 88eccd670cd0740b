/** The peer-name sanitizer: printable runes only, cut to 64 bytes on a rune boundary. */
module Sanitizer {
  import opened Common
  import opened Pieces
  import opened Utf8

  const MAX_NAME_LEN := 64

  function Kept(isPrint: Rune -> bool, rs: seq<Rune>): seq<Rune> { Filter(isPrint, rs) }

  /** How many of the first pieces fit in limit bytes. */
  function Fitting(ps: seq<Bytes>, limit: nat): (n: nat)
    ensures n <= |ps|
  {
    if ps == [] || |ps[0]| > limit then 0 else 1 + Fitting(ps[1..], limit - |ps[0]|)
  }

  function Longest(rs: seq<Rune>, limit: nat): seq<Rune> { rs[..Fitting(Encoded(rs), limit)] }

  function Precut(name: Bytes): Bytes {
    if |name| > 4 * MAX_NAME_LEN then name[..4 * MAX_NAME_LEN] else name
  }

  function Printable(isPrint: Rune -> bool, name: Bytes): seq<Rune> {
    Kept(isPrint, DecodeAll(Precut(name)))
  }

  function Sanitized(isPrint: Rune -> bool, name: Bytes): Bytes {
    EncodeAll(Longest(Printable(isPrint, name), MAX_NAME_LEN))
  }

  /** An encoded rune: one to four bytes, of which only the first starts a rune. */
  predicate Whole(p: Bytes) {
    1 <= |p| <= 4 && RuneStart(p[0]) && forall k :: 0 < k < |p| ==> !RuneStart(p[k])
  }

  predicate AllWhole(ps: seq<Bytes>) { forall k :: 0 <= k < |ps| ==> Whole(ps[k]) }

  lemma EncodedIsWhole(rs: seq<Rune>)
    ensures AllWhole(Encoded(rs))
  {
    forall k | 0 <= k < |rs| ensures Whole(Encoded(rs)[k]) {
      EncodedReadsBack(rs[k], []);
    }
  }

  lemma EncodedPrefix(rs: seq<Rune>, n: nat)
    requires n <= |rs|
    ensures Encoded(rs[..n]) == Encoded(rs)[..n]
  {
  }

  /** Where the fitting pieces end, a rune starts; between there and the limit none does. */
  lemma {:induction false} FittingEnds(ps: seq<Bytes>, limit: nat)
    requires AllWhole(ps) && |Flatten(ps)| > limit
    ensures var text, cut := Flatten(ps), |Flatten(ps[..Fitting(ps, limit)])|;
            && cut <= limit && text[..cut] == Flatten(ps[..Fitting(ps, limit)])
            && RuneStart(text[cut])
            && forall k :: cut < k <= limit ==> !RuneStart(text[k])
  {
    var first, rest := ps[0], Flatten(ps[1..]);
    assert Whole(first) && AllWhole(ps[1..]);
    if |first| <= limit {
      var n := Fitting(ps[1..], limit - |first|);
      FittingEnds(ps[1..], limit - |first|);
      assert ps[..n + 1][1..] == ps[1..][..n];
      var cut := |Flatten(ps[1..][..n])|;
      forall k | |first| + cut < k <= limit ensures !RuneStart((first + rest)[k]) {
        assert (first + rest)[k] == rest[k - |first|];
      }
    } else {
      assert ps[..0] == [];
      forall k | 0 < k <= limit ensures !RuneStart((first + rest)[k]) {
        assert (first + rest)[k] == first[k];
      }
    }
  }

  lemma {:induction false} FittingOfShort(ps: seq<Bytes>, limit: nat)
    requires |Flatten(ps)| <= limit
    ensures Fitting(ps, limit) == |ps|
  {
    if ps == [] {
    } else {
      FittingOfShort(ps[1..], limit - |ps[0]|);
    }
  }

  lemma LongestOfShort(rs: seq<Rune>, limit: nat)
    requires |EncodeAll(rs)| <= limit
    ensures Longest(rs, limit) == rs
  {
    FittingOfShort(Encoded(rs), limit);
  }

  method SanitizePeerName(isPrint: Rune -> bool, peerName: Bytes) returns (out: Bytes)
    ensures out == Sanitized(isPrint, peerName)
  {
    var name := peerName;
    if |name| > 4 * MAX_NAME_LEN {
      name := name[..4 * MAX_NAME_LEN];
    }
    var runes := Kept(isPrint, DecodeAll(name));
    name := EncodeAll(runes);
    if |name| <= MAX_NAME_LEN {
      LongestOfShort(runes, MAX_NAME_LEN);
      return name;
    }
    EncodedIsWhole(runes);
    EncodedPrefix(runes, Fitting(Encoded(runes), MAX_NAME_LEN));
    FittingEnds(Encoded(runes), MAX_NAME_LEN);
    ghost var end := |EncodeAll(Longest(runes, MAX_NAME_LEN))|;
    var cut := MAX_NAME_LEN;
    while cut > 0 && !RuneStart(name[cut])
      invariant end <= cut <= MAX_NAME_LEN
    {
      cut := cut - 1;
    }
    return name[..cut];
  }

  // ----- what sanitizing promises

  lemma {:induction false} FittingIsMost(ps: seq<Bytes>, limit: nat)
    requires AllWhole(ps)
    ensures var n := Fitting(ps, limit);
            && |Flatten(ps[..n])| <= limit
            && (n < |ps| ==> |Flatten(ps[..n + 1])| > limit && limit - 4 < |Flatten(ps[..n])|)
  {
    var n := Fitting(ps, limit);
    if n > 0 {
      FittingIsMost(ps[1..], limit - |ps[0]|);
      assert ps[..n][1..] == ps[1..][..n - 1];
      if n < |ps| { assert ps[..n + 1][1..] == ps[1..][..n]; }
    } else if ps != [] {
      assert Whole(ps[0]) && ps[..1][1..] == [];
    }
  }

  lemma LongestIsLongest(rs: seq<Rune>, limit: nat)
    ensures var k := |Longest(rs, limit)|;
            && k <= |rs| && Longest(rs, limit) == rs[..k]
            && |EncodeAll(rs[..k])| <= limit
            && (k < |rs| ==> |EncodeAll(rs[..k + 1])| > limit && limit - 4 < |EncodeAll(rs[..k])|)
  {
    var k := Fitting(Encoded(rs), limit);
    EncodedIsWhole(rs);
    FittingIsMost(Encoded(rs), limit);
    EncodedPrefix(rs, k);
    if k < |rs| { EncodedPrefix(rs, k + 1); }
  }

  predicate AllPrint(isPrint: Rune -> bool, rs: seq<Rune>) { forall i :: 0 <= i < |rs| ==> isPrint(rs[i]) }

  lemma KeptPrints(isPrint: Rune -> bool, rs: seq<Rune>)
    ensures AllPrint(isPrint, Kept(isPrint, rs))
  {
    var at := FilterSelects(isPrint, rs);
    forall k | 0 <= k < |Kept(isPrint, rs)| ensures isPrint(Kept(isPrint, rs)[k]) { assert at[k] in at; }
  }

  lemma {:induction false} PrintableIsKept(isPrint: Rune -> bool, rs: seq<Rune>)
    requires AllPrint(isPrint, rs)
    ensures Kept(isPrint, rs) == rs
  {
    if rs == [] {
    } else {
      PrintableIsKept(isPrint, rs[..|rs| - 1]);
    }
  }

  /** A sanitized name is valid UTF-8, printable and at most 64 bytes. With text the printable runes of the name's first
      256 bytes, all of them and in order, it is the longest whole-rune prefix of text within 64 bytes, so at least 61
      bytes when anything had to be cut. */
  lemma SanitizedIsLongestPrintable(isPrint: Rune -> bool, name: Bytes) returns (text: seq<Rune>, at: seq<nat>)
    ensures Selects(isPrint, DecodeAll(if |name| > 256 then name[..256] else name), at, text)
    ensures var out := Sanitized(isPrint, name);
            var k := |DecodeAll(out)|;
            && Valid(out) && |out| <= 64
            && AllPrint(isPrint, DecodeAll(out))
            && k <= |text| && out == EncodeAll(text[..k])
            && (k < |text| ==> |EncodeAll(text[..k + 1])| > 64 && |out| >= 61)
  {
    text := Printable(isPrint, name);
    at := FilterSelects(isPrint, DecodeAll(Precut(name)));
    var kept := Longest(text, MAX_NAME_LEN);
    LongestIsLongest(text, MAX_NAME_LEN);
    RoundTrip(kept);
    KeptPrints(isPrint, DecodeAll(Precut(name)));
  }

  /** The sanitizer changes nothing exactly on the valid, printable names of at most 64 bytes. */
  lemma SanitizedIsFixedPoint(isPrint: Rune -> bool, name: Bytes)
    ensures Sanitized(isPrint, name) == name <==>
              Valid(name) && |name| <= MAX_NAME_LEN && AllPrint(isPrint, DecodeAll(name))
  {
    var _, _ := SanitizedIsLongestPrintable(isPrint, name);
    if Valid(name) && |name| <= MAX_NAME_LEN && AllPrint(isPrint, DecodeAll(name)) {
      PrintableIsKept(isPrint, DecodeAll(name));
      ValidMeansUnchanged(name);
      LongestOfShort(DecodeAll(name), MAX_NAME_LEN);
    }
  }

  lemma SanitizeTwice(isPrint: Rune -> bool, name: Bytes)
    ensures Sanitized(isPrint, Sanitized(isPrint, name)) == Sanitized(isPrint, name)
  {
    var _, _ := SanitizedIsLongestPrintable(isPrint, name);
    SanitizedIsFixedPoint(isPrint, Sanitized(isPrint, name));
  }
}
