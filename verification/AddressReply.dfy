/** The reply of a peer-address exchange: which addresses it lists, and how large its JSON array is. */
module AddressReply {
  import opened Common
  import opened Utf8
  import opened Pieces
  import PeerIdRequest

  const MAX_SHARED := 32
  const MAX_RESPONSE_BYTES := 8192

  /** "/p2p-circuit" */
  const CIRCUIT: Bytes := [0x2F, 0x70, 0x32, 0x70, 0x2D, 0x63, 0x69, 0x72, 0x63, 0x75, 0x69, 0x74]

  predicate Contains(s: Bytes, part: Bytes) { part <= s || (s != [] && Contains(s[1..], part)) }

  predicate PartAt(s: Bytes, part: Bytes, i: nat) { i + |part| <= |s| && s[i..i + |part|] == part }

  lemma PartAtNext(s: Bytes, part: Bytes, i: nat)
    requires s != []
    ensures PartAt(s, part, i + 1) <==> PartAt(s[1..], part, i)
  {
    if i + 1 + |part| <= |s| { assert s[i + 1..i + 1 + |part|] == s[1..][i..i + |part|]; }
  }

  lemma {:induction false} ContainsIsAnywhere(s: Bytes, part: Bytes)
    ensures Contains(s, part) <==> exists i: nat :: PartAt(s, part, i)
  {
    if part <= s {
      assert PartAt(s, part, 0);
    } else if s != [] {
      ContainsIsAnywhere(s[1..], part);
      if i: nat :| PartAt(s[1..], part, i) { PartAtNext(s, part, i); }
      if i: nat :| PartAt(s, part, i) { if i > 0 { PartAtNext(s, part, i - 1); } }
    }
  }

  predicate IsDirect(a: Bytes) { !Contains(a, CIRCUIT) }

  function Direct(addrs: seq<Bytes>): seq<Bytes> { Filter(IsDirect, addrs) }

  function Reply(addrs: seq<Bytes>): (r: seq<Bytes>)
    ensures |r| <= MAX_SHARED
  {
    var direct := Direct(addrs);
    direct[..if |direct| < MAX_SHARED then |direct| else MAX_SHARED]
  }

  lemma {:induction false} DirectPrefix(addrs: seq<Bytes>, k: nat)
    requires k <= |addrs|
    ensures Direct(addrs[..k]) <= Direct(addrs)
  {
    if k < |addrs| {
      DirectPrefix(addrs[..|addrs| - 1], k);
      assert addrs[..|addrs| - 1][..k] == addrs[..k];
    } else {
      assert addrs[..k] == addrs;
    }
  }

  /** The first 32 addresses, in order, that are not relay circuits. */
  method DirectPeerAddresses(addrs: seq<Bytes>) returns (direct: seq<Bytes>)
    ensures direct == Reply(addrs)
  {
    direct := [];
    for k := 0 to |addrs|
      invariant direct == Direct(addrs[..k]) && |direct| <= MAX_SHARED
    {
      if |direct| == MAX_SHARED {
        DirectPrefix(addrs, k);
        break;
      }
      assert addrs[..k + 1][..k] == addrs[..k];
      if !Contains(addrs[k], CIRCUIT) {
        direct := direct + [addrs[k]];
      }
    }
    DirectPrefix(addrs, |addrs|);
    assert addrs[..|addrs|] == addrs;
  }

  /** The text of an address without a relay-circuit component anywhere in it. */
  ghost predicate NoRelay(a: Bytes) { forall i: nat :: !PartAt(a, CIRCUIT, i) }

  /** direct lists the non-relay addresses, all of them and in the order of the peerstore, and the reply is its first
      32, or all if there are fewer. */
  lemma ReplyIsFirstDirect(addrs: seq<Bytes>) returns (direct: seq<Bytes>, at: seq<nat>)
    ensures |at| == |direct| && forall k :: 0 <= k < |at| ==> at[k] < |addrs| && direct[k] == addrs[at[k]]
    ensures forall j, k :: 0 <= j < k < |at| ==> at[j] < at[k]
    ensures forall i: nat :: i < |addrs| ==> (i in at <==> NoRelay(addrs[i]))
    ensures Reply(addrs) == direct[..if |direct| < 32 then |direct| else 32]
    ensures forall k :: 0 <= k < |Reply(addrs)| ==> NoRelay(Reply(addrs)[k])
  {
    direct := Direct(addrs);
    at := FilterSelects(IsDirect, addrs);
    forall i: nat | i < |addrs| ensures i in at <==> NoRelay(addrs[i]) {
      ContainsIsAnywhere(addrs[i], CIRCUIT);
    }
    forall k | 0 <= k < |Reply(addrs)| ensures NoRelay(Reply(addrs)[k]) {
      assert at[k] in at;
    }
  }

  // ----- the JSON text of an array of strings, as Go's json.Marshal writes it

  function HexDigit(d: int): Byte
    requires 0 <= d < 16
  {
    if d < 10 then 0x30 + d else 0x61 + d - 10
  }

  function UnicodeEscape(r: int): Bytes
    requires 0 <= r < 0x10000
  {
    [0x5C, 0x75, HexDigit(r / 4096), HexDigit(r / 256 % 16), HexDigit(r / 16 % 16), HexDigit(r % 16)]
  }

  /** Quote, backslash and control characters (RFC 8259 section 7), and besides those what Go escapes for HTML and
      JavaScript: < > & and the two line separators. */
  predicate Escaped(r: Rune) {
    r < 0x20 || r == 0x22 || r == 0x5C || r == 0x3C || r == 0x3E || r == 0x26 || r == 0x2028 || r == 0x2029
  }

  predicate RfcEscaped(r: Rune) { r < 0x20 || r == 0x22 || r == 0x5C }

  function Escape(r: Rune): Bytes
    requires Escaped(r)
  {
    if r == 0x22 || r == 0x5C then [0x5C, r]
    else if r == 0x08 then [0x5C, 0x62]
    else if r == 0x0C then [0x5C, 0x66]
    else if r == 0x0A then [0x5C, 0x6E]
    else if r == 0x0D then [0x5C, 0x72]
    else if r == 0x09 then [0x5C, 0x74]
    else UnicodeEscape(r)
  }

  function Body(s: Bytes): Bytes {
    if s == [] then []
    else if Width(s) == 0 then UnicodeEscape(REPLACEMENT) + Body(s[1..])
    else (if Escaped(Value(s)) then Escape(Value(s)) else s[..Width(s)]) + Body(s[Width(s)..])
  }

  function Items(addrs: seq<Bytes>): Bytes {
    if addrs == [] then []
    else
      var n := |addrs| - 1;
      Items(addrs[..n]) + (if n > 0 then [0x2C] else []) + [0x22] + Body(addrs[n]) + [0x22]
  }

  function Marshal(addrs: seq<Bytes>): Bytes { [0x5B] + Items(addrs) + [0x5D] }

  /** Valid UTF-8 without a character that has to be escaped. */
  predicate Plain(s: Bytes) {
    Valid(s) && forall k :: 0 <= k < |DecodeAll(s)| ==> !Escaped(DecodeAll(s)[k])
  }

  lemma EscapeIsLonger(s: Bytes)
    requires Width(s) > 0 && Escaped(Value(s))
    ensures |Escape(Value(s))| > Width(s)
  {
    ReadIsEncoded(s);
  }

  lemma PlainSplit(s: Bytes)
    requires Width(s) > 0
    ensures Plain(s) <==> !Escaped(Value(s)) && Plain(s[Width(s)..])
  {
    var rest := DecodeAll(s[Width(s)..]);
    assert DecodeAll(s) == [Value(s)] + rest;
    assert forall k :: 0 <= k < |rest| ==> rest[k] == DecodeAll(s)[k + 1];
    assert DecodeAll(s)[0] == Value(s);
  }

  lemma InvalidFirst(s: Bytes)
    requires s != [] && Width(s) == 0
    ensures |Body(s)| == 6 + |Body(s[1..])| && !Plain(s)
  {
  }

  lemma EscapedFirst(s: Bytes)
    requires Width(s) > 0 && Escaped(Value(s))
    ensures |Body(s)| > Width(s) + |Body(s[Width(s)..])| && !Plain(s)
  {
    EscapeIsLonger(s);
    PlainSplit(s);
  }

  lemma PlainFirst(s: Bytes)
    requires Width(s) > 0 && !Escaped(Value(s))
    ensures Body(s) == s[..Width(s)] + Body(s[Width(s)..]) && (Plain(s) <==> Plain(s[Width(s)..]))
  {
    PlainSplit(s);
  }

  /** Quoting keeps the length exactly of the plain strings, and never shortens. */
  predicate LengthKept(s: Bytes) {
    |Body(s)| >= |s| && (|Body(s)| == |s| <==> Plain(s)) && (Plain(s) ==> Body(s) == s)
  }

  lemma LengthOfInvalid(s: Bytes)
    requires s != [] && Width(s) == 0 && LengthKept(s[1..])
    ensures LengthKept(s)
  {
    InvalidFirst(s);
  }

  lemma LengthOfEscaped(s: Bytes)
    requires Width(s) > 0 && Escaped(Value(s)) && LengthKept(s[Width(s)..])
    ensures LengthKept(s)
  {
    EscapedFirst(s);
  }

  lemma LengthOfPlain(s: Bytes)
    requires Width(s) > 0 && !Escaped(Value(s)) && LengthKept(s[Width(s)..])
    ensures LengthKept(s)
  {
    PlainFirst(s);
    assert s == s[..Width(s)] + s[Width(s)..];
  }

  lemma {:induction false} BodyLength(s: Bytes)
    ensures LengthKept(s)
  {
    if s == [] {
    } else if Width(s) == 0 {
      BodyLength(s[1..]);
      LengthOfInvalid(s);
    } else {
      BodyLength(s[Width(s)..]);
      if Escaped(Value(s)) { LengthOfEscaped(s); } else { LengthOfPlain(s); }
    }
  }

  function Size(addrs: seq<Bytes>): nat {
    if addrs == [] then 0 else Size(addrs[..|addrs| - 1]) + |Body(addrs[|addrs| - 1])|
  }

  /** Two brackets, two quotes an address, a comma between two. */
  lemma {:induction false} ItemsLength(addrs: seq<Bytes>)
    ensures |Items(addrs)| == Size(addrs) + 2 * |addrs| + if addrs == [] then 0 else |addrs| - 1
  {
    if addrs == [] {
    } else {
      ItemsLength(addrs[..|addrs| - 1]);
    }
  }

  lemma Times(n: int, length: int)
    ensures (n + 1) * length == n * length + length
  {
  }

  predicate Fits(addrs: seq<Bytes>) { |Marshal(Reply(addrs))| <= MAX_RESPONSE_BYTES }

  lemma {:induction false} SizeUpTo(addrs: seq<Bytes>, w: nat)
    requires forall k :: 0 <= k < |addrs| ==> |Body(addrs[k])| <= w
    ensures Size(addrs) <= |addrs| * w
    ensures (forall k :: 0 <= k < |addrs| ==> |Body(addrs[k])| == w) ==> Size(addrs) == |addrs| * w
  {
    if addrs == [] {
    } else {
      SizeUpTo(addrs[..|addrs| - 1], w);
      Times(|addrs| - 1, w);
    }
  }

  lemma DirectPicks(addrs: seq<Bytes>)
    ensures forall a :: a in Direct(addrs) ==> a in addrs
  {
    var at := FilterSelects(IsDirect, addrs);
    forall a | a in Direct(addrs) ensures a in addrs {
      var k :| 0 <= k < |at| && Direct(addrs)[k] == a;
      assert addrs[at[k]] == a;
    }
  }

  /** Addresses that take at most 252 bytes each once quoted make a reply that fits, however many there are. */
  lemma SmallBodiesFit(addrs: seq<Bytes>)
    requires forall a :: a in addrs ==> |Body(a)| <= 252
    ensures Fits(addrs)
  {
    var r := Reply(addrs);
    DirectPicks(addrs);
    forall k | 0 <= k < |r| ensures |Body(r[k])| <= 252 {
      assert r[k] == Direct(addrs)[k] && r[k] in Direct(addrs);
    }
    ItemsLength(r);
    SizeUpTo(r, 252);
  }

  lemma {:induction false} KeepsAll(addrs: seq<Bytes>)
    requires forall k :: 0 <= k < |addrs| ==> !Contains(addrs[k], CIRCUIT)
    ensures Direct(addrs) == addrs
  {
    if addrs == [] {
    } else {
      KeepsAll(addrs[..|addrs| - 1]);
    }
  }

  lemma FullReply(addrs: seq<Bytes>, w: nat)
    requires |addrs| == MAX_SHARED
    requires forall k :: 0 <= k < MAX_SHARED ==> !Contains(addrs[k], CIRCUIT) && |Body(addrs[k])| == w
    ensures |Marshal(Reply(addrs))| == 32 * w + 97
  {
    KeepsAll(addrs);
    assert Reply(addrs) == addrs;
    ItemsLength(addrs);
    SizeUpTo(addrs, w);
  }

  // ----- what a peerstore can hold

  /** A byte of a protocol name, or the slash around one. */
  predicate NameByte(b: Byte) { b == 0x2F || b == 0x2D || 0x30 <= b <= 0x39 || 0x61 <= b <= 0x7A }

  /** The text starts with a slash, and its first bytes are of protocol names. Every multiaddr text opens so for five
      bytes: "/dns/" and "/sni/" are the shortest openings before text of the address's own choice. */
  predicate Opens(s: Bytes, head: nat) {
    s != [] && s[0] == 0x2F && forall i :: 0 <= i < |s| && i < head ==> NameByte(s[i])
  }

  /** Distinct addresses that open like multiaddr texts. */
  predicate Listable(addrs: seq<Bytes>, head: nat) {
    && (forall k :: 0 <= k < |addrs| ==> Opens(addrs[k], head))
    && forall j, k :: 0 <= j < k < |addrs| ==> addrs[j] != addrs[k]
  }

  predicate PlainUpTo(addrs: seq<Bytes>, length: nat) {
    forall k :: 0 <= k < |addrs| ==> Plain(addrs[k]) && |addrs[k]| <= length
  }

  /** Valid UTF-8 without a character that RFC 8259 makes an encoder escape. */
  predicate RfcPlain(s: Bytes) {
    Valid(s) && forall k :: 0 <= k < |DecodeAll(s)| ==> !RfcEscaped(DecodeAll(s)[k])
  }

  predicate RfcUpTo(addrs: seq<Bytes>, length: nat) {
    forall k :: 0 <= k < |addrs| ==> RfcPlain(addrs[k]) && |addrs[k]| <= length
  }

  /** The first bytes of "/dns/". */
  function Opening(head: nat): (s: Bytes)
    requires head == 1 || head == 5
    ensures |s| == head && Opens(s, head)
  {
    if head == 1 then [0x2F] else [0x2F, 0x64, 0x6E, 0x73, 0x2F]
  }

  /** n times the byte most, but for mark at position k. */
  function Marked(most: Byte, mark: Byte, k: nat, n: nat): (s: Bytes)
    ensures |s| == n && forall i :: 0 <= i < n ==> s[i] == if i == k then mark else most
  {
    seq(n, i => if i == k then mark else most)
  }

  /** A full peerstore of distinct addresses. */
  function Marks(head: nat, most: Byte, mark: Byte, n: nat): (addrs: seq<Bytes>)
    requires head == 1 || head == 5
    ensures |addrs| == MAX_SHARED
    ensures forall k :: 0 <= k < MAX_SHARED ==> addrs[k] == Opening(head) + Marked(most, mark, k, n)
  {
    seq(MAX_SHARED, k requires 0 <= k < MAX_SHARED => Opening(head) + Marked(most, mark, k, n))
  }

  lemma {:induction false} NoCircuit(s: Bytes)
    requires forall i :: 0 <= i < |s| - 1 && s[i] == 0x2F ==> s[i + 1] != 0x70
    ensures !Contains(s, CIRCUIT)
  {
    if s == [] {
    } else {
      NoCircuit(s[1..]);
      if |s| > 1 && s[0] == 0x2F { assert s[1] != CIRCUIT[1]; }
    }
  }

  lemma MarksDiffer(head: nat, most: Byte, mark: Byte, n: nat)
    requires (head == 1 || head == 5) && n >= MAX_SHARED && most != mark
    ensures Listable(Marks(head, most, mark, n), head)
  {
    var addrs := Marks(head, most, mark, n);
    forall j, k | 0 <= j < k < MAX_SHARED ensures addrs[j] != addrs[k] {
      assert addrs[j][head + j] == mark && addrs[k][head + j] == most;
    }
    forall k | 0 <= k < MAX_SHARED ensures Opens(addrs[k], head) {
      assert forall i :: 0 <= i < head ==> addrs[k][i] == Opening(head)[i];
    }
  }

  lemma MarkedNoCircuit(head: nat, most: Byte, mark: Byte, k: nat, n: nat)
    requires head == 1 || head == 5
    requires most != 0x70 && most != 0x2F && mark != 0x70 && mark != 0x2F
    ensures !Contains(Opening(head) + Marked(most, mark, k, n), CIRCUIT)
  {
    NoCircuit(Opening(head) + Marked(most, mark, k, n));
  }

  // ----- plain addresses

  lemma {:induction false} AsciiDecodes(s: Bytes)
    requires forall i :: 0 <= i < |s| ==> s[i] < 0x80
    ensures Valid(s) && |DecodeAll(s)| == |s| && forall i :: 0 <= i < |s| ==> DecodeAll(s)[i] == s[i]
  {
    if s == [] {
    } else {
      AsciiDecodes(s[1..]);
    }
  }

  lemma AsciiIsPlain(s: Bytes)
    requires forall i :: 0 <= i < |s| ==> s[i] < 0x80
    ensures Plain(s) <==> forall i :: 0 <= i < |s| ==> !Escaped(s[i])
    ensures RfcPlain(s) <==> forall i :: 0 <= i < |s| ==> !RfcEscaped(s[i])
  {
    AsciiDecodes(s);
  }

  /** Replies of 32 distinct "/dns/" addresses of letters. */
  lemma LetterReplies(n: nat)
    requires n >= MAX_SHARED
    ensures var addrs := Marks(5, 0x61, 0x62, n);
            Listable(addrs, 5) && PlainUpTo(addrs, 5 + n) && |Marshal(Reply(addrs))| == 32 * (5 + n) + 97
  {
    var addrs := Marks(5, 0x61, 0x62, n);
    MarksDiffer(5, 0x61, 0x62, n);
    forall k | 0 <= k < MAX_SHARED
      ensures !Contains(addrs[k], CIRCUIT) && Plain(addrs[k]) && |Body(addrs[k])| == 5 + n
    {
      MarkedNoCircuit(5, 0x61, 0x62, k, n);
      AsciiIsPlain(addrs[k]);
      BodyLength(addrs[k]);
    }
    FullReply(addrs, 5 + n);
  }

  /** A reply of plain addresses fits its size limit, whatever the peerstore holds, if they are at most 252 bytes; and
      that is the largest such length even for distinct addresses that open like multiaddr texts. */
  lemma ReplyFits(length: nat)
    ensures length <= 252 ==> forall addrs :: PlainUpTo(addrs, length) ==> Fits(addrs)
    ensures (forall addrs :: Listable(addrs, 5) && PlainUpTo(addrs, length) ==> Fits(addrs)) <==> length <= 252
  {
    if length <= 252 {
      forall addrs | PlainUpTo(addrs, length) ensures Fits(addrs) {
        forall a | a in addrs ensures |Body(a)| <= 252 { BodyLength(a); }
        SmallBodiesFit(addrs);
      }
    } else {
      LetterReplies(248);
      assert !Fits(Marks(5, 0x61, 0x62, 248));
    }
  }

  // ----- addresses that Go escapes more in than RFC 8259 asks for

  lemma {:induction false} AtMostSix(s: Bytes)
    ensures |Body(s)| <= 6 * |s|
  {
    if s == [] {
    } else {
      AtMostSix(s[if Width(s) == 0 then 1 else Width(s)..]);
    }
  }

  lemma {:induction false} AllSix(s: Bytes)
    requires forall i :: 0 <= i < |s| ==> s[i] == 0x26 || s[i] == 0x3C
    ensures |Body(s)| == 6 * |s|
  {
    if s == [] {
    } else {
      AllSix(s[1..]);
    }
  }

  lemma {:induction false} NamesUnescaped(name: Bytes, rest: Bytes)
    requires forall i :: 0 <= i < |name| ==> NameByte(name[i])
    ensures |Body(name + rest)| == |name| + |Body(rest)|
  {
    if name == [] {
      assert name + rest == rest;
    } else {
      var s := name + rest;
      assert s[1..] == name[1..] + rest;
      NamesUnescaped(name[1..], rest);
    }
  }

  lemma OpenedBody(s: Bytes, head: nat)
    requires Opens(s, head)
    ensures |Body(s)| <= if |s| <= head then |s| else head + 6 * (|s| - head)
  {
    var n := if |s| <= head then |s| else head;
    assert s[..n] + s[n..] == s;
    NamesUnescaped(s[..n], s[n..]);
    AtMostSix(s[n..]);
  }

  lemma AmpersandText(head: nat, k: nat, n: nat)
    requires head == 1 || head == 5
    ensures var a := Opening(head) + Marked(0x26, 0x3C, k, n);
            !Contains(a, CIRCUIT) && RfcPlain(a) && |Body(a)| == head + 6 * n
  {
    var rest := Marked(0x26, 0x3C, k, n);
    MarkedNoCircuit(head, 0x26, 0x3C, k, n);
    AsciiIsPlain(Opening(head) + rest);
    AllSix(rest);
    NamesUnescaped(Opening(head), rest);
  }

  /** Replies of 32 distinct addresses of ampersands, one of them a less-than sign. */
  lemma AmpersandReplies(head: nat, n: nat)
    requires (head == 1 || head == 5) && n >= MAX_SHARED
    ensures var addrs := Marks(head, 0x26, 0x3C, n);
            Listable(addrs, head) && RfcUpTo(addrs, head + n) && |Marshal(Reply(addrs))| == 32 * (head + 6 * n) + 97
  {
    var addrs := Marks(head, 0x26, 0x3C, n);
    MarksDiffer(head, 0x26, 0x3C, n);
    forall k | 0 <= k < MAX_SHARED
      ensures !Contains(addrs[k], CIRCUIT) && RfcPlain(addrs[k]) && |Body(addrs[k])| == head + 6 * n
    {
      AmpersandText(head, k, n);
    }
    FullReply(addrs, head + 6 * n);
  }

  ghost predicate RfcRepliesFit(head: nat, length: nat) {
    forall addrs :: Listable(addrs, head) && RfcUpTo(addrs, length) ==> Fits(addrs)
  }

  lemma OpenedFit(addrs: seq<Bytes>, head: nat)
    requires head == 1 || head == 5
    requires forall k :: 0 <= k < |addrs| ==> Opens(addrs[k], head) && |addrs[k]| <= head + 41
    ensures Fits(addrs)
  {
    forall a | a in addrs ensures |Body(a)| <= 252 { OpenedBody(a, head); }
    SmallBodiesFit(addrs);
  }

  /** That no character of an address has to be escaped by RFC 8259 does not make its reply fit, because of what Go
      escapes besides: it does up to 46 bytes, and no further for distinct multiaddr texts. Where only the leading
      slash is fixed, up to 42. */
  lemma RfcReplyFits(length: nat)
    ensures RfcRepliesFit(5, length) <==> length <= 46
    ensures RfcRepliesFit(1, length) <==> length <= 42
  {
    forall head | head == 1 || head == 5 ensures RfcRepliesFit(head, length) <==> length <= head + 41 {
      if length <= head + 41 {
        forall addrs | Listable(addrs, head) && RfcUpTo(addrs, length) ensures Fits(addrs) { OpenedFit(addrs, head); }
      } else {
        AmpersandReplies(head, 42);
        assert !Fits(Marks(head, 0x26, 0x3C, 42));
      }
    }
  }

  /** A peerstore whose reply overflows: 32 distinct "/dns/" addresses of 47 bytes that RFC 8259 leaves alone. */
  lemma HtmlEscapesOverflow()
    ensures exists addrs: seq<Bytes> ::
      |addrs| == MAX_SHARED && Listable(addrs, 5) && RfcUpTo(addrs, 47) && !Fits(addrs)
  {
    AmpersandReplies(5, 42);
    assert !Fits(Marks(5, 0x26, 0x3C, 42));
  }

  // ----- reading the JSON text back

  function HexValue(b: Byte): Option<int> {
    if 0x30 <= b <= 0x39 then Some(b as int - 0x30)
    else if 0x61 <= b <= 0x66 then Some(b as int - 0x61 + 10)
    else if 0x41 <= b <= 0x46 then Some(b as int - 0x41 + 10)
    else None
  }

  datatype Escaping = Escaping(rune: Rune, width: nat)

  function UnescapeHex(a: Byte, b: Byte, c: Byte, d: Byte): (e: Option<Escaping>)
    ensures e.Some? ==> e.value.width == 5
  {
    var (h3, h2, h1, h0) := (HexValue(a), HexValue(b), HexValue(c), HexValue(d));
    if h3 == None || h2 == None || h1 == None || h0 == None then None
    else
      var v := ((h3.value * 16 + h2.value) * 16 + h1.value) * 16 + h0.value;
      if 0 <= v < 0xD800 || 0xE000 <= v < 0x10000 then Some(Escaping(v, 5)) else None
  }

  /** What follows a backslash (RFC 8259 section 7); surrogate pairs, which Go never writes, are not read. */
  function Unescape(t: Bytes): (e: Option<Escaping>)
    ensures e.Some? ==> 0 < e.value.width <= |t|
  {
    if t == [] then None
    else if t[0] == 0x22 || t[0] == 0x5C || t[0] == 0x2F then Some(Escaping(t[0], 1))
    else if t[0] == 0x62 then Some(Escaping(0x08, 1))
    else if t[0] == 0x66 then Some(Escaping(0x0C, 1))
    else if t[0] == 0x6E then Some(Escaping(0x0A, 1))
    else if t[0] == 0x72 then Some(Escaping(0x0D, 1))
    else if t[0] == 0x74 then Some(Escaping(0x09, 1))
    else if t[0] == 0x75 && |t| >= 5 then UnescapeHex(t[1], t[2], t[3], t[4])
    else None
  }

  datatype Text = Text(content: Bytes, rest: Bytes)

  function Prefixed(p: Bytes, t: Option<Text>): Option<Text> {
    if t == None then None else Some(Text(p + t.value.content, t.value.rest))
  }

  /** The content of a string whose opening quote has been read, and what follows its closing quote. */
  function Unquote(t: Bytes): (r: Option<Text>)
    ensures r.Some? ==> |r.value.rest| < |t|
  {
    if t == [] || t[0] < 0x20 then None
    else if t[0] == 0x22 then Some(Text([], t[1..]))
    else if t[0] == 0x5C then
      var e := Unescape(t[1..]);
      if e == None then None else Prefixed(Utf8.Encode(e.value.rune), Unquote(t[1 + e.value.width..]))
    else Prefixed([t[0]], Unquote(t[1..]))
  }

  function ParseItems(t: Bytes): Option<seq<Bytes>>
    decreases |t|
  {
    if t == [] || t[0] != 0x22 then None
    else
      var item := Unquote(t[1..]);
      if item == None then None
      else if item.value.rest == [0x5D] then Some([item.value.content])
      else if item.value.rest == [] || item.value.rest[0] != 0x2C then None
      else
        var more := ParseItems(item.value.rest[1..]);
        if more == None then None else Some([item.value.content] + more.value)
  }

  /** Reads an array of strings as Go writes it, without white space. */
  function ParseArray(t: Bytes): Option<seq<Bytes>> {
    if t == [0x5B, 0x5D] then Some([])
    else if t == [] || t[0] != 0x5B then None
    else ParseItems(t[1..])
  }

  lemma HexBack(d: int)
    requires 0 <= d < 16
    ensures HexValue(HexDigit(d)) == Some(d)
  {
  }

  lemma FourHex(r: int)
    requires 0 <= r < 0x10000
    ensures ((r / 4096 * 16 + r / 256 % 16) * 16 + r / 16 % 16) * 16 + r % 16 == r && r / 4096 < 16
  {
  }

  lemma UnicodeEscapeReadsBack(r: Rune, t: Bytes)
    requires r < 0x10000
    ensures Unescape(UnicodeEscape(r)[1..] + t) == Some(Escaping(r, 5))
  {
    FourHex(r);
    HexBack(r / 4096);
    HexBack(r / 256 % 16);
    HexBack(r / 16 % 16);
    HexBack(r % 16);
    var e := UnicodeEscape(r)[1..] + t;
    assert e[0] == 0x75 && e[1] == HexDigit(r / 4096) && e[2] == HexDigit(r / 256 % 16);
    assert e[3] == HexDigit(r / 16 % 16) && e[4] == HexDigit(r % 16);
  }

  lemma EscapeReadsBack(r: Rune, t: Bytes)
    requires Escaped(r)
    ensures Escape(r)[0] == 0x5C && Unescape(Escape(r)[1..] + t) == Some(Escaping(r, |Escape(r)| - 1))
  {
    if Escape(r) == UnicodeEscape(r) { UnicodeEscapeReadsBack(r, t); }
  }

  lemma UnquoteEscape(e: Bytes, r: Rune, t: Bytes)
    requires e != [] && e[0] == 0x5C && Unescape(e[1..] + t) == Some(Escaping(r, |e| - 1))
    ensures Unquote(e + t) == Prefixed(Utf8.Encode(r), Unquote(t))
  {
    assert (e + t)[1..] == e[1..] + t;
    assert (e + t)[|e|..] == t;
  }

  lemma {:induction false} UnquoteCopies(p: Bytes, t: Bytes)
    requires forall k :: 0 <= k < |p| ==> p[k] >= 0x20 && p[k] != 0x22 && p[k] != 0x5C
    ensures Unquote(p + t) == Prefixed(p, Unquote(t))
  {
    if p == [] {
      assert p + t == t;
      if Unquote(t).Some? { assert [] + Unquote(t).value.content == Unquote(t).value.content; }
    } else {
      UnquoteCopies(p[1..], t);
      assert (p + t)[1..] == p[1..] + t;
      if Unquote(t).Some? {
        assert [p[0]] + (p[1..] + Unquote(t).value.content) == p + Unquote(t).value.content;
      }
    }
  }

  /** The string with U+FFFD for whatever is not UTF-8. */
  function Cleaned(s: Bytes): Bytes { EncodeAll(DecodeAll(s)) }

  lemma CleanedFirst(s: Bytes)
    requires s != []
    ensures Width(s) == 0 ==> Cleaned(s) == Utf8.Encode(REPLACEMENT) + Cleaned(s[1..])
    ensures Width(s) > 0 ==> Cleaned(s) == Utf8.Encode(Value(s)) + Cleaned(s[Width(s)..])
  {
    if Width(s) == 0 {
      EncodeCons(REPLACEMENT, DecodeAll(s[1..]));
    } else {
      EncodeCons(Value(s), DecodeAll(s[Width(s)..]));
    }
  }

  function Closed(s: Bytes, rest: Bytes): Bytes { Body(s) + ([0x22] + rest) }

  predicate ReadsBack(s: Bytes, rest: Bytes) { Unquote(Closed(s, rest)) == Some(Text(Cleaned(s), rest)) }

  lemma BodyFirst(s: Bytes, p: Bytes, after: Bytes, rest: Bytes)
    requires Body(s) == p + Body(after)
    ensures Closed(s, rest) == p + Closed(after, rest)
  {
    assert (p + Body(after)) + ([0x22] + rest) == p + (Body(after) + ([0x22] + rest));
  }

  /** One more character, quoted as p and read as c. */
  lemma ReadsBackMore(s: Bytes, p: Bytes, c: Bytes, after: Bytes, rest: Bytes)
    requires Body(s) == p + Body(after) && Cleaned(s) == c + Cleaned(after) && ReadsBack(after, rest)
    requires Unquote(p + Closed(after, rest)) == Prefixed(c, Unquote(Closed(after, rest)))
    ensures ReadsBack(s, rest)
  {
    BodyFirst(s, p, after, rest);
  }

  lemma ReadsBackInvalid(s: Bytes, rest: Bytes)
    requires s != [] && Width(s) == 0 && ReadsBack(s[1..], rest)
    ensures ReadsBack(s, rest)
  {
    var e, tail := UnicodeEscape(REPLACEMENT), Closed(s[1..], rest);
    assert Unquote(e + tail) == Prefixed(Utf8.Encode(REPLACEMENT), Unquote(tail)) by {
      UnicodeEscapeReadsBack(REPLACEMENT, tail);
      UnquoteEscape(e, REPLACEMENT, tail);
    }
    CleanedFirst(s);
    ReadsBackMore(s, e, Utf8.Encode(REPLACEMENT), s[1..], rest);
  }

  lemma ReadsBackEscaped(s: Bytes, rest: Bytes)
    requires Width(s) > 0 && Escaped(Value(s)) && ReadsBack(s[Width(s)..], rest)
    ensures ReadsBack(s, rest)
  {
    var e, tail := Escape(Value(s)), Closed(s[Width(s)..], rest);
    assert Unquote(e + tail) == Prefixed(Utf8.Encode(Value(s)), Unquote(tail)) by {
      EscapeReadsBack(Value(s), tail);
      UnquoteEscape(e, Value(s), tail);
    }
    CleanedFirst(s);
    ReadsBackMore(s, e, Utf8.Encode(Value(s)), s[Width(s)..], rest);
  }

  lemma PlainBytes(s: Bytes)
    requires Width(s) > 0 && !Escaped(Value(s))
    ensures forall k :: 0 <= k < Width(s) ==> s[k] >= 0x20 && s[k] != 0x22 && s[k] != 0x5C
  {
  }

  lemma ReadsBackPlain(s: Bytes, rest: Bytes)
    requires Width(s) > 0 && !Escaped(Value(s)) && ReadsBack(s[Width(s)..], rest)
    ensures ReadsBack(s, rest)
  {
    var p, tail := s[..Width(s)], Closed(s[Width(s)..], rest);
    assert Unquote(p + tail) == Prefixed(p, Unquote(tail)) by {
      PlainBytes(s);
      UnquoteCopies(p, tail);
    }
    assert Cleaned(s) == p + Cleaned(s[Width(s)..]) by {
      ReadIsEncoded(s);
      CleanedFirst(s);
    }
    ReadsBackMore(s, p, p, s[Width(s)..], rest);
  }

  /** Reading a quoted string back gives the string, up to its closing quote. */
  lemma {:induction false} QuotedReadsBack(s: Bytes, rest: Bytes)
    ensures ReadsBack(s, rest)
  {
    if s == [] {
      assert Closed(s, rest) == [0x22] + rest && EncodeAll([]) == [];
    } else if Width(s) == 0 {
      QuotedReadsBack(s[1..], rest);
      ReadsBackInvalid(s, rest);
    } else {
      QuotedReadsBack(s[Width(s)..], rest);
      if Escaped(Value(s)) { ReadsBackEscaped(s, rest); } else { ReadsBackPlain(s, rest); }
    }
  }

  function Quoted(s: Bytes): Bytes { [0x22] + Body(s) + [0x22] }

  lemma ItemsLast(addrs: seq<Bytes>, a: Bytes)
    ensures Items(addrs + [a]) == Items(addrs) + (if addrs == [] then [] else [0x2C]) + Quoted(a)
  {
    assert (addrs + [a])[..|addrs|] == addrs;
    var before := Items(addrs) + if addrs == [] then [] else [0x2C];
    assert before + [0x22] + Body(a) + [0x22] == before + ([0x22] + Body(a) + [0x22]);
  }

  lemma ItemsOfOne(a: Bytes)
    ensures Items([a]) == Quoted(a)
  {
    assert [a][..0] == [];
  }

  lemma Regroup(a: Bytes, b: Bytes, c: Bytes, d: Bytes, e: Bytes)
    ensures a + (b + c) + d + e == a + (b + (c + d + e))
  {
  }

  lemma FrontStep(a: Bytes, init: seq<Bytes>, last: Bytes)
    requires init != [] && Items([a] + init) == Quoted(a) + ([0x2C] + Items(init))
    ensures Items([a] + init + [last]) == Quoted(a) + ([0x2C] + Items(init + [last]))
  {
    ItemsLast([a] + init, last);
    ItemsLast(init, last);
    Regroup(Quoted(a), [0x2C], Items(init), [0x2C], Quoted(last));
  }

  lemma {:induction false} ItemsFromFront(a: Bytes, addrs: seq<Bytes>)
    requires addrs != []
    ensures Items([a] + addrs) == Quoted(a) + ([0x2C] + Items(addrs))
  {
    var n := |addrs| - 1;
    var init, last := addrs[..n], addrs[n];
    assert init + [last] == addrs && [a] + addrs == [a] + init + [last];
    if n > 0 {
      ItemsFromFront(a, init);
      FrontStep(a, init, last);
    } else {
      ItemsOfOne(a);
      ItemsOfOne(last);
      ItemsLast([a], last);
      assert addrs == [last] && [a] + addrs == [a] + [last];
      assert Quoted(a) + [0x2C] + Quoted(last) == Quoted(a) + ([0x2C] + Quoted(last));
    }
  }

  function AllCleaned(addrs: seq<Bytes>): (cs: seq<Bytes>)
    ensures |cs| == |addrs| && forall k :: 0 <= k < |cs| ==> cs[k] == Cleaned(addrs[k])
  {
    seq(|addrs|, k requires 0 <= k < |addrs| => Cleaned(addrs[k]))
  }

  lemma QuotedThen(a: Bytes, rest: Bytes)
    ensures Quoted(a) + rest == [0x22] + Closed(a, rest) && (Quoted(a) + rest)[1..] == Closed(a, rest)
  {
  }

  /** The items after one item, or the end. */
  lemma ItemThenRest(a: Bytes, rest: Bytes)
    requires rest != [] && (rest == [0x5D] || rest[0] == 0x2C)
    ensures ParseItems(Quoted(a) + rest) ==
            if rest == [0x5D] then Some([Cleaned(a)])
            else if ParseItems(rest[1..]) == None then None
            else Some([Cleaned(a)] + ParseItems(rest[1..]).value)
  {
    QuotedThen(a, rest);
    QuotedReadsBack(a, rest);
    assert Unquote((Quoted(a) + rest)[1..]) == Some(Text(Cleaned(a), rest));
  }

  predicate ItemsParse(addrs: seq<Bytes>) { ParseItems(Items(addrs) + [0x5D]) == Some(AllCleaned(addrs)) }

  lemma OneItemParses(a: Bytes)
    ensures ItemsParse([a])
  {
    ItemsOfOne(a);
    ItemThenRest(a, [0x5D]);
    assert AllCleaned([a]) == [Cleaned(a)];
  }

  lemma ParsesAfter(a: Bytes, tail: Bytes, cs: seq<Bytes>)
    requires ParseItems(tail) == Some(cs)
    ensures ParseItems(Quoted(a) + ([0x2C] + tail)) == Some([Cleaned(a)] + cs)
  {
    var rest := [0x2C] + tail;
    assert rest[1..] == tail;
    ItemThenRest(a, rest);
  }

  lemma ItemsText(a: Bytes, more: seq<Bytes>)
    requires more != []
    ensures Items([a] + more) + [0x5D] == Quoted(a) + ([0x2C] + (Items(more) + [0x5D]))
  {
    ItemsFromFront(a, more);
    assert Quoted(a) + ([0x2C] + Items(more)) + [0x5D] == Quoted(a) + ([0x2C] + (Items(more) + [0x5D]));
  }

  lemma CleanedMore(a: Bytes, more: seq<Bytes>)
    ensures AllCleaned([a] + more) == [Cleaned(a)] + AllCleaned(more)
  {
  }

  lemma MoreItemsParse(a: Bytes, more: seq<Bytes>)
    requires more != [] && ItemsParse(more)
    ensures ItemsParse([a] + more)
  {
    ParsesAfter(a, Items(more) + [0x5D], AllCleaned(more));
    ItemsText(a, more);
    CleanedMore(a, more);
  }

  lemma {:induction false} ItemsReadBack(addrs: seq<Bytes>)
    requires addrs != []
    ensures ItemsParse(addrs)
  {
    assert [addrs[0]] + addrs[1..] == addrs;
    if |addrs| == 1 {
      assert addrs == [addrs[0]];
      OneItemParses(addrs[0]);
    } else {
      ItemsReadBack(addrs[1..]);
      MoreItemsParse(addrs[0], addrs[1..]);
    }
  }

  lemma MarshalIsItems(addrs: seq<Bytes>)
    ensures addrs == [] ==> Marshal(addrs) == [0x5B, 0x5D]
    ensures addrs != [] ==>
              |Marshal(addrs)| > 2 && Marshal(addrs)[0] == 0x5B && Marshal(addrs)[1..] == Items(addrs) + [0x5D]
  {
  }

  /** Reading the JSON text of an array back gives the array, with U+FFFD for what is not UTF-8: no address is lost,
      added, reordered or changed on the way. */
  lemma MarshalReadsBack(addrs: seq<Bytes>)
    ensures ParseArray(Marshal(addrs)) == Some(AllCleaned(addrs))
    ensures (forall k :: 0 <= k < |addrs| ==> Valid(addrs[k])) ==> ParseArray(Marshal(addrs)) == Some(addrs)
  {
    MarshalIsItems(addrs);
    if addrs != [] { ItemsReadBack(addrs); }
    if forall k :: 0 <= k < |addrs| ==> Valid(addrs[k]) {
      forall k | 0 <= k < |addrs| ensures Cleaned(addrs[k]) == addrs[k] { ValidMeansUnchanged(addrs[k]); }
      assert AllCleaned(addrs) == addrs;
    }
  }

  // ----- the requester's side

  function Received(all: Bytes, end: PeerIdRequest.End): Result<Bytes, PeerIdRequest.RequestError> {
    if |all| > MAX_RESPONSE_BYTES then Err(PeerIdRequest.TooLarge)
    else if end == PeerIdRequest.Eof then Ok(all)
    else Err(PeerIdRequest.ReadFailed)
  }

  /** Reads the whole reply, at most one byte over the limit, and rejects a longer one. */
  method ReadReply(s: PeerIdRequest.ByteStream) returns (r: Result<Bytes, PeerIdRequest.RequestError>)
    modifies s
    ensures r == Received(Flatten(old(s.chunks)), s.end)
  {
    r := PeerIdRequest.ReadAllUpTo(s, MAX_RESPONSE_BYTES + 1);
    if r.Ok? && |r.value| > MAX_RESPONSE_BYTES {
      return Err(PeerIdRequest.TooLarge);
    }
  }

  /** The requester's size check accepts exactly what ends within the limit, and calls longer replies too large. */
  lemma ReceivedExactly(all: Bytes, end: PeerIdRequest.End)
    ensures Received(all, end).Ok? <==> |all| <= 8192 && end == PeerIdRequest.Eof
    ensures Received(all, end).Ok? ==> Received(all, end).value == all
    ensures |all| > 8192 ==> Received(all, end) == Err(PeerIdRequest.TooLarge)
  {
  }

  /** What a responder sends for plain addresses is a reply that the requester takes whole and reads the same addresses
      from. */
  lemma PlainReplyIsReceived(addrs: seq<Bytes>)
    requires PlainUpTo(addrs, 252)
    ensures Received(Marshal(Reply(addrs)), PeerIdRequest.Eof) == Ok(Marshal(Reply(addrs)))
    ensures ParseArray(Marshal(Reply(addrs))) == Some(Reply(addrs))
  {
    ReplyFits(252);
    assert Fits(addrs);
    var r := Reply(addrs);
    DirectPicks(addrs);
    forall k | 0 <= k < |r| ensures Valid(r[k]) {
      assert r[k] == Direct(addrs)[k] && r[k] in Direct(addrs);
    }
    MarshalReadsBack(r);
  }
}
