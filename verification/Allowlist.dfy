/** The publisher allowlist and the dialer, which read the same static-peer entries. */
module Allowlist {
  import opened Common
  import opened Multihash
  import opened Pieces

  datatype Component = P2p(id: PeerId) | DnsAddr(host: string) | Other(text: string)

  /** A parsed multiaddr: at least one component. */
  type Multiaddr = m: seq<Component> | m != [] witness [Other("")]

  /** What parsing one configured entry gives. */
  type Entry = Option<Multiaddr>

  /** peer.SplitAddr: the ID of the last component, or none (the empty ID). */
  function SplitId(m: Multiaddr): PeerId {
    var last := m[|m| - 1];
    if last.P2p? then last.id else []
  }

  predicate IsDnsAddr(m: Multiaddr) { m[0].DnsAddr? }

  /** Resolution of a dnsaddr entry: nothing on failure. */
  type Resolver = Multiaddr -> Option<seq<Multiaddr>>

  // ----- the publisher side

  predicate EndsInId(m: Multiaddr, id: PeerId) { m[|m| - 1] == P2p(id) }

  function PublisherId(entry: Entry): PeerId { if entry.Some? then SplitId(entry.value) else [] }

  /** An address names the ID of its last component, and nobody if that is no /p2p/ component, whatever IDs it has
      elsewhere. */
  lemma NamesLastOnly(m: Multiaddr, id: PeerId)
    ensures id != [] ==> (SplitId(m) == id <==> EndsInId(m, id))
    ensures !m[|m| - 1].P2p? ==> SplitId(m) == [] && PublisherId(Some(m)) == []
  {
  }

  /** The IDs the static peers grant trust to. */
  function Granted(entries: seq<Entry>): set<PeerId> {
    set k | 0 <= k < |entries| && PublisherId(entries[k]) != [] :: PublisherId(entries[k])
  }

  predicate NamesNobody(entry: Entry) { PublisherId(entry) == [] }

  /** The entries that name none. */
  function Unnamed(entries: seq<Entry>): seq<Entry> { Filter(NamesNobody, entries) }

  lemma UnnamedMore(entries: seq<Entry>, k: nat)
    requires k < |entries|
    ensures Unnamed(entries[..k + 1]) ==
            Unnamed(entries[..k]) + if PublisherId(entries[k]) == [] then [entries[k]] else []
  {
    assert entries[..k + 1][..k] == entries[..k];
  }

  /** They are all the entries that do not parse or do not end in an ID, each as often as it occurs, in order. */
  lemma UnnamedExactly(entries: seq<Entry>) returns (at: seq<nat>)
    ensures |at| == |Unnamed(entries)|
    ensures forall k :: 0 <= k < |at| ==> at[k] < |entries| && Unnamed(entries)[k] == entries[at[k]]
    ensures forall j, k :: 0 <= j < k < |at| ==> at[j] < at[k]
    ensures forall i: nat :: i < |entries| ==>
              (i in at <==> entries[i] == None || !exists id :: id != [] && EndsInId(entries[i].value, id))
  {
    at := FilterSelects(NamesNobody, entries);
    forall i: nat | i < |entries|
      ensures i in at <==> entries[i] == None || !exists id :: id != [] && EndsInId(entries[i].value, id)
    {
      if entries[i].Some? {
        NamesLastOnly(entries[i].value, PublisherId(entries[i]));
        if id :| id != [] && EndsInId(entries[i].value, id) { NamesLastOnly(entries[i].value, id); }
      }
    }
  }

  datatype Reported = Reported(configured: nat, fromSelf: int, fromStatic: int)

  /** The set after the first k entries. */
  function Grown(base: set<PeerId>, entries: seq<Entry>, k: nat): set<PeerId>
    requires k <= |entries|
  {
    base + Granted(entries[..k])
  }

  lemma GrantedMore(entries: seq<Entry>, k: nat)
    requires k < |entries|
    ensures var id := PublisherId(entries[k]);
            Granted(entries[..k + 1]) == if id == [] then Granted(entries[..k]) else Granted(entries[..k]) + {id}
  {
    var more, less := entries[..k + 1], entries[..k];
    forall id | id in Granted(more) ensures id in Granted(less) || id == PublisherId(entries[k]) {
      var i :| 0 <= i < |more| && PublisherId(more[i]) == id && id != [];
      assert i < k ==> less[i] == more[i];
    }
    forall id | id in Granted(less) ensures id in Granted(more) {
      var i :| 0 <= i < |less| && PublisherId(less[i]) == id && id != [];
      assert more[i] == less[i];
    }
    assert more[k] == entries[k];
  }

  lemma GrownMore(base: set<PeerId>, entries: seq<Entry>, k: nat)
    requires k < |entries|
    ensures var id := PublisherId(entries[k]);
            Grown(base, entries, k + 1) == if id == [] then Grown(base, entries, k) else Grown(base, entries, k) + {id}
  {
    GrantedMore(entries, k);
  }

  /** The map of allowed publishers; the methods fill it in place. */
  class PublisherSet {
    var allowed: set<PeerId>

    constructor ()
      ensures allowed == {}
    {
      allowed := {};
    }

    /** Adds the IDs that the static peers name; counts the new ones and collects the entries that name none, in
        order. */
    method AddStaticPublisherIds(entries: seq<Entry>) returns (added: int, unnamed: seq<Entry>)
      modifies this
      ensures allowed == old(allowed) + Granted(entries)
      ensures added == |allowed| - |old(allowed)|
      ensures unnamed == Unnamed(entries)
    {
      var before := |allowed|;
      unnamed := [];
      for k := 0 to |entries|
        invariant allowed == Grown(old(allowed), entries, k)
        invariant unnamed == Unnamed(entries[..k])
      {
        GrownMore(old(allowed), entries, k);
        UnnamedMore(entries, k);
        var id := PublisherId(entries[k]);
        if id == [] {
          unnamed := unnamed + [entries[k]];
          continue;
        }
        allowed := allowed + {id};
      }
      assert entries[..|entries|] == entries;
      added := |allowed| - before;
    }
  }

  predicate AllDecode(ids: seq<Option<PeerId>>) { forall k :: 0 <= k < |ids| ==> ids[k].Some? }

  function Configured(ids: seq<Option<PeerId>>): set<PeerId>
    requires AllDecode(ids)
  {
    set k | 0 <= k < |ids| :: ids[k].value
  }

  /** Who is in the set: the configured IDs, the node's own, and whomever an entry that parses ends in. */
  lemma AllowedExactly(ids: seq<Option<PeerId>>, selfId: PeerId, entries: seq<Entry>, id: PeerId)
    requires AllDecode(ids)
    ensures id in Configured(ids) + {selfId} + Granted(entries) <==>
              || Some(id) in ids || id == selfId
              || (id != [] && exists k :: 0 <= k < |entries| && entries[k].Some? && EndsInId(entries[k].value, id))
  {
    if Some(id) in ids {
      var k :| 0 <= k < |ids| && ids[k] == Some(id);
      assert ids[k].value == id;
    }
    forall k | 0 <= k < |entries| && entries[k].Some? ensures id != [] ==>
        (PublisherId(entries[k]) == id <==> EndsInId(entries[k].value, id)) {
      NamesLastOnly(entries[k].value, id);
    }
  }

  datatype Built = Disabled | Enabled(publishers: PublisherSet, reported: Reported)

  lemma EmptyIsConfigured(ids: seq<Option<PeerId>>)
    requires AllDecode(ids)
    ensures [] in Configured(ids) <==> Some([]) in ids
  {
    if Some([]) in ids {
      var k :| 0 <= k < |ids| && ids[k] == Some([]);
      assert ids[k].value == [];
    }
  }

  lemma ConfiguredMore(ids: seq<Option<PeerId>>, k: nat)
    requires k < |ids| && AllDecode(ids[..k]) && AllDecode(ids[..k + 1])
    ensures Configured(ids[..k + 1]) == Configured(ids[..k]) + {ids[k].value}
  {
    var more, less := ids[..k + 1], ids[..k];
    forall id | id in Configured(more) ensures id in Configured(less) || id == ids[k].value {
      var i :| 0 <= i < |more| && more[i].value == id;
      assert i < k ==> less[i] == more[i];
    }
    forall id | id in Configured(less) ensures id in Configured(more) {
      var i :| 0 <= i < |less| && less[i].value == id;
      assert more[i] == less[i];
    }
    assert more[k] == ids[k];
  }

  /** Builds the allowlist from the decoded configuration; the first ID that does not decode is the error. */
  method NewPeerAllowlist(ids: seq<Option<PeerId>>, selfId: PeerId, entries: seq<Entry>) returns (r: Result<Built, nat>)
    ensures ids == [] ==> r == Ok(Disabled)
    ensures r.Err? <==> !AllDecode(ids)
    ensures r.Err? ==> r.error < |ids| && ids[r.error] == None && AllDecode(ids[..r.error])
    ensures r.Ok? && ids != [] ==>
      && r.value.Enabled? && fresh(r.value.publishers)
      && r.value.publishers.allowed == Configured(ids) + {selfId} + Granted(entries)
    ensures r.Ok? && ids != [] ==>
      var n := r.value.reported;
      && n.configured == |Configured(ids)| && n.fromSelf == (if selfId in Configured(ids) then 0 else 1)
      && n.configured + n.fromSelf + n.fromStatic == |r.value.publishers.allowed|
    ensures r.Ok? && ids != [] ==> ([] in r.value.publishers.allowed <==> selfId == [] || Some([]) in ids)
  {
    if ids == [] {
      return Ok(Disabled);
    }
    var p := new PublisherSet();
    for k := 0 to |ids|
      invariant AllDecode(ids[..k]) && p.allowed == Configured(ids[..k])
    {
      if ids[k] == None {
        return Err(k);
      }
      assert ids[..k + 1] == ids[..k] + [ids[k]];
      ConfiguredMore(ids, k);
      p.allowed := p.allowed + {ids[k].value};
    }
    assert ids[..|ids|] == ids;
    var configured := |p.allowed|;
    assert p.allowed == Configured(ids);
    if selfId in p.allowed { assert p.allowed + {selfId} == p.allowed; }
    p.allowed := p.allowed + {selfId};
    var fromSelf := |p.allowed| - configured;
    var fromStatic, _ := p.AddStaticPublisherIds(entries);
    EmptyIsConfigured(ids);
    r := Ok(Enabled(p, Reported(configured, fromSelf, fromStatic)));
  }

  // ----- the dialing side

  /** peer.AddrInfoFromP2pAddr on each address: the IDs of those that end in one. */
  function Named(ms: seq<Multiaddr>): seq<PeerId> {
    if ms == [] then []
    else
      var n := |ms| - 1;
      Named(ms[..n]) + if SplitId(ms[n]) != [] then [SplitId(ms[n])] else []
  }

  function DialedFrom(resolve: Resolver, entry: Entry): seq<PeerId> {
    if entry == None then []
    else if IsDnsAddr(entry.value) then
      match resolve(entry.value)
      case None => []
      case Some(ms) => Named(ms)
    else Named([entry.value])
  }

  function Dialed(resolve: Resolver, entries: seq<Entry>): seq<PeerId> {
    if entries == [] then []
    else Dialed(resolve, entries[..|entries| - 1]) + DialedFrom(resolve, entries[|entries| - 1])
  }

  method ParseResolved(resolved: seq<Multiaddr>) returns (ids: seq<PeerId>)
    ensures ids == Named(resolved)
  {
    ids := [];
    for i := 0 to |resolved|
      invariant ids == Named(resolved[..i])
    {
      assert resolved[..i + 1][..i] == resolved[..i];
      var id := SplitId(resolved[i]);
      if id != [] {
        ids := ids + [id];
      }
    }
    assert resolved[..|resolved|] == resolved;
  }

  lemma DialedMore(resolve: Resolver, entries: seq<Entry>, k: nat)
    requires k < |entries|
    ensures Dialed(resolve, entries[..k + 1]) == Dialed(resolve, entries[..k]) + DialedFrom(resolve, entries[k])
  {
    assert entries[..k + 1][..k] == entries[..k];
  }

  lemma NamedOne(m: Multiaddr)
    ensures Named([m]) == if SplitId(m) != [] then [SplitId(m)] else []
  {
    assert [m][..0] == [];
  }

  method ParsePeerMultiaddrs(resolve: Resolver, entries: seq<Entry>) returns (ids: seq<PeerId>)
    ensures ids == Dialed(resolve, entries)
  {
    ids := [];
    for k := 0 to |entries|
      invariant ids == Dialed(resolve, entries[..k])
    {
      DialedMore(resolve, entries, k);
      if entries[k] == None {
        continue;
      }
      var m := entries[k].value;
      if IsDnsAddr(m) {
        var resolved := resolve(m);
        if resolved.Some? {
          var more := ParseResolved(resolved.value);
          ids := ids + more;
        }
        continue;
      }
      NamedOne(m);
      if SplitId(m) != [] {
        ids := ids + [SplitId(m)];
      }
    }
    assert entries[..|entries|] == entries;
  }

  lemma {:induction false} NamedHas(ms: seq<Multiaddr>, k: nat)
    requires k < |ms| && SplitId(ms[k]) != []
    ensures SplitId(ms[k]) in Named(ms)
  {
    var n := |ms| - 1;
    if k < n {
      assert ms[..n][k] == ms[k];
      NamedHas(ms[..n], k);
    }
  }

  lemma {:induction false} NamedFromSome(ms: seq<Multiaddr>, id: PeerId) returns (k: nat)
    requires id in Named(ms)
    ensures k < |ms| && SplitId(ms[k]) == id != []
  {
    var n := |ms| - 1;
    k := n;
    if id in Named(ms[..n]) { k := NamedFromSome(ms[..n], id); }
  }

  lemma NamedIs(ms: seq<Multiaddr>, id: PeerId)
    ensures id in Named(ms) <==> id != [] && exists k :: 0 <= k < |ms| && SplitId(ms[k]) == id
  {
    if id != [] {
      if k :| 0 <= k < |ms| && SplitId(ms[k]) == id { NamedHas(ms, k); }
    }
    if id in Named(ms) { var _ := NamedFromSome(ms, id); }
  }

  predicate Dials(resolve: Resolver, entry: Entry, id: PeerId) { id in DialedFrom(resolve, entry) }

  lemma {:induction false} DialedHas(resolve: Resolver, entries: seq<Entry>, k: nat, id: PeerId)
    requires k < |entries| && Dials(resolve, entries[k], id)
    ensures id in Dialed(resolve, entries)
  {
    var n := |entries| - 1;
    if k < n {
      assert entries[..n][k] == entries[k];
      DialedHas(resolve, entries[..n], k, id);
    }
  }

  lemma {:induction false} DialedFromSome(resolve: Resolver, entries: seq<Entry>, id: PeerId) returns (k: nat)
    requires id in Dialed(resolve, entries)
    ensures k < |entries| && Dials(resolve, entries[k], id)
  {
    var n := |entries| - 1;
    k := n;
    if id in Dialed(resolve, entries[..n]) { k := DialedFromSome(resolve, entries[..n], id); }
  }

  lemma DialedIs(resolve: Resolver, entries: seq<Entry>, id: PeerId)
    ensures id in Dialed(resolve, entries) <==> exists k :: 0 <= k < |entries| && Dials(resolve, entries[k], id)
  {
    if k :| 0 <= k < |entries| && Dials(resolve, entries[k], id) { DialedHas(resolve, entries, k, id); }
    if id in Dialed(resolve, entries) { var _ := DialedFromSome(resolve, entries, id); }
  }

  /** An entry leads to id: it parses, and either ends in id, or is a dnsaddr entry that resolves to an address which
      does. */
  ghost predicate LeadsTo(resolve: Resolver, entry: Entry, id: PeerId) {
    && entry.Some? && id != []
    && if entry.value[0].DnsAddr? then
         resolve(entry.value).Some? &&
         exists j :: 0 <= j < |resolve(entry.value).value| && EndsInId(resolve(entry.value).value[j], id)
       else EndsInId(entry.value, id)
  }

  lemma DialsIsLeadsTo(resolve: Resolver, entry: Entry, id: PeerId)
    ensures Dials(resolve, entry, id) <==> LeadsTo(resolve, entry, id)
  {
    if entry.Some? {
      var m := entry.value;
      if m[0].DnsAddr? {
        if resolve(m).Some? {
          var ms := resolve(m).value;
          NamedIs(ms, id);
          if j :| 0 <= j < |ms| && EndsInId(ms[j], id) { NamesLastOnly(ms[j], id); }
          if j :| 0 <= j < |ms| && SplitId(ms[j]) == id { NamesLastOnly(ms[j], id); }
        }
      } else {
        NamedOne(m);
        NamesLastOnly(m, id);
      }
    }
  }

  /** Dialed is everybody whom some entry leads to, all the answers to a dnsaddr entry included, and nobody else. */
  lemma DialedExactly(resolve: Resolver, entries: seq<Entry>, id: PeerId)
    ensures id in Dialed(resolve, entries) <==> exists k :: 0 <= k < |entries| && LeadsTo(resolve, entries[k], id)
  {
    DialedIs(resolve, entries, id);
    forall k | 0 <= k < |entries| ensures Dials(resolve, entries[k], id) <==> LeadsTo(resolve, entries[k], id) {
      DialsIsLeadsTo(resolve, entries[k], id);
    }
  }

  lemma DialedLast(resolve: Resolver, entries: seq<Entry>, entry: Entry)
    ensures Dialed(resolve, entries + [entry]) == Dialed(resolve, entries) + DialedFrom(resolve, entry)
  {
    assert (entries + [entry])[..|entries|] == entries;
  }

  lemma NamedLast(ms: seq<Multiaddr>, m: Multiaddr)
    ensures Named(ms + [m]) == Named(ms) + if SplitId(m) != [] then [SplitId(m)] else []
  {
    assert (ms + [m])[..|ms|] == ms;
  }

  lemma Regroup<T>(a: seq<T>, b: seq<T>, c: seq<T>)
    ensures a + b + c == a + (b + c)
  {
  }

  lemma NamedInOrderMore(a: seq<Multiaddr>, init: seq<Multiaddr>, m: Multiaddr)
    requires Named(a + init) == Named(a) + Named(init)
    ensures Named(a + (init + [m])) == Named(a) + Named(init + [m])
  {
    Regroup(a, init, [m]);
    NamedLast(a + init, m);
    NamedLast(init, m);
    Regroup(Named(a), Named(init), if SplitId(m) != [] then [SplitId(m)] else []);
  }

  lemma {:induction false} NamedInOrder(a: seq<Multiaddr>, b: seq<Multiaddr>)
    ensures Named(a + b) == Named(a) + Named(b)
  {
    if b == [] {
      assert a + b == a && Named(a) + Named(b) == Named(a);
    } else {
      var init, m := b[..|b| - 1], b[|b| - 1];
      NamedInOrder(a, init);
      NamedInOrderMore(a, init, m);
      assert init + [m] == b;
    }
  }

  lemma DialedInOrderMore(resolve: Resolver, a: seq<Entry>, init: seq<Entry>, entry: Entry)
    requires Dialed(resolve, a + init) == Dialed(resolve, a) + Dialed(resolve, init)
    ensures Dialed(resolve, a + (init + [entry])) == Dialed(resolve, a) + Dialed(resolve, init + [entry])
  {
    Regroup(a, init, [entry]);
    DialedLast(resolve, a + init, entry);
    DialedLast(resolve, init, entry);
    Regroup(Dialed(resolve, a), Dialed(resolve, init), DialedFrom(resolve, entry));
  }

  /** The entries are dialed one after the other, as NamedInOrder says of the answers to a dnsaddr entry. */
  lemma {:induction false} DialedInOrder(resolve: Resolver, a: seq<Entry>, b: seq<Entry>)
    ensures Dialed(resolve, a + b) == Dialed(resolve, a) + Dialed(resolve, b)
  {
    if b == [] {
      assert a + b == a && Dialed(resolve, a) + Dialed(resolve, b) == Dialed(resolve, a);
    } else {
      var init, entry := b[..|b| - 1], b[|b| - 1];
      DialedInOrder(resolve, a, init);
      DialedInOrderMore(resolve, a, init, entry);
      assert init + [entry] == b;
    }
  }

  // ----- the two sides compared

  /** A resolver keeps to the ID that an entry ends in. */
  ghost predicate KeepsSuffix(resolve: Resolver) {
    forall m: Multiaddr, k :: SplitId(m) != [] && resolve(m).Some? && 0 <= k < |resolve(m).value| ==>
      SplitId(resolve(m).value[k]) == SplitId(m)
  }

  /** A resolver that names nobody but peers with key-derived IDs. */
  ghost predicate AnswersPeers(resolve: Resolver) {
    forall m: Multiaddr, k, i :: resolve(m).Some? && 0 <= k < |resolve(m).value| && 0 <= i < |resolve(m).value[k]| ==>
      resolve(m).value[k][i].P2p? ==> RealId(resolve(m).value[k][i].id)
  }

  predicate NamesDirectly(entry: Entry, id: PeerId) {
    entry.Some? && !IsDnsAddr(entry.value) && SplitId(entry.value) == id && id != []
  }

  /** Every dnsaddr entry ends in an ID, and some entry names that ID without resolution. */
  predicate NeedsNoResolution(entries: seq<Entry>) {
    forall k :: 0 <= k < |entries| && entries[k].Some? && IsDnsAddr(entries[k].value) ==>
      exists i :: 0 <= i < |entries| && NamesDirectly(entries[i], SplitId(entries[k].value))
  }

  ghost predicate Agree(resolve: Resolver, entries: seq<Entry>) {
    forall id :: id in Dialed(resolve, entries) <==> id in Granted(entries)
  }

  lemma DirectIsBoth(resolve: Resolver, entries: seq<Entry>, i: nat, id: PeerId)
    requires i < |entries| && NamesDirectly(entries[i], id)
    ensures id in Granted(entries) && id in Dialed(resolve, entries)
  {
    NamedIs([entries[i].value], id);
    assert SplitId([entries[i].value][0]) == id;
    DialedIs(resolve, entries, id);
    assert Dials(resolve, entries[i], id);
    assert PublisherId(entries[i]) == id;
  }

  lemma AgreeWithoutResolution(resolve: Resolver, entries: seq<Entry>)
    requires KeepsSuffix(resolve) && NeedsNoResolution(entries)
    ensures Agree(resolve, entries)
  {
    forall id ensures id in Dialed(resolve, entries) <==> id in Granted(entries) {
      DialedIs(resolve, entries, id);
      if k :| 0 <= k < |entries| && (Dials(resolve, entries[k], id) || (PublisherId(entries[k]) == id && id != [])) {
        var m := entries[k].value;
        if IsDnsAddr(m) {
          if id in DialedFrom(resolve, entries[k]) { NamedIs(resolve(m).value, id); }
          var i :| 0 <= i < |entries| && NamesDirectly(entries[i], SplitId(m));
          DirectIsBoth(resolve, entries, i, SplitId(m));
        } else {
          NamedIs([m], id);
          assert NamesDirectly(entries[k], id);
          DirectIsBoth(resolve, entries, k, id);
        }
      }
    }
  }

  /** Which peer an entry that names an ID denotes is beyond dispute: dialed through it is nobody but the peer it
      grants, whatever the resolver adds before the ID. */
  lemma SamePeerPerEntry(resolve: Resolver, entry: Entry, id: PeerId)
    requires KeepsSuffix(resolve) && PublisherId(entry) != [] && Dials(resolve, entry, id)
    ensures id == PublisherId(entry)
  {
    if IsDnsAddr(entry.value) {
      NamedIs(resolve(entry.value).value, id);
    } else {
      NamedIs([entry.value], id);
    }
  }

  function Failing(): Resolver { m => None }

  /** A resolver that answers a bare dnsaddr entry with a peer of its own choice. */
  function Answering(id: PeerId): Resolver {
    m => if SplitId(m) == [] then Some([[P2p(id)]]) else None
  }

  /** A dnsaddr entry that names no ID of its own. */
  predicate IsBare(entry: Entry) { entry.Some? && IsDnsAddr(entry.value) && SplitId(entry.value) == [] }

  /** A bare dnsaddr entry may resolve to a peer that nobody granted. */
  lemma BareDialsStranger(entries: seq<Entry>, k: nat, stranger: PeerId)
    requires k < |entries| && IsBare(entries[k]) && RealId(stranger)
    ensures KeepsSuffix(Answering(stranger)) && AnswersPeers(Answering(stranger))
    ensures stranger in Dialed(Answering(stranger), entries)
  {
    var resolve := Answering(stranger);
    NamedIs([[P2p(stranger)]], stranger);
    assert SplitId([[P2p(stranger)]][0]) == stranger;
    assert Dials(resolve, entries[k], stranger);
    DialedHas(resolve, entries, k, stranger);
  }

  /** A dnsaddr entry that names an ID grants it even when resolution fails and nothing is dialed. */
  lemma FailureDisagrees(entries: seq<Entry>, k: nat, id: PeerId)
    requires k < |entries| && PublisherId(entries[k]) == id != []
    requires forall i :: 0 <= i < |entries| ==> !NamesDirectly(entries[i], id)
    ensures KeepsSuffix(Failing()) && AnswersPeers(Failing()) && !Agree(Failing(), entries)
  {
    var resolve := Failing();
    DialedIs(resolve, entries, id);
    forall i | 0 <= i < |entries| ensures !Dials(resolve, entries[i], id) {
      if entries[i].Some? && !IsDnsAddr(entries[i].value) {
        NamedIs([entries[i].value], id);
        assert !NamesDirectly(entries[i], id);
      }
    }
  }

  // ----- nobody is dialed who is not granted

  predicate NoneBare(entries: seq<Entry>) { forall k :: 0 <= k < |entries| ==> !IsBare(entries[k]) }

  ghost predicate DialsGrantedOnly(resolve: Resolver, entries: seq<Entry>) {
    forall id :: id in Dialed(resolve, entries) ==> id in Granted(entries)
  }

  lemma NamesOrGrants(resolve: Resolver, entries: seq<Entry>)
    requires KeepsSuffix(resolve) && NoneBare(entries)
    ensures DialsGrantedOnly(resolve, entries)
  {
    forall id | id in Dialed(resolve, entries) ensures id in Granted(entries) {
      var k := DialedFromSome(resolve, entries, id);
      if PublisherId(entries[k]) == [] {
        assert !IsBare(entries[k]);
        if entries[k].Some? { NamedIs([entries[k].value], id); }
      } else {
        SamePeerPerEntry(resolve, entries[k], id);
      }
    }
  }

  /** Whatever resolution answers or fails to, nobody is dialed from the static peers whom they do not grant, if
      every dnsaddr entry names an ID, and only then; stranger is any real peer that the static peers do not grant. */
  lemma DialedAreGranted(entries: seq<Entry>, stranger: PeerId)
    requires RealId(stranger) && stranger !in Granted(entries)
    ensures NoneBare(entries) ==>
              forall resolve: Resolver :: KeepsSuffix(resolve) ==> DialsGrantedOnly(resolve, entries)
    ensures NoneBare(entries) <==>
              forall resolve: Resolver :: KeepsSuffix(resolve) && AnswersPeers(resolve) ==>
                DialsGrantedOnly(resolve, entries)
  {
    if NoneBare(entries) {
      forall resolve: Resolver | KeepsSuffix(resolve) ensures DialsGrantedOnly(resolve, entries) {
        NamesOrGrants(resolve, entries);
      }
    } else {
      var k :| 0 <= k < |entries| && IsBare(entries[k]);
      BareDialsStranger(entries, k, stranger);
      assert !DialsGrantedOnly(Answering(stranger), entries);
    }
  }

  // ----- both sides name the same peers

  lemma DisagreeWhenResolving(entries: seq<Entry>, stranger: PeerId)
    requires !NeedsNoResolution(entries) && RealId(stranger) && stranger !in Granted(entries)
    ensures exists resolve: Resolver :: KeepsSuffix(resolve) && AnswersPeers(resolve) && !Agree(resolve, entries)
  {
    var k :| 0 <= k < |entries| && entries[k].Some? && IsDnsAddr(entries[k].value)
             && forall i :: 0 <= i < |entries| ==> !NamesDirectly(entries[i], SplitId(entries[k].value));
    var id := SplitId(entries[k].value);
    if id == [] {
      BareDialsStranger(entries, k, stranger);
      assert !Agree(Answering(stranger), entries);
    } else {
      FailureDisagrees(entries, k, id);
    }
  }

  /** The set of IDs dialed from the static peers is the set they grant, whatever resolution answers or fails to,
      if every dnsaddr entry names an ID that another entry names without resolution, and only then; so in particular
      when there is no dnsaddr entry. */
  lemma AllowlistAgreesWithDialer(entries: seq<Entry>, stranger: PeerId)
    requires RealId(stranger) && stranger !in Granted(entries)
    ensures NeedsNoResolution(entries) ==> forall resolve: Resolver :: KeepsSuffix(resolve) ==> Agree(resolve, entries)
    ensures NeedsNoResolution(entries) <==>
              forall resolve: Resolver :: KeepsSuffix(resolve) && AnswersPeers(resolve) ==> Agree(resolve, entries)
    ensures (forall k :: 0 <= k < |entries| && entries[k].Some? ==> !IsDnsAddr(entries[k].value)) ==>
              NeedsNoResolution(entries)
  {
    if NeedsNoResolution(entries) {
      forall resolve: Resolver | KeepsSuffix(resolve) ensures Agree(resolve, entries) {
        AgreeWithoutResolution(resolve, entries);
      }
    } else {
      DisagreeWhenResolving(entries, stranger);
    }
  }

  /** A relayed address grants and dials its target. The relay that it goes through is granted only if some entry ends
      in it, and dialed only if some entry ends in it or is a dnsaddr entry that names nobody. */
  lemma TargetNotRelay(resolve: Resolver, entries: seq<Entry>, k: nat, front: seq<Component>, relay: PeerId,
                       target: PeerId)
    requires KeepsSuffix(resolve) && target != [] && relay != []
    requires front != [] && !front[0].DnsAddr? && P2p(relay) in front
    requires k < |entries| && entries[k] == Some(front + [P2p(target)])
    ensures target in Granted(entries) && target in Dialed(resolve, entries)
    ensures relay in Granted(entries) <==> exists i :: 0 <= i < |entries| && PublisherId(entries[i]) == relay
    ensures relay in Dialed(resolve, entries) ==>
              exists i :: 0 <= i < |entries| && (PublisherId(entries[i]) == relay || IsBare(entries[i]))
    ensures relay != target ==> !Dials(resolve, entries[k], relay)
  {
    assert NamesDirectly(entries[k], target);
    DirectIsBoth(resolve, entries, k, target);
    if relay in Dialed(resolve, entries) {
      var i := DialedFromSome(resolve, entries, relay);
      if PublisherId(entries[i]) != [] {
        SamePeerPerEntry(resolve, entries[i], relay);
      } else if !IsBare(entries[i]) {
        NamedIs([entries[i].value], relay);
      }
    }
    if Dials(resolve, entries[k], relay) { SamePeerPerEntry(resolve, entries[k], relay); }
  }
}
