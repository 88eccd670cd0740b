/** What the client remembers about its topic peers. Each method is one critical section of the source. */
module PeerTracking {
  import opened Common
  import opened Utf8
  import opened Sanitizer

  const MALFORMED_THRESHOLD := 5

  datatype Tracker = Tracker(
    names: map<PeerId, Bytes>,
    topicPeers: set<PeerId>,
    lastSeen: map<PeerId, int>,
    malformed: map<PeerId, int>,
    skipped: set<PeerId>)

  const EMPTY := Tracker(map[], {}, map[], map[], {})

  function Count(t: Tracker, id: PeerId): int { if id in t.malformed then t.malformed[id] else 0 }

  /** A peer is skipped exactly from its fifth malformed message on. */
  ghost predicate Latched(t: Tracker) {
    forall id :: Count(t, id) >= 0 && (id in t.skipped <==> Count(t, id) >= MALFORMED_THRESHOLD)
  }

  predicate JustSkips(t: Tracker, id: PeerId) { Count(t, id) + 1 >= MALFORMED_THRESHOLD && id !in t.skipped }

  function WithMalformed(t: Tracker, id: PeerId): Tracker {
    t.(malformed := t.malformed[id := Count(t, id) + 1],
       skipped := if JustSkips(t, id) then t.skipped + {id} else t.skipped)
  }

  function WithName(isPrint: Rune -> bool, t: Tracker, id: PeerId, name: Bytes): Tracker {
    t.(names := t.names[id := Sanitized(isPrint, name)])
  }

  function WithMessageFrom(t: Tracker, id: PeerId, now: int): Tracker {
    t.(topicPeers := t.topicPeers + {id}, lastSeen := t.lastSeen[id := now])
  }

  /** Recording keeps the latch, and so does whatever leaves counts and skips alone. */
  lemma RecordedStaysLatched(t: Tracker, id: PeerId)
    requires Latched(t)
    ensures Latched(WithMalformed(t, id))
  {
    var t' := WithMalformed(t, id);
    forall k ensures Count(t', k) >= 0 && (k in t'.skipped <==> Count(t', k) >= MALFORMED_THRESHOLD) {
      assert Count(t, k) >= 0 && (k in t.skipped <==> Count(t, k) >= MALFORMED_THRESHOLD);
    }
  }

  lemma OthersStayLatched(t: Tracker, t': Tracker)
    requires Latched(t) && t'.malformed == t.malformed && t'.skipped == t.skipped
    ensures Latched(t')
  {
    forall k ensures Count(t', k) >= 0 && (k in t'.skipped <==> Count(t', k) >= MALFORMED_THRESHOLD) {
      assert Count(t, k) >= 0 && (k in t.skipped <==> Count(t, k) >= MALFORMED_THRESHOLD);
    }
  }

  class PeerTracker {
    const isPrint: Rune -> bool
    var names: map<PeerId, Bytes>
    var topicPeers: set<PeerId>
    var lastSeen: map<PeerId, int>
    var malformed: map<PeerId, int>
    var skipMalformed: set<PeerId>

    function View(): Tracker
      reads this
    {
      Tracker(names, topicPeers, lastSeen, malformed, skipMalformed)
    }

    ghost predicate Valid()
      reads this
    {
      Latched(View())
    }

    constructor (isPrint: Rune -> bool)
      ensures Valid() && View() == EMPTY && this.isPrint == isPrint
    {
      this.isPrint := isPrint;
      names, topicPeers, lastSeen, malformed, skipMalformed := map[], {}, map[], map[], {};
    }

    method RecordMalformed(id: PeerId) returns (count: int, justSkipped: bool)
      requires Valid()
      modifies this
      ensures Valid() && View() == WithMalformed(old(View()), id)
      ensures count == Count(View(), id) && justSkipped == JustSkips(old(View()), id)
    {
      RecordedStaysLatched(View(), id);
      malformed := malformed[id := (if id in malformed then malformed[id] else 0) + 1];
      var c := malformed[id];
      if c >= MALFORMED_THRESHOLD && id !in skipMalformed {
        skipMalformed := skipMalformed + {id};
        assert View() == WithMalformed(old(View()), id);
        return c, true;
      }
      assert View() == WithMalformed(old(View()), id);
      return c, false;
    }

    method UpdateName(id: PeerId, name: Bytes) returns (stored: Bytes)
      requires Valid()
      modifies this
      ensures Valid() && View() == WithName(isPrint, old(View()), id, name) && stored == names[id]
    {
      stored := SanitizePeerName(isPrint, name);
      names := names[id := stored];
      OthersStayLatched(old(View()), View());
    }

    method RecordMessageFrom(id: PeerId, now: int)
      requires Valid()
      modifies this
      ensures Valid() && View() == WithMessageFrom(old(View()), id, now)
    {
      topicPeers := topicPeers + {id};
      lastSeen := lastSeen[id := now];
      OthersStayLatched(old(View()), View());
    }

    /** Lists every topic peer once. */
    method GetAllTopicPeers() returns (peers: seq<PeerId>)
      ensures forall id :: id in peers <==> id in topicPeers
      ensures forall j, k :: 0 <= j < k < |peers| ==> peers[j] != peers[k]
    {
      peers := [];
      var rest := topicPeers;
      while rest != {}
        invariant rest <= topicPeers
        invariant forall id :: id in peers <==> id in topicPeers - rest
        invariant forall j, k :: 0 <= j < k < |peers| ==> peers[j] != peers[k]
      {
        var id :| id in rest;
        assert id !in peers;
        rest := rest - {id};
        peers := peers + [id];
      }
    }
  }
}
