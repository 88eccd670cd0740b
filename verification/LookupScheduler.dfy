/** When the client asks its neighbours for a topic peer's addresses, and how it keeps to one lookup per target. */
module LookupScheduler {
  import opened Common
  import opened Counting
  import opened Runs

  /** Five minutes between lookups of one target, in nanoseconds. */
  const RETRY := 300_000_000_000

  predicate Due(requested: map<PeerId, int>, target: PeerId, now: int) {
    target !in requested || now - requested[target] >= RETRY
  }

  datatype Scan = Scan(topicPeers: set<PeerId>, connected: set<PeerId>, now: int)

  predicate Starts(requested: map<PeerId, int>, scan: Scan, target: PeerId) {
    target in scan.topicPeers && target !in scan.connected && Due(requested, target, scan.now)
  }

  function Scanned(requested: map<PeerId, int>, scan: Scan): map<PeerId, int> {
    map t | t in scan.topicPeers && (t in requested || Starts(requested, scan, t)) ::
      if Starts(requested, scan, t) then scan.now else requested[t]
  }

  class AddressLookups {
    var requested: map<PeerId, int>
    var inFlight: set<PeerId>

    constructor ()
      ensures requested == map[] && inFlight == {}
    {
      requested, inFlight := map[], {};
    }

    method PruneRequested(topicPeers: set<PeerId>)
      modifies this`requested
      ensures requested == map t | t in old(requested) && t in topicPeers :: old(requested)[t]
    {
      var ids := requested.Keys;
      while ids != {}
        invariant ids <= requested.Keys <= old(requested).Keys
        invariant forall t :: t in old(requested) ==> (t in requested <==> t in ids || t in topicPeers)
        invariant forall t :: t in requested ==> requested[t] == old(requested)[t]
      {
        var id :| id in ids;
        ids := ids - {id};
        if id !in topicPeers {
          requested := requested - {id};
        }
      }
    }

    /** Starts a lookup for every unconnected topic peer that is due, and forgets peers that left every topic. */
    method ScanTopicPeers(allTopicPeers: seq<PeerId>, connected: set<PeerId>, now: int) returns (started: seq<PeerId>)
      modifies this`requested
      ensures var scan := Scan((set t | t in allTopicPeers), connected, now);
              && requested == Scanned(old(requested), scan)
              && requested.Keys <= scan.topicPeers
              && (forall t :: t in started <==> Starts(old(requested), scan, t))
      ensures forall j, k :: 0 <= j < k < |started| ==> started[j] != started[k]
    {
      started := [];
      var topicSet := {};
      for k := 0 to |allTopicPeers|
        invariant topicSet == set t | t in allTopicPeers[..k]
        invariant forall t :: t in started <==> Starts(old(requested), Scan(topicSet, connected, now), t)
        invariant forall t :: t in requested <==> t in old(requested) || t in started
        invariant forall t :: t in requested ==> requested[t] == if t in started then now else old(requested)[t]
        invariant forall i, j :: 0 <= i < j < |started| ==> started[i] != started[j]
      {
        var target := allTopicPeers[k];
        topicSet := topicSet + {target};
        if target in connected {
          continue;
        }
        if !Due(requested, target, now) {
          continue;
        }
        started := started + [target];
        requested := requested[target := now];
      }
      assert allTopicPeers[..|allTopicPeers|] == allTopicPeers;
      PruneRequested(topicSet);
    }

    method BeginAddrLookup(target: PeerId) returns (won: bool)
      modifies this`inFlight
      ensures won == (target !in old(inFlight)) && inFlight == old(inFlight) + {target}
    {
      if target in inFlight {
        return false;
      }
      inFlight := inFlight + {target};
      return true;
    }

    method EndAddrLookup(target: PeerId)
      modifies this`inFlight
      ensures inFlight == old(inFlight) - {target}
    {
      inFlight := inFlight - {target};
    }
  }

  // ----- any run of scans

  function Requested(scans: seq<Scan>): map<PeerId, int> {
    if scans == [] then map[] else Scanned(Requested(scans[..|scans| - 1]), scans[|scans| - 1])
  }

  predicate StartedAt(scans: seq<Scan>, k: nat, target: PeerId)
    requires k < |scans|
  {
    Starts(Requested(scans[..k]), scans[k], target)
  }

  lemma RequestedNext(scans: seq<Scan>, k: nat)
    requires k < |scans|
    ensures Requested(scans[..k + 1]) == Scanned(Requested(scans[..k]), scans[k])
  {
    assert scans[..k + 1][..k] == scans[..k];
  }

  predicate StaysTopicPeer(scans: seq<Scan>, i: nat, j: nat, target: PeerId)
    requires i <= j <= |scans|
  {
    forall k :: i <= k < j ==> target in scans[k].topicPeers
  }

  lemma {:induction false} StartRemembered(scans: seq<Scan>, i: nat, j: nat, target: PeerId)
    requires i < j <= |scans| && StaysTopicPeer(scans, i, j, target) && StartedAt(scans, i, target)
    ensures target in Requested(scans[..j]) && Requested(scans[..j])[target] >= scans[i].now
    ensures (forall k :: i < k < j ==> !StartedAt(scans, k, target)) ==> Requested(scans[..j])[target] == scans[i].now
  {
    RequestedNext(scans, j - 1);
    if i < j - 1 {
      StartRemembered(scans, i, j - 1, target);
      var again := StartedAt(scans, j - 1, target);
    }
  }

  lemma {:induction false} NeverStartedForgotten(scans: seq<Scan>, k: nat, target: PeerId)
    requires k <= |scans| && forall i :: 0 <= i < k ==> !StartedAt(scans, i, target)
    ensures target !in Requested(scans[..k])
  {
    if k == 0 {
    } else {
      NeverStartedForgotten(scans, k - 1, target);
      RequestedNext(scans, k - 1);
      assert !StartedAt(scans, k - 1, target);
    }
  }

  /** The first lookup of a target starts at the first scan that sees it as an unconnected topic peer. */
  lemma FirstStart(scans: seq<Scan>, k: nat, target: PeerId)
    requires k < |scans| && forall i :: 0 <= i < k ==> !StartedAt(scans, i, target)
    ensures StartedAt(scans, k, target) <==> target in scans[k].topicPeers && target !in scans[k].connected
  {
    NeverStartedForgotten(scans, k, target);
  }

  /** No connected peer and nobody who is no topic peer is ever looked up. */
  lemma StartsOnlyUnconnected(scans: seq<Scan>, k: nat, target: PeerId)
    requires k < |scans| && StartedAt(scans, k, target)
    ensures target in scans[k].topicPeers && target !in scans[k].connected
  {
  }

  lemma {:induction false} ForgottenSince(scans: seq<Scan>, i: nat, k: nat, target: PeerId)
    requires i < k <= |scans| && target !in scans[i].topicPeers
    requires forall j :: i < j < k ==> !StartedAt(scans, j, target)
    ensures target !in Requested(scans[..k])
  {
    RequestedNext(scans, k - 1);
    if k - 1 > i {
      ForgottenSince(scans, i, k - 1, target);
      assert !StartedAt(scans, k - 1, target);
    }
  }

  /** A target that left the topics for a scan is forgotten: it starts like a new one. */
  lemma StartsAfterAbsence(scans: seq<Scan>, i: nat, k: nat, target: PeerId)
    requires i < k < |scans| && target !in scans[i].topicPeers
    requires forall j :: i < j < k ==> !StartedAt(scans, j, target)
    ensures StartedAt(scans, k, target) <==> target in scans[k].topicPeers && target !in scans[k].connected
  {
    ForgottenSince(scans, i, k, target);
  }

  /** Two lookups of a target that stays a topic peer are started five minutes apart or more, whatever the clock
      does. */
  lemma StartsAreSpaced(scans: seq<Scan>, i: nat, j: nat, target: PeerId)
    requires i < j < |scans| && StaysTopicPeer(scans, i, j, target)
    requires StartedAt(scans, i, target) && StartedAt(scans, j, target)
    ensures scans[j].now - scans[i].now >= RETRY == 300_000_000_000
  {
    StartRemembered(scans, i, j, target);
  }

  /** A topic peer that stays unconnected while scans are at most fifteen seconds apart is looked up again before
      five minutes and fifteen seconds have passed. */
  lemma {:induction false} StartsAgainInTime(scans: seq<Scan>, i: nat, m: nat, target: PeerId)
    requires i < m < |scans| && StaysTopicPeer(scans, i, m + 1, target) && StartedAt(scans, i, target)
    requires forall k :: i <= k <= m ==> target !in scans[k].connected
    requires forall k {:trigger scans[k].now} :: i < k <= m ==> scans[k].now - scans[k - 1].now <= 15_000_000_000
    requires scans[m].now - scans[i].now >= 300_000_000_000
    ensures exists j :: i < j <= m && StartedAt(scans, j, target) && scans[j].now - scans[i].now < 315_000_000_000
  {
    if m - 1 > i && scans[m - 1].now - scans[i].now >= 300_000_000_000 {
      StartsAgainInTime(scans, i, m - 1, target);
    } else if k :| i < k < m && StartedAt(scans, k, target) {
      StartsAreSpaced(scans, i, k, target);
      StartsAgainInTime(scans, i, k, target);
    } else {
      assert scans[m].now - scans[m - 1].now <= 15_000_000_000;
      StartRemembered(scans, i, m, target);
      assert StartedAt(scans, m, target);
    }
  }

  // ----- concurrent lookups

  datatype Lookup = Spawned(target: PeerId) | Running(target: PeerId) | Over(target: PeerId)

  datatype State = State(inFlight: set<PeerId>, lookups: seq<Lookup>)

  datatype Action = Spawn(target: PeerId) | Begin(i: nat) | End(i: nat)

  predicate Enabled(s: State, a: Action) {
    match a
    case Spawn(_) => true
    case Begin(i) => i < |s.lookups| && s.lookups[i].Spawned?
    case End(i) => i < |s.lookups| && s.lookups[i].Running?
  }

  function Step(s: State, a: Action): State {
    if !Enabled(s, a) then s
    else
      match a
      case Spawn(t) => s.(lookups := s.lookups + [Spawned(t)])
      case Begin(i) =>
        var t := s.lookups[i].target;
        if t in s.inFlight then s.(lookups := s.lookups[i := Over(t)])
        else State(s.inFlight + {t}, s.lookups[i := Running(t)])
      case End(i) =>
        var t := s.lookups[i].target;
        State(s.inFlight - {t}, s.lookups[i := Over(t)])
  }

  function RunningFor(target: PeerId): Lookup -> int {
    (l: Lookup) => if l == Running(target) then 1 else 0
  }

  predicate AtMostOne(s: State, target: PeerId) {
    Sum(s.lookups, RunningFor(target)) == if target in s.inFlight then 1 else 0
  }

  lemma SpawnKeepsOne(s: State, t: PeerId, target: PeerId)
    requires AtMostOne(s, target)
    ensures AtMostOne(Step(s, Spawn(t)), target)
  {
    SumAppend(s.lookups, Spawned(t), RunningFor(target));
  }

  lemma BeginKeepsOne(s: State, i: nat, target: PeerId)
    requires AtMostOne(s, target) && Enabled(s, Begin(i))
    ensures AtMostOne(Step(s, Begin(i)), target)
  {
    SumUpdate(s.lookups, i, Step(s, Begin(i)).lookups[i], RunningFor(target));
  }

  lemma EndKeepsOne(s: State, i: nat, target: PeerId)
    requires AtMostOne(s, target) && Enabled(s, End(i))
    ensures AtMostOne(Step(s, End(i)), target)
  {
    SumUpdate(s.lookups, i, Step(s, End(i)).lookups[i], RunningFor(target));
    SumAtLeast(s.lookups, RunningFor(target), i);
  }

  /** The lookups running for a target are its membership of the in-flight set: at most one. */
  lemma {:induction false} OneLookupPerTarget(acts: seq<Action>, target: PeerId)
    ensures var s := Run(Step, State({}, []), acts);
            Sum(s.lookups, RunningFor(target)) == if target in s.inFlight then 1 else 0
  {
    if acts == [] {
    } else {
      var s, a := Run(Step, State({}, []), acts[..|acts| - 1]), acts[|acts| - 1];
      OneLookupPerTarget(acts[..|acts| - 1], target);
      if Enabled(s, a) {
        match a {
          case Spawn(t) => SpawnKeepsOne(s, t, target);
          case Begin(i) => BeginKeepsOne(s, i, target);
          case End(i) => EndKeepsOne(s, i, target);
        }
      }
    }
  }
}
