/** The fixed-window limiter of inbound peer-address requests. */
module Limiter {
  import opened Common
  import opened Pieces

  /** One minute in nanoseconds, and the requests one peer may make in it. */
  const WINDOW := 60_000_000_000
  const BUDGET := 512

  datatype Window = Window(start: int, count: int)

  datatype Request = Request(id: PeerId, now: int)

  predicate Granted(w: Window) { w.count <= BUDGET }

  predicate FirstRejection(w: Window) { w.count == BUDGET + 1 }

  // ----- one call

  function Live(ws: map<PeerId, Window>, now: int): map<PeerId, Window> {
    map id | id in ws && now - ws[id].start < WINDOW :: ws[id]
  }

  /** The window a request is counted in, this request included. */
  function Charged(ws: map<PeerId, Window>, r: Request): Window {
    var live := Live(ws, r.now);
    if r.id in live && live[r.id].count != 0 then Window(live[r.id].start, live[r.id].count + 1)
    else Window(r.now, 1)
  }

  function After(ws: map<PeerId, Window>, r: Request): map<PeerId, Window> {
    Live(ws, r.now)[r.id := Charged(ws, r)]
  }

  class PeerAddressLimiter {
    var windows: map<PeerId, Window>

    constructor ()
      ensures windows == map[]
    {
      windows := map[];
    }

    /** Prunes every expired window, counts the request and judges it. */
    method Allow(id: PeerId, now: int) returns (allowed: bool, firstRejection: bool)
      modifies this
      ensures windows == After(old(windows), Request(id, now))
      ensures forall k :: k in windows ==> now - windows[k].start < WINDOW
      ensures allowed == Granted(windows[id]) && firstRejection == FirstRejection(windows[id])
    {
      var unseen := windows.Keys;
      while unseen != {}
        invariant unseen <= windows.Keys <= old(windows).Keys
        invariant forall k :: k in old(windows) ==>
          (k in windows <==> k in unseen || now - old(windows)[k].start < WINDOW)
        invariant forall k :: k in windows ==> windows[k] == old(windows)[k]
      {
        var k :| k in unseen;
        unseen := unseen - {k};
        if now - windows[k].start >= WINDOW {
          windows := windows - {k};
        }
      }
      assert windows == Live(old(windows), now);

      var w := if id in windows then windows[id] else Window(0, 0);
      if w.count == 0 {
        w := Window(now, w.count);
      }
      w := Window(w.start, w.count + 1);
      windows := windows[id := w];
      if w.count > BUDGET {
        return false, w.count == BUDGET + 1;
      }
      return true, false;
    }
  }

  // ----- whole runs, in lock order, of the shared limiter

  function Windows(reqs: seq<Request>): map<PeerId, Window> {
    if reqs == [] then map[] else After(Windows(reqs[..|reqs| - 1]), reqs[|reqs| - 1])
  }

  /** The window that request k of the run was counted in. */
  function ChargedAt(reqs: seq<Request>, k: nat): Window
    requires k < |reqs|
  {
    Charged(Windows(reqs[..k]), reqs[k])
  }

  // ----- the independent automaton of one peer, fed that peer's clock readings only

  function Solo(ts: seq<int>): Window
    requires ts != []
  {
    var n, now := |ts| - 1, ts[|ts| - 1];
    if n > 0 && now - Solo(ts[..n]).start < WINDOW then
      Window(Solo(ts[..n]).start, Solo(ts[..n]).count + 1)
    else Window(now, 1)
  }

  function Times(reqs: seq<Request>, id: PeerId): seq<int> {
    if reqs == [] then []
    else
      var r := reqs[|reqs| - 1];
      Times(reqs[..|reqs| - 1], id) + if r.id == id then [r.now] else []
  }

  /** The clock never steps back into a window that it has already expired. */
  predicate NoRewind(ts: seq<int>) {
    forall i, j, k :: 0 <= i < j < k < |ts| && ts[j] - ts[i] >= WINDOW ==> ts[k] - ts[i] >= WINDOW
  }

  predicate Nondecreasing(ts: seq<int>) {
    forall i, j :: 0 <= i < j < |ts| ==> ts[i] <= ts[j]
  }

  function Clock(reqs: seq<Request>): (ts: seq<int>)
    ensures |ts| == |reqs|
    ensures forall k :: 0 <= k < |reqs| ==> ts[k] == reqs[k].now
  {
    seq(|reqs|, k requires 0 <= k < |reqs| => reqs[k].now)
  }

  predicate CountedAlone(reqs: seq<Request>, k: nat)
    requires k < |reqs|
  {
    Times(reqs[..k + 1], reqs[k].id) != [] && ChargedAt(reqs, k) == Solo(Times(reqs[..k + 1], reqs[k].id))
  }

  /** Every request is counted exactly as if its peer had the limiter to itself. */
  predicate Independent(reqs: seq<Request>) {
    forall k :: 0 <= k < |reqs| ==> CountedAlone(reqs, k)
  }

  predicate Expired(reqs: seq<Request>, start: int) {
    exists i, j :: 0 <= i < j < |reqs| && reqs[i].now == start && reqs[j].now - start >= WINDOW
  }

  /** Peer id's entry agrees with its own automaton, or was pruned when expired. */
  predicate Agrees(reqs: seq<Request>, id: PeerId) {
    var ws, ts := Windows(reqs), Times(reqs, id);
    if id in ws then
      ts != [] && ws[id] == Solo(ts) && ws[id].count > 0 &&
      exists i :: 0 <= i < |reqs| && reqs[i].id == id && reqs[i].now == ws[id].start
    else
      ts == [] || Expired(reqs, Solo(ts).start)
  }

  lemma NoRewindPrefix(reqs: seq<Request>)
    requires reqs != [] && NoRewind(Clock(reqs))
    ensures NoRewind(Clock(reqs[..|reqs| - 1]))
  {
    assert Clock(reqs[..|reqs| - 1]) == Clock(reqs)[..|reqs| - 1];
  }

  lemma TimesMore(prev: seq<Request>, r: Request, id: PeerId)
    ensures Times(prev + [r], id) == if r.id == id then Times(prev, id) + [r.now] else Times(prev, id)
    ensures Windows(prev + [r]) == After(Windows(prev), r)
  {
    assert (prev + [r])[..|prev|] == prev;
  }

  lemma ExpiredStays(prev: seq<Request>, r: Request, start: int)
    requires NoRewind(Clock(prev + [r])) && Expired(prev, start)
    ensures r.now - start >= WINDOW && Expired(prev + [r], start)
  {
    var reqs, n := prev + [r], |prev|;
    var i, j :| 0 <= i < j < n && prev[i].now == start && prev[j].now - start >= WINDOW;
    assert reqs[i].now == start && reqs[j].now - start >= WINDOW;
    assert Clock(reqs)[j] - Clock(reqs)[i] >= WINDOW;
    assert Clock(reqs)[n] - Clock(reqs)[i] >= WINDOW;
  }

  lemma JustExpired(prev: seq<Request>, r: Request, i: nat)
    requires i < |prev| && r.now - prev[i].now >= WINDOW
    ensures Expired(prev + [r], prev[i].now)
  {
    var reqs := prev + [r];
    assert reqs[i].now == prev[i].now && reqs[|prev|].now - prev[i].now >= WINDOW;
  }

  /** The peer's own request is counted the same way on both sides. */
  lemma OwnChargeAgrees(prev: seq<Request>, r: Request)
    requires NoRewind(Clock(prev + [r])) && Agrees(prev, r.id)
    ensures Charged(Windows(prev), r) == Solo(Times(prev, r.id) + [r.now])
  {
    var ws, ts := Windows(prev), Times(prev, r.id);
    assert (ts + [r.now])[..|ts|] == ts;
    if r.id !in ws && ts != [] {
      ExpiredStays(prev, r, Solo(ts).start);
    }
  }

  lemma AgreesStep(prev: seq<Request>, r: Request, id: PeerId)
    requires NoRewind(Clock(prev + [r])) && Agrees(prev, id)
    ensures Agrees(prev + [r], id)
  {
    var reqs := prev + [r];
    TimesMore(prev, r, id);
    var ws, ts := Windows(prev), Times(prev, id);
    if id in ws {
      var i :| 0 <= i < |prev| && prev[i].id == id && prev[i].now == ws[id].start;
      assert reqs[i].id == id && reqs[i].now == ws[id].start;
      if r.now - ws[id].start >= WINDOW { JustExpired(prev, r, i); }
    } else if ts != [] {
      ExpiredStays(prev, r, Solo(ts).start);
    }
    if r.id == id {
      OwnChargeAgrees(prev, r);
      assert reqs[|prev|].id == id && reqs[|prev|].now == r.now;
    }
  }

  lemma {:induction false} SharedAgreesWithSolo(reqs: seq<Request>, id: PeerId)
    requires NoRewind(Clock(reqs))
    ensures Agrees(reqs, id)
  {
    if reqs == [] {
    } else {
      var n := |reqs| - 1;
      assert reqs[..n] + [reqs[n]] == reqs;
      NoRewindPrefix(reqs);
      SharedAgreesWithSolo(reqs[..n], id);
      AgreesStep(reqs[..n], reqs[n], id);
    }
  }

  lemma ChargedMatchesSolo(prev: seq<Request>, r: Request)
    requires NoRewind(Clock(prev + [r]))
    ensures Times(prev + [r], r.id) != [] && Charged(Windows(prev), r) == Solo(Times(prev + [r], r.id))
  {
    var reqs := prev + [r];
    assert reqs[..|prev|] == prev;
    SharedAgreesWithSolo(reqs, r.id);
  }

  lemma NoInterferenceAt(reqs: seq<Request>, k: nat)
    requires NoRewind(Clock(reqs)) && k < |reqs|
    ensures CountedAlone(reqs, k)
  {
    assert reqs[..k] + [reqs[k]] == reqs[..k + 1];
    assert Clock(reqs[..k + 1]) == Clock(reqs)[..k + 1];
    ChargedMatchesSolo(reqs[..k], reqs[k]);
  }

  lemma NoInterference(reqs: seq<Request>)
    requires NoRewind(Clock(reqs))
    ensures Independent(reqs)
  {
    forall k | 0 <= k < |reqs| ensures CountedAlone(reqs, k) { NoInterferenceAt(reqs, k); }
  }

  /** One peer calls at i and k only; everyone else's calls are another peer's. */
  function RewindRun(ts: seq<int>, i: nat, k: nat, one: PeerId, other: PeerId): (reqs: seq<Request>)
    ensures |reqs| == |ts|
    ensures forall m :: 0 <= m < |ts| ==> reqs[m] == Request(if m == i || m == k then one else other, ts[m])
  {
    seq(|ts|, m requires 0 <= m < |ts| => Request(if m == i || m == k then one else other, ts[m]))
  }

  /** After every call each stored window was started by its own peer within the last window's length. */
  lemma {:induction false} StoredWindowsAreRecent(reqs: seq<Request>, id: PeerId)
    requires reqs != [] && id in Windows(reqs)
    ensures exists i :: 0 <= i < |reqs| && reqs[i].id == id && reqs[i].now == Windows(reqs)[id].start
                        && reqs[|reqs| - 1].now - reqs[i].now < WINDOW
  {
    var n := |reqs| - 1;
    if Windows(reqs)[id].start == reqs[n].now && reqs[n].id == id {
    } else {
      assert id in Windows(reqs[..n]);
      StoredWindowsAreRecent(reqs[..n], id);
      var i :| 0 <= i < n && reqs[..n][i].id == id && reqs[..n][i].now == Windows(reqs[..n])[id].start;
      assert reqs[i].id == id && reqs[i].now == Windows(reqs)[id].start;
    }
  }

  /** Request j is the last one before request k that the same peer made. */
  predicate PreviousOwn(reqs: seq<Request>, j: nat, k: nat) {
    j < k < |reqs| && reqs[j].id == reqs[k].id && forall m :: j < m < k ==> reqs[m].id != reqs[k].id
  }

  /** Between a peer's requests its window only stays or goes. */
  lemma {:induction false} WindowSince(reqs: seq<Request>, j: nat, k: nat)
    requires j < k <= |reqs| && forall m :: j < m < k ==> reqs[m].id != reqs[j].id
    ensures var ws := Windows(reqs[..k]); reqs[j].id in ws ==> ws[reqs[j].id] == ChargedAt(reqs, j)
  {
    assert reqs[..k][..k - 1] == reqs[..k - 1];
    if k - 1 > j {
      WindowSince(reqs, j, k - 1);
    }
  }

  lemma {:induction false} NoWindowYet(reqs: seq<Request>, k: nat, id: PeerId)
    requires k <= |reqs| && forall m :: 0 <= m < k ==> reqs[m].id != id
    ensures id !in Windows(reqs[..k])
  {
    if k == 0 {
    } else {
      NoWindowYet(reqs, k - 1, id);
      assert reqs[..k][..k - 1] == reqs[..k - 1];
    }
  }

  lemma {:induction false} StoredIsCounted(reqs: seq<Request>, id: PeerId)
    ensures id in Windows(reqs) ==> Windows(reqs)[id].count > 0
  {
    if reqs == [] {
    } else {
      StoredIsCounted(reqs[..|reqs| - 1], id);
    }
  }

  /** On any clock: the flag is raised exactly on a rejection that no other of the same peer came right before. */
  lemma FlagOnFirstRejection(reqs: seq<Request>, j: nat, k: nat)
    requires PreviousOwn(reqs, j, k)
    ensures FirstRejection(ChargedAt(reqs, k)) <==> !Granted(ChargedAt(reqs, k)) && Granted(ChargedAt(reqs, j))
  {
    WindowSince(reqs, j, k);
    StoredIsCounted(reqs[..j], reqs[j].id);
  }

  /** A peer's very first request is granted. */
  lemma FirstIsGranted(reqs: seq<Request>, k: nat)
    requires k < |reqs| && forall m :: 0 <= m < k ==> reqs[m].id != reqs[k].id
    ensures Granted(ChargedAt(reqs, k)) && !FirstRejection(ChargedAt(reqs, k))
  {
    NoWindowYet(reqs, k, reqs[k].id);
  }

  function Calls(reqs: seq<Request>, id: PeerId): nat {
    if reqs == [] then 0 else Calls(reqs[..|reqs| - 1], id) + if reqs[|reqs| - 1].id == id then 1 else 0
  }

  /** Request i opened a window of its peer that is still open after all the later ones. */
  predicate OpenSince(reqs: seq<Request>, i: nat) {
    i < |reqs| && forall j :: i < j < |reqs| ==> reqs[j].now - reqs[i].now < WINDOW
  }

  /** A stored window was opened by one of its peer's requests, has not expired since, and counts the peer's requests
      from that one on. */
  lemma {:induction false} WindowHistory(reqs: seq<Request>, id: PeerId) returns (i: nat)
    requires id in Windows(reqs)
    ensures OpenSince(reqs, i) && reqs[i] == Request(id, Windows(reqs)[id].start)
    ensures Windows(reqs)[id].count == Calls(reqs[i..], id)
  {
    var n := |reqs| - 1;
    var prev, r := reqs[..n], reqs[n];
    if id in Live(Windows(prev), r.now) {
      i := WindowHistory(prev, id);
      StoredIsCounted(prev, id);
      assert reqs[i..][..n - i] == prev[i..];
      assert reqs[i] == prev[i];
    } else {
      i := n;
      assert reqs[n..] == [r] && [r][..0] == [];
    }
  }

  /** On any clock, request k is rejected exactly if more than 512 of its peer's requests, itself included, were made
      since one that opened a window not expired since, and flagged exactly if they are 513. */
  lemma RejectedByCount(reqs: seq<Request>, k: nat) returns (i: nat)
    requires k < |reqs|
    ensures i <= k && OpenSince(reqs[..k + 1], i)
    ensures reqs[i] == Request(reqs[k].id, ChargedAt(reqs, k).start)
    ensures Granted(ChargedAt(reqs, k)) <==> Calls(reqs[i..k + 1], reqs[k].id) <= 512
    ensures FirstRejection(ChargedAt(reqs, k)) <==> Calls(reqs[i..k + 1], reqs[k].id) == 513
  {
    var upTo := reqs[..k + 1];
    assert upTo[..k] == reqs[..k];
    i := WindowHistory(upTo, reqs[k].id);
    assert upTo[i..] == reqs[i..k + 1];
  }

  /** Peer id calls at i and never again. */
  predicate CallsOnceAt(reqs: seq<Request>, i: nat, id: PeerId) {
    forall m :: 0 <= m < |reqs| ==> (reqs[m].id == id <==> m == i)
  }

  lemma {:induction false} OneCallTimes(reqs: seq<Request>, i: nat, id: PeerId)
    requires CallsOnceAt(reqs, i, id)
    ensures Times(reqs, id) == if |reqs| <= i then [] else [reqs[i].now]
  {
    if reqs == [] {
    } else {
      OneCallTimes(reqs[..|reqs| - 1], i, id);
    }
  }

  /** The window of the call at i is gone once the call at j has expired it. */
  lemma {:induction false} GoneAfter(reqs: seq<Request>, i: nat, j: nat, id: PeerId)
    requires i < j < |reqs| && CallsOnceAt(reqs, i, id) && reqs[j].now - reqs[i].now >= WINDOW
    ensures id !in Windows(reqs)
  {
    if j == |reqs| - 1 {
      if id in Windows(reqs) { StoredWindowsAreRecent(reqs, id); }
    } else {
      GoneAfter(reqs[..|reqs| - 1], i, j, id);
    }
  }

  lemma SecondCall(first: int, second: int)
    requires second - first < WINDOW
    ensures Solo([first, second]).count == 2
  {
    assert [first, second][..1] == [first];
    assert Solo([first]) == Window(first, 1);
  }

  lemma RewindInterferes(ts: seq<int>, i: nat, j: nat, k: nat, one: PeerId, other: PeerId)
    requires i < j < k < |ts| && ts[j] - ts[i] >= WINDOW && ts[k] - ts[i] < WINDOW && one != other
    ensures !Independent(RewindRun(ts, i, k, one, other))
  {
    var reqs := RewindRun(ts, i, k, one, other);
    var prev := reqs[..k];
    GoneAfter(prev, i, j, one);
    assert ChargedAt(reqs, k) == Window(ts[k], 1);
    OneCallTimes(prev, i, one);
    assert reqs[..k + 1] == prev + [reqs[k]];
    TimesMore(prev, reqs[k], one);
    SecondCall(ts[i], ts[k]);
    assert Times(reqs[..k + 1], one) == [ts[i], ts[k]];
    assert !CountedAlone(reqs, k);
  }

  predicate OnlyFrom(reqs: seq<Request>, ids: set<PeerId>) {
    forall k :: 0 <= k < |reqs| ==> reqs[k].id in ids
  }

  /** On clock readings that never step back into an expired window, pruning by everyone's calls leaves every peer's
      budget alone, whoever makes which call; on any others it does not, whichever two peers make the calls. */
  lemma NonInterference(ts: seq<int>, one: PeerId, other: PeerId)
    requires one != other
    ensures NoRewind(ts) ==> forall reqs: seq<Request> | Clock(reqs) == ts :: Independent(reqs)
    ensures NoRewind(ts) <==>
              forall reqs: seq<Request> | Clock(reqs) == ts && OnlyFrom(reqs, {one, other}) :: Independent(reqs)
  {
    if NoRewind(ts) {
      forall reqs: seq<Request> | Clock(reqs) == ts ensures Independent(reqs) { NoInterference(reqs); }
    } else {
      var i, j, k :| 0 <= i < j < k < |ts| && ts[j] - ts[i] >= WINDOW && ts[k] - ts[i] < WINDOW;
      var reqs := RewindRun(ts, i, k, one, other);
      assert Clock(reqs) == ts && OnlyFrom(reqs, {one, other});
      RewindInterferes(ts, i, j, k, one, other);
    }
  }

  // ----- the sliding bound

  function InSpan(t: int, lo: int): int { if lo <= t < lo + WINDOW then 1 else 0 }

  /** How many of one peer's requests its automaton grants in [lo, lo + WINDOW). */
  function SoloGrants(ts: seq<int>, lo: int): int {
    if ts == [] then 0
    else SoloGrants(ts[..|ts| - 1], lo) + if Granted(Solo(ts)) then InSpan(ts[|ts| - 1], lo) else 0
  }

  /** How many requests of peer id the shared limiter grants in [lo, lo + WINDOW). */
  function Grants(reqs: seq<Request>, id: PeerId, lo: int): int {
    if reqs == [] then 0
    else
      var n := |reqs| - 1;
      Grants(reqs[..n], id, lo) +
      if reqs[n].id == id && Granted(Charged(Windows(reqs[..n]), reqs[n])) then InSpan(reqs[n].now, lo) else 0
  }

  lemma {:induction false} GrantsAreSolo(reqs: seq<Request>, id: PeerId, lo: int)
    requires NoRewind(Clock(reqs))
    ensures Grants(reqs, id, lo) == SoloGrants(Times(reqs, id), lo)
  {
    if reqs == [] {
    } else {
      var n := |reqs| - 1;
      assert Clock(reqs[..n]) == Clock(reqs)[..n];
      GrantsAreSolo(reqs[..n], id, lo);
      if reqs[n].id == id {
        assert reqs[..n] + [reqs[n]] == reqs;
        ChargedMatchesSolo(reqs[..n], reqs[n]);
        var ts := Times(reqs, id);
        assert ts[..|ts| - 1] == Times(reqs[..n], id);
      } else {
        assert Times(reqs, id) == Times(reqs[..n], id);
      }
    }
  }

  function Spent(w: Window): int { if w.count <= BUDGET then w.count else BUDGET }

  /** Once a window has been expired, the clock never comes back within a window's length of its start. */
  predicate NoReturn(ts: seq<int>) {
    forall i, j, k :: 0 <= i < j < k < |ts| && ts[j] - ts[i] >= WINDOW ==> !(-WINDOW < ts[k] - ts[i] < WINDOW)
  }

  /** The starts of the windows of peer id that were pruned. */
  function Ended(reqs: seq<Request>, id: PeerId): set<int> {
    if reqs == [] then {}
    else
      var prev, r := reqs[..|reqs| - 1], reqs[|reqs| - 1];
      var ws := Windows(prev);
      Ended(prev, id) + if id in ws && r.now - ws[id].start >= WINDOW then {ws[id].start} else {}
  }

  predicate Near(starts: set<int>, lo: int) { exists s :: s in starts && lo - WINDOW < s < lo }

  /** No reading in [lo, lo + WINDOW) has been expired. */
  predicate SpanOpen(reqs: seq<Request>, lo: int) {
    forall k :: 0 <= k < |reqs| && lo <= reqs[k].now < lo + WINDOW ==> !Expired(reqs, reqs[k].now)
  }

  predicate HasReading(reqs: seq<Request>, t: int) { exists k :: 0 <= k < |reqs| && reqs[k].now == t }

  predicate HasReadingInSpan(reqs: seq<Request>, lo: int) {
    exists k :: 0 <= k < |reqs| && lo <= reqs[k].now < lo + WINDOW
  }

  /** What the open window of a peer may have been granted since lo. */
  function OpenShare(ws: map<PeerId, Window>, id: PeerId, lo: int): int {
    if id !in ws || ws[id].start + WINDOW <= lo then 0
    else if ws[id].start < lo then Spent(ws[id]) - 1
    else Spent(ws[id])
  }

  /** Pruned windows were expired, the open one started at a reading away from them, and grants need readings. */
  predicate WindowsSound(reqs: seq<Request>, id: PeerId, lo: int) {
    var ws := Windows(reqs);
    && (forall s :: s in Ended(reqs, id) ==> Expired(reqs, s))
    && (id in ws ==> ws[id].count > 0 && HasReading(reqs, ws[id].start))
    && (id in ws ==> forall s :: s in Ended(reqs, id) ==> !(-WINDOW < ws[id].start - s < WINDOW))
    && 0 <= Grants(reqs, id, lo) && (Grants(reqs, id, lo) > 0 ==> HasReadingInSpan(reqs, lo))
  }

  /** While the span is open, at most one pruned window has grants in it, and its own start lies before the span. */
  predicate SharesBound(reqs: seq<Request>, id: PeerId, lo: int) {
    && Grants(reqs, id, lo) <= 2 * BUDGET - 1
    && (SpanOpen(reqs, lo) ==>
          Grants(reqs, id, lo) <=
          (if Near(Ended(reqs, id), lo) then BUDGET - 1 else 0) + OpenShare(Windows(reqs), id, lo))
  }

  lemma RequestMore(prev: seq<Request>, r: Request, id: PeerId, lo: int)
    ensures var reqs, ws := prev + [r], Windows(prev);
            && Windows(reqs) == After(ws, r)
            && Ended(reqs, id) ==
               Ended(prev, id) + (if id in ws && r.now - ws[id].start >= WINDOW then {ws[id].start} else {})
            && Grants(reqs, id, lo) ==
               Grants(prev, id, lo) + if r.id == id && Granted(Charged(ws, r)) then InSpan(r.now, lo) else 0
  {
    assert (prev + [r])[..|prev|] == prev;
  }

  lemma ExpiredMore(prev: seq<Request>, r: Request, s: int)
    requires Expired(prev, s)
    ensures Expired(prev + [r], s)
  {
    var reqs := prev + [r];
    var i, j :| 0 <= i < j < |prev| && prev[i].now == s && prev[j].now - s >= WINDOW;
    assert reqs[i].now == s && reqs[j].now - s >= WINDOW;
  }

  lemma ExpiredNow(prev: seq<Request>, r: Request, s: int)
    requires HasReading(prev, s) && r.now - s >= WINDOW
    ensures Expired(prev + [r], s)
  {
    var i :| 0 <= i < |prev| && prev[i].now == s;
    JustExpired(prev, r, i);
  }

  /** No reading returns to an expired one. */
  lemma StaysAway(prev: seq<Request>, r: Request, s: int)
    requires NoReturn(Clock(prev + [r])) && Expired(prev, s)
    ensures !(-WINDOW < r.now - s < WINDOW)
  {
    var i, j :| 0 <= i < j < |prev| && prev[i].now == s && prev[j].now - s >= WINDOW;
    var ts := Clock(prev + [r]);
    assert ts[i] == s && ts[j] - s >= WINDOW && ts[|prev|] == r.now;
  }

  lemma ReadingMore(prev: seq<Request>, r: Request)
    ensures forall t :: HasReading(prev, t) ==> HasReading(prev + [r], t)
    ensures HasReading(prev + [r], r.now)
    ensures forall lo :: HasReadingInSpan(prev, lo) || lo <= r.now < lo + WINDOW ==> HasReadingInSpan(prev + [r], lo)
  {
    var reqs := prev + [r];
    assert reqs[|prev|] == r;
    forall t | HasReading(prev, t) ensures HasReading(reqs, t) {
      var k :| 0 <= k < |prev| && prev[k].now == t;
      assert reqs[k].now == t;
    }
    forall lo | HasReadingInSpan(prev, lo) ensures HasReadingInSpan(reqs, lo) {
      var k :| 0 <= k < |prev| && lo <= prev[k].now < lo + WINDOW;
      assert reqs[k] == prev[k];
    }
  }

  lemma EndedStep(prev: seq<Request>, r: Request, id: PeerId, lo: int)
    requires WindowsSound(prev, id, lo)
    ensures forall s :: s in Ended(prev + [r], id) ==> Expired(prev + [r], s)
  {
    RequestMore(prev, r, id, lo);
    forall s | s in Ended(prev + [r], id) ensures Expired(prev + [r], s) {
      if s in Ended(prev, id) { ExpiredMore(prev, r, s); } else { ExpiredNow(prev, r, s); }
    }
  }

  lemma OwnReading(prev: seq<Request>, r: Request, lo: int)
    requires WindowsSound(prev, r.id, lo)
    ensures var w := Charged(Windows(prev), r); w.count > 0 && HasReading(prev + [r], w.start)
  {
    ReadingMore(prev, r);
  }

  lemma OwnAway(prev: seq<Request>, r: Request, lo: int, s: int)
    requires NoReturn(Clock(prev + [r])) && WindowsSound(prev, r.id, lo) && s in Ended(prev + [r], r.id)
    ensures !(-WINDOW < Charged(Windows(prev), r).start - s < WINDOW)
  {
    RequestMore(prev, r, r.id, lo);
    if s in Ended(prev, r.id) { StaysAway(prev, r, s); }
  }

  lemma OwnOpenStep(prev: seq<Request>, r: Request, lo: int)
    requires NoReturn(Clock(prev + [r])) && WindowsSound(prev, r.id, lo)
    ensures var w := Charged(Windows(prev), r);
            w.count > 0 && HasReading(prev + [r], w.start)
    ensures var reqs, w := prev + [r], Charged(Windows(prev), r);
            forall s :: s in Ended(reqs, r.id) ==> !(-WINDOW < w.start - s < WINDOW)
  {
    OwnReading(prev, r, lo);
    forall s | s in Ended(prev + [r], r.id) ensures !(-WINDOW < Charged(Windows(prev), r).start - s < WINDOW) {
      OwnAway(prev, r, lo, s);
    }
  }

  lemma OpenStep(prev: seq<Request>, r: Request, id: PeerId, lo: int)
    requires NoReturn(Clock(prev + [r])) && WindowsSound(prev, id, lo) && id in Windows(prev + [r])
    ensures var reqs, w := prev + [r], Windows(prev + [r])[id];
            && w.count > 0 && HasReading(reqs, w.start)
            && forall s :: s in Ended(reqs, id) ==> !(-WINDOW < w.start - s < WINDOW)
  {
    RequestMore(prev, r, id, lo);
    if r.id == id { OwnOpenStep(prev, r, lo); } else { ReadingMore(prev, r); }
  }

  lemma SoundStep(prev: seq<Request>, r: Request, id: PeerId, lo: int)
    requires NoReturn(Clock(prev + [r])) && WindowsSound(prev, id, lo)
    ensures WindowsSound(prev + [r], id, lo)
  {
    EndedStep(prev, r, id, lo);
    if id in Windows(prev + [r]) { OpenStep(prev, r, id, lo); }
    RequestMore(prev, r, id, lo);
    ReadingMore(prev, r);
  }

  /** Once a reading in the span has been expired, no later one is in it. */
  lemma ClosedStaysClosed(prev: seq<Request>, r: Request, lo: int)
    requires NoReturn(Clock(prev + [r])) && !SpanOpen(prev + [r], lo)
    ensures InSpan(r.now, lo) == 0
  {
    var reqs, n := prev + [r], |prev|;
    var k :| 0 <= k <= n && lo <= reqs[k].now < lo + WINDOW && Expired(reqs, reqs[k].now);
    var i, j :| 0 <= i < j <= n && reqs[i].now == reqs[k].now && reqs[j].now - reqs[k].now >= WINDOW;
    if j < n {
      assert Clock(reqs)[j] - Clock(reqs)[i] >= WINDOW && Clock(reqs)[n] == r.now;
    }
  }

  lemma OpenBefore(prev: seq<Request>, r: Request, lo: int)
    requires SpanOpen(prev + [r], lo)
    ensures SpanOpen(prev, lo)
    ensures forall k :: 0 <= k < |prev| && lo <= prev[k].now < lo + WINDOW ==> r.now - prev[k].now < WINDOW
  {
    var reqs := prev + [r];
    forall k | 0 <= k < |prev| && lo <= prev[k].now < lo + WINDOW
      ensures !Expired(prev, prev[k].now) && r.now - prev[k].now < WINDOW
    {
      assert reqs[k] == prev[k];
      if Expired(prev, prev[k].now) { ExpiredMore(prev, r, prev[k].now); }
      if r.now - prev[k].now >= WINDOW { JustExpired(prev, r, k); }
    }
  }

  lemma NearMore(starts: set<int>, start: int, lo: int)
    ensures Near(starts + {start}, lo) <==> Near(starts, lo) || lo - WINDOW < start < lo
  {
    if Near(starts, lo) {
      var s :| s in starts && lo - WINDOW < s < lo;
      assert s in starts + {start};
    }
    if lo - WINDOW < start < lo { assert start in starts + {start}; }
  }

  /** A reading that expires while the span stays open lies outside it, and beyond it only if nothing is in the span. */
  lemma PrunedOutside(prev: seq<Request>, r: Request, start: int, lo: int)
    requires SpanOpen(prev + [r], lo) && HasReading(prev, start) && r.now - start >= WINDOW
    ensures !(lo <= start < lo + WINDOW) && (start >= lo + WINDOW ==> !HasReadingInSpan(prev, lo))
  {
    OpenBefore(prev, r, lo);
    var k :| 0 <= k < |prev| && prev[k].now == start;
  }

  /** While the span stays open, pruning a window leaves at most the share of one pruned window. */
  lemma PrunedShare(prev: seq<Request>, r: Request, id: PeerId, lo: int)
    requires NoReturn(Clock(prev + [r])) && WindowsSound(prev, id, lo) && SharesBound(prev, id, lo)
    requires SpanOpen(prev + [r], lo) && id in Windows(prev) && r.now - Windows(prev)[id].start >= WINDOW
    ensures Grants(prev, id, lo) <= if Near(Ended(prev + [r], id), lo) then BUDGET - 1 else 0
  {
    var start, ended := Windows(prev)[id].start, Ended(prev, id);
    OpenBefore(prev, r, lo);
    RequestMore(prev, r, id, lo);
    assert Ended(prev + [r], id) == ended + {start};
    NearMore(ended, start, lo);
    PrunedOutside(prev, r, start, lo);
    if lo - WINDOW < start < lo {
      assert !Near(ended, lo);
    }
  }

  lemma SharesStep(prev: seq<Request>, r: Request, id: PeerId, lo: int)
    requires NoReturn(Clock(prev + [r])) && WindowsSound(prev, id, lo) && SharesBound(prev, id, lo)
    ensures SharesBound(prev + [r], id, lo)
  {
    var reqs, ws := prev + [r], Windows(prev);
    RequestMore(prev, r, id, lo);
    if SpanOpen(reqs, lo) {
      OpenBefore(prev, r, lo);
      if id in ws && r.now - ws[id].start >= WINDOW {
        PrunedShare(prev, r, id, lo);
      } else {
        assert Ended(reqs, id) == Ended(prev, id);
      }
    } else {
      ClosedStaysClosed(prev, r, lo);
    }
  }

  lemma NoReturnInit(ts: seq<int>)
    requires NoReturn(ts) && ts != []
    ensures NoReturn(ts[..|ts| - 1])
  {
  }

  lemma {:induction false} SharesOverRuns(reqs: seq<Request>, id: PeerId, lo: int)
    requires NoReturn(Clock(reqs))
    ensures WindowsSound(reqs, id, lo) && SharesBound(reqs, id, lo)
  {
    if reqs == [] {
    } else {
      var n := |reqs| - 1;
      NoReturnInit(Clock(reqs));
      assert Clock(reqs[..n]) == Clock(reqs)[..n];
      SharesOverRuns(reqs[..n], id, lo);
      assert reqs[..n] + [reqs[n]] == reqs;
      SoundStep(reqs[..n], reqs[n], id, lo);
      SharesStep(reqs[..n], reqs[n], id, lo);
    }
  }

  /** No peer, whatever the others do, is granted 2 * BUDGET requests within one window's length. */
  lemma SlidingBound(reqs: seq<Request>, id: PeerId, lo: int)
    requires NoReturn(Clock(reqs))
    ensures Grants(reqs, id, lo) <= 2 * BUDGET - 1 == 1023 && WINDOW == 60_000_000_000
  {
    SharesOverRuns(reqs, id, lo);
  }

  /** A clock that never steps back into an expired window never returns to one, and one that never falls does
      neither. */
  lemma NoRewindNoReturn(ts: seq<int>)
    ensures NoRewind(ts) ==> NoReturn(ts)
    ensures Nondecreasing(ts) ==> NoRewind(ts)
  {
  }

  // ----- one peer alone

  /** One peer's requests at the given times. */
  function Alone(ts: seq<int>, id: PeerId): (reqs: seq<Request>)
    ensures Clock(reqs) == ts && forall k :: 0 <= k < |reqs| ==> reqs[k].id == id
  {
    seq(|ts|, k requires 0 <= k < |ts| => Request(id, ts[k]))
  }

  /** A peer that is alone runs its own automaton, on any clock. */
  lemma {:induction false} AloneIsSolo(reqs: seq<Request>, id: PeerId, lo: int)
    requires OnlyFrom(reqs, {id})
    ensures Windows(reqs) == if reqs == [] then map[] else map[id := Solo(Clock(reqs))]
    ensures Grants(reqs, id, lo) == SoloGrants(Clock(reqs), lo)
    ensures reqs != [] ==> Solo(Clock(reqs)).count > 0
  {
    if reqs == [] {
    } else {
      var n := |reqs| - 1;
      assert Clock(reqs[..n]) == Clock(reqs)[..n];
      AloneIsSolo(reqs[..n], id, lo);
    }
  }

  /** The bound for the automaton of one peer. */
  lemma SoloSlidingBound(ts: seq<int>, lo: int)
    requires NoReturn(ts)
    ensures SoloGrants(ts, lo) <= 2 * BUDGET - 1
  {
    var reqs := Alone(ts, []);
    SlidingBound(reqs, [], lo);
    AloneIsSolo(reqs, [], lo);
  }

  // ----- the bound is attained

  lemma SoloNext(ts: seq<int>, now: int, lo: int)
    requires ts != []
    ensures var w := Solo(ts);
            && Solo(ts + [now]) == (if now - w.start < WINDOW then Window(w.start, w.count + 1) else Window(now, 1))
            && SoloGrants(ts + [now], lo) ==
               SoloGrants(ts, lo) + if Granted(Solo(ts + [now])) then InSpan(now, lo) else 0
  {
    assert (ts + [now])[..|ts|] == ts;
  }

  /** A burst inside an open window counts on from it and is granted while the budget lasts. */
  lemma {:induction false} BurstGrants(ts: seq<int>, now: int, n: nat, lo: int)
    requires ts != [] && lo <= now < lo + WINDOW && now - Solo(ts).start < WINDOW && Solo(ts).count <= BUDGET - n
    ensures SoloGrants(ts + Repeat(now, n), lo) == SoloGrants(ts, lo) + n
    ensures Solo(ts + Repeat(now, n)) == Window(Solo(ts).start, Solo(ts).count + n)
  {
    if n == 0 {
      assert ts + Repeat(now, 0) == ts;
    } else {
      BurstGrants(ts, now, n - 1, lo);
      assert ts + Repeat(now, n) == ts + Repeat(now, n - 1) + [now];
      SoloNext(ts + Repeat(now, n - 1), now, lo);
    }
  }

  /** One request, n - 1 just before its window ends, and n as soon as it has ended. */
  function FullestTimes(n: nat): (ts: seq<int>)
    requires n > 0
    ensures Nondecreasing(ts)
  {
    [0] + Repeat(WINDOW - 1, n - 1) + Repeat(WINDOW, n)
  }

  lemma FullestGrants(n: nat)
    requires 1 < n <= BUDGET
    ensures SoloGrants(FullestTimes(n), WINDOW - 1) == 2 * n - 1
  {
    var lo := WINDOW - 1;
    var a := [0];
    var b := a + Repeat(lo, n - 1);
    assert a[..0] == [];
    assert Solo(a) == Window(0, 1) && SoloGrants(a, lo) == 0;
    BurstGrants(a, lo, n - 1, lo);
    SoloNext(b, WINDOW, lo);
    BurstGrants(b + [WINDOW], WINDOW, n - 1, lo);
    assert b + [WINDOW] + Repeat(WINDOW, n - 1) == FullestTimes(n);
  }

  /** Any peer can reach the bound, on a clock that never falls. */
  lemma SlidingBoundAttained(id: PeerId)
    ensures exists reqs: seq<Request>, lo: int ::
      Nondecreasing(Clock(reqs)) && NoRewind(Clock(reqs)) && OnlyFrom(reqs, {id}) && Grants(reqs, id, lo) == 1023
  {
    var reqs := Alone(FullestTimes(BUDGET), id);
    FullestGrants(BUDGET);
    NoRewindNoReturn(Clock(reqs));
    AloneIsSolo(reqs, id, WINDOW - 1);
  }

  // ----- exactly the clocks that keep to the bound

  /** at says which reading each request is made at. */
  predicate DrawnAt(reqs: seq<Request>, ts: seq<int>, at: seq<nat>) {
    && |at| == |reqs|
    && (forall m :: 0 <= m < |at| ==> at[m] < |ts| && reqs[m].now == ts[at[m]])
    && forall m, n :: 0 <= m < n < |at| ==> at[m] <= at[n]
  }

  /** The requests are made at readings of ts, in order, any number of them at each. */
  ghost predicate Drawn(reqs: seq<Request>, ts: seq<int>) { exists at :: DrawnAt(reqs, ts, at) }

  lemma DrawnNoReturn(reqs: seq<Request>, ts: seq<int>)
    requires NoReturn(ts) && Drawn(reqs, ts)
    ensures NoReturn(Clock(reqs))
  {
    var at :| DrawnAt(reqs, ts, at);
    forall i, j, k | 0 <= i < j < k < |reqs| && Clock(reqs)[j] - Clock(reqs)[i] >= WINDOW
      ensures !(-WINDOW < Clock(reqs)[k] - Clock(reqs)[i] < WINDOW)
    {
      assert ts[at[j]] - ts[at[i]] >= WINDOW && at[i] < at[j] <= at[k];
      if at[j] < at[k] { assert !(-WINDOW < ts[at[k]] - ts[at[i]] < WINDOW); }
    }
  }

  /** n requests of a peer that has no window, all at one reading, are granted while the budget lasts. */
  lemma {:induction false} FreshBurst(prev: seq<Request>, r: Request, n: nat, lo: int)
    requires r.id !in Live(Windows(prev), r.now) && n <= BUDGET && InSpan(r.now, lo) == 1
    ensures var reqs := prev + Repeat(r, n);
            && Grants(reqs, r.id, lo) == Grants(prev, r.id, lo) + n
            && (n > 0 ==> r.id in Windows(reqs) && Windows(reqs)[r.id] == Window(r.now, n))
            && (n == 0 ==> Windows(reqs) == Windows(prev))
  {
    if n == 0 {
      assert prev + Repeat(r, 0) == prev;
    } else {
      FreshBurst(prev, r, n - 1, lo);
      assert prev + Repeat(r, n) == prev + Repeat(r, n - 1) + [r];
      RequestMore(prev + Repeat(r, n - 1), r, r.id, lo);
    }
  }

  /** A full budget of one peer at an expired reading and again on the return to it, with another peer's call
      between. */
  function ReturnRun(ts: seq<int>, i: nat, j: nat, k: nat, one: PeerId, other: PeerId): seq<Request>
    requires i < j < k < |ts|
  {
    Repeat(Request(one, ts[i]), BUDGET) + [Request(other, ts[j])] + Repeat(Request(one, ts[k]), BUDGET)
  }

  lemma ReturnIsDrawn(ts: seq<int>, i: nat, j: nat, k: nat, one: PeerId, other: PeerId)
    requires i < j < k < |ts|
    ensures Drawn(ReturnRun(ts, i, j, k, one, other), ts)
    ensures OnlyFrom(ReturnRun(ts, i, j, k, one, other), {one, other})
  {
    var at: seq<nat> := Repeat(i, BUDGET) + [j] + Repeat(k, BUDGET);
    assert DrawnAt(ReturnRun(ts, i, j, k, one, other), ts, at);
  }

  /** A return to within a window's length of an expired reading lets a peer exceed the bound. */
  lemma ReturnExceedsBound(ts: seq<int>, i: nat, j: nat, k: nat, one: PeerId, other: PeerId)
    requires i < j < k < |ts| && one != other && ts[j] - ts[i] >= WINDOW && -WINDOW < ts[k] - ts[i] < WINDOW
    ensures exists lo :: Grants(ReturnRun(ts, i, j, k, one, other), one, lo) == 2 * BUDGET
  {
    var lo := if ts[i] < ts[k] then ts[i] else ts[k];
    var first, again := Request(one, ts[i]), Request(one, ts[k]);
    var burst := Repeat(first, BUDGET);
    assert [] + burst == burst;
    FreshBurst([], first, BUDGET, lo);
    RequestMore(burst, Request(other, ts[j]), one, lo);
    var between := burst + [Request(other, ts[j])];
    assert Grants(between, one, lo) == BUDGET;
    FreshBurst(between, again, BUDGET, lo);
    assert between + Repeat(again, BUDGET) == ReturnRun(ts, i, j, k, one, other);
  }

  /** Any two peers keep to the bound, whatever requests they make at the given readings, exactly if the clock never
      returns to within a window's length of a reading that it has expired; and then so does everyone else. */
  lemma SlidingBoundExact(ts: seq<int>, one: PeerId, other: PeerId)
    requires one != other
    ensures NoRewind(ts) ==> NoReturn(ts)
    ensures NoReturn(ts) ==> forall reqs, id, lo :: Drawn(reqs, ts) ==> Grants(reqs, id, lo) <= 1023
    ensures NoReturn(ts) <==>
              forall reqs, lo :: Drawn(reqs, ts) && OnlyFrom(reqs, {one, other}) ==> Grants(reqs, one, lo) <= 1023
  {
    NoRewindNoReturn(ts);
    if NoReturn(ts) {
      forall reqs, id, lo | Drawn(reqs, ts) ensures Grants(reqs, id, lo) <= 1023 {
        DrawnNoReturn(reqs, ts);
        SlidingBound(reqs, id, lo);
      }
    } else {
      var i, j, k :| 0 <= i < j < k < |ts| && ts[j] - ts[i] >= WINDOW && -WINDOW < ts[k] - ts[i] < WINDOW;
      ReturnIsDrawn(ts, i, j, k, one, other);
      ReturnExceedsBound(ts, i, j, k, one, other);
    }
  }
}
