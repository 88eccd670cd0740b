/** What the goroutines of the client get done: how a Subscribe and a Publish come by their topic, how a message gets
    through, how a Close gets to its end, and how often the discovery loop is woken. */
module SubscribeRuns {
  import opened Common
  import opened Runs
  import opened TopicMap
  import opened Lifecycle

  // ----- a join is refused only after a miss

  /** In step n reader i looks for its topic in the topic map and misses it. */
  predicate Misses(acts: seq<Action>, n: nat, i: nat) {
    && n < |acts| && acts[n] == Read(i, Lookup)
    && var s := Exec(INIT, acts[..n]);
       Enabled(s, Read(i, Lookup)) && s.readers[i].topic !in s.joins.stored
  }

  lemma MissingStep(s: State, a: Action, i: nat)
    requires i < |Step(s, a).readers| && Step(s, a).readers[i].stage.Missing?
    ensures i < |s.readers|
    ensures s.readers[i].stage.Missing?
            || (a == Read(i, Lookup) && Enabled(s, a) && s.readers[i].topic !in s.joins.stored)
  {
    if Enabled(s, a) && !TouchesReaders(a) { OthersLeaveReaders(s, a); }
  }

  lemma {:induction false} MissingHasMissed(acts: seq<Action>, i: nat) returns (n: nat)
    requires i < |Exec(INIT, acts).readers| && Exec(INIT, acts).readers[i].stage.Missing?
    ensures Misses(acts, n, i)
  {
    var last := |acts| - 1;
    var prev := Exec(INIT, acts[..last]);
    MissingStep(prev, acts[last], i);
    if prev.readers[i].stage.Missing? {
      n := MissingHasMissed(acts[..last], i);
      assert acts[..last][..n] == acts[..n];
    } else {
      n := last;
    }
  }

  /** A reader's join is refused only after it looked for the topic in the topic map and missed it; so a Subscribe to a
      topic that is in the map by then is never refused. */
  lemma RefusedAfterMiss(acts: seq<Action>, k: nat, i: nat) returns (n: nat)
    requires JoinRefused(acts, k, i)
    ensures n < k && Misses(acts, n, i)
  {
    n := MissingHasMissed(acts[..k], i);
    assert acts[..k][..n] == acts[..n];
  }

  predicate PubMisses(acts: seq<Action>, n: nat, i: nat) {
    && n < |acts| && acts[n] == Pub(i, PubLookup)
    && var s := Exec(INIT, acts[..n]);
       Enabled(s, Pub(i, PubLookup)) && s.publishers[i].topic !in s.joins.stored
  }

  /** In step k the library refuses publisher i the topic. */
  predicate PubRefused(acts: seq<Action>, k: nat, i: nat) {
    k < |acts| && acts[k] == Pub(i, PubTaken) && Enabled(Exec(INIT, acts[..k]), acts[k])
  }

  lemma ClosePublishersStay(s: State, k: nat, m: CloserMove)
    requires k < |s.closers| && CanClose(s, s.closers[k], m)
    ensures CloseStep(s, k, m).publishers == s.publishers
  {
  }

  lemma ReadPublishersStay(s: State, i: nat, m: Move)
    requires i < |s.readers| && CanMove(s, s.readers[i], m)
    ensures ReadStep(s, i, m).publishers == s.publishers
  {
  }

  lemma OthersLeavePublishers(s: State, a: Action)
    requires Enabled(s, a) && !a.Pub? && !a.Publish?
    ensures Apply(s, a).publishers == s.publishers
  {
    match a {
      case Close(k, m) => ClosePublishersStay(s, k, m);
      case Read(i, m) => ReadPublishersStay(s, i, m);
      case _ =>
    }
  }

  lemma PubMissingStep(s: State, a: Action, i: nat)
    requires i < |Step(s, a).publishers| && Step(s, a).publishers[i].PubMissing?
    ensures i < |s.publishers|
    ensures s.publishers[i].PubMissing?
            || (a == Pub(i, PubLookup) && Enabled(s, a) && s.publishers[i].topic !in s.joins.stored)
  {
    if Enabled(s, a) && !a.Pub? && !a.Publish? { OthersLeavePublishers(s, a); }
  }

  lemma {:induction false} PubMissingHasMissed(acts: seq<Action>, i: nat) returns (n: nat)
    requires i < |Exec(INIT, acts).publishers| && Exec(INIT, acts).publishers[i].PubMissing?
    ensures PubMisses(acts, n, i)
  {
    var last := |acts| - 1;
    var prev := Exec(INIT, acts[..last]);
    PubMissingStep(prev, acts[last], i);
    if prev.publishers[i].PubMissing? {
      n := PubMissingHasMissed(acts[..last], i);
      assert acts[..last][..n] == acts[..n];
    } else {
      n := last;
    }
  }

  /** The same of a Publish. */
  lemma PublishRefusedAfterMiss(acts: seq<Action>, k: nat, i: nat) returns (n: nat)
    requires PubRefused(acts, k, i)
    ensures n < k && PubMisses(acts, n, i)
  {
    n := PubMissingHasMissed(acts[..k], i);
    assert acts[..k][..n] == acts[..n];
  }

  /** And it is refused exactly when somebody holds the topic by then. */
  lemma PublishRefusedWhenHeld(acts: seq<Action>, i: nat)
    requires var s := Exec(INIT, acts); i < |s.publishers| && s.publishers[i].PubMissing? && !s.cancelled
    ensures var s := Exec(INIT, acts);
            CanPub(s, s.publishers[i], PubTaken) <==> TopicHeld(s, s.publishers[i].topic)
  {
    var s := Exec(INIT, acts);
    var t := s.publishers[i].topic;
    EveryRunOk(acts);
    if t in s.joins.live { OpenIsHeld(s, t); }
    if TopicHeld(s, t) { HeldIsOpen(s, t); }
  }

  // ----- a Subscribe and a Publish come by their topic

  /** Reader i of s is r, and the rest is as in base. */
  function With(base: State, i: nat, r: Reader): State
    requires i < |base.readers|
  {
    base.(readers := base.readers[i := r])
  }

  lemma WithMoved(base: State, i: nat, r: Reader, m: Move)
    requires i < |base.readers| && CanMove(base, r, m)
    ensures CanMove(With(base, i, r), r, m) && Moved(With(base, i, r), r, m) == Moved(base, r, m)
  {
  }

  /** What a reader's step does to the rest does not depend on the readers, and leaves them alone. */
  predicate SameEffects(base: State, i: nat, r: Reader, m: Move)
    requires i < |base.readers| && CanMove(base, r, m) && CanMove(With(base, i, r), r, m)
  {
    && Effects(base, i, r, m).readers == base.readers
    && Effects(With(base, i, r), i, r, m) == With(Effects(base, i, r, m), i, r)
  }

  lemma JoinEffects(base: State, i: nat, r: Reader, m: Move)
    requires i < |base.readers| && CanMove(base, r, m) && CanMove(With(base, i, r), r, m)
    requires m.JoinOk? || m.StoreTopic?
    ensures SameEffects(base, i, r, m)
  {
  }

  lemma CountEffects(base: State, i: nat, r: Reader, m: Move)
    requires i < |base.readers| && CanMove(base, r, m) && CanMove(With(base, i, r), r, m)
    requires m.CheckClosed? || m.Signal? || m.Send? || m.Finish?
    ensures SameEffects(base, i, r, m)
  {
  }

  lemma WithEffects(base: State, i: nat, r: Reader, m: Move)
    requires i < |base.readers| && CanMove(base, r, m) && CanMove(With(base, i, r), r, m)
    ensures SameEffects(base, i, r, m)
  {
    if m.JoinOk? || m.StoreTopic? {
      JoinEffects(base, i, r, m);
    } else if m.CheckClosed? || m.Signal? || m.Send? || m.Finish? {
      CountEffects(base, i, r, m);
    } else {
      assert Effects(base, i, r, m) == base;
    }
  }

  lemma WithStep(base: State, i: nat, r: Reader, m: Move)
    requires i < |base.readers| && CanMove(base, r, m)
    ensures |Effects(base, i, r, m).readers| == |base.readers|
    ensures Step(With(base, i, r), Read(i, m)) == With(Effects(base, i, r, m), i, Moved(base, r, m))
  {
    WithMoved(base, i, r, m);
    WithEffects(base, i, r, m);
    var readers := Effects(base, i, r, m).readers;
    assert readers[i := r][i := Moved(base, r, m)] == readers[i := Moved(base, r, m)];
  }

  /** From its topic handle on, a Subscribe subscribes, stores the subscription, signals and starts to receive. */
  lemma ReachesReceiving(base: State, i: nat, r: Reader)
    requires i < |base.readers| && r.stage.HasTopic?
    ensures Run(Step, With(base, i, r), [Read(i, SubscribeOk), Read(i, StoreSub), Read(i, Signal), Read(i, Notify)]) ==
            With(base.(signal := true), i, r.(stage := Receiving, signalled := true))
  {
    var subscribed, stored := r.(stage := Subscribed), r.(stage := Stored);
    var signalled := r.(stage := Signalled, signalled := true);
    WithStep(base, i, r, SubscribeOk);
    WithStep(base, i, subscribed, StoreSub);
    WithStep(base, i, stored, Signal);
    WithStep(base.(signal := true), i, signalled, Notify);
    var three := [Read(i, SubscribeOk), Read(i, StoreSub), Read(i, Signal)];
    Run3(Step, With(base, i, r), [], three[0], three[1], three[2]);
    assert [] + three == three;
    RunMore(Step, With(base, i, r), three, Read(i, Notify));
    assert three + [Read(i, Notify)] == [Read(i, SubscribeOk), Read(i, StoreSub), Read(i, Signal), Read(i, Notify)];
  }

  /** A Subscribe on an open client whose topic is in the topic map takes it from there, without a join. */
  lemma TakesStoredTopic(base: State, i: nat, r: Reader)
    requires i < |base.readers| && r.stage.Entering? && !base.closed && r.topic in base.joins.stored
    ensures Step(Step(With(base, i, r), Read(i, CheckClosed)), Read(i, Lookup)) ==
            With(Effects(base, i, r, CheckClosed), i, r.(stage := HasTopic))
    ensures Effects(base, i, r, CheckClosed).joins == base.joins && Effects(base, i, r, CheckClosed).wg == base.wg + 1
  {
    WithStep(base, i, r, CheckClosed);
    WithStep(Effects(base, i, r, CheckClosed), i, r.(stage := Started), Lookup);
  }

  /** If the topic is not there and nobody has it open, the Subscribe joins it and puts the new handle there. */
  lemma JoinsMissingTopic(base: State, i: nat, r: Reader, h: Handle)
    requires i < |base.readers| && r.stage.Started? && r.topic !in base.joins.stored && base.joins.CanJoin(r.topic, h)
    ensures var joined := r.(stage := Joined(h), joined := Some(h));
            && Step(Step(Step(With(base, i, r), Read(i, Lookup)), Read(i, JoinOk(h))), Read(i, StoreTopic)) ==
               With(base.(joins := base.joins.Join(r.topic, h, ByReader(i)).Store(r.topic, h)), i,
                    joined.(stage := HasTopic))
            && base.joins.Join(r.topic, h, ByReader(i)).Store(r.topic, h).stored == base.joins.stored[r.topic := h]
  {
    var missing := r.(stage := Missing);
    var joined := r.(stage := Joined(h), joined := Some(h));
    WithStep(base, i, r, Lookup);
    WithStep(base, i, missing, JoinOk(h));
    WithStep(base.(joins := base.joins.Join(r.topic, h, ByReader(i))), i, joined, StoreTopic);
  }

  /** A closed client refuses: the channel is closed at once, no reader is counted and nothing else changes. */
  lemma RefusesWhenClosed(base: State, i: nat, r: Reader)
    requires i < |base.readers| && r.stage.Entering? && base.closed
    ensures Step(Step(With(base, i, r), Read(i, CheckClosed)), Read(i, RefuseClose)) ==
            With(base, i, r.(stage := RefusedDone, closes := r.closes + 1))
  {
    WithStep(base, i, r, CheckClosed);
    WithStep(base, i, r.(stage := Refused), RefuseClose);
  }

  lemma PulledAndOffered(base: State, i: nat, r: Reader)
    requires i < |base.readers| && r.stage.Receiving? && r.queued > 0
    ensures Step(Step(With(base, i, r), Read(i, Pull)), Read(i, Offer)) ==
            With(base, i, r.(stage := Sending, queued := r.queued - 1))
  {
    WithStep(base, i, r, Pull);
    WithStep(base, i, r.(stage := Handling, queued := r.queued - 1), Offer);
  }

  /** A message that waits for a reader can be handed to the consumer's channel if there is room. */
  lemma MessageGetsThrough(base: State, i: nat, r: Reader)
    requires i < |base.readers| && r.stage.Receiving? && r.queued > 0 && r.buffered < 100 && r.closes == 0
    ensures Step(Step(Step(With(base, i, r), Read(i, Pull)), Read(i, Offer)), Read(i, Send)) ==
            With(base, i, r.(queued := r.queued - 1, buffered := r.buffered + 1))
  {
    PulledAndOffered(base, i, r);
    WithStep(base, i, r.(stage := Sending, queued := r.queued - 1), Send);
  }

  /** One that is dropped does not get there, and either way the reader is ready for the next. */
  lemma MessageIsDropped(base: State, i: nat, r: Reader)
    requires i < |base.readers| && r.stage.Receiving? && r.queued > 0
    ensures Step(Step(With(base, i, r), Read(i, Pull)), Read(i, Drop)) == With(base, i, r.(queued := r.queued - 1))
  {
    WithStep(base, i, r, Pull);
    WithStep(base, i, r.(stage := Handling, queued := r.queued - 1), Drop);
  }

  /** What arrives waits in the subscription, and what is consumed leaves the channel. */
  lemma QueueAndChannel(base: State, i: nat, r: Reader)
    requires i < |base.readers|
    ensures Step(With(base, i, r), Arrive(i)) == With(base, i, r.(queued := r.queued + 1))
    ensures r.buffered > 0 ==> Step(With(base, i, r), Consume(i)) == With(base, i, r.(buffered := r.buffered - 1))
  {
    assert With(base, i, r).readers[i] == r;
    var more, less := r.(queued := r.queued + 1), r.(buffered := if r.buffered > 0 then r.buffered - 1 else 0);
    assert With(base, i, r).readers[i := more] == base.readers[i := more];
    assert With(base, i, r).readers[i := less] == base.readers[i := less];
  }

  /** A reader on its way out closes its channel, then counts itself out, and is gone. */
  lemma LeavesInOrder(base: State, i: nat, r: Reader)
    requires i < |base.readers| && r.stage.Leaving?
    ensures Step(Step(With(base, i, r), Read(i, CloseChannel)), Read(i, Finish)) ==
            With(base.(wg := base.wg - 1), i, r.(stage := Gone, closes := r.closes + 1))
  {
    WithStep(base, i, r, CloseChannel);
    WithStep(base, i, r.(stage := ChannelClosed, closes := r.closes + 1), Finish);
  }

  /** A Publish takes its topic from the topic map if it is there, and otherwise joins it and puts it there. */
  lemma PublishComesByTopic(s: State, i: nat, h: Handle)
    requires i < |s.publishers| && s.publishers[i].PubLooking?
    ensures var t := s.publishers[i].topic;
            && (t in s.joins.stored ==> Step(s, Pub(i, PubLookup)) == s.(publishers := s.publishers[i := PubReady(t)]))
            && (t !in s.joins.stored && s.joins.CanJoin(t, h) ==>
                  Step(Step(Step(s, Pub(i, PubLookup)), Pub(i, PubJoinOk(h))), Pub(i, PubStore)) ==
                  s.(publishers := s.publishers[i := PubReady(t)],
                     joins := s.joins.Join(t, h, ByPublisher(i)).Store(t, h)))
  {
    var t := s.publishers[i].topic;
    if t !in s.joins.stored && s.joins.CanJoin(t, h) {
      var looked := Step(s, Pub(i, PubLookup));
      assert looked == s.(publishers := s.publishers[i := PubMissing(t)]);
      var joined := Step(looked, Pub(i, PubJoinOk(h)));
      assert joined.publishers == s.publishers[i := PubJoined(t, h)];
      assert Step(joined, Pub(i, PubStore)).publishers == s.publishers[i := PubReady(t)];
    }
  }

  /** Publishers that go on to publish have their topic in the topic map. */
  predicate ReadyAreStored(s: State) {
    forall i :: 0 <= i < |s.publishers| && s.publishers[i].PubReady? ==> s.publishers[i].topic in s.joins.stored
  }

  lemma PubKeepsReady(s: State, i: nat, m: PubMove)
    requires ReadyAreStored(s) && i < |s.publishers| && CanPub(s, s.publishers[i], m)
    ensures ReadyAreStored(PubStep(s, i, m))
  {
    PubKeepsTopics(s, i, m);
  }

  lemma ReadKeepsStored(s: State, i: nat, m: Move)
    requires i < |s.readers| && CanMove(s, s.readers[i], m)
    ensures s.joins.stored.Keys <= ReadStep(s, i, m).joins.stored.Keys
  {
  }

  lemma ReadyStep(s: State, a: Action)
    requires ReadyAreStored(s) && Enabled(s, a)
    ensures ReadyAreStored(Apply(s, a))
  {
    match a {
      case Pub(i, m) => PubKeepsReady(s, i, m);
      case Read(i, m) =>
        ReadPublishersStay(s, i, m);
        ReadKeepsStored(s, i, m);
      case Publish(_) => OthersKeepTopics(s, a);
      case _ =>
        OthersLeavePublishers(s, a);
        OthersKeepTopics(s, a);
    }
  }

  /** In every run a Publish goes on to publish only with its topic in the topic map; a refused or failed one
      does not. */
  lemma {:induction false} PublishesOnlyStored(acts: seq<Action>)
    ensures ReadyAreStored(Exec(INIT, acts))
  {
    if acts == [] {
    } else {
      var prev, a := Exec(INIT, acts[..|acts| - 1]), acts[|acts| - 1];
      PublishesOnlyStored(acts[..|acts| - 1]);
      if Enabled(prev, a) { ReadyStep(prev, a); }
    }
  }

  // ----- a Close gets to its end

  /** The steps that a Close call has left. */
  function CloserLeft(c: Closer): nat {
    match c
    case Called => 7
    case Flagged => 6
    case Cancelled => 5
    case SubsCancelled => 4
    case Waiting => 3
    case Waited(_) => 2
    case TopicsClosed(_) => 1
    case HostClosed(_) => 0
  }

  function CloseSteps(s: State, acts: seq<Action>, k: nat): nat {
    if acts == [] then 0
    else
      var n := |acts| - 1;
      CloseSteps(s, acts[..n], k) +
      if acts[n].Close? && acts[n].k == k && Enabled(Exec(s, acts[..n]), acts[n]) then 1 else 0
  }

  /** Whatever the readers do, a Close call short of its end has a step that it can take now. */
  lemma CloseNotStuck(s: State, k: nat)
    requires k < |s.closers| && !s.closers[k].HostClosed?
    ensures exists m :: CanClose(s, s.closers[k], m)
  {
    var m := match s.closers[k]
      case Called => Flag
      case Flagged => Cancel
      case Cancelled => CancelSubs
      case SubsCancelled => StartWait
      case Waiting => WaitExpires
      case Waited(_) => CloseTopics({})
      case _ => CloseHost;
    assert CanClose(s, s.closers[k], m);
  }

  lemma CloseMovesItself(s: State, k: nat, m: CloserMove)
    requires k < |s.closers| && CanClose(s, s.closers[k], m)
    ensures var s' := CloseStep(s, k, m);
            |s'.closers| == |s.closers| && CloserLeft(s'.closers[k]) == CloserLeft(s.closers[k]) - 1
  {
  }

  lemma CloseLeavesOthers(s: State, k: nat, m: CloserMove, j: nat)
    requires k < |s.closers| && CanClose(s, s.closers[k], m) && j < |s.closers| && j != k
    ensures |CloseStep(s, k, m).closers| == |s.closers| && CloseStep(s, k, m).closers[j] == s.closers[j]
  {
  }

  lemma PubLeavesClosers(s: State, i: nat, m: PubMove)
    requires i < |s.publishers| && CanPub(s, s.publishers[i], m)
    ensures PubStep(s, i, m).closers == s.closers
  {
  }

  lemma ReadLeavesClosers(s: State, i: nat, m: Move)
    requires i < |s.readers| && CanMove(s, s.readers[i], m)
    ensures ReadStep(s, i, m).closers == s.closers
  {
  }

  lemma CloseLeftStep(s: State, a: Action, k: nat)
    requires k < |s.closers|
    ensures k < |Step(s, a).closers|
    ensures CloserLeft(Step(s, a).closers[k]) ==
            CloserLeft(s.closers[k]) - if a.Close? && a.k == k && Enabled(s, a) then 1 else 0
  {
    if Enabled(s, a) {
      match a {
        case Close(j, m) => if j == k { CloseMovesItself(s, j, m); } else { CloseLeavesOthers(s, j, m, k); }
        case Pub(i, m) => PubLeavesClosers(s, i, m);
        case Read(i, m) => ReadLeavesClosers(s, i, m);
        case _ =>
      }
    }
  }

  lemma {:induction false} CloseLeftOverRun(s: State, acts: seq<Action>, k: nat)
    requires k < |s.closers|
    ensures k < |Exec(s, acts).closers|
    ensures CloseSteps(s, acts, k) + CloserLeft(Exec(s, acts).closers[k]) == CloserLeft(s.closers[k])
  {
    if acts == [] {
    } else {
      CloseLeftOverRun(s, acts[..|acts| - 1], k);
      CloseLeftStep(Exec(s, acts[..|acts| - 1]), acts[|acts| - 1], k);
    }
  }

  /** A Close call is never stuck, whatever the readers do, and has torn down the host exactly when it has taken its
      seven steps. */
  lemma CloseTearsDown(s: State, acts: seq<Action>, k: nat)
    requires k < |s.closers| && s.closers[k] == Called
    ensures k < |Exec(s, acts).closers| && CloseSteps(s, acts, k) <= 7
    ensures Exec(s, acts).closers[k].HostClosed? <==> CloseSteps(s, acts, k) == 7
    ensures CloseSteps(s, acts, k) < 7 ==> exists m :: CanClose(Exec(s, acts), Exec(s, acts).closers[k], m)
  {
    CloseLeftOverRun(s, acts, k);
    if CloseSteps(s, acts, k) < 7 { CloseNotStuck(Exec(s, acts), k); }
  }

  // ----- the discovery loop is woken for signals only

  function Signals(acts: seq<Action>): nat {
    if acts == [] then 0
    else
      var n := |acts| - 1;
      Signals(acts[..n]) +
      if acts[n].Read? && acts[n].move.Signal? && Enabled(Exec(INIT, acts[..n]), acts[n]) then 1 else 0
  }

  function WakeUps(acts: seq<Action>): nat {
    if acts == [] then 0
    else
      var n := |acts| - 1;
      WakeUps(acts[..n]) + if acts[n].TakeSignal? && Enabled(Exec(INIT, acts[..n]), acts[n]) then 1 else 0
  }

  lemma CloseLeavesSignal(s: State, k: nat, m: CloserMove)
    requires k < |s.closers| && CanClose(s, s.closers[k], m)
    ensures CloseStep(s, k, m).signal == s.signal
  {
  }

  lemma PubLeavesSignal(s: State, i: nat, m: PubMove)
    requires i < |s.publishers| && CanPub(s, s.publishers[i], m)
    ensures PubStep(s, i, m).signal == s.signal
  {
  }

  lemma ReadSignals(s: State, i: nat, m: Move)
    requires i < |s.readers| && CanMove(s, s.readers[i], m)
    ensures ReadStep(s, i, m).signal == (s.signal || m.Signal?)
  {
  }

  lemma SignalStep(s: State, a: Action)
    ensures Step(s, a).signal && !s.signal ==> Enabled(s, a) && a.Read? && a.move.Signal?
    ensures a.TakeSignal? && Enabled(s, a) ==> s.signal && !Step(s, a).signal
  {
    if Enabled(s, a) {
      match a {
        case Close(k, m) => CloseLeavesSignal(s, k, m);
        case Pub(i, m) => PubLeavesSignal(s, i, m);
        case Read(i, m) => ReadSignals(s, i, m);
        case _ =>
      }
    }
  }

  /** Every wake-up of the loop uses up a signal of some Subscribe. */
  lemma {:induction false} WakeUpsUseSignals(acts: seq<Action>)
    ensures WakeUps(acts) + (if Exec(INIT, acts).signal then 1 else 0) <= Signals(acts)
  {
    if acts == [] {
    } else {
      WakeUpsUseSignals(acts[..|acts| - 1]);
      SignalStep(Exec(INIT, acts[..|acts| - 1]), acts[|acts| - 1]);
    }
  }

  /** A waiting signal can be taken by an idle loop, which then copies the topic map and is idle again. */
  lemma WakeUpIsServed(s: State)
    requires s.signal && s.loop.Idle?
    ensures Step(Step(s, TakeSignal), CopyTopics) ==
            s.(signal := false, advertised := s.advertised + s.joins.stored.Keys)
  {
  }

  /** After cancellation an idle loop can end. */
  lemma LoopEnds(s: State)
    requires s.cancelled && s.loop.Idle?
    ensures Step(s, ExitLoop) == s.(loop := Exited)
  {
  }
}
