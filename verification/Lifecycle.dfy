/** Subscribe, its readers, Publish, Close and the discovery loop as one step system: each step is one critical
    section, channel operation or library call of one goroutine. */
module Lifecycle {
  import opened Common
  import opened Counting
  import opened Runs
  import opened TopicMap

  /** How far a Subscribe call and the reader goroutine it starts have got. */
  datatype Stage =
    | Entering
    | Refused
    | RefusedDone
    | Started
    | Missing
    | Joined(handle: Handle)
    | HasTopic
    | Subscribed
    | Stored
    | Signalled
    | Receiving
    | Handling
    | Sending
    | Leaving
    | ChannelClosed
    | Gone

  /** One Subscribe call: its topic, the handle it joined itself, how often its channel was closed, whether it has
      signalled the discovery loop, and the messages waiting in its subscription and in its channel. */
  datatype Reader = Reader(topic: Topic, stage: Stage, joined: Option<Handle>, closes: nat, signalled: bool,
                           queued: nat, buffered: nat)

  datatype Publisher =
    | PubLooking(topic: Topic)
    | PubMissing(topic: Topic)
    | PubJoined(topic: Topic, handle: Handle)
    | PubReady(topic: Topic)
    | PubFailed

  /** A Close call. readersGone tells how its wait ended: with the readers gone, or with the budget expired. */
  datatype Closer =
    | Called
    | Flagged
    | Cancelled
    | SubsCancelled
    | Waiting
    | Waited(readersGone: bool)
    | TopicsClosed(readersGone: bool)
    | HostClosed(readersGone: bool)

  datatype Loop = Idle | SignalTaken | Exited

  /** What was true when a Close call tore down the host. */
  datatype Teardown = Teardown(readersGone: bool, liveReaders: int, channelsClosed: bool, joinedTopicsAsked: bool)

  datatype State = State(
    closed: bool,
    cancelled: bool,
    wg: int,
    waited: bool,
    lateAdds: nat,
    badSends: nat,
    readers: seq<Reader>,
    publishers: seq<Publisher>,
    closers: seq<Closer>,
    joins: Joins,
    signal: bool,
    loop: Loop,
    advertised: set<Topic>,
    teardowns: seq<Teardown>)

  const INIT := State(false, false, 0, false, 0, 0, [], [], [],
                      Joins(map[], map[], map[], {}), false, Idle, {}, [])

  datatype Move =
    | CheckClosed | RefuseClose
    | Lookup | JoinOk(handle: Handle) | JoinTaken | JoinFail | StoreTopic
    | SubscribeOk | SubscribeFail | StoreSub | Signal | Notify
    | Pull | NextCancelled | NextFails | Retry | Drop | Offer | Send | GiveUp
    | CloseChannel | Finish

  datatype PubMove = PubLookup | PubJoinOk(handle: Handle) | PubTaken | PubJoinFail | PubStore

  datatype CloserMove =
    | Flag | Cancel | CancelSubs | StartWait | WaitReturns | WaitExpires | CloseTopics(failed: set<Handle>)
    | CloseHost

  datatype Action =
    | Subscribe(topic: Topic)
    | Read(i: nat, move: Move)
    | Arrive(i: nat)
    | Consume(i: nat)
    | Publish(topic: Topic)
    | Pub(i: nat, pub: PubMove)
    | CallClose
    | Close(k: nat, closing: CloserMove)
    | TakeSignal
    | CopyTopics
    | EarlyCopy
    | ExitLoop

  // ----- readers

  predicate CanMove(s: State, r: Reader, m: Move) {
    match m
    case CheckClosed => r.stage.Entering?
    case RefuseClose => r.stage.Refused?
    case Lookup => r.stage.Started?
    case JoinOk(h) => r.stage.Missing? && s.joins.CanJoin(r.topic, h)
    case JoinTaken => r.stage.Missing? && r.topic in s.joins.live
    case JoinFail => r.stage.Missing?
    case StoreTopic => r.stage.Joined?
    case SubscribeOk => r.stage.HasTopic?
    case SubscribeFail => r.stage.HasTopic?
    case StoreSub => r.stage.Subscribed?
    case Signal => r.stage.Stored?
    case Notify => r.stage.Signalled?
    case Pull => r.stage.Receiving? && r.queued > 0
    case NextCancelled => r.stage.Receiving? && s.cancelled
    case NextFails => r.stage.Receiving?
    // an error other than the two terminal ones is retried, but not once the context is cancelled
    case Retry => r.stage.Receiving? && !s.cancelled
    case Drop => r.stage.Handling?
    case Offer => r.stage.Handling?
    case Send => r.stage.Sending? && r.buffered < CHANNEL_CAPACITY
    case GiveUp => r.stage.Sending? && s.cancelled
    case CloseChannel => r.stage.Leaving?
    case Finish => r.stage.ChannelClosed?
  }

  function NextStage(s: State, r: Reader, m: Move): Stage {
    match m
    case CheckClosed => if s.closed then Refused else Started
    case RefuseClose => RefusedDone
    case Lookup => if r.topic in s.joins.stored then HasTopic else Missing
    case JoinOk(h) => Joined(h)
    case StoreTopic => HasTopic
    case SubscribeOk => Subscribed
    case StoreSub => Stored
    case Signal => Signalled
    case Notify => Receiving
    case Pull => Handling
    case Retry => Receiving
    case Drop => Receiving
    case Offer => Sending
    case Send => Receiving
    case CloseChannel => ChannelClosed
    case Finish => Gone
    case _ => Leaving
  }

  function Moved(s: State, r: Reader, m: Move): Reader
    requires CanMove(s, r, m)
  {
    r.(stage := NextStage(s, r, m),
       joined := if m.JoinOk? then Some(m.handle) else r.joined,
       closes := if m.RefuseClose? || m.CloseChannel? then r.closes + 1 else r.closes,
       signalled := r.signalled || m.Signal?,
       queued := if m.Pull? then r.queued - 1 else r.queued,
       buffered := if m.Send? then r.buffered + 1 else r.buffered)
  }

  /** What a reader's step does besides moving the reader. */
  function Effects(s: State, i: nat, r: Reader, m: Move): State
    requires CanMove(s, r, m)
  {
    match m
    case CheckClosed =>
      if s.closed then s else s.(wg := s.wg + 1, lateAdds := if s.waited then s.lateAdds + 1 else s.lateAdds)
    case JoinOk(h) => s.(joins := s.joins.Join(r.topic, h, ByReader(i)))
    case StoreTopic => s.(joins := s.joins.Store(r.topic, r.stage.handle))
    case Signal => s.(signal := true)
    case Send => s.(badSends := if r.closes > 0 then s.badSends + 1 else s.badSends)
    case Finish => s.(wg := s.wg - 1)
    case _ => s
  }

  function ReadStep(s: State, i: nat, m: Move): State
    requires i < |s.readers| && CanMove(s, s.readers[i], m)
  {
    Effects(s, i, s.readers[i], m).(readers := s.readers[i := Moved(s, s.readers[i], m)])
  }

  // ----- publishers

  predicate CanPub(s: State, p: Publisher, m: PubMove) {
    match m
    case PubLookup => p.PubLooking?
    case PubJoinOk(h) => p.PubMissing? && s.joins.CanJoin(p.topic, h)
    case PubTaken => p.PubMissing? && p.topic in s.joins.live
    case PubJoinFail => p.PubMissing?
    case PubStore => p.PubJoined?
  }

  function PubStep(s: State, i: nat, m: PubMove): State
    requires i < |s.publishers| && CanPub(s, s.publishers[i], m)
  {
    var p := s.publishers[i];
    match m
    case PubLookup =>
      s.(publishers := s.publishers[i := if p.topic in s.joins.stored then PubReady(p.topic)
                                              else PubMissing(p.topic)])
    case PubJoinOk(h) =>
      s.(publishers := s.publishers[i := PubJoined(p.topic, h)], joins := s.joins.Join(p.topic, h, ByPublisher(i)))
    case PubTaken => s.(publishers := s.publishers[i := PubFailed])
    case PubJoinFail => s.(publishers := s.publishers[i := PubFailed])
    case PubStore =>
      s.(publishers := s.publishers[i := PubReady(p.topic)], joins := s.joins.Store(p.topic, p.handle))
  }

  // ----- Close

  predicate CanClose(s: State, c: Closer, m: CloserMove) {
    match m
    case Flag => c.Called?
    case Cancel => c.Flagged?
    case CancelSubs => c.Cancelled?
    case StartWait => c.SubsCancelled?
    case WaitReturns => c.Waiting? && s.wg == 0
    case WaitExpires => c.Waiting?
    case CloseTopics(_) => c.Waited?
    case CloseHost => c.TopicsClosed?
  }

  predicate JoinedTopicsAsked(s: State) {
    forall i :: 0 <= i < |s.readers| && s.readers[i].joined.Some? ==> s.readers[i].joined.value in s.joins.asked
  }

  predicate IsStarted(r: Reader) { !r.stage.Entering? && !r.stage.Refused? && !r.stage.RefusedDone? }

  predicate StartedChannelsClosed(s: State) {
    forall i :: 0 <= i < |s.readers| && IsStarted(s.readers[i]) ==> s.readers[i].closes == 1
  }

  predicate Live(r: Reader) { IsStarted(r) && !r.stage.Gone? }

  function LiveWeight(r: Reader): int { if Live(r) then 1 else 0 }

  function LiveReaders(s: State): int { Sum(s.readers, LiveWeight) }

  function CloseStep(s: State, k: nat, m: CloserMove): State
    requires k < |s.closers| && CanClose(s, s.closers[k], m)
  {
    var c := s.closers[k];
    match m
    case Flag => s.(closed := true, closers := s.closers[k := Flagged])
    case Cancel => s.(cancelled := true, closers := s.closers[k := Cancelled])
    case CancelSubs => s.(closers := s.closers[k := SubsCancelled])
    case StartWait => s.(waited := true, closers := s.closers[k := Waiting])
    case WaitReturns => s.(closers := s.closers[k := Waited(true)])
    case WaitExpires => s.(closers := s.closers[k := Waited(false)])
    case CloseTopics(failed) =>
      s.(joins := s.joins.CloseStored(failed),
         closers := s.closers[k := TopicsClosed(c.readersGone)])
    case CloseHost =>
      s.(teardowns := s.teardowns +
           [Teardown(c.readersGone, LiveReaders(s), StartedChannelsClosed(s), JoinedTopicsAsked(s))],
         closers := s.closers[k := HostClosed(c.readersGone)])
  }

  // ----- the system

  predicate Enabled(s: State, a: Action) {
    match a
    case Subscribe(_) => true
    case Read(i, m) => i < |s.readers| && CanMove(s, s.readers[i], m)
    case Arrive(i) => i < |s.readers|
    case Consume(i) => i < |s.readers| && s.readers[i].buffered > 0
    case Publish(_) => true
    case Pub(i, m) => i < |s.publishers| && CanPub(s, s.publishers[i], m)
    case CallClose => true
    case Close(k, m) => k < |s.closers| && CanClose(s, s.closers[k], m)
    case TakeSignal => s.signal && s.loop.Idle?
    case CopyTopics => s.loop.SignalTaken?
    case EarlyCopy => true
    case ExitLoop => s.cancelled && s.loop.Idle?
  }

  function Apply(s: State, a: Action): State
    requires Enabled(s, a)
  {
    match a
    case Subscribe(t) => s.(readers := s.readers + [Reader(t, Entering, None, 0, false, 0, 0)])
    case Read(i, m) => ReadStep(s, i, m)
    case Arrive(i) => s.(readers := s.readers[i := s.readers[i].(queued := s.readers[i].queued + 1)])
    case Consume(i) => s.(readers := s.readers[i := s.readers[i].(buffered := s.readers[i].buffered - 1)])
    case Publish(t) => s.(publishers := s.publishers + [PubLooking(t)])
    case Pub(i, m) => PubStep(s, i, m)
    case CallClose => s.(closers := s.closers + [Called])
    case Close(k, m) => CloseStep(s, k, m)
    case TakeSignal => s.(signal := false, loop := SignalTaken)
    case CopyTopics => s.(advertised := s.advertised + s.joins.stored.Keys, loop := Idle)
    case EarlyCopy => s.(advertised := s.advertised + s.joins.stored.Keys)
    case ExitLoop => s.(loop := Exited)
  }

  function Step(s: State, a: Action): State { if Enabled(s, a) then Apply(s, a) else s }

  function Exec(s: State, acts: seq<Action>): State { Run(Step, s, acts) }

  // ----- channel ownership

  predicate HasClosed(r: Reader) { r.stage.RefusedDone? || r.stage.ChannelClosed? || r.stage.Gone? }

  /** A channel has been closed once if its owner is past closing it, and not at all before. */
  predicate ChannelOwned(r: Reader) { r.closes == if HasClosed(r) then 1 else 0 }

  predicate ChannelsOwned(s: State) {
    s.badSends == 0 && forall i :: 0 <= i < |s.readers| ==> ChannelOwned(s.readers[i])
  }

  /** A reader's step closes its own channel only, once, and sends only while that is open. */
  lemma MoveKeepsChannel(s: State, i: nat, r: Reader, m: Move)
    requires CanMove(s, r, m) && ChannelOwned(r)
    ensures ChannelOwned(Moved(s, r, m)) && Effects(s, i, r, m).badSends == s.badSends
  {
  }

  predicate TouchesReaders(a: Action) { a.Read? || a.Subscribe? || a.Arrive? || a.Consume? }

  lemma CloseLeavesReaders(s: State, k: nat, m: CloserMove)
    requires k < |s.closers| && CanClose(s, s.closers[k], m)
    ensures CloseStep(s, k, m).readers == s.readers && CloseStep(s, k, m).badSends == s.badSends
  {
  }

  lemma PubLeavesReaders(s: State, i: nat, m: PubMove)
    requires i < |s.publishers| && CanPub(s, s.publishers[i], m)
    ensures PubStep(s, i, m).readers == s.readers && PubStep(s, i, m).badSends == s.badSends
  {
  }

  lemma OthersLeaveReaders(s: State, a: Action)
    requires Enabled(s, a) && !TouchesReaders(a)
    ensures Apply(s, a).readers == s.readers && Apply(s, a).badSends == s.badSends
  {
    match a {
      case Close(k, m) => CloseLeavesReaders(s, k, m);
      case Pub(i, m) => PubLeavesReaders(s, i, m);
      case _ =>
    }
  }

  lemma ChannelsKept(s: State, a: Action)
    requires ChannelsOwned(s) && Enabled(s, a)
    ensures ChannelsOwned(Apply(s, a))
  {
    match a {
      case Read(i, m) => MoveKeepsChannel(s, i, s.readers[i], m);
      case Subscribe(_) =>
      case Arrive(i) => assert ChannelOwned(s.readers[i]);
      case Consume(i) => assert ChannelOwned(s.readers[i]);
      case _ => OthersLeaveReaders(s, a);
    }
  }

  // ----- the WaitGroup

  predicate PastWait(c: Closer) { c.Waiting? || c.Waited? || c.TopicsClosed? || c.HostClosed? }

  /** How far a Close call has got fixes what it has already done. */
  predicate CloserSound(s: State, c: Closer) {
    && (!c.Called? ==> s.closed)
    && (!c.Called? && !c.Flagged? ==> s.cancelled)
    && (PastWait(c) ==> s.waited)
    && ((c.Waited? || c.TopicsClosed? || c.HostClosed?) && c.readersGone ==> s.wg == 0)
  }

  predicate Counted(s: State) {
    && s.wg == LiveReaders(s)
    && s.lateAdds == 0
    && (s.waited ==> s.closed)
    && (s.cancelled ==> s.closed)
    && forall k :: 0 <= k < |s.closers| ==> CloserSound(s, s.closers[k])
  }

  lemma MoveKeepsCount(s: State, i: nat, m: Move)
    requires Counted(s) && i < |s.readers| && CanMove(s, s.readers[i], m)
    ensures Counted(ReadStep(s, i, m))
  {
    var s' := ReadStep(s, i, m);
    SumUpdate(s.readers, i, s'.readers[i], LiveWeight);
    if m.Finish? {
      SumAtLeast(s.readers, LiveWeight, i);
    }
    assert s'.closers == s.closers && s'.closed == s.closed && s'.cancelled == s.cancelled;
    forall k | 0 <= k < |s.closers| ensures CloserSound(s', s.closers[k]) {
      assert CloserSound(s, s.closers[k]);
    }
  }

  lemma CloseKeepsCount(s: State, k: nat, m: CloserMove)
    requires Counted(s) && k < |s.closers| && CanClose(s, s.closers[k], m)
    ensures Counted(CloseStep(s, k, m))
  {
    var s' := CloseStep(s, k, m);
    assert CloserSound(s, s.closers[k]);
    assert s'.readers == s.readers && s'.wg == s.wg;
    forall j | 0 <= j < |s'.closers| ensures CloserSound(s', s'.closers[j]) {
      assert CloserSound(s, s.closers[j]);
    }
  }

  /** Steps that leave the counter, the flags and the live readers alone, and at most add a Close call. */
  predicate CountFrame(s: State, s': State) {
    && LiveReaders(s') == LiveReaders(s) && s'.wg == s.wg && s'.lateAdds == s.lateAdds
    && s'.waited == s.waited && s'.closed == s.closed && s'.cancelled == s.cancelled
    && (s'.closers == s.closers || s'.closers == s.closers + [Called])
  }

  lemma FrameKeepsCount(s: State, s': State)
    requires Counted(s) && CountFrame(s, s')
    ensures Counted(s')
  {
    forall k | 0 <= k < |s'.closers| ensures CloserSound(s', s'.closers[k]) {
      if k < |s.closers| { assert CloserSound(s, s.closers[k]); }
    }
  }

  lemma QueueKeepsLive(s: State, i: nat, r: Reader)
    requires i < |s.readers| && r.stage == s.readers[i].stage
    ensures LiveReaders(s.(readers := s.readers[i := r])) == LiveReaders(s)
  {
    SumUpdate(s.readers, i, r, LiveWeight);
  }

  lemma NewReaderNotLive(s: State, t: Topic)
    ensures LiveReaders(Apply(s, Subscribe(t))) == LiveReaders(s)
  {
    SumAppend(s.readers, Reader(t, Entering, None, 0, false, 0, 0), LiveWeight);
  }

  lemma PubKeepsFrame(s: State, i: nat, m: PubMove)
    requires i < |s.publishers| && CanPub(s, s.publishers[i], m)
    ensures CountFrame(s, PubStep(s, i, m))
  {
  }

  lemma OthersKeepFrame(s: State, a: Action)
    requires Enabled(s, a) && !a.Read? && !a.Close?
    ensures CountFrame(s, Apply(s, a))
  {
    match a {
      case Subscribe(t) => NewReaderNotLive(s, t);
      case Arrive(i) => QueueKeepsLive(s, i, Apply(s, a).readers[i]);
      case Consume(i) => QueueKeepsLive(s, i, Apply(s, a).readers[i]);
      case Pub(i, m) => PubKeepsFrame(s, i, m);
      case _ =>
    }
  }

  lemma CountedKept(s: State, a: Action)
    requires Counted(s) && Enabled(s, a)
    ensures Counted(Apply(s, a))
  {
    match a {
      case Read(i, m) => MoveKeepsCount(s, i, m);
      case Close(k, m) => CloseKeepsCount(s, k, m);
      case _ =>
        OthersKeepFrame(s, a);
        FrameKeepsCount(s, Apply(s, a));
    }
  }

  // ----- joined topics

  /** What a reader has joined it is about to store, or a Close has reached it or will. */
  predicate ReaderJoins(j: Joins, i: nat, r: Reader) {
    && (r.stage.Joined? ==> r.joined == Some(r.stage.handle))
    && (r.joined.Some? ==>
          if r.stage.Joined? then j.Unstored(r.topic, r.joined.value, ByReader(i))
          else j.Reached(r.topic, r.joined.value))
    && (r.stage.Entering? || r.stage.Started? || r.stage.Missing? ==> r.joined == None)
  }

  predicate PublisherJoins(j: Joins, i: nat, p: Publisher) {
    p.PubJoined? ==> j.Unstored(p.topic, p.handle, ByPublisher(i))
  }

  predicate AllJoins(s: State) {
    && s.joins.Inv()
    && (forall i :: 0 <= i < |s.readers| ==> ReaderJoins(s.joins, i, s.readers[i]))
    && (forall i :: 0 <= i < |s.publishers| ==> PublisherJoins(s.joins, i, s.publishers[i]))
  }

  /** One goroutine's step on the handles leaves those of every other goroutine as they are. */
  ghost predicate OthersJoins(j: Joins, j': Joins, who: Joiner) {
    && (forall t, h, w :: w != who && j.Unstored(t, h, w) ==> j'.Unstored(t, h, w))
    && (forall t, h :: j.Reached(t, h) ==> j'.Reached(t, h))
  }

  lemma OtherKeepsJoins(s: State, j': Joins, who: Joiner)
    requires AllJoins(s) && OthersJoins(s.joins, j', who)
    ensures forall k :: 0 <= k < |s.readers| && ByReader(k) != who ==> ReaderJoins(j', k, s.readers[k])
    ensures forall k :: 0 <= k < |s.publishers| && ByPublisher(k) != who ==> PublisherJoins(j', k, s.publishers[k])
  {
    forall k | 0 <= k < |s.readers| && ByReader(k) != who ensures ReaderJoins(j', k, s.readers[k]) {
      assert ReaderJoins(s.joins, k, s.readers[k]);
    }
    forall k | 0 <= k < |s.publishers| && ByPublisher(k) != who ensures PublisherJoins(j', k, s.publishers[k]) {
      assert PublisherJoins(s.joins, k, s.publishers[k]);
    }
  }

  lemma OwnJoin(s: State, i: nat, h: Handle)
    requires AllJoins(s) && i < |s.readers| && CanMove(s, s.readers[i], JoinOk(h))
    ensures var j' := ReadStep(s, i, JoinOk(h)).joins;
            && j'.Inv() && OthersJoins(s.joins, j', ByReader(i))
            && ReaderJoins(j', i, Moved(s, s.readers[i], JoinOk(h)))
  {
    JoinKeeps(s.joins, s.readers[i].topic, h, ByReader(i));
  }

  lemma OwnStore(s: State, i: nat)
    requires AllJoins(s) && i < |s.readers| && CanMove(s, s.readers[i], StoreTopic)
    ensures var j' := ReadStep(s, i, StoreTopic).joins;
            && j'.Inv() && OthersJoins(s.joins, j', ByReader(i))
            && ReaderJoins(j', i, Moved(s, s.readers[i], StoreTopic))
  {
    var r := s.readers[i];
    assert ReaderJoins(s.joins, i, r);
    StoreKeeps(s.joins, r.topic, r.stage.handle, ByReader(i));
  }

  lemma OwnJoins(s: State, i: nat, m: Move)
    requires AllJoins(s) && i < |s.readers| && CanMove(s, s.readers[i], m)
    ensures var j' := ReadStep(s, i, m).joins;
            j'.Inv() && OthersJoins(s.joins, j', ByReader(i)) && ReaderJoins(j', i, Moved(s, s.readers[i], m))
  {
    match m {
      case JoinOk(h) => OwnJoin(s, i, h);
      case StoreTopic => OwnStore(s, i);
      case _ => assert ReaderJoins(s.joins, i, s.readers[i]);
    }
  }

  lemma MoveKeepsJoins(s: State, i: nat, m: Move)
    requires AllJoins(s) && i < |s.readers| && CanMove(s, s.readers[i], m)
    ensures AllJoins(ReadStep(s, i, m))
  {
    OwnJoins(s, i, m);
    OtherKeepsJoins(s, ReadStep(s, i, m).joins, ByReader(i));
  }

  lemma OwnPubJoins(s: State, i: nat, m: PubMove)
    requires AllJoins(s) && i < |s.publishers| && CanPub(s, s.publishers[i], m)
    ensures var s' := PubStep(s, i, m);
            s'.joins.Inv() && OthersJoins(s.joins, s'.joins, ByPublisher(i))
            && PublisherJoins(s'.joins, i, s'.publishers[i])
  {
    var p := s.publishers[i];
    assert PublisherJoins(s.joins, i, p);
    if m.PubJoinOk? {
      JoinKeeps(s.joins, p.topic, m.handle, ByPublisher(i));
    } else if m.PubStore? {
      StoreKeeps(s.joins, p.topic, p.handle, ByPublisher(i));
    }
  }

  lemma PubKeepsJoins(s: State, i: nat, m: PubMove)
    requires AllJoins(s) && i < |s.publishers| && CanPub(s, s.publishers[i], m)
    ensures AllJoins(PubStep(s, i, m))
  {
    PubLeavesReaders(s, i, m);
    OwnPubJoins(s, i, m);
    OtherKeepsJoins(s, PubStep(s, i, m).joins, ByPublisher(i));
  }

  lemma CloseKeepsJoins(s: State, k: nat, m: CloserMove)
    requires AllJoins(s) && k < |s.closers| && CanClose(s, s.closers[k], m)
    ensures AllJoins(CloseStep(s, k, m))
  {
    var s' := CloseStep(s, k, m);
    CloseLeavesReaders(s, k, m);
    if m.CloseTopics? {
      CloseStoredKeeps(s.joins, m.failed);
    } else {
      assert s'.joins == s.joins;
    }
    assert s'.publishers == s.publishers;
    forall i | 0 <= i < |s.readers| ensures ReaderJoins(s'.joins, i, s.readers[i]) {
      assert ReaderJoins(s.joins, i, s.readers[i]);
    }
    forall i | 0 <= i < |s.publishers| ensures PublisherJoins(s'.joins, i, s.publishers[i]) {
      assert PublisherJoins(s.joins, i, s.publishers[i]);
    }
  }

  lemma JoinsKept(s: State, a: Action)
    requires AllJoins(s) && Enabled(s, a)
    ensures AllJoins(Apply(s, a))
  {
    match a {
      case Read(i, m) => MoveKeepsJoins(s, i, m);
      case Pub(i, m) => PubKeepsJoins(s, i, m);
      case Close(k, m) => CloseKeepsJoins(s, k, m);
      case Arrive(i) => assert ReaderJoins(s.joins, i, s.readers[i]);
      case Consume(i) => assert ReaderJoins(s.joins, i, s.readers[i]);
      case Subscribe(_) =>
      case Publish(_) =>
      case _ => assert Apply(s, a).publishers == s.publishers && Apply(s, a).joins == s.joins;
    }
  }

  // ----- who holds a topic

  /** The handle is its joiner's, who is about to put it into the topic map or has done so. */
  predicate HeldBy(s: State, who: Joiner, t: Topic, h: Handle) {
    match who
    case ByReader(k) => k < |s.readers| && s.readers[k].topic == t && s.readers[k].joined == Some(h)
    case ByPublisher(k) => k < |s.publishers| && (s.publishers[k] == PubJoined(t, h) || s.joins.Reached(t, h))
  }

  /** Every handle ever joined is somebody's, and none is asked to close before cancellation. */
  predicate HandlesHeld(s: State) {
    && (forall h :: h in s.joins.owners ==> HeldBy(s, s.joins.owners[h].who, s.joins.owners[h].topic, h))
    && (s.joins.asked == {} || s.cancelled)
  }

  /** Nobody forgets a handle: a publisher that lets go of one has put it into the topic map. */
  predicate HoldersStay(s: State, s': State) {
    && |s.readers| <= |s'.readers| && |s.publishers| <= |s'.publishers|
    && (forall k :: 0 <= k < |s.readers| ==> s'.readers[k].topic == s.readers[k].topic)
    && (forall k :: 0 <= k < |s.readers| && s.readers[k].joined.Some? ==> s'.readers[k].joined == s.readers[k].joined)
    && (forall k :: 0 <= k < |s.publishers| && s.publishers[k].PubJoined? ==>
          s'.publishers[k] == s.publishers[k] || s'.joins.Reached(s.publishers[k].topic, s.publishers[k].handle))
  }

  ghost predicate ReachedStay(j: Joins, j': Joins) { forall t, h :: j.Reached(t, h) ==> j'.Reached(t, h) }

  lemma HeldStays(s: State, s': State, who: Joiner, t: Topic, h: Handle)
    requires HoldersStay(s, s') && ReachedStay(s.joins, s'.joins) && HeldBy(s, who, t, h)
    ensures HeldBy(s', who, t, h)
  {
  }

  lemma AllHeldStay(s: State, s': State)
    requires HandlesHeld(s) && HoldersStay(s, s') && ReachedStay(s.joins, s'.joins)
    requires s'.joins.owners == s.joins.owners && (s'.joins.asked == {} || s'.cancelled)
    ensures HandlesHeld(s')
  {
    forall h | h in s.joins.owners ensures HeldBy(s', s.joins.owners[h].who, s.joins.owners[h].topic, h) {
      HeldStays(s, s', s.joins.owners[h].who, s.joins.owners[h].topic, h);
    }
  }

  lemma MoveKeepsHolders(s: State, i: nat, m: Move)
    requires HandlesHeld(s) && AllJoins(s) && i < |s.readers| && CanMove(s, s.readers[i], m) && !m.JoinOk?
    ensures HandlesHeld(ReadStep(s, i, m))
  {
    var r, s' := s.readers[i], ReadStep(s, i, m);
    assert ReaderJoins(s.joins, i, r);
    if m.StoreTopic? {
      StoreKeeps(s.joins, r.topic, r.stage.handle, ByReader(i));
    } else {
      assert s'.joins == s.joins;
    }
    AllHeldStay(s, s');
  }

  lemma PubKeepsHolders(s: State, i: nat, m: PubMove)
    requires HandlesHeld(s) && AllJoins(s) && i < |s.publishers| && CanPub(s, s.publishers[i], m) && !m.PubJoinOk?
    ensures HandlesHeld(PubStep(s, i, m))
  {
    var p, s' := s.publishers[i], PubStep(s, i, m);
    PubLeavesReaders(s, i, m);
    assert PublisherJoins(s.joins, i, p);
    if m.PubStore? {
      StoreKeeps(s.joins, p.topic, p.handle, ByPublisher(i));
    } else {
      assert s'.joins == s.joins;
    }
    AllHeldStay(s, s');
  }

  /** A new handle is its joiner's, whatever else the step changes. */
  lemma JoinKeepsHolders(s: State, s': State, t: Topic, h: Handle, who: Joiner)
    requires HandlesHeld(s) && s.joins.Inv() && s.joins.CanJoin(t, h) && s'.joins == s.joins.Join(t, h, who)
    requires HoldersStay(s, s') && s'.cancelled == s.cancelled && HeldBy(s', who, t, h)
    ensures HandlesHeld(s')
  {
    JoinKeeps(s.joins, t, h, who);
    forall g | g in s'.joins.owners ensures HeldBy(s', s'.joins.owners[g].who, s'.joins.owners[g].topic, g) {
      if g != h { HeldStays(s, s', s.joins.owners[g].who, s.joins.owners[g].topic, g); }
    }
  }

  lemma CloseKeepsHolders(s: State, k: nat, m: CloserMove)
    requires HandlesHeld(s) && Counted(s) && AllJoins(s) && k < |s.closers| && CanClose(s, s.closers[k], m)
    ensures HandlesHeld(CloseStep(s, k, m))
  {
    var s' := CloseStep(s, k, m);
    CloseLeavesReaders(s, k, m);
    assert CloserSound(s, s.closers[k]);
    if m.CloseTopics? { CloseStoredKeeps(s.joins, m.failed); } else { assert s'.joins == s.joins; }
    assert s'.publishers == s.publishers && (s.cancelled ==> s'.cancelled);
    AllHeldStay(s, s');
  }

  lemma JoinKeepsHeld(s: State, a: Action)
    requires HandlesHeld(s) && AllJoins(s) && Enabled(s, a)
    requires (a.Read? && a.move.JoinOk?) || (a.Pub? && a.pub.PubJoinOk?)
    ensures HandlesHeld(Apply(s, a))
  {
    var s' := Apply(s, a);
    if a.Read? {
      assert ReaderJoins(s.joins, a.i, s.readers[a.i]);
      JoinKeepsHolders(s, s', s.readers[a.i].topic, a.move.handle, ByReader(a.i));
    } else {
      JoinKeepsHolders(s, s', s.publishers[a.i].topic, a.pub.handle, ByPublisher(a.i));
    }
  }

  lemma OthersStay(s: State, a: Action)
    requires Enabled(s, a) && !a.Read? && !a.Pub? && !a.Close?
    ensures var s' := Apply(s, a); HoldersStay(s, s') && s'.joins == s.joins && s'.cancelled == s.cancelled
  {
  }

  lemma HoldersKept(s: State, a: Action)
    requires HandlesHeld(s) && Counted(s) && AllJoins(s) && Enabled(s, a)
    ensures HandlesHeld(Apply(s, a))
  {
    match a {
      case Read(i, m) => if m.JoinOk? { JoinKeepsHeld(s, a); } else { MoveKeepsHolders(s, i, m); }
      case Pub(i, m) => if m.PubJoinOk? { JoinKeepsHeld(s, a); } else { PubKeepsHolders(s, i, m); }
      case Close(k, m) => CloseKeepsHolders(s, k, m);
      case _ =>
        OthersStay(s, a);
        AllHeldStay(s, Apply(s, a));
    }
  }

  // ----- the order of teardown

  predicate Clean(c: Closer) { (c.TopicsClosed? || c.HostClosed?) && c.readersGone }

  predicate TeardownOk(d: Teardown) {
    d.readersGone ==> d.liveReaders == 0 && d.channelsClosed && d.joinedTopicsAsked
  }

  /** On the clean path no reader is left, every reader's channel is closed, and every topic a reader joined has been
      asked to close, before the host is torn down. */
  predicate Orderly(s: State) {
    && (forall k :: 0 <= k < |s.closers| && Clean(s.closers[k]) ==> JoinedTopicsAsked(s))
    && (forall k :: 0 <= k < |s.teardowns| ==> TeardownOk(s.teardowns[k]))
  }

  lemma NobodyLive(s: State, i: nat)
    requires Counted(s) && s.wg == 0 && i < |s.readers|
    ensures !Live(s.readers[i])
  {
    SumAtLeast(s.readers, LiveWeight, i);
  }

  lemma MoveKeepsOrder(s: State, i: nat, m: Move)
    requires Orderly(s) && Counted(s) && i < |s.readers| && CanMove(s, s.readers[i], m)
    ensures Orderly(ReadStep(s, i, m))
  {
    var s' := ReadStep(s, i, m);
    assert s'.closers == s.closers && s'.teardowns == s.teardowns && s'.joins.asked == s.joins.asked;
    forall k | 0 <= k < |s.closers| && Clean(s.closers[k]) ensures JoinedTopicsAsked(s') {
      assert CloserSound(s, s.closers[k]);
      NobodyLive(s, i);
      assert Moved(s, s.readers[i], m).joined == s.readers[i].joined;
    }
  }

  lemma AllReadersDone(s: State)
    requires Counted(s) && ChannelsOwned(s) && s.wg == 0
    ensures StartedChannelsClosed(s)
  {
    forall i | 0 <= i < |s.readers| && IsStarted(s.readers[i]) ensures s.readers[i].closes == 1 {
      NobodyLive(s, i);
      assert ChannelOwned(s.readers[i]);
    }
  }

  lemma CloseKeepsOrder(s: State, k: nat, m: CloserMove)
    requires Orderly(s) && ChannelsOwned(s) && Counted(s) && AllJoins(s)
    requires k < |s.closers| && CanClose(s, s.closers[k], m)
    ensures Orderly(CloseStep(s, k, m))
  {
    var s' := CloseStep(s, k, m);
    CloseLeavesReaders(s, k, m);
    assert CloserSound(s, s.closers[k]);
    assert s.joins.asked <= s'.joins.asked;
    if m.CloseTopics? && s.closers[k].readersGone {
      CloseStoredKeeps(s.joins, m.failed);
      forall i | 0 <= i < |s.readers| && s.readers[i].joined.Some?
        ensures s.readers[i].joined.value in s'.joins.asked
      {
        NobodyLive(s, i);
        assert ReaderJoins(s.joins, i, s.readers[i]);
      }
    }
    if m.CloseHost? {
      if s.wg == 0 { AllReadersDone(s); }
      assert TeardownOk(s'.teardowns[|s.teardowns|]);
    }
    forall n | 0 <= n < |s'.closers| && Clean(s'.closers[n]) ensures JoinedTopicsAsked(s') {
      if n != k || m.CloseHost? {
        assert Clean(s.closers[n]);
        assert JoinedTopicsAsked(s);
      }
    }
  }

  lemma PubKeepsOrder(s: State, i: nat, m: PubMove)
    requires Orderly(s) && i < |s.publishers| && CanPub(s, s.publishers[i], m)
    ensures Orderly(PubStep(s, i, m))
  {
    PubLeavesReaders(s, i, m);
    var s' := PubStep(s, i, m);
    assert s'.joins.asked == s.joins.asked && s'.closers == s.closers && s'.teardowns == s.teardowns;
  }

  lemma OrderKept(s: State, a: Action)
    requires Orderly(s) && ChannelsOwned(s) && Counted(s) && AllJoins(s) && Enabled(s, a)
    ensures Orderly(Apply(s, a))
  {
    match a {
      case Read(i, m) => MoveKeepsOrder(s, i, m);
      case Close(k, m) => CloseKeepsOrder(s, k, m);
      case Pub(i, m) => PubKeepsOrder(s, i, m);
      case _ =>
    }
  }

  // ----- discovery

  predicate KnowsTopic(r: Reader) {
    r.stage.HasTopic? || r.stage.Subscribed? || r.stage.Stored? || r.stage.Signalled? || r.stage.Receiving?
    || r.stage.Handling? || r.stage.Sending? || r.signalled
  }

  /** A copy of the topic map is still to be made: the one-slot channel is full or the loop has taken the signal. */
  predicate CopyDue(s: State) { s.signal || s.loop.SignalTaken? }

  predicate Discoverable(s: State, r: Reader) {
    && (KnowsTopic(r) ==> r.topic in s.joins.stored)
    && (r.signalled ==> r.topic in s.advertised || CopyDue(s))
  }

  predicate AllDiscoverable(s: State) {
    forall i :: 0 <= i < |s.readers| ==> Discoverable(s, s.readers[i])
  }

  lemma MoveKeepsDiscovery(s: State, i: nat, m: Move)
    requires AllDiscoverable(s) && i < |s.readers| && CanMove(s, s.readers[i], m)
    ensures AllDiscoverable(ReadStep(s, i, m))
  {
    var s' := ReadStep(s, i, m);
    assert s.joins.stored.Keys <= s'.joins.stored.Keys && s'.advertised == s.advertised;
    forall k | 0 <= k < |s.readers| ensures Discoverable(s', s'.readers[k]) {
      assert Discoverable(s, s.readers[k]);
    }
  }

  /** Topics stay stored and advertised, and a due copy is dropped only by making it. */
  predicate TopicsKept(s: State, s': State) {
    && s.joins.stored.Keys <= s'.joins.stored.Keys && s.advertised <= s'.advertised
    && (CopyDue(s) && !CopyDue(s') ==> s.joins.stored.Keys <= s'.advertised)
  }

  lemma CloseKeepsTopics(s: State, k: nat, m: CloserMove)
    requires k < |s.closers| && CanClose(s, s.closers[k], m)
    ensures TopicsKept(s, CloseStep(s, k, m))
  {
  }

  lemma PubKeepsTopics(s: State, i: nat, m: PubMove)
    requires i < |s.publishers| && CanPub(s, s.publishers[i], m)
    ensures TopicsKept(s, PubStep(s, i, m))
  {
  }

  lemma OthersKeepTopics(s: State, a: Action)
    requires Enabled(s, a) && !a.Read?
    ensures TopicsKept(s, Apply(s, a))
  {
    match a {
      case Close(k, m) => CloseKeepsTopics(s, k, m);
      case Pub(i, m) => PubKeepsTopics(s, i, m);
      case _ =>
    }
  }

  lemma DiscoveryKept(s: State, a: Action)
    requires AllDiscoverable(s) && Enabled(s, a)
    ensures AllDiscoverable(Apply(s, a))
  {
    if a.Read? {
      MoveKeepsDiscovery(s, a.i, a.move);
    } else {
      var s' := Apply(s, a);
      OthersKeepTopics(s, a);
      if !TouchesReaders(a) { OthersLeaveReaders(s, a); }
      forall i | 0 <= i < |s'.readers| ensures Discoverable(s', s'.readers[i]) {
        if i < |s.readers| {
          assert Discoverable(s, s.readers[i]);
          assert s.readers[i].signalled ==> KnowsTopic(s.readers[i]);
        }
      }
    }
  }

  // ----- every run

  predicate Inv(s: State) {
    ChannelsOwned(s) && Counted(s) && AllJoins(s) && HandlesHeld(s) && Orderly(s) && AllDiscoverable(s)
  }

  lemma {:induction false} EveryRunOk(acts: seq<Action>)
    ensures Inv(Exec(INIT, acts))
  {
    if acts == [] {
    } else {
      var s, a := Exec(INIT, acts[..|acts| - 1]), acts[|acts| - 1];
      EveryRunOk(acts[..|acts| - 1]);
      if Enabled(s, a) {
        ChannelsKept(s, a);
        CountedKept(s, a);
        JoinsKept(s, a);
        HoldersKept(s, a);
        OrderKept(s, a);
        DiscoveryKept(s, a);
      }
    }
  }

  lemma OpenWhileUsed(s: State, r: Reader)
    requires ChannelOwned(r)
    ensures CanMove(s, r, Send) || CanMove(s, r, CloseChannel) || CanMove(s, r, RefuseClose) ==> r.closes == 0
  {
  }

  /** In every interleaving of Subscribes, readers, Publishes and repeated Closes: no send on a closed channel, no
      channel closed twice, and the channel of a reader that is gone is closed. */
  lemma ChannelOwnership(acts: seq<Action>, i: nat)
    requires i < |Exec(INIT, acts).readers|
    ensures var s := Exec(INIT, acts);
            && s.badSends == 0
            && s.readers[i].closes <= 1
            && (s.readers[i].closes == 1 <==> HasClosed(s.readers[i]))
            && (s.readers[i].stage.Gone? ==> s.readers[i].closes == 1)
    ensures var s := Exec(INIT, acts);
            var r := s.readers[i];
            CanMove(s, r, Send) || CanMove(s, r, CloseChannel) || CanMove(s, r, RefuseClose) ==> r.closes == 0
  {
    EveryRunOk(acts);
    OpenWhileUsed(Exec(INIT, acts), Exec(INIT, acts).readers[i]);
    assert ChannelOwned(Exec(INIT, acts).readers[i]);
  }

  /** Only the goroutine that owns a channel closes it: its reader, or the Subscribe call that found the client
      closed. */
  lemma OnlyTheOwnerCloses(s: State, a: Action, i: nat)
    requires i < |s.readers|
    ensures i < |Step(s, a).readers|
    ensures Step(s, a).readers[i].closes != s.readers[i].closes ==>
              (a == Read(i, CloseChannel) && s.readers[i].stage.Leaving?)
              || (a == Read(i, RefuseClose) && s.readers[i].stage.Refused?)
  {
    if Enabled(s, a) && !TouchesReaders(a) { OthersLeaveReaders(s, a); }
  }

  /** The counter is the number of live readers, none is added once a Close waits, and a Close whose wait returned is
      about to tear down the host, or did so, with no live reader left, every reader's channel closed, and every
      reader-joined topic asked to close. */
  lemma TeardownOrder(acts: seq<Action>)
    ensures var s := Exec(INIT, acts);
            && s.wg == LiveReaders(s) >= 0 && s.lateAdds == 0
            && (s.waited ==> s.closed)
            && (forall k :: 0 <= k < |s.closers| && PastWait(s.closers[k]) ==> s.waited)
            && (forall k :: 0 <= k < |s.closers| && s.closers[k] == TopicsClosed(true) ==>
                  LiveReaders(s) == 0 && StartedChannelsClosed(s) && JoinedTopicsAsked(s))
            && forall k :: 0 <= k < |s.teardowns| && s.teardowns[k].readersGone ==>
                 s.teardowns[k].liveReaders == 0 && s.teardowns[k].channelsClosed && s.teardowns[k].joinedTopicsAsked
  {
    var s := Exec(INIT, acts);
    EveryRunOk(acts);
    SumBounds(s.readers, LiveWeight, 1);
    forall k | 0 <= k < |s.closers| && PastWait(s.closers[k]) ensures s.waited { assert CloserSound(s, s.closers[k]); }
    forall k | 0 <= k < |s.closers| && s.closers[k] == TopicsClosed(true)
      ensures LiveReaders(s) == 0 && StartedChannelsClosed(s) && JoinedTopicsAsked(s)
    {
      assert CloserSound(s, s.closers[k]) && Clean(s.closers[k]);
      AllReadersDone(s);
    }
    forall k | 0 <= k < |s.teardowns| && s.teardowns[k].readersGone
      ensures s.teardowns[k].liveReaders == 0 && s.teardowns[k].channelsClosed && s.teardowns[k].joinedTopicsAsked
    {
      assert TeardownOk(s.teardowns[k]);
    }
  }

  // ----- which handles are never asked to close

  /** Step n asks the topic map's handles, h among them, to close. */
  predicate AskedAt(acts: seq<Action>, n: nat, h: Handle) {
    && n < |acts| && acts[n].Close? && acts[n].closing.CloseTopics?
    && Enabled(Exec(INIT, acts[..n]), acts[n]) && h in Exec(INIT, acts[..n]).joins.stored.Values
  }

  lemma CloseAsks(s: State, k: nat, m: CloserMove)
    requires k < |s.closers| && CanClose(s, s.closers[k], m)
    ensures CloseStep(s, k, m).joins.asked == s.joins.asked + if m.CloseTopics? then s.joins.stored.Values else {}
  {
  }

  lemma PubAsksNobody(s: State, i: nat, m: PubMove)
    requires i < |s.publishers| && CanPub(s, s.publishers[i], m)
    ensures PubStep(s, i, m).joins.asked == s.joins.asked
  {
  }

  lemma ReadAsksNobody(s: State, i: nat, m: Move)
    requires i < |s.readers| && CanMove(s, s.readers[i], m)
    ensures ReadStep(s, i, m).joins.asked == s.joins.asked
  {
  }

  lemma StepAsks(s: State, a: Action)
    ensures Step(s, a).joins.asked == s.joins.asked +
            if Enabled(s, a) && a.Close? && a.closing.CloseTopics? then s.joins.stored.Values else {}
  {
    if Enabled(s, a) {
      match a {
        case Close(k, m) => CloseAsks(s, k, m);
        case Pub(i, m) => PubAsksNobody(s, i, m);
        case Read(i, m) => ReadAsksNobody(s, i, m);
        case _ =>
      }
    }
  }

  lemma {:induction false} AskedHasPass(acts: seq<Action>, h: Handle) returns (n: nat)
    requires h in Exec(INIT, acts).joins.asked
    ensures AskedAt(acts, n, h)
  {
    var last := |acts| - 1;
    StepAsks(Exec(INIT, acts[..last]), acts[last]);
    if h in Exec(INIT, acts[..last]).joins.asked {
      n := AskedHasPass(acts[..last], h);
      assert acts[..last][..n] == acts[..n];
    } else {
      n := last;
    }
  }

  lemma {:induction false} PassAsks(acts: seq<Action>, n: nat, h: Handle)
    requires AskedAt(acts, n, h)
    ensures h in Exec(INIT, acts).joins.asked
  {
    var last := |acts| - 1;
    StepAsks(Exec(INIT, acts[..last]), acts[last]);
    if n < last {
      assert acts[..last][..n] == acts[..n];
      PassAsks(acts[..last], n, h);
    }
  }

  /** When a Close whose wait returned is about to tear down the host, the handles never asked to close are exactly
      those that a Publish joined and that were in the topic map at no pass over it. */
  lemma UnaskedAtTeardown(acts: seq<Action>, k: nat, h: Handle)
    requires var s := Exec(INIT, acts);
             k < |s.closers| && s.closers[k] == TopicsClosed(true) && h in s.joins.owners
    ensures var s := Exec(INIT, acts);
            h !in s.joins.asked <==> s.joins.owners[h].who.ByPublisher? && forall n :: !AskedAt(acts, n, h)
  {
    var s := Exec(INIT, acts);
    EveryRunOk(acts);
    assert Clean(s.closers[k]);
    assert HeldBy(s, s.joins.owners[h].who, s.joins.owners[h].topic, h);
    if h in s.joins.asked {
      var n := AskedHasPass(acts, h);
    } else if n :| AskedAt(acts, n, h) {
      PassAsks(acts, n, h);
    }
  }

  /** A Publish that has joined its topic and not yet stored it when Close goes through the topic map. */
  function Late(t: Topic, closer: Closer): State {
    INIT.(closed := !closer.Called?, cancelled := !closer.Called? && !closer.Flagged?,
          waited := closer.Waiting? || closer.Waited?, publishers := [PubJoined(t, 0)], closers := [closer],
          joins := INIT.joins.Join(t, 0, ByPublisher(0)))
  }

  lemma LateJoins(t: Topic) returns (acts: seq<Action>)
    ensures Exec(INIT, acts) == INIT.(publishers := [PubJoined(t, 0)], joins := INIT.joins.Join(t, 0, ByPublisher(0)))
  {
    acts := [Publish(t), Pub(0, PubLookup), Pub(0, PubJoinOk(0))];
    Run3(Step, INIT, [], Publish(t), Pub(0, PubLookup), Pub(0, PubJoinOk(0)));
    assert [] + acts == acts;
    assert Step(INIT, Publish(t)) == INIT.(publishers := [PubLooking(t)]);
    assert Step(Step(INIT, Publish(t)), Pub(0, PubLookup)) == INIT.(publishers := [PubMissing(t)]);
  }

  lemma LateCancels(t: Topic) returns (acts: seq<Action>)
    ensures Exec(INIT, acts) == Late(t, Cancelled)
  {
    acts := LateJoins(t);
    var s := Exec(INIT, acts);
    Run3(Step, INIT, acts, CallClose, Close(0, Flag), Close(0, Cancel));
    assert Step(s, CallClose) == Late(t, Called);
    assert Step(Late(t, Called), Close(0, Flag)) == Late(t, Flagged);
    assert Step(Late(t, Flagged), Close(0, Cancel)) == Late(t, Cancelled);
    acts := acts + [CallClose, Close(0, Flag), Close(0, Cancel)];
  }

  lemma LateWaits(t: Topic) returns (acts: seq<Action>)
    ensures Exec(INIT, acts) == Late(t, Waited(true))
  {
    acts := LateCancels(t);
    Run3(Step, INIT, acts, Close(0, CancelSubs), Close(0, StartWait), Close(0, WaitReturns));
    assert Step(Late(t, Cancelled), Close(0, CancelSubs)) == Late(t, SubsCancelled);
    assert Step(Late(t, SubsCancelled), Close(0, StartWait)) == Late(t, Waiting);
    assert Step(Late(t, Waiting), Close(0, WaitReturns)) == Late(t, Waited(true));
    acts := acts + [Close(0, CancelSubs), Close(0, StartWait), Close(0, WaitReturns)];
  }

  predicate TornDownUnasked(s: State, t: Topic) {
    s.closers == [HostClosed(true)] && s.joins.stored == map[t := 0] && s.joins.asked == {}
  }

  lemma LateTornDown(t: Topic)
    ensures var s := Late(t, Waited(true));
            TornDownUnasked(Step(Step(Step(s, Close(0, CloseTopics({}))), Pub(0, PubStore)), Close(0, CloseHost)), t)
  {
    var passed := Step(Late(t, Waited(true)), Close(0, CloseTopics({})));
    assert passed.closers == [TopicsClosed(true)] && passed.publishers == [PubJoined(t, 0)];
    assert passed.joins.asked == {} && passed.joins.stored == map[];
    var stored := Step(passed, Pub(0, PubStore));
    assert stored.closers == [TopicsClosed(true)];
  }

  /** Such a handle's topic is in the topic map when the host is torn down, and was never asked to close. */
  lemma PublishNeverAsked(t: Topic)
    ensures exists acts :: TornDownUnasked(Exec(INIT, acts), t)
  {
    var acts := LateWaits(t);
    var last := [Close(0, CloseTopics({})), Pub(0, PubStore), Close(0, CloseHost)];
    Run3(Step, INIT, acts, Close(0, CloseTopics({})), Pub(0, PubStore), Close(0, CloseHost));
    LateTornDown(t);
    assert TornDownUnasked(Exec(INIT, acts + last), t);
  }

  // ----- no wake-up is lost

  lemma NextCopyTakesIn(s: State, i: nat)
    requires AllDiscoverable(s) && i < |s.readers| && s.readers[i].signalled
    ensures var t := s.readers[i].topic;
            && (t in s.advertised || CopyDue(s))
            && (s.loop.SignalTaken? ==> t in Step(s, CopyTopics).advertised)
            && (s.signal && s.loop.Idle? ==> t in Step(Step(s, TakeSignal), CopyTopics).advertised)
  {
    assert Discoverable(s, s.readers[i]);
  }

  /** No wake-up is lost: a topic whose Subscribe has signalled is advertised or a copy of the topic map is due, and
      the next copy takes it in, however the signals coalesced. */
  lemma NoLostWakeUp(acts: seq<Action>, i: nat)
    requires i < |Exec(INIT, acts).readers| && Exec(INIT, acts).readers[i].signalled
    ensures var s := Exec(INIT, acts);
            var t := s.readers[i].topic;
            && (t in s.advertised || CopyDue(s))
            && (s.loop.SignalTaken? ==> t in Step(s, CopyTopics).advertised)
            && (s.signal && s.loop.Idle? ==> t in Step(Step(s, TakeSignal), CopyTopics).advertised)
  {
    EveryRunOk(acts);
    NextCopyTakesIn(Exec(INIT, acts), i);
  }

  // ----- channels that close early

  predicate Left(r: Reader) { r.stage.Leaving? || r.stage.ChannelClosed? || r.stage.Gone? }

  /** The library fails for a reason of its own. */
  predicate LibraryFailure(m: Move) { m.JoinFail? || m.SubscribeFail? || m.NextFails? }

  predicate NoLibraryFailure(acts: seq<Action>, i: nat) {
    forall k :: 0 <= k < |acts| && acts[k].Read? && acts[k].i == i ==> !LibraryFailure(acts[k].move)
  }

  /** In step k the library refuses reader i the topic, because a handle for it is open. */
  predicate JoinRefused(acts: seq<Action>, k: nat, i: nat) {
    k < |acts| && acts[k] == Read(i, JoinTaken) && Enabled(Exec(INIT, acts[..k]), acts[k])
  }

  /** The topic is in the topic map, or a Subscribe or Publish has joined it and not yet put it there. */
  predicate TopicHeld(s: State, t: Topic) {
    || t in s.joins.stored
    || (exists k :: 0 <= k < |s.readers| && s.readers[k].topic == t && s.readers[k].stage.Joined?)
    || (exists k :: 0 <= k < |s.publishers| && s.publishers[k].PubJoined? && s.publishers[k].topic == t)
  }

  lemma OpenIsHeld(s: State, t: Topic)
    requires AllJoins(s) && HandlesHeld(s) && !s.cancelled && t in s.joins.live
    ensures TopicHeld(s, t)
  {
    var h := s.joins.live[t];
    assert HeldBy(s, s.joins.owners[h].who, t, h);
    match s.joins.owners[h].who {
      case ByReader(k) => assert ReaderJoins(s.joins, k, s.readers[k]);
      case ByPublisher(k) =>
    }
  }

  lemma HeldIsOpen(s: State, t: Topic)
    requires AllJoins(s) && HandlesHeld(s) && !s.cancelled && TopicHeld(s, t)
    ensures t in s.joins.live
  {
    if t in s.joins.stored {
      assert s.joins.Owned(t, s.joins.stored[t]);
    } else if k :| 0 <= k < |s.readers| && s.readers[k].topic == t && s.readers[k].stage.Joined? {
      assert ReaderJoins(s.joins, k, s.readers[k]);
    } else {
      var k :| 0 <= k < |s.publishers| && s.publishers[k].PubJoined? && s.publishers[k].topic == t;
      assert PublisherJoins(s.joins, k, s.publishers[k]);
    }
  }

  /** Before cancellation a reader that missed the topic in the topic map is refused exactly when another Subscribe or
      Publish of the topic holds it by then. */
  lemma RefusedWhenHeld(acts: seq<Action>, i: nat)
    requires var s := Exec(INIT, acts); i < |s.readers| && s.readers[i].stage.Missing? && !s.cancelled
    ensures var s := Exec(INIT, acts); CanMove(s, s.readers[i], JoinTaken) <==> TopicHeld(s, s.readers[i].topic)
  {
    var s := Exec(INIT, acts);
    var t := s.readers[i].topic;
    EveryRunOk(acts);
    if t in s.joins.live { OpenIsHeld(s, t); }
    if TopicHeld(s, t) { HeldIsOpen(s, t); }
  }

  lemma CloseStaysCancelled(s: State, k: nat, m: CloserMove)
    requires k < |s.closers| && CanClose(s, s.closers[k], m)
    ensures s.cancelled ==> CloseStep(s, k, m).cancelled
  {
  }

  lemma PubStaysCancelled(s: State, i: nat, m: PubMove)
    requires i < |s.publishers| && CanPub(s, s.publishers[i], m)
    ensures s.cancelled ==> PubStep(s, i, m).cancelled
  {
  }

  lemma CancelledStays(s: State, a: Action)
    requires s.cancelled && Enabled(s, a)
    ensures Apply(s, a).cancelled
  {
    match a {
      case Close(k, m) => CloseStaysCancelled(s, k, m);
      case Pub(i, m) => PubStaysCancelled(s, i, m);
      case _ =>
    }
  }

  lemma LeavingStep(s: State, a: Action, i: nat)
    requires i < |Step(s, a).readers| && !Step(s, a).cancelled && Left(Step(s, a).readers[i])
    ensures i < |s.readers| && !s.cancelled
    ensures Left(s.readers[i]) ||
            (Enabled(s, a) && (a == Read(i, JoinTaken) || (a.Read? && a.i == i && LibraryFailure(a.move))))
  {
    if Enabled(s, a) {
      if s.cancelled { CancelledStays(s, a); }
      if !TouchesReaders(a) { OthersLeaveReaders(s, a); }
    }
  }

  lemma LeftStays(s: State, a: Action, i: nat)
    requires i < |s.readers| && (Left(s.readers[i]) || (a == Read(i, JoinTaken) && Enabled(s, a)))
    ensures i < |Step(s, a).readers| && Left(Step(s, a).readers[i])
  {
    if Enabled(s, a) && !TouchesReaders(a) { OthersLeaveReaders(s, a); }
  }

  lemma {:induction false} LeftForARefusal(acts: seq<Action>, i: nat) returns (k: nat)
    requires NoLibraryFailure(acts, i)
    requires var s := Exec(INIT, acts); i < |s.readers| && !s.cancelled && Left(s.readers[i])
    ensures JoinRefused(acts, k, i)
  {
    var n := |acts| - 1;
    var prev := Exec(INIT, acts[..n]);
    LeavingStep(prev, acts[n], i);
    if Left(prev.readers[i]) {
      k := LeftForARefusal(acts[..n], i);
      assert acts[..n][..k] == acts[..k];
    } else {
      k := n;
    }
  }

  lemma {:induction false} RefusedLeaves(acts: seq<Action>, k: nat, i: nat)
    requires JoinRefused(acts, k, i)
    ensures i < |Exec(INIT, acts).readers| && Left(Exec(INIT, acts).readers[i])
  {
    var n := |acts| - 1;
    if k < n {
      assert acts[..n][..k] == acts[..k];
      RefusedLeaves(acts[..n], k, i);
    }
    LeftStays(Exec(INIT, acts[..n]), acts[n], i);
  }

  /** A reader that the library does not fail leaves before cancellation, and so closes its channel early, exactly when
      its join was refused because the topic was held by then. */
  lemma LeavesEarly(acts: seq<Action>, i: nat)
    requires NoLibraryFailure(acts, i)
    requires i < |Exec(INIT, acts).readers| && !Exec(INIT, acts).cancelled
    ensures Left(Exec(INIT, acts).readers[i]) <==> exists k :: JoinRefused(acts, k, i)
  {
    if Left(Exec(INIT, acts).readers[i]) { var _ := LeftForARefusal(acts, i); }
    if k :| JoinRefused(acts, k, i) { RefusedLeaves(acts, k, i); }
  }

  lemma NoFailureMore(acts: seq<Action>, more: seq<Action>)
    requires NoLibraryFailure(acts, 1) && NoLibraryFailure(more, 1)
    ensures NoLibraryFailure(acts + more, 1)
  {
  }

  function Both(t: Topic, first: Stage, second: Stage, wg: int): State {
    INIT.(wg := wg, readers := [Reader(t, first, None, 0, false, 0, 0), Reader(t, second, None, 0, false, 0, 0)])
  }

  /** The second reader's channel is closed on an open client. */
  predicate ClosedEarly(s: State) { !s.closed && |s.readers| == 2 && s.readers[1].stage.ChannelClosed? }

  lemma SecondJoinRefused(t: Topic)
    ensures var joined := Step(Both(t, Missing, Missing, 2), Read(0, JoinOk(0)));
            ClosedEarly(Step(Step(joined, Read(1, JoinTaken)), Read(1, CloseChannel)))
  {
    var joined := Step(Both(t, Missing, Missing, 2), Read(0, JoinOk(0)));
    assert CanMove(joined, joined.readers[1], JoinTaken);
    var refused := Step(joined, Read(1, JoinTaken));
    assert refused.readers[1].stage == Leaving;
  }

  lemma BothEnter(t: Topic) returns (acts: seq<Action>)
    ensures NoLibraryFailure(acts, 1) && Exec(INIT, acts) == Both(t, Started, Entering, 1)
  {
    acts := [Subscribe(t), Subscribe(t), Read(0, CheckClosed)];
    Run3(Step, INIT, [], Subscribe(t), Subscribe(t), Read(0, CheckClosed));
    assert [] + acts == acts;
    assert Step(Step(INIT, Subscribe(t)), Subscribe(t)) == Both(t, Entering, Entering, 0);
    assert Step(Both(t, Entering, Entering, 0), Read(0, CheckClosed)) == Both(t, Started, Entering, 1);
  }

  lemma BothLookUp(t: Topic)
    ensures Step(Both(t, Started, Entering, 1), Read(1, CheckClosed)) == Both(t, Started, Started, 2)
    ensures Step(Both(t, Started, Started, 2), Read(0, Lookup)) == Both(t, Missing, Started, 2)
  {
  }

  lemma SecondLooksUp(t: Topic)
    ensures Step(Both(t, Missing, Started, 2), Read(1, Lookup)) == Both(t, Missing, Missing, 2)
  {
  }

  lemma BothMiss(t: Topic) returns (acts: seq<Action>)
    ensures NoLibraryFailure(acts, 1) && Exec(INIT, acts) == Both(t, Missing, Missing, 2)
  {
    acts := BothEnter(t);
    var lookups := [Read(1, CheckClosed), Read(0, Lookup), Read(1, Lookup)];
    Run3(Step, INIT, acts, Read(1, CheckClosed), Read(0, Lookup), Read(1, Lookup));
    BothLookUp(t);
    SecondLooksUp(t);
    NoFailureMore(acts, lookups);
    acts := acts + lookups;
  }

  /** It does happen: of two Subscribes of one topic, both miss it in the topic map, and the one that joins second is
      refused and closes its channel on an open client. */
  lemma SecondSubscribeRefused(t: Topic)
    ensures exists acts: seq<Action> :: NoLibraryFailure(acts, 1) && ClosedEarly(Exec(INIT, acts))
  {
    var acts := BothMiss(t);
    var last := [Read(0, JoinOk(0)), Read(1, JoinTaken), Read(1, CloseChannel)];
    SecondJoinRefused(t);
    Run3(Step, INIT, acts, Read(0, JoinOk(0)), Read(1, JoinTaken), Read(1, CloseChannel));
    NoFailureMore(acts, last);
    assert ClosedEarly(Exec(INIT, acts + last));
  }

  // ----- readers leave

  /** How many more steps of its own a reader can take before its channel is closed. */
  function Distance(r: Reader): nat {
    match r.stage
    case Entering => 3 * r.queued + 10
    case Started => 3 * r.queued + 9
    case Missing => 3 * r.queued + 8
    case Joined(_) => 3 * r.queued + 7
    case HasTopic => 3 * r.queued + 6
    case Subscribed => 3 * r.queued + 5
    case Handling => 3 * r.queued + 4
    case Stored => 3 * r.queued + 4
    case Signalled => 3 * r.queued + 3
    case Sending => 3 * r.queued + 3
    case Receiving => 3 * r.queued + 2
    case Leaving => 1
    case Refused => 1
    case _ => 0
  }

  /** The steps that reader i takes in a schedule while its channel is open. */
  function OwnSteps(s: State, acts: seq<Action>, i: nat): nat {
    if acts == [] then 0
    else
      var n := |acts| - 1;
      var prev := Exec(s, acts[..n]);
      OwnSteps(s, acts[..n], i) +
      if acts[n].Read? && acts[n].i == i && Enabled(prev, acts[n]) && !HasClosed(prev.readers[i]) then 1 else 0
  }

  function Arrivals(acts: seq<Action>, i: nat): nat {
    if acts == [] then 0
    else Arrivals(acts[..|acts| - 1], i) + if acts[|acts| - 1] == Arrive(i) then 1 else 0
  }

  lemma MoveDistance(s: State, r: Reader, m: Move)
    requires s.cancelled && CanMove(s, r, m) && !HasClosed(r)
    ensures Distance(Moved(s, r, m)) < Distance(r)
  {
  }

  lemma StepDistance(s: State, a: Action, i: nat)
    requires s.cancelled && i < |s.readers|
    ensures i < |Step(s, a).readers| && Step(s, a).cancelled
    ensures var d, d' := Distance(s.readers[i]), Distance(Step(s, a).readers[i]);
            && d' <= d + (if a == Arrive(i) then 3 else 0)
            && (a.Read? && a.i == i && Enabled(s, a) && !HasClosed(s.readers[i]) ==> d' < d)
  {
    if Enabled(s, a) {
      CancelledStays(s, a);
      if !TouchesReaders(a) {
        OthersLeaveReaders(s, a);
      } else if a.Read? && a.i == i && !HasClosed(s.readers[i]) {
        MoveDistance(s, s.readers[i], a.move);
      }
    }
  }

  lemma FreshHandle(used: set<Handle>) returns (h: Handle)
    ensures h !in used
  {
    h := 0;
    var rest := used;
    while rest != {}
      invariant rest <= used && forall u :: u in used && u !in rest ==> u < h
    {
      var u :| u in rest;
      rest := rest - {u};
      if u >= h { h := u + 1; }
    }
  }

  lemma CancelledNotStuck(s: State, i: nat)
    requires s.cancelled && i < |s.readers| && !HasClosed(s.readers[i])
    ensures exists m :: CanMove(s, s.readers[i], m) && !LibraryFailure(m)
  {
    var r := s.readers[i];
    var h := FreshHandle(s.joins.owners.Keys);
    var m := match r.stage
      case Entering => CheckClosed
      case Refused => RefuseClose
      case Started => Lookup
      case Missing => if r.topic in s.joins.live then JoinTaken else JoinOk(h)
      case Joined(_) => StoreTopic
      case HasTopic => SubscribeOk
      case Subscribed => StoreSub
      case Stored => Signal
      case Signalled => Notify
      case Receiving => NextCancelled
      case Handling => Drop
      case Sending => GiveUp
      case _ => CloseChannel;
    assert CanMove(s, r, m) && !LibraryFailure(m);
  }

  lemma {:induction false} DistanceOverRun(s: State, acts: seq<Action>, i: nat)
    requires s.cancelled && i < |s.readers|
    ensures i < |Exec(s, acts).readers| && Exec(s, acts).cancelled
    ensures OwnSteps(s, acts, i) + Distance(Exec(s, acts).readers[i]) <= Distance(s.readers[i]) + 3 * Arrivals(acts, i)
  {
    if acts == [] {
    } else {
      var n := |acts| - 1;
      DistanceOverRun(s, acts[..n], i);
      StepDistance(Exec(s, acts[..n]), acts[n], i);
    }
  }

  lemma DistanceRange(r: Reader)
    ensures Distance(r) <= 10 + 3 * r.queued && (Distance(r) == 0 <==> HasClosed(r))
  {
  }

  /** After cancellation a reader is never stuck, and from any stage it closes its channel within ten steps of its
      own plus three for every message that is or gets queued, whichever ready branch each select takes. */
  lemma ReadersLeave(s: State, acts: seq<Action>, i: nat)
    requires s.cancelled && i < |s.readers|
    ensures i < |Exec(s, acts).readers|
    ensures var r := Exec(s, acts).readers[i];
            && (!HasClosed(r) ==> exists m :: CanMove(Exec(s, acts), r, m))
            && OwnSteps(s, acts, i) <= 10 + 3 * (s.readers[i].queued + Arrivals(acts, i))
            && (OwnSteps(s, acts, i) >= 10 + 3 * (s.readers[i].queued + Arrivals(acts, i)) ==> HasClosed(r))
  {
    DistanceOverRun(s, acts, i);
    DistanceRange(s.readers[i]);
    DistanceRange(Exec(s, acts).readers[i]);
    if !HasClosed(Exec(s, acts).readers[i]) {
      CancelledNotStuck(Exec(s, acts), i);
    }
  }
}
