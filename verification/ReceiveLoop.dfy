/** Any number of subscription readers sharing one peer tracker, one critical section or channel operation a step. */
module ReceiveLoop {
  import opened Common
  import opened Counting
  import Pieces
  import opened Runs
  import opened Utf8
  import opened Sanitizer
  import opened PeerTracking

  datatype Payload = Malformed | Envelope(name: Bytes, data: Bytes)

  datatype Msg = Msg(author: PeerId, payload: Payload)

  datatype Delivery = Delivery(from: Bytes, fromId: PeerId, data: Bytes)

  /** What a reader does with message |kept| of its stream. */
  datatype Stage =
    | Waiting
    | Pulled
    | Passed
    | Named(name: Bytes)
    | Sending(delivery: Delivery)
    | Exited

  /** kept says of each message finished with whether it went into the channel: buffer, then received by the
      consumer. */
  datatype Reader = Reader(stream: seq<Msg>, kept: seq<bool>, stage: Stage, buffer: seq<Delivery>,
                           received: seq<Delivery>)
  {
    function Done(): seq<Msg>
      requires |kept| <= |stream|
    {
      stream[..|kept|]
    }

    function Finish(keep: bool): Reader { this.(kept := kept + [keep], stage := Waiting) }
  }

  /** latched lists the peers for which a call of recordMalformed reported justSkipped. */
  datatype State = State(
    self: PeerId,
    isPrint: Rune -> bool,
    tracker: Tracker,
    readers: seq<Reader>,
    cancelled: bool,
    now: int,
    latched: multiset<PeerId>)

  function Init(self: PeerId, isPrint: Rune -> bool, streams: seq<seq<Msg>>): State {
    State(self, isPrint, EMPTY,
          seq(|streams|, i requires 0 <= i < |streams| => Reader(streams[i], [], Waiting, [], [])),
          false, 0, multiset{})
  }

  datatype Action =
    | Cancel
    | Clock(to: int)
    | Pull(i: nat)
    | Check(i: nat)
    | Parse(i: nat)
    | Record(i: nat)
    | Send(i: nat)
    | Quit(i: nat)
    | Receive(i: nat)

  predicate Enabled(s: State, a: Action) {
    match a
    case Cancel => true
    case Clock(_) => true
    case Pull(i) => i < |s.readers| && s.readers[i].stage.Waiting? && |s.readers[i].kept| < |s.readers[i].stream|
    case Check(i) => i < |s.readers| && s.readers[i].stage.Pulled? && |s.readers[i].kept| < |s.readers[i].stream|
    case Parse(i) => i < |s.readers| && s.readers[i].stage.Passed? && |s.readers[i].kept| < |s.readers[i].stream|
    case Record(i) => i < |s.readers| && s.readers[i].stage.Named? && |s.readers[i].kept| < |s.readers[i].stream|
    case Send(i) => i < |s.readers| && s.readers[i].stage.Sending? && |s.readers[i].buffer| < CHANNEL_CAPACITY
    // the subscription may fail at any time; a blocked send gives up only on cancellation
    case Quit(i) => i < |s.readers| && (s.readers[i].stage.Waiting? || (s.readers[i].stage.Sending? && s.cancelled))
    case Receive(i) => i < |s.readers| && s.readers[i].buffer != []
  }

  function DeliveryOf(isPrint: Rune -> bool, m: Msg): Delivery
    requires m.payload.Envelope?
  {
    Delivery(Sanitized(isPrint, m.payload.name), m.author, m.payload.data)
  }

  function Pushed(r: Reader, d: Delivery): Reader { r.Finish(true).(buffer := r.buffer + [d]) }

  function Put(s: State, i: nat, r: Reader): State
    requires i < |s.readers|
  {
    s.(readers := s.readers[i := r])
  }

  function Apply(s: State, a: Action): State
    requires Enabled(s, a)
  {
    match a
    case Cancel => s.(cancelled := true)
    case Clock(to) => s.(now := to)
    case Pull(i) =>
      var r := s.readers[i];
      Put(s, i, if r.stream[|r.kept|].author == s.self then r.Finish(false) else r.(stage := Pulled))
    case Check(i) =>
      var r := s.readers[i];
      Put(s, i, if r.stream[|r.kept|].author in s.tracker.skipped then r.Finish(false) else r.(stage := Passed))
    case Parse(i) =>
      var r := s.readers[i];
      var m := r.stream[|r.kept|];
      (match m.payload
       case Malformed =>
         Put(s, i, r.Finish(false)).(
           tracker := WithMalformed(s.tracker, m.author),
           latched := if JustSkips(s.tracker, m.author) then s.latched + multiset{m.author} else s.latched)
       case Envelope(name, _) =>
         Put(s, i, r.(stage := Named(Sanitized(s.isPrint, name)))).(
           tracker := WithName(s.isPrint, s.tracker, m.author, name)))
    case Record(i) =>
      var r := s.readers[i];
      var m := r.stream[|r.kept|];
      var data := if m.payload.Envelope? then m.payload.data else [];
      Put(s, i, r.(stage := Sending(Delivery(r.stage.name, m.author, data)))).(
        tracker := WithMessageFrom(s.tracker, m.author, s.now))
    case Send(i) =>
      var r := s.readers[i];
      Put(s, i, Pushed(r, r.stage.delivery))
    case Quit(i) => Put(s, i, s.readers[i].(stage := Exited))
    case Receive(i) =>
      var r := s.readers[i];
      Put(s, i, r.(buffer := r.buffer[1..], received := r.received + [r.buffer[0]]))
  }

  function Step(s: State, a: Action): State { if Enabled(s, a) then Apply(s, a) else s }

  function Exec(s: State, acts: seq<Action>): State { Run(Step, s, acts) }

  // ----- the reference: a filter of one stream

  function MalformedFrom(ms: seq<Msg>, id: PeerId): int {
    if ms == [] then 0
    else
      var m := ms[|ms| - 1];
      MalformedFrom(ms[..|ms| - 1], id) + if m.author == id && m.payload.Malformed? then 1 else 0
  }

  predicate Candidate(self: PeerId, m: Msg) { m.author != self && m.payload.Envelope? }

  /** Message k is wanted: not ours, parseable, and its author's malformed ones before it, with those that the tracker
      knew of already, are fewer than five. */
  predicate WantedAfter(known: Tracker, self: PeerId, ms: seq<Msg>, k: nat)
    requires k < |ms|
  {
    Candidate(self, ms[k]) && Count(known, ms[k].author) + MalformedFrom(ms[..k], ms[k].author) < MALFORMED_THRESHOLD
  }

  predicate Wanted(self: PeerId, ms: seq<Msg>, k: nat)
    requires k < |ms|
  {
    WantedAfter(EMPTY, self, ms, k)
  }

  function Deliveries(isPrint: Rune -> bool, ms: seq<Msg>, kept: seq<bool>): seq<Delivery>
    requires |kept| == |ms|
    requires forall k :: 0 <= k < |ms| && kept[k] ==> ms[k].payload.Envelope?
  {
    if ms == [] then []
    else
      var n := |ms| - 1;
      Deliveries(isPrint, ms[..n], kept[..n]) + if kept[n] then [DeliveryOf(isPrint, ms[n])] else []
  }

  function FilteredAfter(isPrint: Rune -> bool, known: Tracker, self: PeerId, ms: seq<Msg>): seq<Delivery> {
    if ms == [] then []
    else
      var n := |ms| - 1;
      FilteredAfter(isPrint, known, self, ms[..n]) +
      if WantedAfter(known, self, ms, n) then [DeliveryOf(isPrint, ms[n])] else []
  }

  function Filtered(isPrint: Rune -> bool, self: PeerId, ms: seq<Msg>): seq<Delivery> {
    FilteredAfter(isPrint, EMPTY, self, ms)
  }

  // ----- the malformed latch

  function Pending(id: PeerId): Reader -> int {
    (r: Reader) =>
      if r.stage.Passed? && |r.kept| < |r.stream| && r.stream[|r.kept|] == Msg(id, Malformed) then 1 else 0
  }

  function Seen(id: PeerId): Reader -> int {
    (r: Reader) => if |r.kept| <= |r.stream| then MalformedFrom(r.Done(), id) else 0
  }

  /** For one peer: the latch is its count at the threshold; the count stays within what the readers have seen, and
      with the reports in flight within their number plus four; the transition is reported once. */
  predicate LatchOf(s: State, id: PeerId) {
    var count := Count(s.tracker, id);
    && count >= 0
    && (id in s.tracker.skipped <==> count >= MALFORMED_THRESHOLD)
    && s.latched[id] == (if id in s.tracker.skipped then 1 else 0)
    && count + Sum(s.readers, Pending(id)) <= |s.readers| + 4
    && count <= Sum(s.readers, Seen(id))
    && (id != s.self && id !in s.tracker.skipped ==>
          forall i :: 0 <= i < |s.readers| ==> Seen(id)(s.readers[i]) <= count)
  }

  /** What is kept is wanted and its author recorded; a candidate is dropped only when its author is latched. */
  predicate KeptOk(self: PeerId, t: Tracker, r: Reader) {
    && |r.kept| <= |r.stream|
    && (forall k :: 0 <= k < |r.kept| && r.kept[k] ==> Wanted(self, r.stream, k) && r.stream[k].author in t.topicPeers)
    && (forall k :: 0 <= k < |r.kept| && !r.kept[k] && Candidate(self, r.stream[k]) ==> r.stream[k].author in t.skipped)
  }

  /** What went through the channel, in order, is what was kept. */
  predicate ChannelOk(isPrint: Rune -> bool, r: Reader) {
    && |r.kept| <= |r.stream|
    && (forall k :: 0 <= k < |r.kept| && r.kept[k] ==> r.stream[k].payload.Envelope?)
    && r.received + r.buffer == Deliveries(isPrint, r.Done(), r.kept)
    && |r.buffer| <= CHANNEL_CAPACITY
  }

  predicate StageOk(s: State, r: Reader)
    requires !r.stage.Waiting? && !r.stage.Exited? ==> |r.kept| < |r.stream|
  {
    if r.stage.Waiting? || r.stage.Exited? then true
    else
      var m := r.stream[|r.kept|];
      match r.stage
      case Pulled => m.author != s.self
      case Passed => m.author != s.self && (m.payload.Envelope? ==> Wanted(s.self, r.stream, |r.kept|))
      case Named(name) => Wanted(s.self, r.stream, |r.kept|) && name == Sanitized(s.isPrint, m.payload.name)
      case Sending(d) =>
        Wanted(s.self, r.stream, |r.kept|) && d == DeliveryOf(s.isPrint, m) && m.author in s.tracker.topicPeers
      case _ => true
  }

  predicate ReaderOk(s: State, r: Reader) {
    && KeptOk(s.self, s.tracker, r)
    && ChannelOk(s.isPrint, r)
    && (!r.stage.Waiting? && !r.stage.Exited? ==> |r.kept| < |r.stream|)
    && StageOk(s, r)
  }

  predicate NamesClean(isPrint: Rune -> bool, names: map<PeerId, Bytes>) {
    forall id :: id in names ==> Sanitized(isPrint, names[id]) == names[id]
  }

  ghost predicate Inv(s: State) {
    (forall id :: LatchOf(s, id)) && (forall i :: 0 <= i < |s.readers| ==> ReaderOk(s, s.readers[i]))
    && NamesClean(s.isPrint, s.tracker.names)
  }

  lemma SeenMore(r: Reader, keep: bool, id: PeerId)
    requires |r.kept| < |r.stream|
    ensures Seen(id)(r.Finish(keep)) == Seen(id)(r) + if r.stream[|r.kept|] == Msg(id, Malformed) then 1 else 0
  {
    assert r.Finish(keep).Done()[..|r.kept|] == r.Done();
  }

  /** Replacing reader i when the tracker stays: its own count may only be settled or grow within the bound. */
  lemma LatchKept(s: State, i: nat, r': Reader, id: PeerId)
    requires LatchOf(s, id) && i < |s.readers|
    requires Seen(id)(s.readers[i]) <= Seen(id)(r')
    requires Seen(id)(r') == Seen(id)(s.readers[i]) || id == s.self || id in s.tracker.skipped
    requires Pending(id)(r') <= Pending(id)(s.readers[i]) || id !in s.tracker.skipped
    ensures LatchOf(Put(s, i, r'), id)
  {
    SumUpdate(s.readers, i, r', Pending(id));
    SumUpdate(s.readers, i, r', Seen(id));
    SumBounds(s.readers[i := r'], Pending(id), 1);
  }

  lemma LatchReported(s: State, i: nat, id: PeerId)
    requires LatchOf(s, id) && Enabled(s, Parse(i)) && ReaderOk(s, s.readers[i])
    requires s.readers[i].stream[|s.readers[i].kept|].payload.Malformed?
    ensures LatchOf(Apply(s, Parse(i)), id)
  {
    var r := s.readers[i];
    var r' := r.Finish(false);
    SeenMore(r, false, id);
    SumUpdate(s.readers, i, r', Pending(id));
    SumUpdate(s.readers, i, r', Seen(id));
    var s' := Apply(s, Parse(i));
    assert s'.readers == s.readers[i := r'];
    if r.stream[|r.kept|].author == id {
      assert Pending(id)(r) == 1 && Pending(id)(r') == 0;
    } else {
      assert s'.latched[id] == s.latched[id];
    }
  }

  /** Steps that report nothing leave the counts alone and replace one reader. */
  lemma QuietFrame(s: State, a: Action)
    requires Enabled(s, a) && !a.Cancel? && !a.Clock?
    requires a.Parse? ==> !s.readers[a.i].stream[|s.readers[a.i].kept|].payload.Malformed?
    ensures var s' := Apply(s, a);
            && a.i < |s'.readers| && s'.readers == s.readers[a.i := s'.readers[a.i]] && s'.self == s.self
            && s'.latched == s.latched && s'.tracker.malformed == s.tracker.malformed
            && s'.tracker.skipped == s.tracker.skipped
  {
  }

  /** Such a step neither settles a pending report nor, but for skipped or own messages, counts another one. */
  lemma QuietWeights(s: State, a: Action, id: PeerId)
    requires Enabled(s, a) && !a.Cancel? && !a.Clock? && ReaderOk(s, s.readers[a.i])
    requires a.Parse? ==> !s.readers[a.i].stream[|s.readers[a.i].kept|].payload.Malformed?
    ensures a.i < |Apply(s, a).readers|
    ensures var r, r' := s.readers[a.i], Apply(s, a).readers[a.i];
            && Seen(id)(r) <= Seen(id)(r')
            && (Seen(id)(r') == Seen(id)(r) || id == s.self || id in s.tracker.skipped)
            && (Pending(id)(r') <= Pending(id)(r) || id !in s.tracker.skipped)
  {
    var r, r' := s.readers[a.i], Apply(s, a).readers[a.i];
    if |r'.kept| > |r.kept| {
      SeenMore(r, r'.kept[|r.kept|], id);
      assert r'.kept == r.kept + [r'.kept[|r.kept|]];
      assert Seen(id)(r') == Seen(id)(r.Finish(r'.kept[|r.kept|]));
    } else {
      assert r'.kept == r.kept && r'.stream == r.stream;
    }
  }

  lemma LatchQuiet(s: State, a: Action, id: PeerId)
    requires LatchOf(s, id) && Enabled(s, a) && !a.Cancel? && !a.Clock? && ReaderOk(s, s.readers[a.i])
    requires a.Parse? ==> !s.readers[a.i].stream[|s.readers[a.i].kept|].payload.Malformed?
    ensures LatchOf(Apply(s, a), id)
  {
    QuietFrame(s, a);
    QuietWeights(s, a, id);
    LatchKept(s, a.i, Apply(s, a).readers[a.i], id);
  }

  lemma LatchStep(s: State, a: Action, id: PeerId)
    requires LatchOf(s, id) && Enabled(s, a)
    requires !a.Cancel? && !a.Clock? ==> ReaderOk(s, s.readers[a.i])
    ensures LatchOf(Apply(s, a), id)
  {
    if !a.Cancel? && !a.Clock? {
      var r := s.readers[a.i];
      if a.Parse? && r.stream[|r.kept|].payload.Malformed? {
        LatchReported(s, a.i, id);
      } else {
        LatchQuiet(s, a, id);
      }
    }
  }

  lemma KeptMore(self: PeerId, t: Tracker, r: Reader, keep: bool)
    requires KeptOk(self, t, r) && |r.kept| < |r.stream|
    requires var m := r.stream[|r.kept|];
             if keep then Wanted(self, r.stream, |r.kept|) && m.author in t.topicPeers
             else Candidate(self, m) ==> m.author in t.skipped
    ensures KeptOk(self, t, r.Finish(keep))
  {
  }

  lemma DeliveriesMore(isPrint: Rune -> bool, r: Reader, keep: bool)
    requires ChannelOk(isPrint, r) && |r.kept| < |r.stream|
    requires keep ==> r.stream[|r.kept|].payload.Envelope?
    ensures var r' := r.Finish(keep);
            && (forall k :: 0 <= k < |r'.kept| && r'.kept[k] ==> r'.stream[k].payload.Envelope?)
            && Deliveries(isPrint, r'.Done(), r'.kept) ==
               Deliveries(isPrint, r.Done(), r.kept) + if keep then [DeliveryOf(isPrint, r.stream[|r.kept|])] else []
  {
    var r' := r.Finish(keep);
    assert r'.Done()[..|r.kept|] == r.Done() && r'.kept[..|r.kept|] == r.kept;
  }

  lemma ChannelMore(isPrint: Rune -> bool, r: Reader, keep: bool)
    requires ChannelOk(isPrint, r) && |r.kept| < |r.stream|
    requires keep ==> r.stream[|r.kept|].payload.Envelope? && |r.buffer| < CHANNEL_CAPACITY
    ensures ChannelOk(isPrint, if keep then Pushed(r, DeliveryOf(isPrint, r.stream[|r.kept|])) else r.Finish(false))
  {
    DeliveriesMore(isPrint, r, keep);
    if keep {
      var d := DeliveryOf(isPrint, r.stream[|r.kept|]);
      assert r.received + (r.buffer + [d]) == r.received + r.buffer + [d];
    }
  }

  lemma ReaderMonotone(s: State, s': State, r: Reader)
    requires ReaderOk(s, r) && s'.self == s.self && s'.isPrint == s.isPrint
    requires s.tracker.skipped <= s'.tracker.skipped && s.tracker.topicPeers <= s'.tracker.topicPeers
    ensures ReaderOk(s', r)
  {
  }

  lemma OwnSend(s: State, i: nat)
    requires Enabled(s, Send(i)) && ReaderOk(s, s.readers[i])
    ensures ReaderOk(Apply(s, Send(i)), Apply(s, Send(i)).readers[i])
  {
    var r := s.readers[i];
    KeptMore(s.self, s.tracker, r, true);
    ChannelMore(s.isPrint, r, true);
  }

  lemma OwnDrop(s: State, r: Reader)
    requires ReaderOk(s, r) && |r.kept| < |r.stream|
    requires Candidate(s.self, r.stream[|r.kept|]) ==> r.stream[|r.kept|].author in s.tracker.skipped
    ensures ReaderOk(s, r.Finish(false))
  {
    KeptMore(s.self, s.tracker, r, false);
    ChannelMore(s.isPrint, r, false);
  }

  lemma OwnReceive(s: State, i: nat)
    requires Enabled(s, Receive(i)) && ReaderOk(s, s.readers[i])
    ensures ReaderOk(Apply(s, Receive(i)), Apply(s, Receive(i)).readers[i])
  {
    var r := s.readers[i];
    assert r.received + [r.buffer[0]] + r.buffer[1..] == r.received + r.buffer;
  }

  /** The check lets a candidate pass only while its author's count is low, so it is wanted. */
  lemma OwnCheck(s: State, i: nat)
    requires Enabled(s, Check(i)) && ReaderOk(s, s.readers[i])
    requires LatchOf(s, s.readers[i].stream[|s.readers[i].kept|].author)
    ensures ReaderOk(Apply(s, Check(i)), Apply(s, Check(i)).readers[i])
  {
    var r := s.readers[i];
    var m := r.stream[|r.kept|];
    if m.author in s.tracker.skipped {
      OwnDrop(s, r);
    } else {
      assert Seen(m.author)(r) < MALFORMED_THRESHOLD;
      assert r.stream[..|r.kept|] == r.Done();
    }
  }

  lemma OwnParse(s: State, i: nat)
    requires Enabled(s, Parse(i)) && ReaderOk(s, s.readers[i])
    ensures ReaderOk(Apply(s, Parse(i)), Apply(s, Parse(i)).readers[i])
  {
    var r := s.readers[i];
    var s' := Apply(s, Parse(i));
    if r.stream[|r.kept|].payload.Malformed? {
      OwnDrop(s, r);
      ReaderMonotone(s, s', r.Finish(false));
    }
  }

  lemma OwnRecord(s: State, i: nat)
    requires Enabled(s, Record(i)) && ReaderOk(s, s.readers[i])
    ensures ReaderOk(Apply(s, Record(i)), Apply(s, Record(i)).readers[i])
  {
  }

  lemma OwnStep(s: State, a: Action)
    requires Enabled(s, a) && !a.Cancel? && !a.Clock? && ReaderOk(s, s.readers[a.i])
    requires a.Check? ==> LatchOf(s, s.readers[a.i].stream[|s.readers[a.i].kept|].author)
    ensures ReaderOk(Apply(s, a), Apply(s, a).readers[a.i])
  {
    var r := s.readers[a.i];
    match a {
      case Receive(i) => OwnReceive(s, i);
      case Quit(_) =>
      case Send(i) => OwnSend(s, i);
      case Record(i) => OwnRecord(s, i);
      case Check(i) => OwnCheck(s, i);
      case Pull(_) => if r.stream[|r.kept|].author == s.self { OwnDrop(s, r); }
      case Parse(i) => OwnParse(s, i);
    }
  }

  lemma ReaderStep(s: State, a: Action, j: nat)
    requires Inv(s) && Enabled(s, a) && j < |s.readers|
    ensures ReaderOk(Apply(s, a), Apply(s, a).readers[j])
  {
    if a.Cancel? || a.Clock? || a.i != j {
      ReaderMonotone(s, Apply(s, a), s.readers[j]);
    } else {
      OwnStep(s, a);
    }
  }

  lemma NameStored(isPrint: Rune -> bool, names: map<PeerId, Bytes>, id: PeerId, name: Bytes)
    requires NamesClean(isPrint, names)
    ensures NamesClean(isPrint, names[id := Sanitized(isPrint, name)])
  {
    SanitizeTwice(isPrint, name);
  }

  lemma NamesStep(s: State, a: Action)
    requires NamesClean(s.isPrint, s.tracker.names) && Enabled(s, a)
    ensures NamesClean(s.isPrint, Apply(s, a).tracker.names)
  {
    if a.Parse? {
      var m := s.readers[a.i].stream[|s.readers[a.i].kept|];
      if m.payload.Envelope? { NameStored(s.isPrint, s.tracker.names, m.author, m.payload.name); }
    }
  }

  ghost predicate SameReaders(s: State, s': State) {
    s'.self == s.self && s'.isPrint == s.isPrint && |s'.readers| == |s.readers|
    && forall i :: 0 <= i < |s.readers| ==> s'.readers[i].stream == s.readers[i].stream
  }

  lemma ShapeStep(s: State, a: Action)
    ensures SameReaders(s, Step(s, a))
  {
  }

  lemma InvStep(s: State, a: Action)
    requires Inv(s) && Enabled(s, a)
    ensures Inv(Apply(s, a))
  {
    var s' := Apply(s, a);
    ShapeStep(s, a);
    NamesStep(s, a);
    forall id ensures LatchOf(s', id) {
      assert LatchOf(s, id);
      LatchStep(s, a, id);
    }
    forall j | 0 <= j < |s'.readers| ensures ReaderOk(s', s'.readers[j]) { ReaderStep(s, a, j); }
  }

  // ----- every run

  lemma InitOk(self: PeerId, isPrint: Rune -> bool, streams: seq<seq<Msg>>)
    ensures Inv(Init(self, isPrint, streams))
  {
    var s := Init(self, isPrint, streams);
    forall id ensures LatchOf(s, id) {
      SumBounds(s.readers, Pending(id), 0);
      SumBounds(s.readers, Seen(id), 0);
    }
  }

  lemma {:induction false} RunOk(s: State, acts: seq<Action>)
    requires Inv(s)
    ensures Inv(Exec(s, acts)) && SameReaders(s, Exec(s, acts))
  {
    if acts == [] {
    } else {
      var prev, a := Exec(s, acts[..|acts| - 1]), acts[|acts| - 1];
      RunOk(s, acts[..|acts| - 1]);
      ShapeStep(prev, a);
      if Enabled(prev, a) { InvStep(prev, a); }
    }
  }

  lemma EveryRunOk(self: PeerId, isPrint: Rune -> bool, streams: seq<seq<Msg>>, acts: seq<Action>)
    ensures Inv(Exec(Init(self, isPrint, streams), acts))
    ensures SameReaders(Init(self, isPrint, streams), Exec(Init(self, isPrint, streams), acts))
  {
    InitOk(self, isPrint, streams);
    RunOk(Init(self, isPrint, streams), acts);
  }

  /** With any number of readers, in every interleaving: a peer is skipped exactly from its fifth recorded malformed
      message on, the transition is reported exactly once, and its count stays within the number of readers plus
      four. */
  lemma MalformedLatch(self: PeerId, isPrint: Rune -> bool, streams: seq<seq<Msg>>, acts: seq<Action>, id: PeerId)
    ensures var s := Exec(Init(self, isPrint, streams), acts);
            && (id in s.tracker.skipped <==> Count(s.tracker, id) >= 5)
            && s.latched[id] == (if id in s.tracker.skipped then 1 else 0)
            && Count(s.tracker, id) <= |streams| + 4
  {
    var s := Exec(Init(self, isPrint, streams), acts);
    EveryRunOk(self, isPrint, streams, acts);
    assert LatchOf(s, id);
    SumBounds(s.readers, Pending(id), 1);
  }

  /** When peer id's last message was recorded in a run, if one was. */
  function LastRecord(s: State, acts: seq<Action>, id: PeerId): Option<int> {
    if acts == [] then None
    else
      var n := |acts| - 1;
      var prev, a := Exec(s, acts[..n]), acts[n];
      if a.Record? && Enabled(prev, a) && prev.readers[a.i].stream[|prev.readers[a.i].kept|].author == id then
        Some(prev.now)
      else LastRecord(s, acts[..n], id)
  }

  predicate SeenAt(t: Tracker, id: PeerId, at: Option<int>) {
    && (id in t.topicPeers <==> at.Some?) && (id in t.lastSeen <==> at.Some?)
    && (at.Some? ==> t.lastSeen[id] == at.value)
  }

  lemma SeenStep(s: State, a: Action, id: PeerId)
    requires Enabled(s, a)
    ensures var t, t' := s.tracker, Apply(s, a).tracker;
            if a.Record? && s.readers[a.i].stream[|s.readers[a.i].kept|].author == id then SeenAt(t', id, Some(s.now))
            else (id in t'.topicPeers <==> id in t.topicPeers) && (id in t'.lastSeen <==> id in t.lastSeen)
                 && (id in t.lastSeen ==> t'.lastSeen[id] == t.lastSeen[id])
  {
  }

  /** In every run the topic peers are those a message of whom was recorded, each with the time of the last one. */
  lemma {:induction false} TopicPeersAreRecorded(self: PeerId, isPrint: Rune -> bool, streams: seq<seq<Msg>>,
                                                 acts: seq<Action>, id: PeerId)
    ensures var init := Init(self, isPrint, streams);
            SeenAt(Exec(init, acts).tracker, id, LastRecord(init, acts, id))
  {
    if acts == [] {
    } else {
      var init := Init(self, isPrint, streams);
      var prev, a := Exec(init, acts[..|acts| - 1]), acts[|acts| - 1];
      TopicPeersAreRecorded(self, isPrint, streams, acts[..|acts| - 1], id);
      if Enabled(prev, a) { SeenStep(prev, a, id); }
    }
  }

  lemma {:induction false} SkippedIsPermanent(s: State, acts: seq<Action>)
    ensures s.tracker.skipped <= Exec(s, acts).tracker.skipped
  {
    if acts == [] {
    } else {
      SkippedIsPermanent(s, acts[..|acts| - 1]);
    }
  }

  /** Every stored name, in every run, is one that sanitizing leaves alone. */
  lemma StoredNamesAreSanitized(self: PeerId, isPrint: Rune -> bool, streams: seq<seq<Msg>>, acts: seq<Action>,
                                id: PeerId)
    requires id in Exec(Init(self, isPrint, streams), acts).tracker.names
    ensures var name := Exec(Init(self, isPrint, streams), acts).tracker.names[id];
            Valid(name) && |name| <= MAX_NAME_LEN && AllPrint(isPrint, DecodeAll(name))
  {
    EveryRunOk(self, isPrint, streams, acts);
    SanitizedIsFixedPoint(isPrint, Exec(Init(self, isPrint, streams), acts).tracker.names[id]);
  }

  /** What reader i has put into its channel is, in stream order, a selection of its wanted messages under their
      sanitized names, by recorded authors; a candidate is missing only if the readers together saw five malformed
      messages from its author. */
  lemma ChannelIsASelection(self: PeerId, isPrint: Rune -> bool, streams: seq<seq<Msg>>, acts: seq<Action>, i: nat)
    requires i < |streams|
    ensures |Exec(Init(self, isPrint, streams), acts).readers| == |streams|
    ensures var s := Exec(Init(self, isPrint, streams), acts);
            var r := s.readers[i];
            && |r.kept| <= |streams[i]| && |r.buffer| <= 100
            && (forall k :: 0 <= k < |r.kept| && r.kept[k] ==>
                  Wanted(self, streams[i], k) && streams[i][k].author in s.tracker.topicPeers)
            && r.received + r.buffer == Deliveries(isPrint, streams[i][..|r.kept|], r.kept)
            && (forall k :: 0 <= k < |r.kept| && !r.kept[k] && Candidate(self, streams[i][k]) ==>
                  Sum(s.readers, Seen(streams[i][k].author)) >= MALFORMED_THRESHOLD)
  {
    EveryRunOk(self, isPrint, streams, acts);
    var s := Exec(Init(self, isPrint, streams), acts);
    var r := s.readers[i];
    assert ReaderOk(s, r);
    forall k | 0 <= k < |r.kept| && !r.kept[k] && Candidate(self, streams[i][k])
      ensures Sum(s.readers, Seen(streams[i][k].author)) >= MALFORMED_THRESHOLD
    {
      assert LatchOf(s, streams[i][k].author);
    }
  }

  // ----- a reader that has the tracker to itself

  predicate DropsUnwanted(self: PeerId, r: Reader) {
    |r.kept| <= |r.stream| && forall k :: 0 <= k < |r.kept| && !r.kept[k] ==> !Wanted(self, r.stream, k)
  }

  lemma SoleCheck(s: State, r: Reader)
    requires s.readers == [r] && |r.kept| < |r.stream| && LatchOf(s, r.stream[|r.kept|].author)
    requires r.stream[|r.kept|].author in s.tracker.skipped
    ensures !Wanted(s.self, r.stream, |r.kept|)
  {
    var id := r.stream[|r.kept|].author;
    assert Sum(s.readers, Seen(id)) == Seen(id)(r) by { assert Sum(s.readers[..0], Seen(id)) == 0; }
    assert r.Done() == r.stream[..|r.kept|];
  }

  /** Every other step drops only messages that are no candidates. */
  lemma DropsStay(s: State, a: Action)
    requires Enabled(s, a) && !a.Cancel? && !a.Clock? && !a.Check? && ReaderOk(s, s.readers[a.i])
    requires DropsUnwanted(s.self, s.readers[a.i])
    ensures a.i < |Apply(s, a).readers| && DropsUnwanted(s.self, Apply(s, a).readers[a.i])
  {
    var r, r' := s.readers[a.i], Apply(s, a).readers[a.i];
    assert r'.stream == r.stream && (r'.kept == r.kept || |r'.kept| == |r.kept| + 1);
  }

  lemma SoleStep(s: State, a: Action)
    requires Inv(s) && Enabled(s, a) && |s.readers| == 1 && DropsUnwanted(s.self, s.readers[0])
    ensures |Apply(s, a).readers| == 1 && DropsUnwanted(s.self, Apply(s, a).readers[0])
  {
    var r := s.readers[0];
    assert s.readers == [r] && ReaderOk(s, r);
    if a.Check? {
      assert LatchOf(s, r.stream[|r.kept|].author);
      if r.stream[|r.kept|].author in s.tracker.skipped { SoleCheck(s, r); }
    } else if !a.Cancel? && !a.Clock? {
      DropsStay(s, a);
    }
  }

  lemma {:induction false} SoleRun(self: PeerId, isPrint: Rune -> bool, stream: seq<Msg>, acts: seq<Action>)
    ensures |Exec(Init(self, isPrint, [stream]), acts).readers| == 1
    ensures DropsUnwanted(self, Exec(Init(self, isPrint, [stream]), acts).readers[0])
  {
    EveryRunOk(self, isPrint, [stream], acts);
    if acts == [] {
    } else {
      var prev, a := Exec(Init(self, isPrint, [stream]), acts[..|acts| - 1]), acts[|acts| - 1];
      EveryRunOk(self, isPrint, [stream], acts[..|acts| - 1]);
      SoleRun(self, isPrint, stream, acts[..|acts| - 1]);
      if Enabled(prev, a) { SoleStep(prev, a); }
    }
  }

  lemma {:induction false} KeptIsFiltered(isPrint: Rune -> bool, self: PeerId, ms: seq<Msg>, kept: seq<bool>)
    requires |kept| == |ms| && forall k :: 0 <= k < |ms| ==> (kept[k] <==> Wanted(self, ms, k))
    requires forall k :: 0 <= k < |ms| && kept[k] ==> ms[k].payload.Envelope?
    ensures Deliveries(isPrint, ms, kept) == Filtered(isPrint, self, ms)
  {
    if ms == [] {
    } else {
      var n := |ms| - 1;
      forall k | 0 <= k < n ensures Wanted(self, ms[..n], k) == Wanted(self, ms, k) {
        assert ms[..n][..k] == ms[..k];
      }
      KeptIsFiltered(isPrint, self, ms[..n], kept[..n]);
    }
  }

  lemma {:induction false} FilteredPrefix(isPrint: Rune -> bool, self: PeerId, ms: seq<Msg>, k: nat)
    requires k <= |ms|
    ensures Filtered(isPrint, self, ms[..k]) <= Filtered(isPrint, self, ms)
  {
    if k == |ms| {
      assert ms[..k] == ms;
    } else {
      var n := |ms| - 1;
      FilteredPrefix(isPrint, self, ms[..n], k);
      assert ms[..n][..k] == ms[..k];
    }
  }

  /** The receive loop refines the filter: in every run the channel has carried exactly the wanted ones of the
      messages finished with, a prefix of what the filter makes of the whole stream. */
  lemma SoleReaderRefinesFilter(self: PeerId, isPrint: Rune -> bool, stream: seq<Msg>, acts: seq<Action>)
    ensures |Exec(Init(self, isPrint, [stream]), acts).readers| == 1
    ensures var r := Exec(Init(self, isPrint, [stream]), acts).readers[0];
            && |r.kept| <= |stream|
            && r.received + r.buffer == Filtered(isPrint, self, stream[..|r.kept|])
            && r.received + r.buffer <= Filtered(isPrint, self, stream)
  {
    EveryRunOk(self, isPrint, [stream], acts);
    SoleRun(self, isPrint, stream, acts);
    var s := Exec(Init(self, isPrint, [stream]), acts);
    var r := s.readers[0];
    assert ReaderOk(s, r);
    forall k | 0 <= k < |r.kept| ensures Wanted(self, r.Done(), k) == Wanted(self, stream, k) {
      assert r.Done()[..k] == stream[..k];
    }
    KeptIsFiltered(isPrint, self, r.Done(), r.kept);
    FilteredPrefix(isPrint, self, stream, |r.kept|);
  }

  // ----- the bound on the malformed count is reached

  ghost predicate Reachable(init: State, s: State) { exists acts :: Exec(init, acts) == s }

  lemma ReachableMore(init: State, s: State, a: Action)
    requires Reachable(init, s)
    ensures Reachable(init, Step(s, a))
  {
    var acts :| Exec(init, acts) == s;
    RunMore(Step, init, acts, a);
    assert Exec(init, acts + [a]) == Step(s, a);
  }

  /** Every reader has a malformed message of peer id at the given stage of being handled. */
  predicate Faces(r: Reader, id: PeerId, stage: Stage) {
    r.stage == stage && |r.kept| < |r.stream| && forall k :: 0 <= k < |r.stream| ==> r.stream[k] == Msg(id, Malformed)
  }

  predicate AllFace(s: State, id: PeerId, from: nat, to: nat, stage: Stage)
    requires from <= to <= |s.readers|
  {
    forall i :: from <= i < to ==> Faces(s.readers[i], id, stage)
  }

  /** Reader i pulls its next message, and it passes the check. */
  lemma PassesCheck(init: State, s: State, i: nat, id: PeerId) returns (s': State)
    requires Reachable(init, s) && i < |s.readers| && Faces(s.readers[i], id, Waiting)
    requires id != s.self && id !in s.tracker.skipped
    ensures Reachable(init, s') && s' == s.(readers := s.readers[i := s.readers[i].(stage := Passed)])
  {
    ReachableMore(init, s, Pull(i));
    s' := Step(s, Pull(i));
    ReachableMore(init, s', Check(i));
    s' := Step(s', Check(i));
  }

  /** The first reader reports k malformed messages, one after the other. */
  lemma {:induction false} FirstReports(init: State, s: State, id: PeerId, k: nat) returns (s': State)
    requires Reachable(init, s) && k < MALFORMED_THRESHOLD && id != s.self
    requires s.readers != [] && Faces(s.readers[0], id, Waiting) && |s.readers[0].kept| + k < |s.readers[0].stream|
    requires Count(s.tracker, id) == 0 && id !in s.tracker.skipped
    ensures Reachable(init, s') && s'.self == s.self && |s'.readers| == |s.readers| && s'.readers[1..] == s.readers[1..]
    ensures Faces(s'.readers[0], id, Waiting) && Count(s'.tracker, id) == k && id !in s'.tracker.skipped
    ensures s'.readers[0].stream == s.readers[0].stream && |s'.readers[0].kept| == |s.readers[0].kept| + k
  {
    if k == 0 {
      s' := s;
    } else {
      var prev := FirstReports(init, s, id, k - 1);
      var passed := PassesCheck(init, prev, 0, id);
      ReachableMore(init, passed, Parse(0));
      s' := Step(passed, Parse(0));
    }
  }

  /** The first k readers check before any of them reports. */
  lemma {:induction false} AllPass(init: State, s: State, id: PeerId, k: nat) returns (s': State)
    requires Reachable(init, s) && k <= |s.readers| && AllFace(s, id, 0, |s.readers|, Waiting)
    requires id != s.self && id !in s.tracker.skipped
    ensures Reachable(init, s') && s'.self == s.self && s'.tracker == s.tracker && |s'.readers| == |s.readers|
    ensures AllFace(s', id, 0, k, Passed) && AllFace(s', id, k, |s.readers|, Waiting)
  {
    if k == 0 {
      s' := s;
    } else {
      var prev := AllPass(init, s, id, k - 1);
      s' := PassesCheck(init, prev, k - 1, id);
    }
  }

  /** Then each of them reports. */
  lemma {:induction false} AllReport(init: State, s: State, id: PeerId, k: nat) returns (s': State)
    requires Reachable(init, s) && k <= |s.readers| && AllFace(s, id, 0, |s.readers|, Passed)
    ensures Reachable(init, s') && |s'.readers| == |s.readers|
    ensures AllFace(s', id, k, |s.readers|, Passed) && Count(s'.tracker, id) == Count(s.tracker, id) + k
  {
    if k == 0 {
      s' := s;
    } else {
      var prev := AllReport(init, s, id, k - 1);
      ReachableMore(init, prev, Parse(k - 1));
      s' := Step(prev, Parse(k - 1));
    }
  }

  /** With any number of readers some run reaches the bound: four reports, and then one of each reader that had
      checked before the fifth was recorded. */
  lemma MalformedBoundAttained(self: PeerId, isPrint: Rune -> bool, n: nat, id: PeerId)
    requires n > 0 && id != self
    ensures exists streams, acts ::
      |streams| == n && Count(Exec(Init(self, isPrint, streams), acts).tracker, id) == n + 4
  {
    var streams := Pieces.Repeat(Pieces.Repeat(Msg(id, Malformed), 5), n);
    var init := Init(self, isPrint, streams);
    assert Exec(init, []) == init;
    assert AllFace(init, id, 0, n, Waiting);
    var four := FirstReports(init, init, id, 4);
    assert forall i :: 0 < i < n ==> four.readers[i] == four.readers[1..][i - 1] == init.readers[1..][i - 1];
    var passed := AllPass(init, four, id, n);
    var all := AllReport(init, passed, id, n);
    var acts :| Exec(init, acts) == all;
  }

  // ----- every message is dealt with

  /** The steps by which reader i deals with its next message. */
  predicate DealsWith(a: Action, i: nat) {
    a == Pull(i) || a == Check(i) || a == Parse(i) || a == Record(i) || a == Send(i)
  }

  /** How many such steps reader i has left at most. */
  function StepsLeft(r: Reader): int {
    5 * (|r.stream| - |r.kept|) -
    match r.stage
    case Pulled => 1
    case Passed => 2
    case Named(_) => 3
    case Sending(_) => 4
    case _ => 0
  }

  predicate Nearer(s: State, s': State, i: nat)
    requires i < |s.readers|
  {
    i < |s'.readers| && 0 <= StepsLeft(s'.readers[i]) < StepsLeft(s.readers[i])
  }

  predicate Shaped(r: Reader) {
    |r.kept| <= |r.stream| && (!r.stage.Waiting? && !r.stage.Exited? ==> |r.kept| < |r.stream|)
  }

  lemma EarlyProgress(s: State, i: nat)
    requires i < |s.readers| && Shaped(s.readers[i])
    ensures Enabled(s, Pull(i)) ==> Nearer(s, Apply(s, Pull(i)), i)
    ensures Enabled(s, Check(i)) ==> Nearer(s, Apply(s, Check(i)), i)
  {
  }

  lemma RecordProgress(s: State, i: nat)
    requires i < |s.readers| && Shaped(s.readers[i])
    ensures Enabled(s, Record(i)) ==> Nearer(s, Apply(s, Record(i)), i)
  {
  }

  lemma SendProgress(s: State, i: nat)
    requires i < |s.readers| && Shaped(s.readers[i])
    ensures Enabled(s, Send(i)) ==> Nearer(s, Apply(s, Send(i)), i)
  {
  }

  lemma ParseProgress(s: State, i: nat)
    requires i < |s.readers| && Shaped(s.readers[i]) && Enabled(s, Parse(i))
    ensures Nearer(s, Apply(s, Parse(i)), i)
  {
  }

  lemma ProgressStep(s: State, a: Action, i: nat)
    requires i < |s.readers| && Shaped(s.readers[i]) && DealsWith(a, i) && Enabled(s, a)
    ensures Nearer(s, Apply(s, a), i)
  {
    EarlyProgress(s, i);
    RecordProgress(s, i);
    SendProgress(s, i);
    if a == Parse(i) { ParseProgress(s, i); }
  }

  /** In every run, a reader that has not exited can go on with its next message, unless there is none or its channel
      is full; and every such step brings it nearer to the end of its stream. */
  lemma ReadersProgress(self: PeerId, isPrint: Rune -> bool, streams: seq<seq<Msg>>, acts: seq<Action>, i: nat)
    requires i < |Exec(Init(self, isPrint, streams), acts).readers|
    ensures var s := Exec(Init(self, isPrint, streams), acts);
            var r := s.readers[i];
            !r.stage.Exited? ==>
              ((exists a :: DealsWith(a, i) && Enabled(s, a)) <==>
               |r.kept| < |r.stream| && !(r.stage.Sending? && |r.buffer| == CHANNEL_CAPACITY))
    ensures var s := Exec(Init(self, isPrint, streams), acts);
            forall a :: DealsWith(a, i) && Enabled(s, a) ==>
              i < |Apply(s, a).readers| && 0 <= StepsLeft(Apply(s, a).readers[i]) < StepsLeft(s.readers[i])
  {
    var s := Exec(Init(self, isPrint, streams), acts);
    var r := s.readers[i];
    EveryRunOk(self, isPrint, streams, acts);
    assert ReaderOk(s, r);
    var a := match r.stage
      case Waiting => Pull(i)
      case Pulled => Check(i)
      case Passed => Parse(i)
      case Named(_) => Record(i)
      case _ => Send(i);
    assert DealsWith(a, i);
    if !r.stage.Exited? && |r.kept| < |r.stream| && !(r.stage.Sending? && |r.buffer| == CHANNEL_CAPACITY) {
      assert Enabled(s, a);
    }
    forall b | DealsWith(b, i) && Enabled(s, b)
      ensures i < |Apply(s, b).readers| && 0 <= StepsLeft(Apply(s, b).readers[i]) < StepsLeft(s.readers[i])
    {
      ProgressStep(s, b, i);
    }
  }

  /** After cancellation every reader can leave from where it may block: waiting for a message, or for room. */
  lemma CancelFrees(s: State, i: nat)
    requires i < |s.readers| && (s.readers[i].stage.Waiting? || s.readers[i].stage.Sending?)
    ensures i < |Step(Step(s, Cancel), Quit(i)).readers|
    ensures var s' := Step(Step(s, Cancel), Quit(i));
            s'.readers[i] == s.readers[i].(stage := Exited) && s'.tracker == s.tracker
  {
  }

  /** A lone reader that has finished k messages, its consumer having received everything so far. */
  predicate Lone(s: State, stream: seq<Msg>, k: nat) {
    |s.readers| == 1 && s.readers[0].stream == stream && |s.readers[0].kept| == k < |stream|
    && s.readers[0].buffer == []
  }

  predicate Ready(s: State, stream: seq<Msg>, k: nat) {
    |s.readers| == 1 && s.readers[0].stream == stream && |s.readers[0].kept| == k
    && s.readers[0].stage == Waiting && s.readers[0].buffer == []
  }

  lemma PullsOrSkips(s: State, stream: seq<Msg>, k: nat)
    requires Ready(s, stream, k) && k < |stream|
    ensures var s' := Step(s, Pull(0));
            Ready(s', stream, k + 1) || (Lone(s', stream, k) && s'.readers[0].stage == Pulled)
  {
  }

  lemma ChecksOrSkips(s: State, stream: seq<Msg>, k: nat)
    requires Lone(s, stream, k) && s.readers[0].stage == Pulled
    ensures var s' := Step(s, Check(0));
            Ready(s', stream, k + 1) || (Lone(s', stream, k) && s'.readers[0].stage == Passed)
  {
  }

  lemma ParsesOrReports(s: State, stream: seq<Msg>, k: nat)
    requires Lone(s, stream, k) && s.readers[0].stage == Passed
    ensures var s' := Step(s, Parse(0));
            Ready(s', stream, k + 1) || (Lone(s', stream, k) && s'.readers[0].stage.Named?)
  {
  }

  lemma Delivers(s: State, stream: seq<Msg>, k: nat)
    requires Lone(s, stream, k) && s.readers[0].stage.Named?
    ensures Ready(Step(Step(Step(s, Record(0)), Send(0)), Receive(0)), stream, k + 1)
  {
    var recorded := Step(s, Record(0));
    assert Lone(recorded, stream, k) && recorded.readers[0].stage.Sending?;
    var sent := Step(recorded, Send(0));
    assert |sent.readers| == 1 && |sent.readers[0].buffer| == 1 && sent.readers[0].stage == Waiting;
  }

  lemma ThreeMore(init: State, s: State, a: Action, b: Action, c: Action) returns (s': State)
    requires Reachable(init, s)
    ensures Reachable(init, s') && s' == Step(Step(Step(s, a), b), c)
  {
    ReachableMore(init, s, a);
    ReachableMore(init, Step(s, a), b);
    ReachableMore(init, Step(Step(s, a), b), c);
    s' := Step(Step(Step(s, a), b), c);
  }

  lemma NextMessage(init: State, s: State, stream: seq<Msg>, k: nat) returns (s': State)
    requires Reachable(init, s) && Ready(s, stream, k) && k < |stream|
    ensures Reachable(init, s') && Ready(s', stream, k + 1)
  {
    PullsOrSkips(s, stream, k);
    ReachableMore(init, s, Pull(0));
    s' := Step(s, Pull(0));
    if Ready(s', stream, k + 1) { return; }
    ChecksOrSkips(s', stream, k);
    ReachableMore(init, s', Check(0));
    s' := Step(s', Check(0));
    if Ready(s', stream, k + 1) { return; }
    ParsesOrReports(s', stream, k);
    ReachableMore(init, s', Parse(0));
    s' := Step(s', Parse(0));
    if Ready(s', stream, k + 1) { return; }
    Delivers(s', stream, k);
    s' := ThreeMore(init, s', Record(0), Send(0), Receive(0));
  }

  lemma {:induction false} AllMessages(init: State, s: State, stream: seq<Msg>, k: nat) returns (s': State)
    requires Reachable(init, s) && Ready(s, stream, k) && k <= |stream|
    ensures Reachable(init, s') && Ready(s', stream, |stream|)
    decreases |stream| - k
  {
    if k == |stream| {
      s' := s;
    } else {
      var next := NextMessage(init, s, stream, k);
      s' := AllMessages(init, next, stream, k + 1);
    }
  }

  /** The whole of what the filter keeps of a stream can reach the consumer of a lone reader. */
  lemma FilterIsDelivered(self: PeerId, isPrint: Rune -> bool, stream: seq<Msg>)
    ensures exists acts :: var s := Exec(Init(self, isPrint, [stream]), acts);
      |s.readers| == 1 && s.readers[0].received == Filtered(isPrint, self, stream)
  {
    var init := Init(self, isPrint, [stream]);
    assert Exec(init, []) == init;
    var s := AllMessages(init, init, stream, 0);
    var acts :| Exec(init, acts) == s;
    SoleReaderRefinesFilter(self, isPrint, stream, acts);
    var r := s.readers[0];
    assert r.received + [] == r.received && stream[..|stream|] == stream;
    assert Exec(Init(self, isPrint, [stream]), acts).readers[0].received == Filtered(isPrint, self, stream);
  }

  // ----- the code of one reader

  predicate TracksPeer(t: Tracker, known: Tracker, ms: seq<Msg>, id: PeerId) {
    var seen := Count(known, id) + MalformedFrom(ms, id);
    if Count(known, id) < MALFORMED_THRESHOLD then
      Count(t, id) == if seen < MALFORMED_THRESHOLD then seen else MALFORMED_THRESHOLD
    else Count(t, id) == Count(known, id)
  }

  /** With one reader, the tracker's counts are those it began with and of the messages read since, up to the
      threshold. */
  ghost predicate Tracks(t: Tracker, known: Tracker, self: PeerId, ms: seq<Msg>) {
    Latched(t) && forall id :: id != self ==> TracksPeer(t, known, ms, id)
  }

  lemma {:induction false} MalformedFromNat(ms: seq<Msg>, id: PeerId)
    ensures MalformedFrom(ms, id) >= 0
  {
    if ms == [] {
    } else {
      MalformedFromNat(ms[..|ms| - 1], id);
    }
  }

  lemma TracksMore(t: Tracker, t': Tracker, known: Tracker, self: PeerId, ms: seq<Msg>, m: Msg)
    requires Tracks(t, known, self, ms) && Latched(t')
    requires if m.payload.Malformed? && m.author != self && m.author !in t.skipped then t' == WithMalformed(t, m.author)
             else t'.malformed == t.malformed && t'.skipped == t.skipped
    ensures Tracks(t', known, self, ms + [m])
  {
    assert (ms + [m])[..|ms|] == ms;
    forall id | id != self ensures TracksPeer(t', known, ms + [m], id) {
      assert TracksPeer(t, known, ms, id);
      MalformedFromNat(ms, id);
    }
  }

  lemma SkippedIsUnwanted(t: Tracker, known: Tracker, self: PeerId, ms: seq<Msg>, m: Msg)
    requires Tracks(t, known, self, ms)
    ensures WantedAfter(known, self, ms + [m], |ms|) <==> Candidate(self, m) && m.author !in t.skipped
  {
    assert (ms + [m])[..|ms|] == ms;
    if m.author != self {
      assert TracksPeer(t, known, ms, m.author);
      MalformedFromNat(ms, m.author);
    }
  }

  /** The loop itself, over a stream that ends and a consumer that keeps up, on a tracker in whatever state. */
  method ReceiveMessages(t: PeerTracker, self: PeerId, stream: seq<Msg>, now: int) returns (out: seq<Delivery>)
    requires t.Valid()
    modifies t
    ensures t.Valid() && out == FilteredAfter(t.isPrint, old(t.View()), self, stream)
    ensures forall d :: d in out ==> d.fromId in t.topicPeers
  {
    out := [];
    ghost var known := t.View();
    for k := 0 to |stream|
      invariant out == FilteredAfter(t.isPrint, known, self, stream[..k]) && Tracks(t.View(), known, self, stream[..k])
      invariant forall d :: d in out ==> d.fromId in t.topicPeers
    {
      var m := stream[k];
      ghost var before := t.View();
      assert stream[..k + 1] == stream[..k] + [m] && stream[..k + 1][..k] == stream[..k];
      SkippedIsUnwanted(before, known, self, stream[..k], m);
      if m.author != self && m.author !in t.skipMalformed {
        match m.payload {
          case Malformed =>
            var _, _ := t.RecordMalformed(m.author);
          case Envelope(name, data) =>
            var stored := t.UpdateName(m.author, name);
            t.RecordMessageFrom(m.author, now);
            out := out + [Delivery(stored, m.author, data)];
        }
      }
      TracksMore(before, t.View(), known, self, stream[..k], m);
    }
    assert stream[..|stream|] == stream;
  }
}
