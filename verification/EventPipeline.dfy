/** The client's event queue and the consumers that batch and upload what is in it, as a state machine
    over the steps of all threads. */
module EventPipeline {

  /** size: the length of the message's JSON text. */
  datatype Msg = Msg(id: nat, size: nat)

  const MAX_MSG_SIZE: nat := 32768
  const BATCH_SIZE_LIMIT: nat := 475000

  /** maxQueueSize: no bound if it is not positive. */
  datatype Config = Config(maxQueueSize: int, flushAt: int)

  /** Where a consumer is: at the top of its loop, filling a batch, about to hand it over, or marking
      its messages as done. */
  datatype Stage =
    | Top
    | Filling(batch: seq<Msg>, total: nat)
    | Sending(batch: seq<Msg>)
    | Acking(batch: seq<Msg>)
    | Exited

  datatype Consumer = Consumer(running: bool, stage: Stage)

  /** The queue with its count of unfinished tasks, the consumers, and what happened so far: the messages
      accepted, those taken from the queue, and the batches handed to request. */
  datatype Pipeline = Pipeline(
    queue: seq<Msg>,
    unfinished: int,
    consumers: seq<Consumer>,
    accepted: seq<Msg>,
    dequeued: seq<Msg>,
    requested: seq<seq<Msg>>)

  datatype Action =
    | Enqueue(msg: Msg)
    | Begin(consumer: nat)
    | Take(consumer: nat)
    | Close(consumer: nat)
    | Request(consumer: nat)
    | Ack(consumer: nat)
    | Pause(consumer: nat)

  function TotalSize(batch: seq<Msg>): nat {
    if batch == [] then 0 else TotalSize(batch[..|batch| - 1]) + batch[|batch| - 1].size
  }

  /** The messages small enough to send, in order. */
  function Sendable(msgs: seq<Msg>): seq<Msg> {
    if msgs == [] then [] else
    var last := msgs[|msgs| - 1];
    Sendable(msgs[..|msgs| - 1]) + if last.size > MAX_MSG_SIZE then [] else [last]
  }

  function Oversized(msgs: seq<Msg>): seq<Msg> {
    if msgs == [] then [] else
    var last := msgs[|msgs| - 1];
    Oversized(msgs[..|msgs| - 1]) + if last.size > MAX_MSG_SIZE then [last] else []
  }

  function Flat(batches: seq<seq<Msg>>): seq<Msg> {
    if batches == [] then [] else Flat(batches[..|batches| - 1]) + batches[|batches| - 1]
  }

  predicate IsFull(cfg: Config, queue: seq<Msg>) {
    cfg.maxQueueSize > 0 && |queue| >= cfg.maxQueueSize
  }

  /** One more message for a batch that is being filled: an oversized one is dropped, and one that
      reaches the size limit completes the batch. */
  function Fill(batch: seq<Msg>, total: nat, m: Msg): Stage {
    if m.size > MAX_MSG_SIZE then Filling(batch, total)
    else if total + m.size >= BATCH_SIZE_LIMIT then Sending(batch + [m])
    else Filling(batch + [m], total + m.size)
  }

  function SetStage(p: Pipeline, c: nat, stage: Stage): Pipeline
    requires c < |p.consumers|
  {
    p.(consumers := p.consumers[c := p.consumers[c].(stage := stage)])
  }

  /** The effect of one step of one thread; a step that its thread is not up to changes nothing. */
  function Step(cfg: Config, p: Pipeline, a: Action): Pipeline {
    match a
    case Enqueue(m) =>
      if IsFull(cfg, p.queue) then p
      else p.(queue := p.queue + [m], unfinished := p.unfinished + 1, accepted := p.accepted + [m])
    case Begin(c) =>
      if c >= |p.consumers| || !p.consumers[c].stage.Top? then p
      else SetStage(p, c, if p.consumers[c].running then Filling([], 0) else Exited)
    case Take(c) =>
      if c >= |p.consumers| || !p.consumers[c].stage.Filling? || p.queue == []
         || |p.consumers[c].stage.batch| >= cfg.flushAt then p
      else
        SetStage(p, c, Fill(p.consumers[c].stage.batch, p.consumers[c].stage.total, p.queue[0]))
        .(queue := p.queue[1..], dequeued := p.dequeued + [p.queue[0]])
    case Close(c) =>
      if c >= |p.consumers| || !p.consumers[c].stage.Filling? then p
      else SetStage(p, c, if p.consumers[c].stage.batch == [] then Top else Sending(p.consumers[c].stage.batch))
    case Request(c) =>
      if c >= |p.consumers| || !p.consumers[c].stage.Sending? then p
      else SetStage(p, c, Acking(p.consumers[c].stage.batch))
           .(requested := p.requested + [p.consumers[c].stage.batch])
    case Ack(c) =>
      if c >= |p.consumers| || !p.consumers[c].stage.Acking? then p
      else
        var batch := p.consumers[c].stage.batch;
        if batch == [] then SetStage(p, c, Top)
        else SetStage(p, c, Acking(batch[1..])).(unfinished := p.unfinished - 1)
    case Pause(c) =>
      if c >= |p.consumers| then p else p.(consumers := p.consumers[c := p.consumers[c].(running := false)])
  }

  function Run(cfg: Config, p: Pipeline, actions: seq<Action>): Pipeline
    decreases |actions|
  {
    if actions == [] then p else Run(cfg, Step(cfg, p, actions[0]), actions[1..])
  }

  lemma {:induction false} RunConcat(cfg: Config, p: Pipeline, first: seq<Action>, second: seq<Action>)
    ensures Run(cfg, p, first + second) == Run(cfg, Run(cfg, p, first), second)
    decreases |first|
  {
    if first == [] {
      assert first + second == second;
    } else {
      assert (first + second)[1..] == first[1..] + second;
      RunConcat(cfg, Step(cfg, p, first[0]), first[1..], second);
    }
  }

  lemma RunOne(cfg: Config, p: Pipeline, a: Action)
    ensures Run(cfg, p, [a]) == Step(cfg, p, a)
  {
    assert [a][1..] == [];
  }

  function Started(consumers: nat): Pipeline {
    Pipeline([], 0, seq(consumers, _ => Consumer(true, Top)), [], [], [])
  }

  // ----- conservation -----

  /** The messages a consumer has taken and not marked as done. */
  function Unacked(c: Consumer): seq<Msg> {
    match c.stage
    case Filling(b, _) => b
    case Sending(b) => b
    case Acking(b) => b
    case _ => []
  }

  /** The messages a consumer has taken and not handed to request. */
  function InHand(c: Consumer): seq<Msg> {
    if c.stage.Acking? then [] else Unacked(c)
  }

  /** Of the first n consumers. */
  function AllUnacked(cs: seq<Consumer>, n: nat): nat
    requires n <= |cs|
  {
    if n == 0 then 0 else AllUnacked(cs, n - 1) + |Unacked(cs[n - 1])|
  }

  /** How often m is in their hands. */
  function HeldBy(cs: seq<Consumer>, n: nat, m: Msg): nat
    requires n <= |cs|
  {
    if n == 0 then 0 else HeldBy(cs, n - 1, m) + Times(InHand(cs[n - 1]), m)
  }

  /** How often m occurs. */
  function Times(msgs: seq<Msg>, m: Msg): nat {
    if msgs == [] then 0 else Times(msgs[..|msgs| - 1], m) + if msgs[|msgs| - 1] == m then 1 else 0
  }

  lemma {:induction false} UnackedChanges(cs: seq<Consumer>, n: nat, c: nat, now: Consumer)
    requires n <= |cs| && c < |cs|
    ensures AllUnacked(cs[c := now], n) + (if c < n then |Unacked(cs[c])| else 0) ==
            AllUnacked(cs, n) + (if c < n then |Unacked(now)| else 0)
  {
    if n == 0 {
    } else {
      UnackedChanges(cs, n - 1, c, now);
    }
  }

  lemma {:induction false} HeldChanges(cs: seq<Consumer>, n: nat, c: nat, now: Consumer, m: Msg)
    requires n <= |cs| && c < |cs|
    ensures HeldBy(cs[c := now], n, m) + (if c < n then Times(InHand(cs[c]), m) else 0) ==
            HeldBy(cs, n, m) + (if c < n then Times(InHand(now), m) else 0)
  {
    if n == 0 {
    } else {
      HeldChanges(cs, n - 1, c, now, m);
    }
  }

  /** What was accepted was dequeued or is queued, in this order. */
  predicate Accounted(p: Pipeline) {
    p.accepted == p.dequeued + p.queue
  }

  /** The count of unfinished tasks is what is queued, what is not marked as done, and every oversized
      message ever dequeued. */
  predicate Counted(p: Pipeline) {
    p.unfinished == |p.queue| + AllUnacked(p.consumers, |p.consumers|) + |Oversized(p.dequeued)|
  }

  /** Each time m was dequeued, it is in some consumer's hands, was handed to request, or was oversized. */
  predicate Placed(p: Pipeline, m: Msg) {
    Times(p.dequeued, m) ==
    HeldBy(p.consumers, |p.consumers|, m) + Times(Flat(p.requested), m) + Times(Oversized(p.dequeued), m)
  }

  /** Nothing is lost or made up. */
  ghost predicate Conserved(p: Pipeline) {
    Accounted(p) && Counted(p) && forall m :: Placed(p, m)
  }

  lemma {:induction false} TimesConcat(a: seq<Msg>, b: seq<Msg>, m: Msg)
    ensures Times(a + b, m) == Times(a, m) + Times(b, m)
    decreases |b|
  {
    if b == [] {
      assert a + b == a;
    } else {
      assert (a + b)[..|a + b| - 1] == a + b[..|b| - 1];
      TimesConcat(a, b[..|b| - 1], m);
    }
  }

  lemma {:induction false} TimesIsMultiplicity(msgs: seq<Msg>, m: Msg)
    ensures Times(msgs, m) == multiset(msgs)[m]
  {
    if msgs == [] {
    } else {
      assert msgs == msgs[..|msgs| - 1] + [msgs[|msgs| - 1]];
      TimesIsMultiplicity(msgs[..|msgs| - 1], m);
    }
  }

  lemma OneMoreDequeued(msgs: seq<Msg>, m: Msg)
    ensures Oversized(msgs + [m]) == Oversized(msgs) + if m.size > MAX_MSG_SIZE then [m] else []
  {
    assert (msgs + [m])[..|msgs|] == msgs;
  }

  lemma OneMoreSendable(msgs: seq<Msg>, m: Msg)
    ensures Sendable(msgs + [m]) == Sendable(msgs) + if m.size > MAX_MSG_SIZE then [] else [m]
  {
    assert (msgs + [m])[..|msgs|] == msgs;
  }

  /** A message of at most 32768 bytes is sent, and a bigger one is not. */
  lemma {:induction false} SendableOrOversized(msgs: seq<Msg>, m: Msg)
    ensures m in Sendable(msgs) <==> m in msgs && m.size <= 32768
    ensures m in Oversized(msgs) <==> m in msgs && m.size > 32768
  {
    if msgs == [] {
    } else {
      SendableOrOversized(msgs[..|msgs| - 1], m);
      assert msgs == msgs[..|msgs| - 1] + [msgs[|msgs| - 1]];
    }
  }

  /** A message is refused exactly if the queue is bounded and full. */
  lemma EnqueueExactly(cfg: Config, p: Pipeline, m: Msg)
    ensures Step(cfg, p, Enqueue(m)) ==
            if cfg.maxQueueSize > 0 && |p.queue| >= cfg.maxQueueSize then p
            else p.(queue := p.queue + [m], unfinished := p.unfinished + 1, accepted := p.accepted + [m])
  {
  }

  lemma OneMoreRequested(batches: seq<seq<Msg>>, batch: seq<Msg>)
    ensures Flat(batches + [batch]) == Flat(batches) + batch
  {
    assert (batches + [batch])[..|batches|] == batches;
  }

  predicate CanTake(cfg: Config, p: Pipeline, c: nat) {
    && c < |p.consumers| && p.consumers[c].stage.Filling? && p.queue != []
    && |p.consumers[c].stage.batch| < cfg.flushAt
  }

  lemma StepAccounts(cfg: Config, p: Pipeline, a: Action)
    requires Accounted(p)
    ensures Accounted(Step(cfg, p, a))
  {
    match a
    case Enqueue(m) => assert p.accepted + [m] == p.dequeued + (p.queue + [m]);
    case Take(c) =>
      if CanTake(cfg, p, c) {
        assert (p.dequeued + [p.queue[0]]) + p.queue[1..] == p.dequeued + p.queue;
      }
    case _ =>
  }

  lemma TakeCounts(cfg: Config, p: Pipeline, c: nat)
    requires Counted(p) && CanTake(cfg, p, c)
    ensures Counted(Step(cfg, p, Take(c)))
  {
    UnackedChanges(p.consumers, |p.consumers|, c, Step(cfg, p, Take(c)).consumers[c]);
    OneMoreDequeued(p.dequeued, p.queue[0]);
  }

  /** The steps that neither take a message nor hand a batch over change one consumer, and leave what it
      has not handed over as it is. */
  lemma OtherSteps(cfg: Config, p: Pipeline, a: Action)
    requires !a.Enqueue? && !a.Take? && a.consumer < |p.consumers|
    ensures var p', c := Step(cfg, p, a), a.consumer;
            && p'.consumers == p.consumers[c := p'.consumers[c]] && p'.queue == p.queue && p'.dequeued == p.dequeued
            && p'.unfinished - |Unacked(p'.consumers[c])| == p.unfinished - |Unacked(p.consumers[c])|
            && (!a.Request? ==> InHand(p'.consumers[c]) == InHand(p.consumers[c]) && p'.requested == p.requested)
  {
  }

  lemma StepCounts(cfg: Config, p: Pipeline, a: Action)
    requires Counted(p)
    ensures Counted(Step(cfg, p, a))
  {
    match a
    case Enqueue(_) =>
    case Take(c) => if CanTake(cfg, p, c) { TakeCounts(cfg, p, c); }
    case _ =>
      if a.consumer < |p.consumers| {
        OtherSteps(cfg, p, a);
        UnackedChanges(p.consumers, |p.consumers|, a.consumer, Step(cfg, p, a).consumers[a.consumer]);
      }
  }

  lemma FilledInHand(running: bool, batch: seq<Msg>, total: nat, m: Msg)
    ensures InHand(Consumer(running, Fill(batch, total, m))) == if m.size > MAX_MSG_SIZE then batch else batch + [m]
  {
  }

  lemma TakePlaces(cfg: Config, p: Pipeline, c: nat, m: Msg)
    requires Placed(p, m) && CanTake(cfg, p, c)
    ensures Placed(Step(cfg, p, Take(c)), m)
  {
    var p', n, first, was := Step(cfg, p, Take(c)), |p.consumers|, p.queue[0], p.consumers[c];
    var now := p'.consumers[c];
    FilledInHand(was.running, was.stage.batch, was.stage.total, first);
    HeldChanges(p.consumers, n, c, now, m);
    assert p'.consumers == p.consumers[c := now];
    assert HeldBy(p'.consumers, n, m) + Times(InHand(was), m) == HeldBy(p.consumers, n, m) + Times(InHand(now), m);
    TimesConcat(p.dequeued, [first], m);
    OneMoreDequeued(p.dequeued, first);
    assert p'.dequeued == p.dequeued + [first];
    if first.size > MAX_MSG_SIZE {
      TimesConcat(Oversized(p.dequeued), [first], m);
      assert InHand(now) == InHand(was);
      assert Oversized(p'.dequeued) == Oversized(p.dequeued) + [first];
    } else {
      TimesConcat(InHand(was), [first], m);
      assert InHand(now) == InHand(was) + [first];
      assert Oversized(p'.dequeued) == Oversized(p.dequeued);
    }
  }

  lemma RequestPlaces(cfg: Config, p: Pipeline, c: nat, m: Msg)
    requires Placed(p, m) && c < |p.consumers| && p.consumers[c].stage.Sending?
    ensures Placed(Step(cfg, p, Request(c)), m)
  {
    var batch := p.consumers[c].stage.batch;
    HeldChanges(p.consumers, |p.consumers|, c, Step(cfg, p, Request(c)).consumers[c], m);
    OneMoreRequested(p.requested, batch);
    TimesConcat(Flat(p.requested), batch, m);
  }

  lemma OthersPlace(cfg: Config, p: Pipeline, a: Action, m: Msg)
    requires Placed(p, m) && !a.Enqueue? && !a.Take? && !a.Request? && a.consumer < |p.consumers|
    ensures Placed(Step(cfg, p, a), m)
  {
    OtherSteps(cfg, p, a);
    HeldChanges(p.consumers, |p.consumers|, a.consumer, Step(cfg, p, a).consumers[a.consumer], m);
  }

  lemma StepPlaces(cfg: Config, p: Pipeline, a: Action, m: Msg)
    requires Placed(p, m)
    ensures Placed(Step(cfg, p, a), m)
  {
    match a
    case Enqueue(_) =>
    case Take(c) => if CanTake(cfg, p, c) { TakePlaces(cfg, p, c, m); }
    case Request(c) => if c < |p.consumers| && p.consumers[c].stage.Sending? { RequestPlaces(cfg, p, c, m); }
    case _ => if a.consumer < |p.consumers| { OthersPlace(cfg, p, a, m); }
  }

  lemma {:induction false} RunConserves(cfg: Config, p: Pipeline, actions: seq<Action>)
    requires Conserved(p)
    ensures Conserved(Run(cfg, p, actions))
    decreases |actions|
  {
    if actions == [] {
    } else {
      StepAccounts(cfg, p, actions[0]);
      StepCounts(cfg, p, actions[0]);
      forall m
        ensures Placed(Step(cfg, p, actions[0]), m)
      {
        StepPlaces(cfg, p, actions[0], m);
      }
      RunConserves(cfg, Step(cfg, p, actions[0]), actions[1..]);
    }
  }

  lemma {:induction false} NobodyHolds(cs: seq<Consumer>, n: nat, m: Msg)
    requires n <= |cs| && forall c | 0 <= c < n :: Unacked(cs[c]) == []
    ensures AllUnacked(cs, n) == 0 && HeldBy(cs, n, m) == 0
  {
    if n == 0 {
    } else {
      NobodyHolds(cs, n - 1, m);
    }
  }

  lemma StartedIsConserved(consumers: nat)
    ensures Conserved(Started(consumers))
  {
    NobodyHolds(Started(consumers).consumers, consumers, Msg(0, 0));
    forall m
      ensures Placed(Started(consumers), m)
    {
      NobodyHolds(Started(consumers).consumers, consumers, m);
    }
  }

  lemma {:induction false} NothingUnacked(cs: seq<Consumer>, n: nat, m: Msg)
    requires n <= |cs| && AllUnacked(cs, n) == 0
    ensures HeldBy(cs, n, m) == 0
  {
    if n == 0 {
    } else {
      NothingUnacked(cs, n - 1, m);
    }
  }

  /** flush returns when the count reaches zero. Then every message accepted so far was handed to request
      exactly as often as it was accepted, and none was dropped. */
  lemma FlushMeansHandedOver(cfg: Config, consumers: nat, actions: seq<Action>)
    requires Run(cfg, Started(consumers), actions).unfinished == 0
    ensures var p := Run(cfg, Started(consumers), actions);
            p.queue == [] && multiset(p.accepted) == multiset(Flat(p.requested)) && Oversized(p.accepted) == []
  {
    var p := Run(cfg, Started(consumers), actions);
    StartedIsConserved(consumers);
    RunConserves(cfg, Started(consumers), actions);
    assert p.accepted == p.dequeued;
    forall m
      ensures multiset(p.accepted)[m] == multiset(Flat(p.requested))[m]
    {
      NothingUnacked(p.consumers, |p.consumers|, m);
      assert Placed(p, m) && Times(p.accepted, m) == Times(Flat(p.requested), m);
      TimesIsMultiplicity(p.accepted, m);
      TimesIsMultiplicity(Flat(p.requested), m);
    }
  }

  /** Once the queue is drained and all uploads are finished, flush returns if and only if no oversized
      message was ever dequeued: dropping one never marks it as done. */
  lemma FlushReturnsExactly(cfg: Config, consumers: nat, actions: seq<Action>)
    ensures var p := Run(cfg, Started(consumers), actions);
            p.queue == [] && AllUnacked(p.consumers, |p.consumers|) == 0 ==>
              (p.unfinished == 0 <==> Oversized(p.accepted) == [])
  {
    var p := Run(cfg, Started(consumers), actions);
    StartedIsConserved(consumers);
    RunConserves(cfg, Started(consumers), actions);
    assert p.queue == [] ==> p.dequeued + p.queue == p.dequeued;
  }

  lemma {:induction false} DequeuedOnlyGrows(cfg: Config, p: Pipeline, actions: seq<Action>)
    ensures |Oversized(p.dequeued)| <= |Oversized(Run(cfg, p, actions).dequeued)|
    decreases |actions|
  {
    if actions == [] {
    } else {
      var p' := Step(cfg, p, actions[0]);
      if p.queue != [] {
        OneMoreDequeued(p.dequeued, p.queue[0]);
      }
      DequeuedOnlyGrows(cfg, p', actions[1..]);
    }
  }

  /** After one oversized message no later flush ever returns. */
  lemma OversizedBlocksFlushForever(cfg: Config, p: Pipeline, actions: seq<Action>)
    requires Conserved(p) && Oversized(p.dequeued) != []
    ensures Run(cfg, p, actions).unfinished > 0
  {
    RunConserves(cfg, p, actions);
    DequeuedOnlyGrows(cfg, p, actions);
  }

  // ----- batches -----

  /** At most flushAt messages, each small enough, and below the size limit without the last. */
  predicate WellFilled(cfg: Config, batch: seq<Msg>) {
    && 0 < |batch| <= cfg.flushAt
    && (forall m | m in batch :: m.size <= MAX_MSG_SIZE)
    && TotalSize(batch[..|batch| - 1]) < BATCH_SIZE_LIMIT
  }

  predicate BatchesInv(cfg: Config, p: Pipeline) {
    && (forall b | b in p.requested :: WellFilled(cfg, b))
    && (forall c | c in p.consumers :: c.stage.Sending? ==> WellFilled(cfg, c.stage.batch))
    && (forall c | c in p.consumers :: c.stage.Filling? ==>
          && (c.stage.batch == [] || WellFilled(cfg, c.stage.batch))
          && c.stage.total == TotalSize(c.stage.batch) < BATCH_SIZE_LIMIT)
  }

  lemma FillKeepsBounds(cfg: Config, batch: seq<Msg>, total: nat, m: Msg)
    requires batch == [] || WellFilled(cfg, batch)
    requires |batch| < cfg.flushAt && total == TotalSize(batch) < BATCH_SIZE_LIMIT
    ensures var stage := Fill(batch, total, m);
            && (stage.batch == [] || WellFilled(cfg, stage.batch))
            && (stage.Filling? ==> stage.total == TotalSize(stage.batch) < BATCH_SIZE_LIMIT)
            && (stage.Sending? ==> stage.batch != [])
  {
    assert (batch + [m])[..|batch|] == batch;
  }

  lemma StepKeepsBatches(cfg: Config, p: Pipeline, a: Action)
    requires BatchesInv(cfg, p)
    ensures BatchesInv(cfg, Step(cfg, p, a))
  {
    var p' := Step(cfg, p, a);
    if !a.Enqueue? && a.consumer < |p.consumers| {
      var now := p.consumers[a.consumer];
      assert now in p.consumers;
      if a.Take? && now.stage.Filling? && p.queue != [] && |now.stage.batch| < cfg.flushAt {
        FillKeepsBounds(cfg, now.stage.batch, now.stage.total, p.queue[0]);
      }
      forall c | c in p'.consumers
        ensures c == p'.consumers[a.consumer] || c in p.consumers
      {
      }
    }
  }

  lemma {:induction false} RunKeepsBatches(cfg: Config, p: Pipeline, actions: seq<Action>)
    requires BatchesInv(cfg, p)
    ensures BatchesInv(cfg, Run(cfg, p, actions))
    decreases |actions|
  {
    if actions == [] {
    } else {
      StepKeepsBatches(cfg, p, actions[0]);
      RunKeepsBatches(cfg, Step(cfg, p, actions[0]), actions[1..]);
    }
  }

  /** Every batch ever handed to request is within the bounds. */
  lemma BatchesAreBounded(cfg: Config, consumers: nat, actions: seq<Action>, batch: seq<Msg>)
    requires batch in Run(cfg, Started(consumers), actions).requested
    ensures WellFilled(cfg, batch) && TotalSize(batch) < BATCH_SIZE_LIMIT + MAX_MSG_SIZE
    ensures 0 < |batch| <= cfg.flushAt && forall m | m in batch :: m.size <= 32768
    ensures TotalSize(batch[..|batch| - 1]) < 475000
  {
    RunKeepsBatches(cfg, Started(consumers), actions);
    assert batch[|batch| - 1] in batch;
  }

  // ----- order -----

  /** With a single consumer, what was requested and what is in its hands is what was dequeued and was
      small enough, in the same order. */
  ghost predicate InOrder(p: Pipeline) {
    |p.consumers| == 1 && Sendable(p.dequeued) == Flat(p.requested) + InHand(p.consumers[0])
  }

  lemma TakeKeepsOrder(cfg: Config, p: Pipeline)
    requires InOrder(p) && CanTake(cfg, p, 0)
    ensures InOrder(Step(cfg, p, Take(0)))
  {
    var m, was := p.queue[0], p.consumers[0];
    OneMoreSendable(p.dequeued, m);
    FilledInHand(was.running, was.stage.batch, was.stage.total, m);
    assert Flat(p.requested) + (InHand(was) + [m]) == (Flat(p.requested) + InHand(was)) + [m];
  }

  lemma RequestKeepsOrder(cfg: Config, p: Pipeline)
    requires InOrder(p) && p.consumers[0].stage.Sending?
    ensures InOrder(Step(cfg, p, Request(0)))
  {
    OneMoreRequested(p.requested, p.consumers[0].stage.batch);
    assert InHand(Step(cfg, p, Request(0)).consumers[0]) == [];
  }

  lemma StepKeepsOrder(cfg: Config, p: Pipeline, a: Action)
    requires InOrder(p)
    ensures InOrder(Step(cfg, p, a))
  {
    match a
    case Take(c) => if CanTake(cfg, p, c) { TakeKeepsOrder(cfg, p); }
    case Request(c) => if c == 0 && p.consumers[0].stage.Sending? { RequestKeepsOrder(cfg, p); }
    case Enqueue(_) =>
    case _ => if a.consumer == 0 { OtherSteps(cfg, p, a); }
  }

  lemma {:induction false} RunKeepsOrder(cfg: Config, p: Pipeline, actions: seq<Action>)
    requires InOrder(p)
    ensures InOrder(Run(cfg, p, actions))
    decreases |actions|
  {
    if actions == [] {
    } else {
      StepKeepsOrder(cfg, p, actions[0]);
      RunKeepsOrder(cfg, Step(cfg, p, actions[0]), actions[1..]);
    }
  }

  /** A single consumer hands messages over in the order in which they were accepted. */
  lemma SingleConsumerIsFifo(cfg: Config, actions: seq<Action>)
    ensures var p := Run(cfg, Started(1), actions); Flat(p.requested) <= Sendable(p.accepted)
  {
    var p := Run(cfg, Started(1), actions);
    RunKeepsOrder(cfg, Started(1), actions);
    StartedIsConserved(1);
    RunConserves(cfg, Started(1), actions);
    SendablePrefix(p.dequeued, p.queue);
  }

  lemma {:induction false} SendablePrefix(a: seq<Msg>, b: seq<Msg>)
    ensures Sendable(a) <= Sendable(a + b)
    decreases |b|
  {
    if b == [] {
      assert a + b == a;
    } else {
      assert (a + b)[..|a + b| - 1] == a + b[..|b| - 1];
      SendablePrefix(a, b[..|b| - 1]);
    }
  }

  // ----- ending -----

  /** A consumer that was paused and is past its last batch. */
  predicate Ended(c: Consumer) {
    !c.running && (c.stage.Top? || c.stage.Exited?)
  }

  /** Every consumer was paused and is past its last batch. */
  predicate Stopped(p: Pipeline) {
    forall c | c in p.consumers :: Ended(c)
  }

  /** Pausing does not wait for the queue: from then on nothing is taken from it. */
  lemma {:induction false} StoppedTakesNothing(cfg: Config, p: Pipeline, actions: seq<Action>)
    requires Stopped(p)
    ensures var p' := Run(cfg, p, actions);
            Stopped(p') && p'.dequeued == p.dequeued && p'.requested == p.requested && p.queue <= p'.queue
    decreases |actions|
  {
    if actions == [] {
    } else {
      var a, p' := actions[0], Step(cfg, p, actions[0]);
      if !a.Enqueue? && a.consumer < |p.consumers| {
        assert p.consumers[a.consumer] in p.consumers;
        forall c | c in p'.consumers
          ensures !c.running && (c.stage.Top? || c.stage.Exited?)
        {
          assert c == p'.consumers[a.consumer] || c in p.consumers;
        }
      }
      StoppedTakesNothing(cfg, p', actions[1..]);
    }
  }

  /** So, once stopped, an accepted message of sendable size is lost exactly if it is still queued. */
  lemma StoppedLosesTheQueue(cfg: Config, consumers: nat, actions: seq<Action>)
    requires Stopped(Run(cfg, Started(consumers), actions))
    ensures var p := Run(cfg, Started(consumers), actions);
            forall m :: Times(p.accepted, m) ==
                        Times(Flat(p.requested), m) + Times(Oversized(p.dequeued), m) + Times(p.queue, m)
  {
    var p := Run(cfg, Started(consumers), actions);
    StartedIsConserved(consumers);
    RunConserves(cfg, Started(consumers), actions);
    forall c | 0 <= c < |p.consumers|
      ensures Unacked(p.consumers[c]) == []
    {
      assert p.consumers[c] in p.consumers;
    }
    forall m
      ensures Times(p.accepted, m) ==
              Times(Flat(p.requested), m) + Times(Oversized(p.dequeued), m) + Times(p.queue, m)
    {
      NobodyHolds(p.consumers, |p.consumers|, m);
      TimesConcat(p.dequeued, p.queue, m);
      assert Placed(p, m);
    }
  }

  // ----- what join may leave behind -----

  /** While these consumers are joined nothing is enqueued, and no other consumer is paused. */
  predicate WhileJoining(known: set<nat>, actions: seq<Action>) {
    forall a | a in actions :: !a.Enqueue? && (a.Pause? ==> a.consumer in known)
  }

  predicate Joined(known: set<nat>, p: Pipeline) {
    forall c | 0 <= c < |p.consumers| && c in known :: Ended(p.consumers[c])
  }

  /** Joining these consumers may return with messages in the queue. */
  ghost predicate MayLose(cfg: Config, p: Pipeline, known: set<nat>) {
    exists actions ::
      WhileJoining(known, actions) && Joined(known, Run(cfg, p, actions)) && Run(cfg, p, actions).queue != []
  }

  /** How far a consumer is from the top of its loop, if it takes no more. */
  function Remaining(stage: Stage): nat {
    match stage
    case Filling(b, _) => |b| + 3
    case Sending(b) => |b| + 2
    case Acking(b) => |b| + 1
    case _ => 0
  }

  /** What a consumer does next, if its time to fill a batch is over. */
  function NextStep(c: nat, stage: Stage): Action {
    match stage
    case Filling(_, _) => Close(c)
    case Sending(_) => Request(c)
    case Acking(_) => Ack(c)
    case _ => Pause(c)
  }

  /** One consumer can come to its end without taking another message. */
  lemma {:induction false} EndOne(cfg: Config, p: Pipeline, c: nat) returns (actions: seq<Action>)
    requires c < |p.consumers|
    ensures WhileJoining({c}, actions)
    ensures var p' := Run(cfg, p, actions);
            && p'.queue == p.queue && |p'.consumers| == |p.consumers|
            && p'.consumers == p.consumers[c := p'.consumers[c]] && Ended(p'.consumers[c])
    decreases Remaining(p.consumers[c].stage)
  {
    var a := NextStep(c, p.consumers[c].stage);
    var p' := Step(cfg, p, a);
    if a.Pause? {
      actions := [a];
      RunOne(cfg, p, a);
    } else {
      var rest := EndOne(cfg, p', c);
      actions := [a] + rest;
      assert actions[1..] == rest;
    }
  }

  /** So can any of them. */
  lemma {:induction false} EndKnown(cfg: Config, p: Pipeline, known: set<nat>, n: nat) returns (actions: seq<Action>)
    requires n <= |p.consumers|
    ensures WhileJoining(known, actions)
    ensures var p' := Run(cfg, p, actions);
            && p'.queue == p.queue && |p'.consumers| == |p.consumers|
            && forall c | 0 <= c < n && c in known :: Ended(p'.consumers[c])
  {
    if n == 0 {
      actions := [];
    } else {
      actions := EndKnown(cfg, p, known, n - 1);
      if n - 1 in known {
        var last := EndOne(cfg, Run(cfg, p, actions), n - 1);
        RunConcat(cfg, p, actions, last);
        actions := actions + last;
      }
    }
  }

  lemma {:induction false} EmptyStaysEmpty(cfg: Config, p: Pipeline, actions: seq<Action>)
    requires p.queue == [] && forall a | a in actions :: !a.Enqueue?
    ensures Run(cfg, p, actions).queue == []
    decreases |actions|
  {
    if actions == [] {
    } else {
      EmptyStaysEmpty(cfg, Step(cfg, p, actions[0]), actions[1..]);
    }
  }

  /** Whatever the consumers are doing, joining some of them may lose messages if and only if there are
      messages in the queue when it begins: it does not wait for the queue to be empty. */
  lemma JoinLosesExactly(cfg: Config, p: Pipeline, known: set<nat>)
    ensures MayLose(cfg, p, known) <==> p.queue != []
  {
    if p.queue == [] {
      forall actions | WhileJoining(known, actions)
        ensures Run(cfg, p, actions).queue == []
      {
        EmptyStaysEmpty(cfg, p, actions);
      }
    } else {
      var actions := EndKnown(cfg, p, known, |p.consumers|);
      assert Joined(known, Run(cfg, p, actions));
    }
  }

  /** One message and one consumer that is joined before it begins to fill a batch: the message is accepted,
      and never requested. */
  lemma JoinLosesMessage(cfg: Config, m: Msg)
    ensures var p := Run(cfg, Started(1), [Enqueue(m), Pause(0)]);
            p.accepted == [m] && p.queue == [m] && p.requested == [] && Stopped(p)
  {
    assert [Enqueue(m), Pause(0)][1..] == [Pause(0)];
    RunOne(cfg, Step(cfg, Started(1), Enqueue(m)), Pause(0));
  }

  // ----- one oversized message -----

  function TakeAndDrop(m: Msg): seq<Action> {
    [Enqueue(m), Begin(0), Take(0), Close(0)]
  }

  /** The state after that: nothing is queued or under way, and one task is unfinished. */
  function Dropped(m: Msg): Pipeline {
    Pipeline([], 1, [Consumer(true, Top)], [m], [m], [])
  }

  lemma {:induction false} TakenAndDropped(cfg: Config, m: Msg)
    requires cfg.flushAt > 0 && m.size > MAX_MSG_SIZE
    ensures Run(cfg, Started(1), TakeAndDrop(m)) == Dropped(m)
  {
    var one := Consumer(true, Top);
    assert Started(1).consumers == [one];
    var p1 := Pipeline([m], 1, [one], [m], [], []);
    var p2 := p1.(consumers := [Consumer(true, Filling([], 0))]);
    var p3 := Pipeline([], 1, [Consumer(true, Filling([], 0))], [m], [m], []);
    assert Step(cfg, Started(1), Enqueue(m)) == p1;
    assert Step(cfg, p1, Begin(0)) == p2;
    assert Step(cfg, p2, Take(0)) == p3;
    assert Step(cfg, p3, Close(0)) == Dropped(m);
    RunOne(cfg, Started(1), Enqueue(m));
    RunOne(cfg, p1, Begin(0));
    RunOne(cfg, p2, Take(0));
    RunOne(cfg, p3, Close(0));
    RunConcat(cfg, Started(1), [Enqueue(m)], [Begin(0)]);
    RunConcat(cfg, Started(1), [Enqueue(m)] + [Begin(0)], [Take(0)]);
    RunConcat(cfg, Started(1), [Enqueue(m)] + [Begin(0)] + [Take(0)], [Close(0)]);
    assert TakeAndDrop(m) == [Enqueue(m)] + [Begin(0)] + [Take(0)] + [Close(0)];
  }

  /** An oversized message is taken and dropped; then the queue is drained, no upload is under way, and still
      one task is unfinished, now and after anything that follows. */
  lemma {:induction false} OversizedMessageStaysUnfinished(cfg: Config, m: Msg, later: seq<Action>)
    requires cfg.flushAt > 0 && m.size > 32768
    ensures var p := Run(cfg, Started(1), TakeAndDrop(m));
            && p.queue == [] && AllUnacked(p.consumers, |p.consumers|) == 0 && p.unfinished == 1
            && Run(cfg, p, later).unfinished > 0
  {
    TakenAndDropped(cfg, m);
    NobodyHolds(Dropped(m).consumers, 1, m);
    StartedIsConserved(1);
    RunConserves(cfg, Started(1), TakeAndDrop(m));
    OneMoreDequeued([], m);
    assert [] + [m] == [m];
    OversizedBlocksFlushForever(cfg, Dropped(m), later);
  }
}
