/** The queue, a consumer and the client, working in place, as one thread sees them. */
module EventClient {
  import opened Wrappers
  import opened EventPipeline

  class MessageQueue {
    const maxSize: int
    var items: seq<Msg>
    var unfinished: nat

    constructor (maxSize: int)
      ensures this.maxSize == maxSize && items == [] && unfinished == 0
    {
      this.maxSize, items, unfinished := maxSize, [], 0;
    }

    /** Put without waiting; a full queue refuses. */
    method Put(m: Msg) returns (accepted: bool)
      modifies this
      ensures accepted <==> !(maxSize > 0 && old(|items|) >= maxSize)
      ensures items == (if accepted then old(items) + [m] else old(items))
      ensures unfinished == old(unfinished) + (if accepted then 1 else 0)
    {
      if maxSize > 0 && |items| >= maxSize {
        return false;
      }
      items, unfinished := items + [m], unfinished + 1;
      return true;
    }

    /** The first message. On an empty queue, the wait for one ends without it. */
    method Get() returns (m: Option<Msg>)
      modifies this`items
      ensures m.Some? ==> old(items) == [m.value] + items
      ensures m.None? ==> old(items) == [] && items == []
    {
      if items == [] {
        return None;
      }
      m := Some(items[0]);
      items := items[1..];
    }

    method TaskDone()
      requires unfinished > 0
      modifies this`unfinished
      ensures unfinished == old(unfinished) - 1
    {
      unfinished := unfinished - 1;
    }
  }

  /** While a batch is being filled: it is what was taken, without the oversized messages. */
  predicate FillState(cfg: Config, taken: seq<Msg>, batch: seq<Msg>, total: nat) {
    batch == Sendable(taken) && total == TotalSize(batch) && (batch == [] || WellFilled(cfg, batch))
  }

  lemma OneMoreFits(cfg: Config, batch: seq<Msg>, m: Msg)
    requires (batch == [] || WellFilled(cfg, batch)) && TotalSize(batch) < BATCH_SIZE_LIMIT
    requires |batch| < cfg.flushAt && m.size <= MAX_MSG_SIZE
    ensures WellFilled(cfg, batch + [m]) && TotalSize(batch + [m]) == TotalSize(batch) + m.size
  {
    assert (batch + [m])[..|batch|] == batch;
  }

  lemma FillOne(cfg: Config, taken: seq<Msg>, batch: seq<Msg>, total: nat, m: Msg)
    requires FillState(cfg, taken, batch, total) && total < BATCH_SIZE_LIMIT && |batch| < cfg.flushAt
    ensures if m.size > MAX_MSG_SIZE then FillState(cfg, taken + [m], batch, total)
            else FillState(cfg, taken + [m], batch + [m], total + m.size)
  {
    OneMoreSendable(taken, m);
    if m.size <= MAX_MSG_SIZE {
      OneMoreFits(cfg, batch, m);
    }
  }

  // ----- an upload is a run of the state machine -----

  /** Before each message taken there was room in the batch. */
  ghost predicate HadRoom(cfg: Config, taken: seq<Msg>) {
    forall k :: 0 <= k < |taken| ==> RoomAfter(cfg, taken[..k])
  }

  predicate RoomAfter(cfg: Config, taken: seq<Msg>) {
    |Sendable(taken)| < cfg.flushAt && TotalSize(Sendable(taken)) < BATCH_SIZE_LIMIT
  }

  lemma HadRoomForOneMore(cfg: Config, taken: seq<Msg>, m: Msg)
    requires HadRoom(cfg, taken) && RoomAfter(cfg, taken)
    ensures HadRoom(cfg, taken + [m])
  {
    forall k | 0 <= k < |taken + [m]|
      ensures RoomAfter(cfg, (taken + [m])[..k])
    {
      assert (taken + [m])[..k] == taken[..k];
      assert taken[..|taken|] == taken;
    }
  }

  function Filled(batch: seq<Msg>): Stage {
    if TotalSize(batch) >= BATCH_SIZE_LIMIT then Sending(batch) else Filling(batch, TotalSize(batch))
  }

  function Takes(c: nat, k: nat): seq<Action> {
    seq(k, _ => Take(c))
  }

  function Acks(c: nat, k: nat): seq<Action> {
    seq(k, _ => Ack(c))
  }

  /** The steps of one upload that takes these messages. */
  function UploadSteps(c: nat, taken: seq<Msg>): seq<Action> {
    [Begin(c)] + Takes(c, |taken|) + CloseSteps(c, Sendable(taken)) + SendSteps(c, Sendable(taken))
  }

  /** Where a consumer is once it took these messages from the front of the queue. */
  function AfterTaking(p: Pipeline, c: nat, taken: seq<Msg>): Pipeline
    requires c < |p.consumers| && taken <= p.queue
  {
    SetStage(p, c, Filled(Sendable(taken))).(queue := p.queue[|taken|..], dequeued := p.dequeued + taken)
  }

  lemma TakeOneMore(cfg: Config, p: Pipeline, c: nat, taken: seq<Msg>, m: Msg)
    requires c < |p.consumers| && taken + [m] <= p.queue && RoomAfter(cfg, taken)
    ensures Step(cfg, AfterTaking(p, c, taken), Take(c)) == AfterTaking(p, c, taken + [m])
  {
    var q, batch := AfterTaking(p, c, taken), Sendable(taken);
    OneMoreSendable(taken, m);
    assert q.queue[0] == m && q.queue[1..] == p.queue[|taken + [m]|..];
    assert q.dequeued + [m] == p.dequeued + (taken + [m]);
    assert (batch + [m])[..|batch|] == batch;
    assert TotalSize(batch + [m]) == TotalSize(batch) + m.size;
    assert Sendable(taken + [m]) == if m.size > MAX_MSG_SIZE then batch else batch + [m];
    assert Fill(batch, TotalSize(batch), m) == Filled(Sendable(taken + [m]));
    assert Step(cfg, q, Take(c)).consumers == AfterTaking(p, c, taken + [m]).consumers;
  }

  lemma {:induction false} TakesFill(cfg: Config, p: Pipeline, c: nat, taken: seq<Msg>)
    requires c < |p.consumers| && p.consumers[c].stage == Filling([], 0)
    requires taken <= p.queue && HadRoom(cfg, taken)
    ensures Run(cfg, p, Takes(c, |taken|)) == AfterTaking(p, c, taken)
    decreases |taken|
  {
    if taken == [] {
      assert p.dequeued + taken == p.dequeued && p.queue[0..] == p.queue;
      assert p.consumers[c := p.consumers[c].(stage := Filling([], 0))] == p.consumers;
    } else {
      var k := |taken| - 1;
      forall i | 0 <= i < k
        ensures RoomAfter(cfg, taken[..k][..i])
      {
        assert taken[..k][..i] == taken[..i];
      }
      TakesFill(cfg, p, c, taken[..k]);
      assert taken == taken[..k] + [taken[k]];
      assert RoomAfter(cfg, taken[..k]);
      TakeOneMore(cfg, p, c, taken[..k], taken[k]);
      assert Takes(c, |taken|) == Takes(c, k) + [Take(c)];
      RunConcat(cfg, p, Takes(c, k), [Take(c)]);
      RunOne(cfg, Run(cfg, p, Takes(c, k)), Take(c));
    }
  }

  lemma {:induction false} AcksFinish(cfg: Config, p: Pipeline, c: nat, batch: seq<Msg>)
    requires c < |p.consumers| && p.consumers[c].stage == Acking(batch)
    ensures Run(cfg, p, Acks(c, |batch| + 1)) == SetStage(p, c, Top).(unfinished := p.unfinished - |batch|)
    decreases |batch|
  {
    var p' := Step(cfg, p, Ack(c));
    assert Acks(c, |batch| + 1) == [Ack(c)] + Acks(c, |batch|);
    assert Acks(c, |batch| + 1)[1..] == Acks(c, |batch|);
    if batch == [] {
      assert Acks(c, 0) == [];
    } else {
      AcksFinish(cfg, p', c, batch[1..]);
    }
  }

  /** What one upload comes to. */
  function Uploaded(p: Pipeline, taken: seq<Msg>): Pipeline
    requires taken <= p.queue
  {
    var batch := Sendable(taken);
    p.(queue := p.queue[|taken|..], dequeued := p.dequeued + taken, unfinished := p.unfinished - |batch|,
       requested := p.requested + if batch == [] then [] else [batch])
  }

  function CloseSteps(c: nat, batch: seq<Msg>): seq<Action> {
    if TotalSize(batch) >= BATCH_SIZE_LIMIT then [] else [Close(c)]
  }

  function SendSteps(c: nat, batch: seq<Msg>): seq<Action> {
    if batch == [] then [] else [Request(c)] + Acks(c, |batch| + 1)
  }

  lemma ClosingEndsFilling(cfg: Config, p: Pipeline, c: nat, batch: seq<Msg>)
    requires c < |p.consumers| && p.consumers[c].stage == Filled(batch)
    ensures Run(cfg, p, CloseSteps(c, batch)) == SetStage(p, c, if batch == [] then Top else Sending(batch))
  {
    RunOne(cfg, p, Close(c));
    assert p.consumers[c := p.consumers[c]] == p.consumers;
  }

  lemma SendingAcknowledges(cfg: Config, p: Pipeline, c: nat, batch: seq<Msg>)
    requires c < |p.consumers| && p.consumers[c].stage == if batch == [] then Top else Sending(batch)
    ensures Run(cfg, p, SendSteps(c, batch)) ==
            SetStage(p, c, Top).(unfinished := p.unfinished - |batch|,
                                 requested := p.requested + if batch == [] then [] else [batch])
  {
    if batch == [] {
      assert p.consumers[c := p.consumers[c]] == p.consumers && p.requested + [] == p.requested;
    } else {
      RunOne(cfg, p, Request(c));
      RunConcat(cfg, p, [Request(c)], Acks(c, |batch| + 1));
      AcksFinish(cfg, Step(cfg, p, Request(c)), c, batch);
    }
  }

  /** One upload by a running consumer, undisturbed by the others, is a run of the state machine. */
  lemma UploadIsRun(cfg: Config, p: Pipeline, c: nat, taken: seq<Msg>)
    requires c < |p.consumers| && p.consumers[c] == Consumer(true, Top)
    requires taken <= p.queue && HadRoom(cfg, taken)
    ensures Run(cfg, p, UploadSteps(c, taken)) == Uploaded(p, taken)
  {
    var batch, p1 := Sendable(taken), Step(cfg, p, Begin(c));
    var p2 := AfterTaking(p1, c, taken);
    var p3 := SetStage(p2, c, if batch == [] then Top else Sending(batch));
    RunOne(cfg, p, Begin(c));
    TakesFill(cfg, p1, c, taken);
    RunConcat(cfg, p, [Begin(c)], Takes(c, |taken|));
    RunConcat(cfg, p, [Begin(c)] + Takes(c, |taken|), CloseSteps(c, batch));
    ClosingEndsFilling(cfg, p2, c, batch);
    RunConcat(cfg, p, [Begin(c)] + Takes(c, |taken|) + CloseSteps(c, batch), SendSteps(c, batch));
    SendingAcknowledges(cfg, p3, c, batch);
    assert SetStage(p3, c, Top).consumers == p.consumers;
  }

  /** Small messages are sent together while there is room: of two, the second is in the same batch. */
  lemma TwoShareABatch(cfg: Config, p: Pipeline, c: nat, a: Msg, b: Msg)
    requires c < |p.consumers| && p.consumers[c] == Consumer(true, Top) && p.queue == [a, b]
    requires cfg.flushAt >= 2 && a.size <= 32768 && b.size <= 32768
    ensures var p' := Run(cfg, p, UploadSteps(c, [a, b]));
            && p'.queue == [] && p'.unfinished == p.unfinished - 2 && p'.consumers == p.consumers
            && p'.requested == p.requested + [[a, b]]
  {
    var taken := [a, b];
    assert taken[..0] == [] && taken[..1] == [a] && [] + [a] == [a] && [a] + [b] == taken;
    OneMoreSendable([], a);
    OneMoreSendable([a], b);
    assert Sendable([a]) == [a] && Sendable(taken) == taken;
    assert TotalSize([a]) == a.size;
    assert HadRoom(cfg, taken);
    UploadIsRun(cfg, p, c, taken);
  }

  class EventConsumer {
    const queue: MessageQueue
    const flushAt: int
    var running: bool
    /** The batches handed to request so far. */
    ghost var requested: seq<seq<Msg>>

    constructor (queue: MessageQueue, flushAt: int)
      ensures this.queue == queue && this.flushAt == flushAt && running && requested == []
    {
      this.queue, this.flushAt, running := queue, flushAt, true;
      requested := [];
    }

    method PauseConsumer()
      modifies this`running
      ensures !running
    {
      running := false;
    }

    /** The next batch: the messages taken from the front of the queue, in order, without the oversized
        ones, and within the bounds. turns: how often there is time left when the clock is read. It does not
        end before that unless the queue is empty, the batch is full, or its size limit is reached. */
    method Next(turns: nat) returns (batch: seq<Msg>, ghost taken: seq<Msg>)
      modifies queue`items
      ensures old(queue.items) == taken + queue.items
      ensures batch == Sendable(taken)
      ensures batch == [] || WellFilled(Config(queue.maxSize, flushAt), batch)
      ensures HadRoom(Config(queue.maxSize, flushAt), taken)
      ensures |batch| <= (if flushAt < 0 then 0 else flushAt) && forall m :: m in batch ==> m.size <= 32768
      ensures |taken| <= turns
      ensures |taken| < turns ==> queue.items == [] || |batch| >= flushAt || TotalSize(batch) >= 475000
    {
      batch, taken := [], [];
      ghost var cfg := Config(queue.maxSize, flushAt);
      var totalSize: nat := 0;
      var turn: nat := 0;
      while |batch| < flushAt
        invariant turn == |taken| <= turns
        invariant |batch| <= (if flushAt < 0 then 0 else flushAt)
        invariant old(queue.items) == taken + queue.items
        invariant FillState(cfg, taken, batch, totalSize) && totalSize < BATCH_SIZE_LIMIT
        invariant HadRoom(cfg, taken)
        decreases |queue.items|
      {
        if turn == turns {
          break;
        }
        turn := turn + 1;
        var item := queue.Get();
        if item.None? {
          break;
        }
        HadRoomForOneMore(cfg, taken, item.value);
        FillOne(cfg, taken, batch, totalSize, item.value);
        assert old(queue.items) == (taken + [item.value]) + queue.items;
        taken := taken + [item.value];
        if item.value.size > MAX_MSG_SIZE {
          continue;
        }
        batch := batch + [item.value];
        totalSize := totalSize + item.value.size;
        if totalSize >= BATCH_SIZE_LIMIT {
          break;
        }
      }
    }

    /** Upload one batch, as the state machine does. Whether or not that works, its messages are marked as
        done; those that were dropped are not. */
    method Upload(turns: nat) returns (success: bool, ghost taken: seq<Msg>)
      requires |queue.items| <= queue.unfinished
      modifies this`requested, queue
      ensures old(queue.items) == taken + queue.items && HadRoom(Config(queue.maxSize, flushAt), taken)
      ensures queue.unfinished == old(queue.unfinished) - |Sendable(taken)|
      ensures requested == old(requested) + if Sendable(taken) == [] then [] else [Sendable(taken)]
      ensures Sendable(taken) == [] ==> !success
      ensures |queue.items| <= queue.unfinished
      ensures |taken| < turns ==>
                queue.items == [] || |Sendable(taken)| >= flushAt || TotalSize(Sendable(taken)) >= 475000
    {
      success := false;
      var batch;
      batch, taken := Next(turns);
      SendableIsShorter(taken);
      if |batch| == 0 {
        return;
      }
      requested := requested + [batch];
      success := *;
      for i := 0 to |batch|
        invariant queue.items == old(queue.items)[|taken|..]
        invariant queue.unfinished == old(queue.unfinished) - i
        invariant requested == old(requested) + [batch]
      {
        queue.TaskDone();
      }
    }
  }

  lemma {:induction false} SendableIsShorter(msgs: seq<Msg>)
    ensures |Sendable(msgs)| <= |msgs|
  {
    if msgs == [] {
    } else {
      SendableIsShorter(msgs[..|msgs| - 1]);
    }
  }

  class Client {
    const queue: MessageQueue
    const send: bool
    const syncMode: bool
    /** The consumers that join knows of; None if that was never set to a list. */
    var consumers: Option<seq<EventConsumer>>
    /** All consumers that were created. */
    ghost var created: seq<EventConsumer>
    /** The batches posted in synchronous mode. */
    ghost var posted: seq<seq<Msg>>

    /** Each turn of the loop begins a new list of consumers, so only the last consumer stays in it. */
    constructor (maxQueueSize: int, flushAt: int, threads: nat, send: bool, syncMode: bool)
      ensures fresh(queue) && this.send == send && this.syncMode == syncMode && posted == []
      ensures |created| == (if syncMode then 0 else threads)
      ensures forall i :: 0 <= i < |created| ==> fresh(created[i]) && created[i].running
      ensures forall i, j :: 0 <= i < j < |created| ==> created[i] != created[j]
      ensures consumers == if |created| == 0 then None else Some([created[|created| - 1]])
    {
      queue := new MessageQueue(maxQueueSize);
      this.send, this.syncMode := send, syncMode;
      consumers := None;
      created, posted := [], [];
      new;
      if !syncMode {
        for n := 0 to threads
          invariant |created| == n && fresh(queue)
          invariant forall i :: 0 <= i < n ==> fresh(created[i]) && created[i].running
          invariant forall i, j :: 0 <= i < j < n ==> created[i] != created[j]
          invariant consumers == if n == 0 then None else Some([created[n - 1]])
          invariant posted == []
        {
          consumers := Some([]);
          var consumer := new EventConsumer(queue, flushAt);
          assert consumers.value + [consumer] == [consumer];
          consumers := Some(consumers.value + [consumer]);
          created := created + [consumer];
        }
      }
    }

    method Enqueue(m: Msg) returns (success: bool)
      modifies this`posted, queue
      ensures !send ==> success && queue.items == old(queue.items) && posted == old(posted)
      ensures queue.unfinished == old(queue.unfinished) + (if send && !syncMode && success then 1 else 0)
      ensures send && syncMode ==> success && queue.items == old(queue.items) && posted == old(posted) + [[m]]
      ensures send && !syncMode ==>
                posted == old(posted) && queue.items == if success then old(queue.items) + [m] else old(queue.items)
      ensures send && !syncMode ==> (success <==> !(queue.maxSize > 0 && old(|queue.items|) >= queue.maxSize))
    {
      if !send {
        return true;
      }
      if syncMode {
        posted := posted + [[m]];
        return true;
      }
      success := queue.Put(m);
    }

    /** Pause the consumers that are known. Of several created consumers, all but the last go on, and where
        none is known the call raises. */
    method Join() returns (ok: bool)
      requires consumers.Some? ==> forall c :: c in consumers.value ==> c in created
      modifies created
      ensures ok <==> consumers.Some?
      ensures forall c :: c in created ==>
                c.running == (old(c.running) && !(consumers.Some? && c in consumers.value))
    {
      if consumers.None? {
        return false;
      }
      for i := 0 to |consumers.value|
        invariant forall c :: c in created ==>
                    c.running == (old(c.running) && c !in consumers.value[..i])
      {
        assert consumers.value[i] in consumers.value;
        assert consumers.value[..i + 1] == consumers.value[..i] + [consumers.value[i]];
        consumers.value[i].PauseConsumer();
      }
      assert consumers.value[..|consumers.value|] == consumers.value;
      return true;
    }
  }

  /** What the program registers for its exit: a client is set up, and later joined. That pauses every
      consumer if and only if there is at most one, and raises if and only if there is none. */
  method StartAndJoin(maxQueueSize: int, flushAt: int, threads: nat, send: bool, syncMode: bool)
    returns (client: Client, ok: bool)
    ensures fresh(client) && |client.created| == (if syncMode then 0 else threads)
    ensures ok <==> !syncMode && threads > 0
    ensures (forall c :: c in client.created ==> !c.running) <==> syncMode || threads <= 1
    ensures forall i :: 0 <= i < |client.created| - 1 ==> client.created[i].running
  {
    client := new Client(maxQueueSize, flushAt, threads, send, syncMode);
    ghost var created := client.created;
    ok := client.Join();
    assert forall i :: 0 <= i < |created| - 1 ==> created[i].running;
    if |created| > 1 {
      assert created[0] in created;
    }
  }
}
