/** `ThreadPool` and `Worker` from src/lib.rs as a sequential state machine.
    Threads are not modelled; each worker is a state (`Idle` while its loop
    runs, `Exited` once the loop has returned) plus the `Option` slot holding
    its join handle. The channel is the list of jobs ever sent, a count of
    jobs received so far and a flag saying the sender has been dropped. Jobs
    are opaque ids; a worker's turn that receives a job appends it to
    `taken`, so `taken` is the order in which jobs leave the queue. When a
    job's closure runs, relative to the jobs of other workers, is not part of
    the model. */
module ThreadPool {
  import opened Wrappers

  type JobId = nat

  datatype Status = Idle | Exited

  /** The handle `thread::spawn` returns; joining consumes it. */
  datatype JoinHandle = JoinHandle

  datatype Worker = Worker(id: nat, thread: Option<JoinHandle>, status: Status)

  /** The sending half of the job channel. */
  datatype Sender = Sender

  datatype Channel = Channel(sent: seq<JobId>, received: nat, closed: bool)

  datatype Pool = Pool(workers: seq<Worker>, sender: Option<Sender>, channel: Channel, taken: seq<JobId>)

  /** The jobs still queued in the channel. */
  function Pending(c: Channel): seq<JobId>
    requires c.received <= |c.sent|
  {
    c.sent[c.received..]
  }

  /** The pool invariant: positive size, ids 0..size-1 in order, the channel
      is closed exactly when the sender slot is empty, every job sent so far
      has either been taken from the queue once, in send order, or is still
      queued, and a thread slot is emptied only after the sender is retired
      and that worker has exited. */
  predicate Valid(p: Pool) {
    && |p.workers| > 0
    && (forall i :: 0 <= i < |p.workers| ==> p.workers[i].id == i)
    && (p.channel.closed <==> p.sender.None?)
    && p.channel.received <= |p.channel.sent|
    && p.taken == p.channel.sent[..p.channel.received]
    && (forall i :: 0 <= i < |p.workers| && p.workers[i].thread.None? ==>
          p.sender.None? && p.workers[i].status.Exited?)
  }

  /** Some worker thread is still running, so the receiving half of the
      channel (shared by the workers' closures) is still alive. */
  predicate ReceiverAlive(p: Pool) {
    exists i :: 0 <= i < |p.workers| && p.workers[i].status.Idle?
  }

  /** `ThreadPool::new`: panics on zero, so zero is excluded here. */
  function New(size: nat): (p: Pool)
    requires size > 0
    ensures Valid(p)
    ensures |p.workers| == size
    ensures forall i :: 0 <= i < size ==> p.workers[i] == Worker(i, Some(JoinHandle), Idle)
    ensures p.sender.Some? && Pending(p.channel) == [] && p.taken == []
  {
    Pool(seq(size, i requires 0 <= i < size => Worker(i, Some(JoinHandle), Idle)),
         Some(Sender), Channel([], 0, false), [])
  }

  /** The three ways `execute` ends: the job went into the channel, the
      sender slot was already empty, or `send` failed because every receiver
      is gone. The last two only print a diagnostic. */
  datatype SubmitResult = Sent | SenderDropped | SendFailed

  datatype Submitted = Submitted(pool: Pool, result: SubmitResult)

  /** `ThreadPool::execute`. */
  function Execute(p: Pool, job: JobId): (r: Submitted)
    requires Valid(p)
    ensures Valid(r.pool)
    ensures r.result.SenderDropped? <==> p.sender.None?
    ensures r.result.Sent? <==> p.sender.Some? && ReceiverAlive(p)
    ensures r.result.Sent? ==> Pending(r.pool.channel) == Pending(p.channel) + [job]
    ensures r.result.Sent? ==> r.pool.channel.sent == p.channel.sent + [job]
    ensures r.pool.workers == p.workers && r.pool.sender == p.sender && r.pool.taken == p.taken
    ensures !r.result.Sent? ==> r.pool == p
  {
    if p.sender.None? then Submitted(p, SenderDropped)
    else if !ReceiverAlive(p) then Submitted(p, SendFailed)
    else
      var c := p.channel;
      assert (c.sent + [job])[..c.received] == c.sent[..c.received];
      Submitted(p.(channel := c.(sent := c.sent + [job])), Sent)
  }

  /** What one turn of a worker's loop does. `GotJob` is a successful `recv`;
      the job's closure then runs outside the lock. `Blocked` is `recv` waiting on
      an open, empty channel: no state changes. `NotRunning` is a worker whose
      loop has already returned. */
  datatype StepOutcome = GotJob(job: JobId) | Blocked | Disconnected | LockFailed | NotRunning

  datatype Stepped = Stepped(pool: Pool, outcome: StepOutcome)

  /** One turn of the loop in `Worker::new` for worker `k`; `lockOk` is
      whether `receiver.lock()` succeeded. */
  function WorkerStep(p: Pool, k: nat, lockOk: bool): (r: Stepped)
    requires Valid(p) && k < |p.workers|
    ensures Valid(r.pool)
    ensures r.pool.sender == p.sender
    ensures r.pool.channel.sent == p.channel.sent && r.pool.channel.closed == p.channel.closed
    ensures |r.pool.workers| == |p.workers|
    ensures forall i :: 0 <= i < |p.workers| && i != k ==> r.pool.workers[i] == p.workers[i]
    ensures r.pool.workers[k].id == k && r.pool.workers[k].thread == p.workers[k].thread
    ensures p.workers[k].status.Exited? ==> r.outcome.NotRunning? && r.pool == p
    ensures r.outcome.GotJob? <==> p.workers[k].status.Idle? && lockOk && |Pending(p.channel)| > 0
    ensures r.outcome.GotJob? ==>
      && r.outcome.job == Pending(p.channel)[0]
      && Pending(r.pool.channel) == Pending(p.channel)[1..]
      && r.pool.taken == p.taken + [r.outcome.job]
      && r.pool.workers[k].status.Idle?
    ensures r.outcome.LockFailed? <==> p.workers[k].status.Idle? && !lockOk
    ensures r.outcome.Disconnected? <==>
      p.workers[k].status.Idle? && lockOk && |Pending(p.channel)| == 0 && p.channel.closed
    ensures r.outcome.Disconnected? || r.outcome.LockFailed? ==>
      r.pool.workers[k].status.Exited? && r.pool.channel == p.channel && r.pool.taken == p.taken
    ensures r.outcome.NotRunning? <==> p.workers[k].status.Exited?
    ensures r.outcome.Blocked? <==>
      p.workers[k].status.Idle? && lockOk && |Pending(p.channel)| == 0 && !p.channel.closed
    ensures r.outcome.Blocked? ==> r.pool == p
  {
    var w := p.workers[k];
    var c := p.channel;
    if w.status.Exited? then Stepped(p, NotRunning)
    else if !lockOk then Stepped(p.(workers := p.workers[k := w.(status := Exited)]), LockFailed)
    else if c.received < |c.sent| then
      var job := c.sent[c.received];
      assert c.sent[..c.received + 1] == c.sent[..c.received] + [job];
      Stepped(p.(channel := c.(received := c.received + 1), taken := p.taken + [job]), GotJob(job))
    else if c.closed then Stepped(p.(workers := p.workers[k := w.(status := Exited)]), Disconnected)
    else Stepped(p, Blocked)
  }

  /** Applies worker turns in the given order: an arbitrary interleaving of
      the workers' loops, each turn naming a worker and whether its lock
      succeeded. */
  function RunSchedule(p: Pool, schedule: seq<(nat, bool)>): (r: Pool)
    requires Valid(p)
    requires forall t :: 0 <= t < |schedule| ==> schedule[t].0 < |p.workers|
    ensures Valid(r)
    ensures r.sender == p.sender && r.channel.sent == p.channel.sent
    ensures |r.workers| == |p.workers|
    ensures r.channel.received >= p.channel.received
    ensures forall i :: 0 <= i < |p.workers| ==>
      && r.workers[i].thread == p.workers[i].thread
      && (p.workers[i].status.Exited? ==> r.workers[i].status.Exited?)
    decreases |schedule|
  {
    if |schedule| == 0 then p
    else RunSchedule(WorkerStep(p, schedule[0].0, schedule[0].1).pool, schedule[1..])
  }

  /** `join` on worker `k`'s handle: blocks until its loop returns. With the
      channel closed the loop drains the queue and then sees the disconnect;
      the model lets worker `k` take every queued job, one legal schedule. */
  function JoinWorker(p: Pool, k: nat): (r: Pool)
    requires Valid(p) && k < |p.workers| && p.sender.None?
    ensures Valid(r) && r.sender.None?
    ensures r.workers == p.workers[k := p.workers[k].(status := Exited)]
    ensures r.channel.sent == p.channel.sent && r.channel.received >= p.channel.received
    ensures p.workers[k].status.Idle? ==> r.channel.received == |r.channel.sent|
    ensures p.workers[k].status.Exited? ==> r == p
    decreases |p.channel.sent| - p.channel.received
  {
    if p.workers[k].status.Exited? then p
    else
      var s := WorkerStep(p, k, true);
      if s.outcome.GotJob? then JoinWorker(s.pool, k) else s.pool
  }

  /** The observable steps of `drop`: dropping the sender, printing "Shutting
      down worker id", and joining that worker's thread. */
  datatype Action = Retire | Visit(id: nat) | Join(id: nat)

  datatype Teardown = Teardown(pool: Pool, trace: seq<Action>)

  /** The ids of the workers announced in a trace, in order. */
  function VisitedIds(t: seq<Action>): seq<nat> {
    if |t| == 0 then [] else (if t[0].Visit? then [t[0].id] else []) + VisitedIds(t[1..])
  }

  /** The ids of the workers joined in a trace, in order. */
  function JoinedIds(t: seq<Action>): seq<nat> {
    if |t| == 0 then [] else (if t[0].Join? then [t[0].id] else []) + JoinedIds(t[1..])
  }

  /** `from`, `from + 1`, ..., `to - 1`. */
  function Ids(from: nat, to: nat): (s: seq<nat>)
    requires from <= to
    ensures |s| == to - from && forall j :: 0 <= j < |s| ==> s[j] == from + j
  {
    seq(to - from, j requires 0 <= j < to - from => from + j)
  }

  /** The ids, from `from` on, of the workers whose slot still holds a
      handle, in creation order. */
  function Occupied(ws: seq<Worker>, from: nat): seq<nat>
    requires from <= |ws|
    decreases |ws| - from
  {
    if from == |ws| then []
    else if ws[from].thread.Some? then [from] + Occupied(ws, from + 1)
    else Occupied(ws, from + 1)
  }

  /** The occupied ids are exactly the workers holding a handle, strictly
      increasing, so no worker is listed twice. */
  lemma {:induction false} OccupiedExactly(ws: seq<Worker>, from: nat)
    requires from <= |ws|
    ensures forall j :: 0 <= j < |Occupied(ws, from)| ==>
      from <= Occupied(ws, from)[j] < |ws| && ws[Occupied(ws, from)[j]].thread.Some?
    ensures forall i :: from <= i < |ws| && ws[i].thread.Some? ==> i in Occupied(ws, from)
    ensures forall j1, j2 :: 0 <= j1 < j2 < |Occupied(ws, from)| ==>
      Occupied(ws, from)[j1] < Occupied(ws, from)[j2]
    decreases |ws| - from
  {
    if from < |ws| {
      OccupiedExactly(ws, from + 1);
    }
  }

  /** With every slot empty nothing is joined. */
  lemma {:induction false} OccupiedEmpty(ws: seq<Worker>, from: nat)
    requires from <= |ws|
    requires forall i :: from <= i < |ws| ==> ws[i].thread.None?
    ensures Occupied(ws, from) == []
    decreases |ws| - from
  {
    if from < |ws| {
      OccupiedEmpty(ws, from + 1);
    }
  }

  /** With every slot occupied every worker is joined. */
  lemma {:induction false} OccupiedFull(ws: seq<Worker>, from: nat)
    requires from <= |ws|
    requires forall i :: from <= i < |ws| ==> ws[i].thread.Some?
    ensures Occupied(ws, from) == Ids(from, |ws|)
    decreases |ws| - from
  {
    if from < |ws| {
      OccupiedFull(ws, from + 1);
      assert Ids(from, |ws|) == [from] + Ids(from + 1, |ws|);
    }
  }

  /** The visits and joins of the `for worker in &mut self.workers` loop of
      `drop`, from worker `from` on: every worker is announced in creation
      order, and exactly the occupied slots are joined, in the same order. */
  function WorkerActions(ws: seq<Worker>, from: nat): (t: seq<Action>)
    requires from <= |ws|
    ensures forall j :: 0 <= j < |t| ==> !t[j].Retire?
    ensures VisitedIds(t) == Ids(from, |ws|)
    ensures JoinedIds(t) == Occupied(ws, from)
    decreases |ws| - from
  {
    if from == |ws| then []
    else
      var rest := WorkerActions(ws, from + 1);
      assert Ids(from, |ws|) == [from] + Ids(from + 1, |ws|);
      if ws[from].thread.Some? then
        var t := [Visit(from), Join(from)] + rest;
        assert t[1..] == [Join(from)] + rest && t[1..][1..] == rest;
        assert VisitedIds(t[1..]) == VisitedIds(rest) && JoinedIds(t[1..]) == [from] + JoinedIds(rest);
        assert VisitedIds(t) == [from] + VisitedIds(rest) && JoinedIds(t) == JoinedIds(t[1..]);
        assert Occupied(ws, from) == [from] + Occupied(ws, from + 1);
        t
      else
        var t := [Visit(from)] + rest;
        assert t[1..] == rest;
        assert VisitedIds(t) == [from] + VisitedIds(rest) && JoinedIds(t) == JoinedIds(rest);
        assert Occupied(ws, from) == Occupied(ws, from + 1);
        t
  }

  /** Every join in `t` comes right after the announcement of the same
      worker: workers are printed and joined one at a time. */
  predicate JoinsFollowVisits(t: seq<Action>) {
    forall j :: 0 <= j < |t| && t[j].Join? ==> 0 < j && t[j - 1] == Visit(t[j].id)
  }

  /** The drop loop prints and joins one worker at a time. */
  lemma {:induction false} JoinFollowsVisit(ws: seq<Worker>, from: nat)
    requires from <= |ws|
    ensures JoinsFollowVisits(WorkerActions(ws, from))
    decreases |ws| - from
  {
    if from < |ws| {
      var rest := WorkerActions(ws, from + 1);
      var t := WorkerActions(ws, from);
      JoinFollowsVisit(ws, from + 1);
      assert JoinsFollowVisits(rest);
      var n := if ws[from].thread.Some? then 2 else 1;
      assert t == (if n == 2 then [Visit(from), Join(from)] else [Visit(from)]) + rest;
      forall j | 0 <= j < |t| && t[j].Join?
        ensures 0 < j && t[j - 1] == Visit(t[j].id)
      {
        if j >= n {
          var k := j - n;
          assert t[j] == rest[k] && rest[k].Join?;
          assert t[j - 1] == rest[k - 1];
        }
      }
    }
  }

  /** The state effect of that loop: every slot from `from` on is visited in
      turn. */
  function DropWorkers(p: Pool, from: nat): (r: Pool)
    requires Valid(p) && p.sender.None? && from <= |p.workers|
    ensures Valid(r) && r.sender.None?
    ensures |r.workers| == |p.workers|
    ensures forall i :: 0 <= i < from ==> r.workers[i] == p.workers[i]
    ensures forall i :: from <= i < |p.workers| ==> r.workers[i] == Worker(i, None, Exited)
    ensures r.channel.sent == p.channel.sent && r.channel.received >= p.channel.received
    decreases |p.workers| - from
  {
    if from == |p.workers| then p
    else DropWorkers(VisitSlot(p, from), from + 1)
  }

  /** One visit of the drop loop: a handle still in slot `k` is taken out and
      joined; an empty slot is passed over, so no handle is joined twice. The
      model applies the join first and empties the slot after, with no step
      in between. */
  function VisitSlot(p: Pool, k: nat): (q: Pool)
    requires Valid(p) && p.sender.None? && k < |p.workers|
    ensures Valid(q) && q.sender.None?
    ensures q.workers == p.workers[k := Worker(k, None, Exited)]
    ensures q.channel.sent == p.channel.sent && q.channel.received >= p.channel.received
    ensures p.workers[k].status.Idle? ==> q.channel.received == |q.channel.sent|
    ensures p.workers[k].status.Exited? ==> q.channel == p.channel
  {
    if p.workers[k].thread.Some? then
      var joined := JoinWorker(p, k);
      joined.(workers := joined.workers[k := Worker(k, None, Exited)])
    else
      assert p.workers[k := Worker(k, None, Exited)] == p.workers;
      p
  }

  /** A running worker at or after `from` drains the queue: the drop loop
      joins it, and joining a running worker drains everything queued. */
  lemma {:induction false} DropWorkersDrainsQueue(p: Pool, from: nat, k: nat)
    requires Valid(p) && p.sender.None? && from <= k < |p.workers|
    requires p.workers[k].status.Idle?
    ensures DropWorkers(p, from).channel.received == |p.channel.sent|
    decreases k - from
  {
    var q := VisitSlot(p, from);
    assert DropWorkers(p, from) == DropWorkers(q, from + 1);
    if from < k {
      assert q.workers[k] == p.workers[k];
      DropWorkersDrainsQueue(q, from + 1, k);
    }
  }

  /** With every worker from `from` on already exited, the drop loop only
      empties slots: no job is received. */
  lemma {:induction false} DropWorkersKeepsChannel(p: Pool, from: nat)
    requires Valid(p) && p.sender.None? && from <= |p.workers|
    requires forall i :: from <= i < |p.workers| ==> p.workers[i].status.Exited?
    ensures DropWorkers(p, from).channel == p.channel
    decreases |p.workers| - from
  {
    if from < |p.workers| {
      var q := VisitSlot(p, from);
      assert DropWorkers(p, from) == DropWorkers(q, from + 1);
      assert forall i :: from < i < |p.workers| ==> q.workers[i] == p.workers[i];
      DropWorkersKeepsChannel(q, from + 1);
    }
  }

  /** What the drop loop does to the queue: if any worker it visits is still
      running, every queued job has been taken when it ends; if none is, the channel
      is untouched. */
  lemma DropWorkersDrains(p: Pool, from: nat)
    requires Valid(p) && p.sender.None? && from <= |p.workers|
    ensures (exists i :: from <= i < |p.workers| && p.workers[i].status.Idle?) ==>
      DropWorkers(p, from).channel.received == |p.channel.sent|
    ensures (forall i :: from <= i < |p.workers| ==> p.workers[i].status.Exited?) ==>
      DropWorkers(p, from).channel == p.channel
  {
    if exists i :: from <= i < |p.workers| && p.workers[i].status.Idle? {
      var k :| from <= k < |p.workers| && p.workers[k].status.Idle?;
      DropWorkersDrainsQueue(p, from, k);
    } else {
      DropWorkersKeepsChannel(p, from);
    }
  }

  /** The trace of `drop`: the sender is dropped first (when there is one),
      then the workers are announced in creation order and exactly the
      occupied slots are joined, each once. */
  function DropTrace(hasSender: bool, ws: seq<Worker>): (t: seq<Action>)
    requires |ws| > 0
    ensures |t| > 0 && (t[0].Retire? <==> hasSender)
    ensures forall j :: 0 < j < |t| ==> !t[j].Retire?
    ensures JoinsFollowVisits(t)
    ensures VisitedIds(t) == Ids(0, |ws|)
    ensures JoinedIds(t) == Occupied(ws, 0)
  {
    var actions := WorkerActions(ws, 0);
    JoinFollowsVisit(ws, 0);
    var t := (if hasSender then [Retire] else []) + actions;
    var n := |t| - |actions|;
    assert JoinsFollowVisits(actions);
    forall j | 0 <= j < |t| && t[j].Join?
      ensures 0 < j && t[j - 1] == Visit(t[j].id)
    {
      var k := j - n;
      assert t[j] == actions[k] && actions[k].Join?;
      assert t[j - 1] == actions[k - 1];
    }
    assert VisitedIds(t) == VisitedIds(actions) && JoinedIds(t) == JoinedIds(actions) by {
      if hasSender {
        assert t[0] == Retire && t[1..] == actions;
      } else {
        assert t == actions;
      }
    }
    t
  }

  /** `drop(self.sender.take())`: the sender slot is emptied and the channel
      closes; nothing else changes. */
  function Retired(p: Pool): (q: Pool)
    requires Valid(p)
    ensures Valid(q) && q.sender.None? && q.channel.closed
    ensures q.workers == p.workers && q.taken == p.taken
    ensures q.channel.sent == p.channel.sent && q.channel.received == p.channel.received
  {
    p.(sender := None, channel := p.channel.(closed := true))
  }

  /** `Drop for ThreadPool`: retire the sender, then visit every worker in
      creation order, taking and joining each handle still in its slot.
      Every job sent before the drop has been taken from the queue once, in
      send order, by the time it returns, provided some worker was still
      running to drain the queue. */
  function Drop(p: Pool): (r: Teardown)
    requires Valid(p)
    ensures Valid(r.pool) && r.pool.sender.None?
    ensures |r.pool.workers| == |p.workers|
    ensures forall i :: 0 <= i < |p.workers| ==> r.pool.workers[i] == Worker(i, None, Exited)
    ensures r.trace == DropTrace(p.sender.Some?, p.workers)
    ensures r.pool.channel.sent == p.channel.sent
    ensures ReceiverAlive(p) ==> r.pool.taken == p.channel.sent
    ensures !ReceiverAlive(p) ==> r.pool.taken == p.taken
  {
    var retired := Retired(p);
    var q := DropWorkers(retired, 0);
    DropWorkersDrains(retired, 0);
    Teardown(q, DropTrace(p.sender.Some?, p.workers))
  }

  /** Dropping a pool a second time retires nothing, joins nothing and
      changes nothing: every slot was emptied by the first drop. */
  lemma DropTwiceJoinsNothing(p: Pool)
    requires Valid(p)
    ensures Drop(Drop(p).pool).pool == Drop(p).pool
    ensures JoinedIds(Drop(Drop(p).pool).trace) == []
    ensures !Drop(Drop(p).pool).trace[0].Retire?
  {
    var once := Drop(p).pool;
    var twice := Drop(once).pool;
    assert !ReceiverAlive(once);
    assert twice.workers == once.workers;
    OccupiedEmpty(once.workers, 0);
  }

  /** While the sender is present the channel is open, so a worker whose
      lock succeeds either takes a job or blocks: no running worker exits,
      whatever the interleaving. */
  lemma {:induction false} OpenChannelKeepsWorkers(p: Pool, schedule: seq<(nat, bool)>)
    requires Valid(p) && p.sender.Some?
    requires forall t :: 0 <= t < |schedule| ==> schedule[t].0 < |p.workers| && schedule[t].1
    ensures forall i :: 0 <= i < |p.workers| && p.workers[i].status.Idle? ==>
      RunSchedule(p, schedule).workers[i].status.Idle?
    decreases |schedule|
  {
    if |schedule| > 0 {
      var s := WorkerStep(p, schedule[0].0, true);
      assert RunSchedule(p, schedule) == RunSchedule(s.pool, schedule[1..]);
      assert forall t :: 0 <= t < |schedule| - 1 ==> schedule[1..][t] == schedule[t + 1];
      OpenChannelKeepsWorkers(s.pool, schedule[1..]);
    }
  }

  /** Workers may take any number of turns before the drop, with every lock
      succeeding: the drop still leaves every job sent taken from the queue
      exactly once, in send order. */
  lemma DropAfterSchedule(p: Pool, schedule: seq<(nat, bool)>)
    requires Valid(p) && p.sender.Some? && ReceiverAlive(p)
    requires forall t :: 0 <= t < |schedule| ==> schedule[t].0 < |p.workers| && schedule[t].1
    ensures Drop(RunSchedule(p, schedule)).pool.taken == p.channel.sent
  {
    var k :| 0 <= k < |p.workers| && p.workers[k].status.Idle?;
    OpenChannelKeepsWorkers(p, schedule);
    assert RunSchedule(p, schedule).workers[k].status.Idle?;
  }

  /** Submitting after the pool has been dropped is a no-op that only
      reports the missing sender. */
  lemma ExecuteAfterDropIsNoOp(p: Pool, job: JobId)
    requires Valid(p)
    ensures Execute(Drop(p).pool, job) == Submitted(Drop(p).pool, SenderDropped)
  {
  }
}
