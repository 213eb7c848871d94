/** `main` in src/main.rs end to end: build a pool of four workers, run the
    accept loop, submit one job per accepted connection, and drop the pool
    when the loop ends. A job is named by its connection. The workers take
    any schedule of turns between the last submission and the drop. */
module Server {
  import opened ThreadPool
  import opened Acceptor
  import opened Wrappers

  const PoolSize: nat := 4

  /** `pool.execute` for each job in turn. Once the sender is gone or every
      worker has exited, each further `execute` leaves the pool as it is, so
      the remaining jobs are skipped at once. */
  function SubmitAll(p: Pool, jobs: seq<JobId>): (r: Pool)
    requires Valid(p)
    ensures Valid(r)
    ensures r.workers == p.workers && r.sender == p.sender && r.taken == p.taken
    ensures p.sender.Some? && ReceiverAlive(p) ==> r.channel.sent == p.channel.sent + jobs
    ensures p.sender.None? || !ReceiverAlive(p) ==> r == p
    decreases |jobs|
  {
    if |jobs| == 0 || p.sender.None? || !ReceiverAlive(p) then p
    else
      var next := Execute(p, jobs[0]).pool;
      assert ReceiverAlive(next) && next.channel.sent + jobs[1..] == p.channel.sent + jobs;
      SubmitAll(next, jobs[1..])
  }

  /** The pool once the accept loop has stopped: four live workers, the
      sender present, and one job queued per accepted connection, in accept
      order. No worker has taken a turn yet. */
  function Loaded(events: seq<Event>): (p: Pool)
    requires AcceptLoop(events).stopped
    ensures Valid(p) && p.sender.Some? && |p.workers| == PoolSize
    ensures forall i :: 0 <= i < PoolSize ==> p.workers[i] == Worker(i, Some(JoinHandle), Idle)
    ensures p.channel.sent == AcceptLoop(events).submitted && p.taken == []
  {
    var pool := New(PoolSize);
    assert ReceiverAlive(pool) by {
      assert pool.workers[0].status.Idle?;
    }
    SubmitAll(pool, AcceptLoop(events).submitted)
  }

  /** Worker turns that name one of the four workers, each acquiring its
      lock. The lock is held only around `recv`, which does not panic, so it
      is never poisoned and every `lock()` of a real run succeeds. */
  predicate Turns(schedule: seq<(nat, bool)>) {
    forall t :: 0 <= t < |schedule| ==> schedule[t].0 < PoolSize && schedule[t].1
  }

  /** A run of `main` that ends: the accept loop stops at the first shutdown
      flag, the workers take the turns in `schedule`, and then the pool is
      dropped. Every connection accepted before shutdown is taken from the
      queue exactly once, in accept order, by the time the drop returns, and
      every worker is joined once, in creation order. An event sequence on
      which the loop never stops describes a server that is still polling,
      so it has no teardown. */
  function Serve(events: seq<Event>, schedule: seq<(nat, bool)>): (r: Teardown)
    requires AcceptLoop(events).stopped && Turns(schedule)
    ensures r.pool.taken == AcceptLoop(events).submitted
    ensures JoinedIds(r.trace) == Ids(0, PoolSize)
    ensures r.trace[0].Retire?
  {
    var worked := Worked(events, schedule);
    OccupiedFull(worked.workers, 0);
    Drop(worked)
  }

  /** The pool after the workers' turns: every slot still holds its handle,
      the sender is present, a worker is still running to drain the queue at
      the drop, and the jobs sent are the accepted connections, in accept
      order. */
  function Worked(events: seq<Event>, schedule: seq<(nat, bool)>): (p: Pool)
    requires AcceptLoop(events).stopped && Turns(schedule)
    ensures Valid(p) && p.sender.Some? && |p.workers| == PoolSize
    ensures forall i :: 0 <= i < PoolSize ==> p.workers[i].thread.Some?
    ensures ReceiverAlive(p)
    ensures p.channel.sent == AcceptLoop(events).submitted
  {
    var loaded := Loaded(events);
    OpenChannelKeepsWorkers(loaded, schedule);
    var worked := RunSchedule(loaded, schedule);
    assert worked.workers[0].status.Idle?;
    worked
  }

  /** Seeing the shutdown flag ends the run, and connections that arrive after
      it are never served. */
  lemma {:induction false} ShutdownStopsServing(before: seq<Event>, after: seq<Event>, schedule: seq<(nat, bool)>)
    requires NoShutdown(before) && Turns(schedule)
    ensures AcceptLoop(before + [ShutdownSeen] + after).stopped
    ensures Serve(before + [ShutdownSeen] + after, schedule).pool.taken == Connections(before)
  {
    ShutdownIsFinal(before, after);
  }
}
