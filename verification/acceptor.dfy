/** The accept loop of `main` in src/main.rs, one iteration per event. An
    iteration first reads the shutdown flag; only when it is clear does it
    call `accept`, whose outcome is a connection, "would block", or another
    error. The sleep after "would block" is timing and is not modelled. */
module Acceptor {

  /** What one iteration observes. `ShutdownSeen` is the flag read as set (no
      accept happens in that iteration); the others are accept outcomes with
      the flag clear. */
  datatype Event = ShutdownSeen | Accepted(conn: nat) | WouldBlock | AcceptFailed

  /** What the loop does after one iteration. */
  datatype Decision = Stop | Submit(conn: nat) | Continue

  function Decide(e: Event): (d: Decision)
    ensures d.Stop? <==> e.ShutdownSeen?
    ensures d.Submit? <==> e.Accepted?
    ensures d.Submit? ==> d.conn == e.conn
  {
    match e
    case ShutdownSeen => Stop
    case Accepted(c) => Submit(c)
    case WouldBlock => Continue
    case AcceptFailed => Continue
  }

  /** Reference definition: the connections accepted in a run of events, in
      order. */
  function Connections(events: seq<Event>): seq<nat> {
    if |events| == 0 then []
    else if events[0].Accepted? then [events[0].conn] + Connections(events[1..])
    else Connections(events[1..])
  }

  predicate NoShutdown(events: seq<Event>) {
    forall i :: 0 <= i < |events| ==> !events[i].ShutdownSeen?
  }

  /** The jobs submitted, how many events the loop consumed, and whether it
      left the loop. */
  datatype Outcome = Outcome(submitted: seq<nat>, consumed: nat, stopped: bool)

  /** How a prefix of `k + 1` events relates to `k` events after the
      first: the first event's connection, if any, then the rest's. */
  lemma PrefixAfterFirst(events: seq<Event>, k: nat)
    ensures 0 < |events| && k < |events| ==>
      && Connections(events[..k + 1])
         == (if events[0].Accepted? then [events[0].conn] else []) + Connections(events[1..][..k])
      && (!events[0].ShutdownSeen? && 0 < k && NoShutdown(events[1..][..k - 1]) ==> NoShutdown(events[..k]))
  {
    if 0 < |events| && k < |events| {
      var p := events[..k + 1];
      assert p[0] == events[0] && p[1..] == events[1..][..k];
      if 0 < k {
        assert forall i :: 0 < i < k ==> events[..k][i] == events[1..][..k - 1][i - 1];
      }
    }
  }

  /** Runs the loop over the events in order until it decides to stop. */
  function AcceptLoop(events: seq<Event>): (r: Outcome)
    ensures r.consumed <= |events|
    ensures r.stopped ==> 0 < r.consumed && events[r.consumed - 1].ShutdownSeen?
    ensures forall i :: 0 <= i < r.consumed - 1 ==> !events[i].ShutdownSeen?
    ensures !r.stopped ==> r.consumed == |events| && NoShutdown(events)
    ensures r.submitted == Connections(events[..r.consumed])
    decreases |events|
  {
    if |events| == 0 then Outcome([], 0, false)
    else
      var rest := AcceptLoop(events[1..]);
      PrefixAfterFirst(events, rest.consumed);
      var d := Decide(events[0]);
      if d.Stop? then Outcome([], 1, true)
      else if d.Submit? then Outcome([d.conn] + rest.submitted, rest.consumed + 1, rest.stopped)
      else Outcome(rest.submitted, rest.consumed + 1, rest.stopped)
  }

  lemma {:induction false} ConnectionsAppend(a: seq<Event>, b: seq<Event>)
    ensures Connections(a + b) == Connections(a) + Connections(b)
    decreases |a|
  {
    if |a| > 0 {
      assert (a + b)[1..] == a[1..] + b;
      ConnectionsAppend(a[1..], b);
    } else {
      assert a + b == b;
    }
  }

  /** One iteration without the flag: at most one job, then the rest. */
  lemma RunStep(events: seq<Event>)
    requires |events| > 0 && !events[0].ShutdownSeen?
    ensures AcceptLoop(events)
         == Outcome(
              (if events[0].Accepted? then [events[0].conn] else []) + AcceptLoop(events[1..]).submitted,
              AcceptLoop(events[1..]).consumed + 1,
              AcceptLoop(events[1..]).stopped)
  {
  }

  /** Iterations without the flag set never end the loop: the loop runs
      through them and carries on with what follows. */
  lemma {:induction false} RunAppend(before: seq<Event>, after: seq<Event>)
    requires NoShutdown(before)
    ensures AcceptLoop(before + after)
         == Outcome(
              Connections(before) + AcceptLoop(after).submitted,
              |before| + AcceptLoop(after).consumed,
              AcceptLoop(after).stopped)
    decreases |before|
  {
    if |before| == 0 {
      assert before + after == after;
    } else {
      var events := before + after;
      var head := if before[0].Accepted? then [before[0].conn] else [];
      assert events[0] == before[0];
      assert events[1..] == before[1..] + after;
      assert NoShutdown(before[1..]) by {
        assert forall i :: 0 <= i < |before| - 1 ==> before[1..][i] == before[i + 1];
      }
      RunStep(events);
      RunAppend(before[1..], after);
      var tail := AcceptLoop(before[1..] + after);
      assert AcceptLoop(events) == Outcome(head + tail.submitted, tail.consumed + 1, tail.stopped);
      assert Connections(before) == head + Connections(before[1..]);
      assert head + (Connections(before[1..]) + AcceptLoop(after).submitted)
          == Connections(before) + AcceptLoop(after).submitted;
    }
  }

  /** Once the flag is seen set the loop ends: nothing after it is accepted
      or submitted. */
  lemma ShutdownIsFinal(before: seq<Event>, after: seq<Event>)
    requires NoShutdown(before)
    ensures AcceptLoop(before + [ShutdownSeen] + after) == Outcome(Connections(before), |before| + 1, true)
  {
    var rest := [ShutdownSeen] + after;
    assert before + [ShutdownSeen] + after == before + rest;
    assert AcceptLoop(rest) == Outcome([], 1, true) by {
      assert rest[0] == ShutdownSeen;
    }
    RunAppend(before, rest);
  }

  /** Each accepted connection submits exactly one job, in accept order;
      would-block and failed accepts submit nothing and keep looping. */
  lemma AcceptSubmitsOne(before: seq<Event>, e: Event, after: seq<Event>)
    requires NoShutdown(before)
    requires !e.ShutdownSeen?
    ensures AcceptLoop(before + [e] + after).submitted
         == Connections(before) + (if e.Accepted? then [e.conn] else []) + AcceptLoop(after).submitted
    ensures AcceptLoop(before + [e] + after).stopped == AcceptLoop(after).stopped
  {
    assert before + [e] + after == (before + [e]) + after;
    assert NoShutdown(before + [e]);
    RunAppend(before + [e], after);
    ConnectionsAppend(before, [e]);
    assert [e][1..] == [];
  }
}
