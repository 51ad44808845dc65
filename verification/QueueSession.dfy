/** The queue on the heap, driven through a whole run, does what QueueRuns says, and leaves the pool as it was. */
module QueueSession {
  import opened Units
  import opened PoolModel
  import opened StringLists
  import opened Wire
  import opened ReportQueue
  import opened QueueRuns

  lemma {:induction false} RunSnoc(lib: CharDecoder, s: State, events: seq<Event>, e: Event)
    requires Numbered(s.log, s.queue)
    ensures Numbered(Run(lib, s, events).log, Run(lib, s, events).queue)
    ensures Run(lib, s, events + [e]) == Step(lib, Run(lib, s, events), e)
    decreases events
  {
    if events == [] {
      assert events + [e] == [e];
    } else {
      assert (events + [e])[1..] == events[1..] + [e];
      StepKeepsNumbered(lib, s, events[0]);
      RunSnoc(lib, Step(lib, s, events[0]), events[1..], e);
    }
  }

  /** The heap queue holds the queued names; what else is allocated is others. */
  ghost predicate Mirrors(state: CommunicationState, s: State, others: set<object>)
    reads state, state.pool, state.nodes
  {
    && state.Valid()
    && Numbered(s.log, s.queue) && state.queue == Names(s.log, s.queue)
    && state.pool.live == others + Blocks(state.nodes) && others !! Blocks(state.nodes)
  }

  method ReportOnce(state: CommunicationState, lib: CharDecoder, name: Ustr, ghost s: State, ghost others: set<object>)
    requires Mirrors(state, s, others)
    requires state.pool.Grants(state.pool.asked, state.pool.asked + 2)
    modifies state, state.pool
    ensures Mirrors(state, Step(lib, s, Report(name)), others)
    ensures state.pool.asked == old(state.pool.asked) + 2
  {
    state.ReportItem(name);
    assert Names(s.log + [name], [|s.log|] + s.queue) == [name] + Names(s.log, s.queue);
  }

  /** One poll: the driver fills the client's buffer, the client decodes the bytes it was told to read. */
  method PollOnce(state: CommunicationState, lib: CharDecoder, bufferSize: nat,
      ghost s: State, ghost others: set<object>)
    returns (names: Option<seq<seq<unit>>>)
    requires Mirrors(state, s, others) && RoomForEveryDrain(bufferSize)
    modifies state, state.pool`live
    ensures Mirrors(state, Step(lib, s, Poll(bufferSize)), others)
    ensures Step(lib, s, Poll(bufferSize)).seen == s.seen + [names]
  {
    PollStep(lib, s, bufferSize);
    PayloadFits(state.queue, bufferSize);
    var buffer := new byte[bufferSize](_ => 0);
    var written := state.BuildOutputStreamBuffer(buffer, bufferSize, others);
    names := GetReportedItems(lib, buffer[..written]);
  }

  function Reports(events: seq<Event>): nat {
    if events == [] then 0
    else Reports(events[..|events| - 1]) + (if events[|events| - 1].Report? then 1 else 0)
  }

  lemma {:induction false} ReportsSoFar(events: seq<Event>, i: nat)
    requires i <= |events|
    ensures Reports(events[..i]) <= Reports(events)
  {
    if i == |events| {
      assert events[..i] == events;
    } else {
      ReportsSoFar(events[..|events| - 1], i);
      assert events[..|events| - 1][..i] == events[..i];
    }
  }

  /**
   * Serves any run of reports and polls for which there is memory, and finally clears the queue: the client has
   * seen what Run says, and the pool is back to what it was.
   */
  method Session(pool: Pool, lib: CharDecoder, events: seq<Event>) returns (seen: seq<Option<seq<seq<unit>>>>)
    requires forall i :: 0 <= i < |events| && events[i].Poll? ==> RoomForEveryDrain(events[i].bufferSize)
    requires pool.Grants(pool.asked, pool.asked + 2 * Reports(events))
    modifies pool
    ensures pool.asked == old(pool.asked) + 2 * Reports(events)
    ensures seen == Run(lib, START, events).seen
    ensures pool.live == old(pool.live)
  {
    var state := new CommunicationState(pool);
    ghost var s := START;
    ghost var others := pool.live;
    seen := [];
    for i := 0 to |events|
      invariant Mirrors(state, s, others) && state.pool == pool && fresh(state)
      invariant pool.asked == old(pool.asked) + 2 * Reports(events[..i])
      invariant s == Run(lib, START, events[..i]) && seen == s.seen
    {
      RunSnoc(lib, START, events[..i], events[i]);
      assert events[..i + 1] == events[..i] + [events[i]];
      assert Reports(events[..i + 1]) <= Reports(events) by {
        ReportsSoFar(events, i + 1);
      }
      match events[i] {
        case Report(name) =>
          ReportOnce(state, lib, name, s, others);
        case Poll(bufferSize) =>
          var names := PollOnce(state, lib, bufferSize, s, others);
          seen := seen + [names];
      }
      s := Step(lib, s, events[i]);
    }
    assert events[..|events|] == events;
    state.ClearOutputBuffer();
  }
}
