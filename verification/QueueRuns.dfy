/**
 * Whole runs of the report queue: any interleaving of reports and polls, each one atomic step. Reports are
 * numbered, so that delivery can be counted and ordered even when two reports carry the same name.
 */
module QueueRuns {
  import opened Units
  import opened Wire

  /**
   * A poll may have any size here; one whose drain would run over its buffer (Wire.NeverOverrunsIff) is taken to
   * do no other harm, and QueueSession does not make it.
   */
  datatype Event =
    | Report(name: Ustr)
    | Poll(bufferSize: nat)

  /**
   * log: every name ever reported, oldest first. queue: the reports still queued, newest first, by number.
   * polls: what each poll drained, by number. seen: what the client decoded from each poll.
   */
  datatype State = State(
    log: seq<Ustr>, queue: seq<nat>, polls: seq<seq<nat>>, seen: seq<Option<seq<seq<unit>>>>)

  const START := State([], [], [], [])

  predicate Numbered(log: seq<Ustr>, ids: seq<nat>) {
    forall i :: 0 <= i < |ids| ==> ids[i] < |log|
  }

  /** The names behind the numbers. */
  function Names(log: seq<Ustr>, ids: seq<nat>): (names: seq<Ustr>)
    requires Numbered(log, ids)
    ensures |names| == |ids| && forall i :: 0 <= i < |ids| ==> names[i] == log[ids[i]]
  {
    seq(|ids|, i requires 0 <= i < |ids| => log[ids[i]])
  }

  /** How many reports a poll drains. */
  function Drained(s: State, bufferSize: nat): (k: nat)
    requires Numbered(s.log, s.queue)
    ensures k <= |s.queue|
  {
    Taken(Names(s.log, s.queue), 0, bufferSize)
  }

  function Step(lib: CharDecoder, s: State, e: Event): State
    requires Numbered(s.log, s.queue)
  {
    match e
    case Report(name) =>
      s.(log := s.log + [name], queue := [|s.log|] + s.queue)
    case Poll(bufferSize) =>
      var names := Names(s.log, s.queue);
      var k := Drained(s, bufferSize);
      s.(queue := s.queue[k..],
         polls := s.polls + [s.queue[..k]],
         seen := s.seen + [Client(lib, Bytes(Payload(names, bufferSize)))])
  }

  lemma StepKeepsNumbered(lib: CharDecoder, s: State, e: Event)
    requires Numbered(s.log, s.queue)
    ensures Numbered(Step(lib, s, e).log, Step(lib, s, e).queue)
  {
  }

  function Run(lib: CharDecoder, s: State, events: seq<Event>): State
    requires Numbered(s.log, s.queue)
    decreases events
  {
    if events == [] then s
    else
      StepKeepsNumbered(lib, s, events[0]);
      Run(lib, Step(lib, s, events[0]), events[1..])
  }

  // ---------- exactly once, newest first ----------

  function Flatten<T>(lists: seq<seq<T>>): seq<T> {
    if lists == [] then [] else Flatten(lists[..|lists| - 1]) + lists[|lists| - 1]
  }

  lemma FlattenSnoc<T>(lists: seq<seq<T>>, last: seq<T>)
    ensures Flatten(lists + [last]) == Flatten(lists) + last
  {
    assert (lists + [last])[..|lists|] == lists;
  }

  function Count<T(==)>(list: seq<T>, x: T): nat {
    if list == [] then 0 else (if list[0] == x then 1 else 0) + Count(list[1..], x)
  }

  lemma {:induction false} CountAppend<T>(a: seq<T>, b: seq<T>, x: T)
    ensures Count(a + b, x) == Count(a, x) + Count(b, x)
  {
    if a == [] {
      assert a + b == b;
    } else {
      assert (a + b)[1..] == a[1..] + b;
      CountAppend(a[1..], b, x);
    }
  }

  /** In how many places the report is. */
  function Places(s: State, id: nat): nat {
    Count(Flatten(s.polls), id) + Count(s.queue, id)
  }

  ghost predicate InOnePlace(s: State, id: nat) {
    Numbered(s.log, s.queue) && Places(s, id) == if id < |s.log| then 1 else 0
  }

  lemma ReportKeepsPlace(lib: CharDecoder, s: State, name: Ustr, id: nat)
    requires InOnePlace(s, id)
    ensures InOnePlace(Step(lib, s, Report(name)), id)
  {
    CountAppend([|s.log|], s.queue, id);
  }

  lemma PollKeepsPlace(lib: CharDecoder, s: State, bufferSize: nat, id: nat)
    requires InOnePlace(s, id)
    ensures InOnePlace(Step(lib, s, Poll(bufferSize)), id)
  {
    var k := Drained(s, bufferSize);
    var t := Step(lib, s, Poll(bufferSize));
    assert t.polls == s.polls + [s.queue[..k]] && t.queue == s.queue[k..] && t.log == s.log;
    MovePlace(s.polls, s.queue, k, id);
  }

  lemma MovePlace(polls: seq<seq<nat>>, queue: seq<nat>, k: nat, id: nat)
    requires k <= |queue|
    ensures Count(Flatten(polls + [queue[..k]]), id) + Count(queue[k..], id) ==
            Count(Flatten(polls), id) + Count(queue, id)
  {
    var front, back := queue[..k], queue[k..];
    FlattenSnoc(polls, front);
    CountAppend(Flatten(polls), front, id);
    CountAppend(front, back, id);
    assert queue == front + back;
  }

  lemma {:induction false} RunKeepsPlace(lib: CharDecoder, s: State, events: seq<Event>, id: nat)
    requires InOnePlace(s, id)
    ensures InOnePlace(Run(lib, s, events), id)
    decreases events
  {
    if events == [] {
    } else {
      match events[0] {
        case Report(name) => ReportKeepsPlace(lib, s, name, id);
        case Poll(bufferSize) => PollKeepsPlace(lib, s, bufferSize, id);
      }
      RunKeepsPlace(lib, Step(lib, s, events[0]), events[1..], id);
    }
  }

  /**
   * After any run every report is in exactly one place, once: in one poll, or still in the queue. Wherever a drain
   * stops, the queue is split and not copied; what the client gets from a poll is the subject of the next section.
   */
  lemma ExactlyOnce(lib: CharDecoder, events: seq<Event>, id: nat)
    ensures Places(Run(lib, START, events), id) == if id < |Run(lib, START, events).log| then 1 else 0
  {
    RunKeepsPlace(lib, START, events, id);
  }

  predicate Descending(ids: seq<nat>) {
    forall i, j :: 0 <= i < j < |ids| ==> ids[i] > ids[j]
  }

  ghost predicate Ordered(s: State) {
    && Numbered(s.log, s.queue)
    && Descending(s.queue)
  }

  lemma {:induction false} RunKeepsOrder(lib: CharDecoder, s: State, events: seq<Event>)
    requires Ordered(s)
    ensures Ordered(Run(lib, s, events))
    decreases events
  {
    if events == [] {
    } else {
      RunKeepsOrder(lib, Step(lib, s, events[0]), events[1..]);
    }
  }

  /** Within a poll the reports come newest first, and each is newer than everything that stays queued. */
  lemma NewestFirst(lib: CharDecoder, events: seq<Event>, bufferSize: nat)
    ensures var s := Run(lib, START, events);
            Numbered(s.log, s.queue) &&
            var t := Step(lib, s, Poll(bufferSize));
            var poll := t.polls[|t.polls| - 1];
            && Descending(poll)
            && forall i, j :: 0 <= i < |poll| && 0 <= j < |t.queue| ==> poll[i] > t.queue[j]
  {
    RunKeepsOrder(lib, START, events);
  }

  // ---------- what the client gets ----------

  ghost predicate CleanLog(log: seq<Ustr>) {
    forall i :: 0 <= i < |log| ==> Clean(log[i])
  }

  /** Each poll's decoded names are its drained names, but for empty ones in front. */
  ghost predicate SeenMirrorsPolls(s: State) {
    && |s.seen| == |s.polls|
    && forall p :: 0 <= p < |s.polls| ==>
         Numbered(s.log, s.polls[p]) && s.seen[p] == Some(DropLeadingEmpties(Names(s.log, s.polls[p])))
  }

  lemma StepMirrors(lib: CharDecoder, s: State, e: Event)
    requires DecodesUnitwise(lib) && Numbered(s.log, s.queue) && SeenMirrorsPolls(s)
    requires CleanLog(Step(lib, s, e).log)
    ensures SeenMirrorsPolls(Step(lib, s, e))
  {
    var t := Step(lib, s, e);
    match e
    case Report(name) =>
      forall p | 0 <= p < |s.polls|
        ensures Numbered(t.log, t.polls[p]) && Names(t.log, t.polls[p]) == Names(s.log, s.polls[p])
      {
      }
    case Poll(bufferSize) =>
      var names := Names(s.log, s.queue);
      var k := Taken(names, 0, bufferSize);
      assert Names(s.log, s.queue[..k]) == names[..k];
      ClientReadsClean(lib, names[..k]);
  }

  lemma {:induction false} LogGrows(lib: CharDecoder, s: State, events: seq<Event>)
    requires Numbered(s.log, s.queue)
    ensures s.log <= Run(lib, s, events).log
    decreases events
  {
    if events == [] {
    } else {
      StepKeepsNumbered(lib, s, events[0]);
      LogGrows(lib, Step(lib, s, events[0]), events[1..]);
    }
  }

  lemma {:induction false} RunMirrors(lib: CharDecoder, s: State, events: seq<Event>)
    requires DecodesUnitwise(lib) && Numbered(s.log, s.queue) && SeenMirrorsPolls(s)
    requires CleanLog(Run(lib, s, events).log)
    ensures SeenMirrorsPolls(Run(lib, s, events))
    decreases events
  {
    if events == [] {
    } else {
      var t := Step(lib, s, events[0]);
      StepKeepsNumbered(lib, s, events[0]);
      LogGrows(lib, t, events[1..]);
      StepMirrors(lib, s, events[0]);
      RunMirrors(lib, t, events[1..]);
    }
  }

  /** Everything the client has decoded so far. */
  function Received(seen: seq<Option<seq<seq<unit>>>>): seq<seq<unit>> {
    if seen == [] then []
    else Received(seen[..|seen| - 1]) + (match seen[|seen| - 1] case Some(names) => names case None => [])
  }

  lemma {:induction false} DropsOnlyEmpties(names: seq<Ustr>, x: seq<unit>)
    requires x != []
    ensures Count(DropLeadingEmpties(names), x) == Count(names, x)
  {
    if names != [] && names[0] == [] {
      DropsOnlyEmpties(names[1..], x);
    }
  }

  /** The name can be followed through the client: it is not empty, or no reported name is. */
  predicate Traceable(log: seq<Ustr>, x: seq<unit>) {
    x != [] || forall i :: 0 <= i < |log| ==> log[i] != []
  }

  ghost predicate Conserved(s: State, x: seq<unit>) {
    && Numbered(s.log, s.queue)
    && Count(Received(s.seen), x) + Count(Names(s.log, s.queue), x) == Count(s.log, x)
  }

  lemma PollStep(lib: CharDecoder, s: State, bufferSize: nat)
    requires Numbered(s.log, s.queue)
    ensures var names := Names(s.log, s.queue);
            var t := Step(lib, s, Poll(bufferSize));
            && t.log == s.log && Numbered(t.log, t.queue)
            && Names(t.log, t.queue) == names[Taken(names, 0, bufferSize)..]
            && t.seen == s.seen + [Client(lib, Bytes(Payload(names, bufferSize)))]
  {
  }

  /** A poll of clean names: the drained ones go to the client, leading empty ones dropped, the rest stays. */
  lemma PollEffect(lib: CharDecoder, s: State, bufferSize: nat)
    requires DecodesUnitwise(lib) && Numbered(s.log, s.queue) && CleanLog(s.log)
    ensures var t := Step(lib, s, Poll(bufferSize));
            var names := Names(s.log, s.queue);
            var k := Drained(s, bufferSize);
            && Received(t.seen) == Received(s.seen) + DropLeadingEmpties(names[..k])
            && t.log == s.log && Numbered(t.log, t.queue) && Names(t.log, t.queue) == names[k..]
  {
    var names := Names(s.log, s.queue);
    var k := Drained(s, bufferSize);
    PollStep(lib, s, bufferSize);
    ClientReadsClean(lib, names[..k]);
    ReceivedSnoc(s.seen, DropLeadingEmpties(names[..k]));
  }

  lemma ReportConserves(lib: CharDecoder, s: State, name: Ustr, x: seq<unit>)
    requires Conserved(s, x)
    ensures Conserved(Step(lib, s, Report(name)), x)
  {
    var t := Step(lib, s, Report(name));
    CountAppend(s.log, [name], x);
    assert Names(t.log, t.queue) == [name] + Names(s.log, s.queue);
    CountAppend([name], Names(s.log, s.queue), x);
  }

  lemma PollConserves(lib: CharDecoder, s: State, bufferSize: nat, x: seq<unit>)
    requires DecodesUnitwise(lib) && Conserved(s, x) && CleanLog(s.log) && Traceable(s.log, x)
    ensures Conserved(Step(lib, s, Poll(bufferSize)), x)
  {
    PollEffect(lib, s, bufferSize);
    var names := Names(s.log, s.queue);
    var k := Drained(s, bufferSize);
    FrontCounted(s.log, names[..k], x);
    CountMoved(Received(s.seen), names[..k], DropLeadingEmpties(names[..k]), names[k..], names, x);
  }

  /** What a poll drops from the front is not counted, or there is nothing it drops. */
  lemma FrontCounted(log: seq<Ustr>, front: seq<Ustr>, x: seq<unit>)
    requires Traceable(log, x) && forall i :: 0 <= i < |front| ==> front[i] in log
    ensures Count(DropLeadingEmpties(front), x) == Count(front, x)
  {
    if x != [] {
      DropsOnlyEmpties(front, x);
    } else {
      assert front != [] ==> front[0] != [];
    }
  }

  lemma CountMoved(before: seq<seq<unit>>, front: seq<seq<unit>>, kept: seq<seq<unit>>, back: seq<seq<unit>>,
      names: seq<seq<unit>>, x: seq<unit>)
    requires names == front + back && Count(kept, x) == Count(front, x)
    ensures Count(before + kept, x) + Count(back, x) == Count(before, x) + Count(names, x)
  {
    CountAppend(before, kept, x);
    CountAppend(front, back, x);
  }

  lemma ReceivedSnoc(seen: seq<Option<seq<seq<unit>>>>, names: seq<seq<unit>>)
    ensures Received(seen + [Some(names)]) == Received(seen) + names
  {
    assert (seen + [Some(names)])[..|seen|] == seen;
  }

  lemma {:induction false} RunConserves(lib: CharDecoder, s: State, events: seq<Event>, x: seq<unit>)
    requires DecodesUnitwise(lib) && Conserved(s, x)
    requires CleanLog(Run(lib, s, events).log) && Traceable(Run(lib, s, events).log, x)
    ensures Conserved(Run(lib, s, events), x)
    decreases events
  {
    if events == [] {
    } else {
      var t := Step(lib, s, events[0]);
      StepKeepsNumbered(lib, s, events[0]);
      LogGrows(lib, t, events[1..]);
      match events[0] {
        case Report(name) => ReportConserves(lib, s, name, x);
        case Poll(bufferSize) => PollConserves(lib, s, bufferSize, x);
      }
      RunConserves(lib, t, events[1..], x);
    }
  }

  /**
   * For names free of separators and surrogate halves, in any interleaving of reports and polls of any sizes:
   * every name has been reported as often as the client has decoded it plus as often as it is still queued.
   * Empty names are the one exception, since a poll that starts with one swallows it.
   */
  lemma NothingLostOrInvented(lib: CharDecoder, events: seq<Event>, x: seq<unit>)
    requires DecodesUnitwise(lib)
    requires CleanLog(Run(lib, START, events).log) && Traceable(Run(lib, START, events).log, x)
    ensures Conserved(Run(lib, START, events), x)
  {
    RunConserves(lib, START, events, x);
  }

  /** The decoded list of every poll is, name by name, what that poll drained. */
  lemma ClientSeesEachPoll(lib: CharDecoder, events: seq<Event>)
    requires DecodesUnitwise(lib) && CleanLog(Run(lib, START, events).log)
    ensures SeenMirrorsPolls(Run(lib, START, events))
  {
    RunMirrors(lib, START, events);
  }

  // ---------- blocking ----------

  /** Too long to be taken even by a drain that has stored nothing yet. */
  predicate Blocked(name: Ustr, bufferSize: nat) {
    2 * |name| + 2 >= bufferSize
  }

  lemma {:induction false} TakenStopsAtBlocked(names: seq<Ustr>, written: nat, bufferSize: nat, j: nat)
    requires j < |names| && Blocked(names[j], bufferSize)
    requires bufferSize <= LARGEST_BUFFER && written % 2 == 0 && written + 2 <= LARGEST_BUFFER
    ensures Taken(names, written, bufferSize) <= j
    decreases names
  {
    if j > 0 && Admits(written, names[0], bufferSize) {
      TakenStopsAtBlocked(names[1..], After(written, names[0]), bufferSize, j - 1);
    }
  }

  /** No poll of the run is large enough for the name. */
  predicate BlockedThroughout(name: Ustr, events: seq<Event>) {
    forall i :: 0 <= i < |events| ==>
      events[i].Poll? ==> Blocked(name, events[i].bufferSize) && events[i].bufferSize <= LARGEST_BUFFER
  }

  predicate EndsWith(queue: seq<nat>, tail: seq<nat>) {
    |tail| <= |queue| && queue[|queue| - |tail|..] == tail
  }

  lemma ReportKeepsTail(queue: seq<nat>, id: nat, tail: seq<nat>)
    requires EndsWith(queue, tail)
    ensures EndsWith([id] + queue, tail)
  {
  }

  lemma PollKeepsTail(s: State, bufferSize: nat, tail: seq<nat>)
    requires Numbered(s.log, s.queue) && EndsWith(s.queue, tail) && tail != []
    requires tail[0] < |s.log| && Blocked(s.log[tail[0]], bufferSize) && bufferSize <= LARGEST_BUFFER
    ensures EndsWith(s.queue[Drained(s, bufferSize)..], tail)
  {
    var j := |s.queue| - |tail|;
    assert s.queue[j..][0] == s.queue[j];
    assert Names(s.log, s.queue)[j] == s.log[tail[0]];
    TakenStopsAtBlocked(Names(s.log, s.queue), 0, bufferSize, j);
  }

  /**
   * A name too long for the polls stays queued for ever, and so does everything reported before it, whatever
   * is reported or polled afterwards: tail is the part of the queue that starts with the name.
   */
  lemma {:induction false} BlockedForever(lib: CharDecoder, s: State, events: seq<Event>, tail: seq<nat>)
    requires Numbered(s.log, s.queue) && EndsWith(s.queue, tail) && tail != []
    requires tail[0] < |s.log| && BlockedThroughout(s.log[tail[0]], events)
    ensures EndsWith(Run(lib, s, events).queue, tail)
    decreases events
  {
    if events == [] {
    } else {
      var t := Step(lib, s, events[0]);
      StepKeepsNumbered(lib, s, events[0]);
      match events[0] {
        case Report(name) =>
          ReportKeepsTail(s.queue, |s.log|, tail);
        case Poll(bufferSize) =>
          assert events[0].bufferSize == bufferSize;
          PollKeepsTail(s, bufferSize, tail);
      }
      BlockedForever(lib, t, events[1..], tail);
    }
  }

  function Polls(n: nat, bufferSize: nat): (events: seq<Event>)
    ensures |events| == n
  {
    if n == 0 then [] else [Poll(bufferSize)] + Polls(n - 1, bufferSize)
  }

  ghost predicate NoneBlocked(s: State, bufferSize: nat)
    requires Numbered(s.log, s.queue)
  {
    forall j :: 0 <= j < |s.queue| ==> !Blocked(s.log[s.queue[j]], bufferSize)
  }

  lemma PollMakesProgress(lib: CharDecoder, s: State, bufferSize: nat)
    requires Numbered(s.log, s.queue) && NoneBlocked(s, bufferSize)
    ensures var t := Step(lib, s, Poll(bufferSize));
            && t.log == s.log && Numbered(t.log, t.queue) && NoneBlocked(t, bufferSize)
            && (s.queue != [] ==> |t.queue| < |s.queue|)
  {
    var k := Drained(s, bufferSize);
    if s.queue != [] {
      assert Names(s.log, s.queue)[0] == s.log[s.queue[0]];
      assert k > 0;
    }
    forall j | 0 <= j < |s.queue| - k
      ensures !Blocked(s.log[s.queue[k..][j]], bufferSize)
    {
      assert s.queue[k..][j] == s.queue[k + j];
    }
  }

  lemma {:induction false} PollsDrain(lib: CharDecoder, s: State, n: nat, bufferSize: nat)
    requires Numbered(s.log, s.queue) && |s.queue| <= n && NoneBlocked(s, bufferSize)
    ensures Run(lib, s, Polls(n, bufferSize)).queue == []
    decreases n
  {
    if n == 0 {
    } else {
      var t := FirstPoll(lib, s, n, bufferSize);
      PollsDrain(lib, t, n - 1, bufferSize);
    }
  }

  /** The first of n polls. */
  lemma FirstPoll(lib: CharDecoder, s: State, n: nat, bufferSize: nat) returns (t: State)
    requires Numbered(s.log, s.queue) && NoneBlocked(s, bufferSize) && n > 0
    ensures Numbered(t.log, t.queue) && NoneBlocked(t, bufferSize)
    ensures |t.queue| <= (if s.queue == [] then 0 else |s.queue| - 1)
    ensures Run(lib, s, Polls(n, bufferSize)) == Run(lib, t, Polls(n - 1, bufferSize))
  {
    PollMakesProgress(lib, s, bufferSize);
    assert Polls(n, bufferSize)[0] == Poll(bufferSize) && Polls(n, bufferSize)[1..] == Polls(n - 1, bufferSize);
    t := Step(lib, s, Poll(bufferSize));
  }

  lemma {:induction false} PollsAreBlocked(name: Ustr, n: nat, bufferSize: nat)
    requires Blocked(name, bufferSize) && bufferSize <= LARGEST_BUFFER
    ensures BlockedThroughout(name, Polls(n, bufferSize))
  {
    if n == 0 {
    } else {
      PollsAreBlocked(name, n - 1, bufferSize);
    }
  }

  /** As many polls as there are items empty the queue if and only if no item is too long for the buffer. */
  lemma PollsDrainIff(lib: CharDecoder, s: State, n: nat, bufferSize: nat)
    requires Numbered(s.log, s.queue) && |s.queue| <= n && bufferSize <= LARGEST_BUFFER
    ensures Run(lib, s, Polls(n, bufferSize)).queue == [] <==> NoneBlocked(s, bufferSize)
  {
    if NoneBlocked(s, bufferSize) {
      PollsDrain(lib, s, n, bufferSize);
    } else {
      var j :| 0 <= j < |s.queue| && Blocked(s.log[s.queue[j]], bufferSize);
      PollsAreBlocked(s.log[s.queue[j]], n, bufferSize);
      assert s.queue[j..][0] == s.queue[j];
      BlockedForever(lib, s, Polls(n, bufferSize), s.queue[j..]);
    }
  }

  /** What the client has decoded, followed by what is queued. */
  ghost function Pipeline(s: State): seq<seq<unit>>
    requires Numbered(s.log, s.queue)
  {
    Received(s.seen) + Names(s.log, s.queue)
  }

  predicate NamesAreClean(log: seq<Ustr>) {
    forall i :: 0 <= i < |log| ==> log[i] != [] && Clean(log[i])
  }

  lemma Regroup(a: seq<seq<unit>>, front: seq<seq<unit>>, back: seq<seq<unit>>, all: seq<seq<unit>>)
    requires all == front + back
    ensures a + front + back == a + all
  {
  }

  lemma PollKeepsPipeline(lib: CharDecoder, s: State, bufferSize: nat)
    requires DecodesUnitwise(lib) && Numbered(s.log, s.queue) && NamesAreClean(s.log)
    ensures Numbered(s.log, Step(lib, s, Poll(bufferSize)).queue)
    ensures Pipeline(Step(lib, s, Poll(bufferSize))) == Pipeline(s)
  {
    PollEffect(lib, s, bufferSize);
    var names := Names(s.log, s.queue);
    var front, back := names[..Drained(s, bufferSize)], names[Drained(s, bufferSize)..];
    var t := Step(lib, s, Poll(bufferSize));
    assert Received(t.seen) == Received(s.seen) + front && Names(t.log, t.queue) == back;
    Regroup(Received(s.seen), front, back, names);
  }

  /** Over polls alone, the decoded names followed by the queued ones never change. */
  lemma {:induction false} PollsDeliverInOrder(lib: CharDecoder, s: State, n: nat, bufferSize: nat)
    requires DecodesUnitwise(lib) && Numbered(s.log, s.queue) && NamesAreClean(s.log)
    ensures var t := Run(lib, s, Polls(n, bufferSize));
            t.log == s.log && Numbered(t.log, t.queue) && Pipeline(t) == Pipeline(s)
    decreases n
  {
    if n == 0 {
    } else {
      PollKeepsPipeline(lib, s, bufferSize);
      assert Polls(n, bufferSize)[1..] == Polls(n - 1, bufferSize);
      PollsDeliverInOrder(lib, Step(lib, s, Poll(bufferSize)), n - 1, bufferSize);
    }
  }

  /** A queue of clean, non-empty, unblocked names reaches the client whole and in order. */
  lemma WholeQueueDelivered(lib: CharDecoder, s: State, n: nat, bufferSize: nat)
    requires DecodesUnitwise(lib) && Numbered(s.log, s.queue) && NamesAreClean(s.log)
    requires |s.queue| <= n && NoneBlocked(s, bufferSize)
    ensures Received(Run(lib, s, Polls(n, bufferSize)).seen) == Received(s.seen) + Names(s.log, s.queue)
  {
    PollsDrain(lib, s, n, bufferSize);
    PollsDeliverInOrder(lib, s, n, bufferSize);
    assert Names(s.log, []) == [];
  }
}
