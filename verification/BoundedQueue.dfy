/** `BoundedQueue` of the Kong logger: a bounded queue in front of a fixed number of workers. */
module BoundedQueue {

  /** The fields, with the items taken off the queue so far. */
  datatype State<T> = State(queue: seq<T>, inFlight: nat, dropped: nat, started: seq<T>)

  /** The simple form: which items were accepted, and how many of them have finished. */
  datatype Ledger<T> = Ledger(accepted: seq<T>, dropped: nat, finished: nat)

  datatype Limits = Limits(concurrency: nat, maxSize: nat)

  /** A push, or a worker settling; a rejected worker settles like any other. */
  datatype Event<T> = Push(item: T) | Settle(failed: bool)

  predicate Legal(l: Limits) { 0 < l.concurrency && 0 < l.maxSize }

  function Min(a: nat, b: nat): nat { if a <= b then a else b }

  // ----- the steps of the code -----

  /** `_drain`: start queued items while a worker is free. */
  function Drained<T>(l: Limits, s: State<T>): State<T>
    decreases |s.queue|
  {
    if s.inFlight < l.concurrency && |s.queue| > 0
    then Drained(l, State(s.queue[1..], s.inFlight + 1, s.dropped, s.started + [s.queue[0]]))
    else s
  }

  function AfterPush<T>(l: Limits, s: State<T>, item: T): State<T> {
    if |s.queue| >= l.maxSize then s.(dropped := s.dropped + 1)
    else Drained(l, s.(queue := s.queue + [item]))
  }

  function AfterSettle<T>(l: Limits, s: State<T>): State<T>
    requires s.inFlight > 0
  {
    Drained(l, s.(inFlight := s.inFlight - 1))
  }

  // ----- the steps of the simple form -----

  function Outstanding<T>(g: Ledger<T>): int { |g.accepted| - g.finished }

  /** One counter decides: a push is accepted while fewer than both bounds together are outstanding. */
  function LedgerStep<T>(l: Limits, g: Ledger<T>, e: Event<T>): Ledger<T> {
    match e
    case Push(item) =>
      if Outstanding(g) < l.concurrency + l.maxSize then g.(accepted := g.accepted + [item])
      else g.(dropped := g.dropped + 1)
    case Settle(_) => g.(finished := g.finished + 1)
  }

  /** How many accepted items have been started. */
  function StartedCount<T>(l: Limits, g: Ledger<T>): nat { Min(|g.accepted|, g.finished + l.concurrency) }

  predicate Sound<T>(l: Limits, g: Ledger<T>) {
    Legal(l) && 0 <= Outstanding(g) <= l.concurrency + l.maxSize
  }

  /** The state of the queue is a function of the ledger: the started items are the longest
      prefix of the accepted ones that the workers can have reached. */
  function StateOf<T>(l: Limits, g: Ledger<T>): State<T>
    requires Sound(l, g)
  {
    var n := StartedCount(l, g);
    State(g.accepted[n..], n - g.finished, g.dropped, g.accepted[..n])
  }

  /** With one free worker or one queued item, draining starts one item and stops. */
  lemma DrainOne<T>(l: Limits, s: State<T>)
    requires s.queue != [] && s.inFlight < l.concurrency
    requires |s.queue| == 1 || s.inFlight + 1 == l.concurrency
    ensures Drained(l, s) == State(s.queue[1..], s.inFlight + 1, s.dropped, s.started + [s.queue[0]])
  {
    var next := State(s.queue[1..], s.inFlight + 1, s.dropped, s.started + [s.queue[0]]);
    assert Drained(l, next) == next;
  }

  /** The accepted items, cut one further on. */
  lemma Recut<T>(accepted: seq<T>, n: nat)
    requires n < |accepted|
    ensures accepted[n..][0] == accepted[n]
    ensures accepted[n..][1..] == accepted[n+1..]
    ensures accepted[..n] + [accepted[n]] == accepted[..n+1]
  {
  }

  lemma Extend<T>(accepted: seq<T>, item: T, n: nat)
    requires n <= |accepted|
    ensures (accepted + [item])[n..] == accepted[n..] + [item]
    ensures (accepted + [item])[..n] == accepted[..n]
  {
  }

  lemma PushRefines<T>(l: Limits, g: Ledger<T>, item: T)
    requires Sound(l, g)
    ensures var g' := LedgerStep(l, g, Push(item));
            Sound(l, g') && AfterPush(l, StateOf(l, g), item) == StateOf(l, g')
  {
    var s, n := StateOf(l, g), StartedCount(l, g);
    if |s.queue| < l.maxSize {
      var q := s.(queue := s.queue + [item]);
      Extend(g.accepted, item, n);
      if s.inFlight < l.concurrency {
        DrainOne(l, q);
        Recut(g.accepted + [item], n);
      } else {
        assert Drained(l, q) == q;
      }
    }
  }

  lemma SettleRefines<T>(l: Limits, g: Ledger<T>, failed: bool)
    requires Sound(l, g) && StateOf(l, g).inFlight > 0
    ensures var g' := LedgerStep(l, g, Settle(failed));
            Sound(l, g') && AfterSettle(l, StateOf(l, g)) == StateOf(l, g')
  {
    var s, n := StateOf(l, g), StartedCount(l, g);
    var q := s.(inFlight := s.inFlight - 1);
    if n < |g.accepted| {
      DrainOne(l, q);
      Recut(g.accepted, n);
    } else {
      assert Drained(l, q) == q;
    }
  }

  // ----- runs -----

  /** A worker can settle only if one is in flight. */
  predicate Enabled<T>(s: State<T>, e: Event<T>) { e.Settle? ==> s.inFlight > 0 }

  function Step<T>(l: Limits, s: State<T>, e: Event<T>): State<T>
    requires Enabled(s, e)
  {
    if e.Push? then AfterPush(l, s, e.item) else AfterSettle(l, s)
  }

  ghost predicate Possible<T>(l: Limits, s: State<T>, events: seq<Event<T>>)
    decreases events
  {
    events == [] || (Enabled(s, events[0]) && Possible(l, Step(l, s, events[0]), events[1..]))
  }

  ghost function Run<T>(l: Limits, s: State<T>, events: seq<Event<T>>): State<T>
    requires Possible(l, s, events)
    decreases events
  {
    if events == [] then s else Run(l, Step(l, s, events[0]), events[1..])
  }

  ghost function LedgerRun<T>(l: Limits, g: Ledger<T>, events: seq<Event<T>>): Ledger<T>
    decreases events
  {
    if events == [] then g else LedgerRun(l, LedgerStep(l, g, events[0]), events[1..])
  }

  /** For every interleaving of pushes and settlings, the queue is the one-counter ledger. */
  lemma {:induction false} RunRefines<T>(l: Limits, g: Ledger<T>, events: seq<Event<T>>)
    requires Sound(l, g) && Possible(l, StateOf(l, g), events)
    ensures Sound(l, LedgerRun(l, g, events))
    ensures Run(l, StateOf(l, g), events) == StateOf(l, LedgerRun(l, g, events))
    decreases events
  {
    if events == [] {
    } else {
      if events[0].Push? {
        PushRefines(l, g, events[0].item);
      } else {
        SettleRefines(l, g, events[0].failed);
      }
      RunRefines(l, LedgerStep(l, g, events[0]), events[1..]);
    }
  }

  function Count<T>(events: seq<Event<T>>, pushes: bool): nat {
    if events == [] then 0 else Count(events[1..], pushes) + if events[0].Push? == pushes then 1 else 0
  }

  lemma {:induction false} LedgerCounts<T>(l: Limits, g: Ledger<T>, events: seq<Event<T>>)
    ensures var r := LedgerRun(l, g, events);
            && |r.accepted| + r.dropped == |g.accepted| + g.dropped + Count(events, true)
            && r.finished == g.finished + Count(events, false)
            && g.accepted <= r.accepted
    decreases events
  {
    if events == [] {
    } else {
      LedgerCounts(l, LedgerStep(l, g, events[0]), events[1..]);
    }
  }

  ghost function Empty<T>(): State<T> { State([], 0, 0, []) }

  /** From an empty queue: capacity, work conservation, conservation of items, and FIFO starts. */
  lemma RunInvariants<T>(l: Limits, events: seq<Event<T>>)
    requires Legal(l) && Possible(l, Empty(), events)
    ensures var s, g := Run(l, Empty(), events), LedgerRun(l, Ledger([], 0, 0), events);
            && |s.queue| <= l.maxSize && s.inFlight <= l.concurrency
            && (s.queue != [] ==> s.inFlight == l.concurrency)
            && Count(events, true) == s.dropped + |s.queue| + s.inFlight + Count(events, false)
            && g.accepted == s.started + s.queue
            && |s.started| == s.inFlight + Count(events, false)
  {
    var g0: Ledger<T> := Ledger([], 0, 0);
    assert StateOf(l, g0) == Empty();
    RunRefines(l, g0, events);
    LedgerCounts(l, g0, events);
  }

  /** A push is dropped exactly when every worker is busy and the queue is full. */
  lemma DropIffFull<T>(l: Limits, events: seq<Event<T>>, item: T)
    requires Legal(l) && Possible(l, Empty(), events)
    ensures var s := Run(l, Empty(), events);
            AfterPush(l, s, item).dropped > s.dropped <==> |s.queue| == l.maxSize && s.inFlight == l.concurrency
  {
    RunInvariants(l, events);
    var s := Run(l, Empty(), events);
    if |s.queue| < l.maxSize {
      DrainKeepsCount(l, s.(queue := s.queue + [item]));
    }
  }

  lemma {:induction false} DrainKeepsCount<T>(l: Limits, s: State<T>)
    ensures Drained(l, s).dropped == s.dropped
    decreases |s.queue|
  {
    if s.inFlight < l.concurrency && |s.queue| > 0 {
      DrainKeepsCount(l, State(s.queue[1..], s.inFlight + 1, s.dropped, s.started + [s.queue[0]]));
    }
  }

  /** With no further pushes: a run of settlings empties the queue exactly when there are as
      many of them as items queued or in flight. */
  lemma {:induction false} DrainsExactly<T>(l: Limits, g: Ledger<T>, events: seq<Event<T>>)
    requires Sound(l, g) && Possible(l, StateOf(l, g), events) && Count(events, true) == 0
    ensures var s, r := StateOf(l, g), Run(l, StateOf(l, g), events);
            && |r.queue| + r.inFlight == |s.queue| + s.inFlight - |events|
            && (r.queue == [] && r.inFlight == 0 <==> |events| == |s.queue| + s.inFlight)
            && (r.queue == [] && r.inFlight == 0 ==> r.started == g.accepted)
  {
    RunRefines(l, g, events);
    LedgerCounts(l, g, events);
    OnlySettles(events);
    SettlesAccept(l, g, events);
  }

  lemma {:induction false} OnlySettles<T>(events: seq<Event<T>>)
    ensures Count(events, true) + Count(events, false) == |events|
  {
    if events == [] {
    } else {
      OnlySettles(events[1..]);
    }
  }

  lemma {:induction false} SettlesAccept<T>(l: Limits, g: Ledger<T>, events: seq<Event<T>>)
    requires Count(events, true) == 0
    ensures LedgerRun(l, g, events).accepted == g.accepted
    decreases events
  {
    if events == [] {
    } else {
      SettlesAccept(l, LedgerStep(l, g, events[0]), events[1..]);
    }
  }

  // ----- what happens while the queue is being drained -----

  /** Events in order; no worker settles while none is in flight. */
  ghost function Feed<T>(l: Limits, g: Ledger<T>, events: seq<Event<T>>): Ledger<T> {
    if events == [] then g
    else
      var before, e := Feed(l, g, events[..|events|-1]), events[|events|-1];
      if e.Settle? && Outstanding(before) <= 0 then before else LedgerStep(l, before, e)
  }

  /** The ledger when the clock is read for the `k`th time. */
  ghost function AtPoll<T>(l: Limits, g: Ledger<T>, polls: seq<(int, seq<Event<T>>)>, k: nat): Ledger<T>
    requires k <= |polls|
  {
    if k == 0 then g else Feed(l, AtPoll(l, g, polls, k - 1), polls[k-1].1)
  }

  /** Something was outstanding and the clock within the time-out at the first `k` readings. */
  ghost predicate Waits<T>(l: Limits, g: Ledger<T>, timeoutMs: int, polls: seq<(int, seq<Event<T>>)>, k: nat)
    requires k <= |polls|
  {
    forall i :: 0 <= i < k ==> Outstanding(AtPoll(l, g, polls, i)) > 0 && polls[i].0 <= timeoutMs
  }

  /** Nothing is outstanding at reading `k`, and all readings before are within the time-out. */
  ghost predicate DrainedBy<T>(l: Limits, g: Ledger<T>, timeoutMs: int, polls: seq<(int, seq<Event<T>>)>, k: nat) {
    && k <= |polls|
    && Outstanding(AtPoll(l, g, polls, k)) == 0
    && forall i :: 0 <= i < k ==> polls[i].0 <= timeoutMs
  }

  /** The answer after `k` rounds: true when nothing is outstanding, false at the first reading
      past the time-out. */
  ghost predicate AnswersAt<T>(l: Limits, g: Ledger<T>, timeoutMs: int, polls: seq<(int, seq<Event<T>>)>, k: nat,
                               drained: bool, end: Ledger<T>) {
    && k <= |polls| && Waits(l, g, timeoutMs, polls, k) && end == AtPoll(l, g, polls, k)
    && if drained then Outstanding(end) == 0
       else Outstanding(end) > 0 && k < |polls| && polls[k].0 > timeoutMs
  }

  /** The clock passes the time-out some time. */
  ghost predicate Expires<T>(timeoutMs: int, polls: seq<(int, seq<Event<T>>)>) {
    exists j :: 0 <= j < |polls| && polls[j].0 > timeoutMs
  }

  lemma IdleIff<T>(l: Limits, g: Ledger<T>)
    requires Sound(l, g)
    ensures var s := StateOf(l, g);
            && (s.queue == [] && s.inFlight == 0 <==> Outstanding(g) == 0)
            && (Outstanding(g) == 0 ==> s.started == g.accepted && g.finished == |g.accepted|)
  {
  }

  lemma NeverDrained<T>(l: Limits, g: Ledger<T>, timeoutMs: int, polls: seq<(int, seq<Event<T>>)>, j: nat)
    requires j < |polls| && polls[j].0 > timeoutMs && Waits(l, g, timeoutMs, polls, j)
    requires Outstanding(AtPoll(l, g, polls, j)) > 0
    ensures forall k: nat :: !DrainedBy(l, g, timeoutMs, polls, k)
  {
    forall k: nat ensures !DrainedBy(l, g, timeoutMs, polls, k) {
      if k < j {
        assert Outstanding(AtPoll(l, g, polls, k)) > 0;
      }
    }
  }

  lemma NextWaits<T>(l: Limits, g: Ledger<T>, timeoutMs: int, polls: seq<(int, seq<Event<T>>)>, j: nat)
    requires j <= |polls| && Waits(l, g, timeoutMs, polls, j) && Expires(timeoutMs, polls)
    ensures j < |polls|
    ensures Outstanding(AtPoll(l, g, polls, j)) > 0 && polls[j].0 <= timeoutMs ==> Waits(l, g, timeoutMs, polls, j + 1)
  {
  }

  // ----- the class -----

  class Queue<T> {
    const limits: Limits
    var queue: seq<T>
    var inFlight: nat
    var droppedTotal: nat
    ghost var started: seq<T>
    ghost var ledger: Ledger<T>

    ghost function Fields(): State<T>
      reads this
    {
      State(queue, inFlight, droppedTotal, started)
    }

    ghost predicate Valid()
      reads this
    {
      Sound(limits, ledger) && Fields() == StateOf(limits, ledger)
    }

    constructor (limits: Limits)
      requires Legal(limits)
      ensures Valid() && this.limits == limits && ledger == Ledger([], 0, 0)
    {
      this.limits := limits;
      queue, inFlight, droppedTotal, started := [], 0, 0, [];
      ledger := Ledger([], 0, 0);
    }

    /** The checks of the constructor: null where it throws. */
    static method Create(concurrency: int, maxSize: int) returns (q: Queue?<T>)
      ensures q == null <==> concurrency <= 0 || maxSize <= 0
      ensures q != null ==> fresh(q) && q.Valid() && q.limits == Limits(concurrency, maxSize) && q.ledger == Ledger([], 0, 0)
    {
      if concurrency <= 0 || maxSize <= 0 { return null; }
      q := new Queue(Limits(concurrency, maxSize));
    }

    method Drain()
      modifies this`queue, this`inFlight, this`started
      ensures Fields() == Drained(limits, old(Fields()))
    {
      while inFlight < limits.concurrency && |queue| > 0
        invariant Drained(limits, Fields()) == Drained(limits, old(Fields()))
        decreases |queue|
      {
        var item := queue[0];
        queue := queue[1..];
        inFlight := inFlight + 1;
        started := started + [item];
      }
    }

    method Push(item: T) returns (accepted: bool)
      requires Valid()
      modifies this
      ensures Valid()
      ensures ledger == LedgerStep(limits, old(ledger), Event.Push(item))
      ensures accepted <==> Outstanding(old(ledger)) < limits.concurrency + limits.maxSize
      ensures Fields() == AfterPush(limits, old(Fields()), item)
    {
      ghost var g := ledger;
      PushRefines(limits, g, item);
      ledger := LedgerStep(limits, g, Event.Push(item));
      if |queue| >= limits.maxSize {
        droppedTotal := droppedTotal + 1;
        return false;
      }
      queue := queue + [item];
      Drain();
      accepted := true;
    }

    /** The `finally` of a worker. */
    method Settle(failed: bool)
      requires Valid() && inFlight > 0
      modifies this
      ensures Valid()
      ensures ledger == LedgerStep(limits, old(ledger), Event<T>.Settle(failed))
      ensures Fields() == AfterSettle(limits, old(Fields()))
    {
      SettleRefines(limits, ledger, failed);
      ledger := LedgerStep(limits, ledger, Event.Settle(failed));
      inFlight := inFlight - 1;
      Drain();
    }

    /** What the event loop does while `drainAndWait` sleeps. */
    method Meanwhile(events: seq<Event<T>>)
      requires Valid()
      modifies this
      ensures Valid() && ledger == Feed(limits, old(ledger), events)
    {
      for i := 0 to |events|
        invariant Valid() && ledger == Feed(limits, old(ledger), events[..i])
      {
        assert events[..i+1][..i] == events[..i];
        match events[i] {
          case Push(item) => var _ := Push(item);
          case Settle(failed) => if inFlight > 0 { Settle(failed); }
        }
      }
      assert events[..|events|] == events;
    }

    /** `polls` are the clock readings and the events between them; the clock passes the
        time-out some time. The answer is true exactly if nothing is outstanding at some
        reading before which the time-out has not passed, and comes at the first such reading;
        else it is false, and comes at the first reading past the time-out. */
    method DrainAndWait(timeoutMs: int, polls: seq<(int, seq<Event<T>>)>) returns (drained: bool)
      requires Valid() && Expires(timeoutMs, polls)
      modifies this
      ensures Valid()
      ensures drained <==> exists k: nat :: DrainedBy(limits, old(ledger), timeoutMs, polls, k)
      ensures exists k: nat :: AnswersAt(limits, old(ledger), timeoutMs, polls, k, drained, ledger)
      ensures drained ==> queue == [] && inFlight == 0 && started == ledger.accepted && ledger.finished == |ledger.accepted|
    {
      var j := 0;
      while |queue| > 0 || inFlight > 0
        invariant 0 <= j <= |polls| && Valid()
        invariant Waits(limits, old(ledger), timeoutMs, polls, j)
        invariant ledger == AtPoll(limits, old(ledger), polls, j)
        decreases |polls| - j
      {
        IdleIff(limits, ledger);
        NextWaits(limits, old(ledger), timeoutMs, polls, j);
        if polls[j].0 > timeoutMs {
          NeverDrained(limits, old(ledger), timeoutMs, polls, j);
          assert AnswersAt(limits, old(ledger), timeoutMs, polls, j, false, ledger);
          return false;
        }
        Meanwhile(polls[j].1);
        j := j + 1;
      }
      IdleIff(limits, ledger);
      assert DrainedBy(limits, old(ledger), timeoutMs, polls, j);
      assert AnswersAt(limits, old(ledger), timeoutMs, polls, j, true, ledger);
      drained := true;
    }
  }
}
