/** The daily token quota: a Redis counter per day, read before a request and charged after it. */
module Quota {

  const DAY := 86400
  const TTL := 86400 + 3600

  datatype Counter = Counter(count: nat, expiresAt: nat)

  /** The clock in seconds, the counters of one tenant by day, and the requests between check and increment. */
  datatype State = State(now: nat, store: map<nat, Counter>, inFlight: nat)

  datatype Event =
    | Tick(seconds: nat)
    | Admit              // check_quota answered yes
    | Charge(tokens: nat) // increment_usage
    | Abort              // the request ends without a charge

  function Day(now: nat): nat { now / DAY }

  /** `GET`: nothing once the key has expired. */
  function Read(s: State, day: nat): nat {
    if day in s.store && s.now < s.store[day].expiresAt then s.store[day].count else 0
  }

  /** `check_quota` */
  predicate HasQuota(s: State, maxTokens: int) { maxTokens > 0 && Read(s, Day(s.now)) < maxTokens }

  /** `INCRBY` and `EXPIRE` on the counter of the day of the increment. */
  function Charged(s: State, tokens: nat): map<nat, Counter> {
    s.store[Day(s.now) := Counter(Read(s, Day(s.now)) + tokens, s.now + TTL)]
  }

  predicate Enabled(s: State, e: Event, maxTokens: int) {
    match e
    case Tick(_) => true
    case Admit => HasQuota(s, maxTokens)
    case Charge(_) => s.inFlight > 0
    case Abort => s.inFlight > 0
  }

  function Step(s: State, e: Event): State
    requires (e.Charge? || e.Abort?) ==> s.inFlight > 0
  {
    match e
    case Tick(seconds) => s.(now := s.now + seconds)
    case Admit => s.(inFlight := s.inFlight + 1)
    case Charge(tokens) => s.(store := Charged(s, tokens), inFlight := s.inFlight - 1)
    case Abort => s.(inFlight := s.inFlight - 1)
  }

  const START := State(0, map[], 0)

  /** Runs of the system with at most `n` requests in flight and at most `t` tokens each. */
  ghost predicate Reaches(events: seq<Event>, s: State, maxTokens: int, n: nat, t: nat) {
    if events == [] then s == START
    else
      var e := events[|events|-1];
      exists before :: Reaches(events[..|events|-1], before, maxTokens, n, t)
        && Enabled(before, e, maxTokens) && s == Step(before, e)
        && s.inFlight <= n && (e.Charge? ==> e.tokens <= t)
  }

  /** The simple form: what was charged on each day, never forgotten. */
  function Clock(events: seq<Event>): nat {
    if events == [] then 0
    else Clock(events[..|events|-1]) + if events[|events|-1].Tick? then events[|events|-1].seconds else 0
  }

  function ChargedOn(events: seq<Event>, day: nat): nat {
    if events == [] then 0
    else
      var init, e := events[..|events|-1], events[|events|-1];
      ChargedOn(init, day) + if e.Charge? && Day(Clock(init)) == day then e.tokens else 0
  }

  /** No counter is from a later day, and today's lives to the end of the day. */
  ghost predicate Stored(s: State) {
    && (forall day :: day > Day(s.now) ==> day !in s.store)
    && (Day(s.now) in s.store ==> DayEnd(Day(s.now)) <= s.store[Day(s.now)].expiresAt)
  }

  function DayEnd(day: nat): nat { (day + 1) * DAY }

  /** `count` tokens were charged today, none later, and no day is over the bound. */
  ghost predicate Counted(events: seq<Event>, today: nat, count: nat, bound: nat) {
    && (forall day :: day > today ==> ChargedOn(events, day) == 0)
    && count == ChargedOn(events, today)
    && (forall day :: ChargedOn(events, day) <= bound)
  }

  /** What holds after every run: the counters tell what was charged, and there is room for
      all requests in flight as well. */
  ghost predicate Invariant(events: seq<Event>, s: State, maxTokens: int, n: nat, t: nat) {
    && s.now == Clock(events)
    && Stored(s)
    && Counted(events, Day(s.now), Read(s, Day(s.now)), Bound(maxTokens, n, t))
    && s.inFlight <= n
    && (maxTokens <= 0 ==> s.inFlight == 0)
    && Read(s, Day(s.now)) + Load(s.inFlight, t) <= Bound(maxTokens, n, t)
  }

  function Bound(maxTokens: int, n: nat, t: nat): nat {
    if maxTokens <= 0 then 0 else maxTokens - 1 + Load(n, t)
  }

  /** The tokens that `requests` full requests can use. */
  function Load(requests: nat, t: nat): nat { if requests == 0 then 0 else Load(requests - 1, t) + t }

  lemma {:induction false} LoadIsProduct(requests: nat, t: nat)
    ensures Load(requests, t) == requests * t
  {
    if requests == 0 {
    } else {
      LoadIsProduct(requests - 1, t);
    }
  }

  lemma {:induction false} LoadGrows(a: nat, b: nat, t: nat)
    requires a <= b
    ensures Load(a, t) <= Load(b, t)
  {
    if a < b { LoadGrows(a, b - 1, t); }
  }

  lemma DayGrows(now: nat, seconds: nat)
    ensures Day(now) <= Day(now + seconds)
    ensures now + seconds < DayEnd(Day(now + seconds))
  {
  }

  lemma ExpiresLater(now: nat)
    ensures DayEnd(Day(now)) <= now + TTL
  {
  }

  /** Events without tokens charge nothing. */
  lemma CountedStill(init: seq<Event>, e: Event, today: nat, count: nat, later: nat, bound: nat)
    requires Counted(init, today, count, bound) && !e.Charge? && today <= later
    ensures Counted(init + [e], later, if later == today then count else 0, bound)
    ensures Clock(init + [e]) == Clock(init) + if e.Tick? then e.seconds else 0
  {
    var events := init + [e];
    assert events[..|init|] == init;
    assert forall day :: ChargedOn(events, day) == ChargedOn(init, day);
  }

  lemma CountedMore(init: seq<Event>, tokens: nat, today: nat, count: nat, bound: nat)
    requires Counted(init, today, count, bound) && Day(Clock(init)) == today && count + tokens <= bound
    ensures Counted(init + [Charge(tokens)], today, count + tokens, bound)
    ensures Clock(init + [Charge(tokens)]) == Clock(init)
  {
    var events := init + [Charge(tokens)];
    assert events[..|init|] == init;
    assert forall day :: ChargedOn(events, day) == ChargedOn(init, day) + if day == today then tokens else 0;
  }

  /** While the day lasts its counter does not expire; a new day starts at zero. */
  lemma StoredLater(s: State, seconds: nat)
    requires Stored(s)
    ensures var later := s.(now := s.now + seconds);
            && Day(s.now) <= Day(later.now) && Stored(later)
            && Read(later, Day(later.now)) == if Day(later.now) == Day(s.now) then Read(s, Day(s.now)) else 0
  {
    DayGrows(s.now, seconds);
    DayGrows(s.now, 0);
  }

  lemma StoredMore(s: State, tokens: nat)
    requires Stored(s)
    ensures var after := s.(store := Charged(s, tokens));
            Stored(after) && Read(after, Day(s.now)) == Read(s, Day(s.now)) + tokens
  {
    ExpiresLater(s.now);
  }

  lemma TickKeeps(init: seq<Event>, s: State, seconds: nat, maxTokens: int, n: nat, t: nat)
    requires Invariant(init, s, maxTokens, n, t)
    ensures Invariant(init + [Tick(seconds)], Step(s, Tick(seconds)), maxTokens, n, t)
  {
    var today := Day(s.now);
    StoredLater(s, seconds);
    CountedStill(init, Tick(seconds), today, Read(s, today), Day(s.now + seconds), Bound(maxTokens, n, t));
  }

  lemma AdmitKeeps(init: seq<Event>, s: State, maxTokens: int, n: nat, t: nat)
    requires Invariant(init, s, maxTokens, n, t) && HasQuota(s, maxTokens) && s.inFlight + 1 <= n
    ensures Invariant(init + [Admit], Step(s, Admit), maxTokens, n, t)
  {
    var today := Day(s.now);
    CountedStill(init, Admit, today, Read(s, today), today, Bound(maxTokens, n, t));
    LoadGrows(s.inFlight + 1, n, t);
  }

  lemma AbortKeeps(init: seq<Event>, s: State, maxTokens: int, n: nat, t: nat)
    requires Invariant(init, s, maxTokens, n, t) && s.inFlight > 0
    ensures Invariant(init + [Abort], Step(s, Abort), maxTokens, n, t)
  {
    var today := Day(s.now);
    CountedStill(init, Abort, today, Read(s, today), today, Bound(maxTokens, n, t));
    LoadGrows(s.inFlight - 1, s.inFlight, t);
  }

  lemma ChargeKeeps(init: seq<Event>, s: State, tokens: nat, maxTokens: int, n: nat, t: nat)
    requires Invariant(init, s, maxTokens, n, t) && s.inFlight > 0 && tokens <= t
    ensures Invariant(init + [Charge(tokens)], Step(s, Charge(tokens)), maxTokens, n, t)
  {
    StoredMore(s, tokens);
    CountedMore(init, tokens, Day(s.now), Read(s, Day(s.now)), Bound(maxTokens, n, t));
  }

  lemma {:induction false} RunKeeps(events: seq<Event>, s: State, maxTokens: int, n: nat, t: nat)
    requires Reaches(events, s, maxTokens, n, t)
    ensures Invariant(events, s, maxTokens, n, t)
  {
    if events == [] {
    } else {
      var init, e := events[..|events|-1], events[|events|-1];
      var before :| Reaches(init, before, maxTokens, n, t) && Enabled(before, e, maxTokens) && s == Step(before, e);
      RunKeeps(init, before, maxTokens, n, t);
      assert events == init + [e];
      match e
      case Tick(seconds) => TickKeeps(init, before, seconds, maxTokens, n, t);
      case Admit => AdmitKeeps(init, before, maxTokens, n, t);
      case Charge(tokens) => ChargeKeeps(init, before, tokens, maxTokens, n, t);
      case Abort => AbortKeeps(init, before, maxTokens, n, t);
    }
  }

  /** No day is ever charged more than the quota less one, plus one full request for each in
      flight; and the counter read during a day has forgotten nothing of that day. */
  lemma DailyBound(events: seq<Event>, s: State, maxTokens: int, n: nat, t: nat, day: nat)
    requires maxTokens > 0 && Reaches(events, s, maxTokens, n, t)
    ensures ChargedOn(events, day) <= maxTokens - 1 + n * t
    ensures Read(s, Day(s.now)) == ChargedOn(events, Day(s.now))
  {
    TodayIsCounted(events, s, maxTokens, n, t);
  }

  // ----- the bound is reached -----

  lemma Extend(events: seq<Event>, s: State, e: Event, maxTokens: int, n: nat, t: nat)
    requires Reaches(events, s, maxTokens, n, t) && Enabled(s, e, maxTokens)
    requires Step(s, e).inFlight <= n && (e.Charge? ==> e.tokens <= t)
    ensures Reaches(events + [e], Step(s, e), maxTokens, n, t)
    ensures forall day :: ChargedOn(events + [e], day)
                       == ChargedOn(events, day) + if e.Charge? && Day(s.now) == day then e.tokens else 0
  {
    var all := events + [e];
    assert all[..|all|-1] == events && all[|all|-1] == e;
    assert Reaches(all[..|all|-1], s, maxTokens, n, t);
    RunKeeps(events, s, maxTokens, n, t);
  }

  /** `k` requests of one token, one after the other. */
  lemma {:induction false} OneByOne(k: nat, maxTokens: int, n: nat, t: nat) returns (events: seq<Event>, s: State)
    requires k < maxTokens && n > 0 && t > 0
    ensures Reaches(events, s, maxTokens, n, t)
    ensures s.now == 0 && s.inFlight == 0 && ChargedOn(events, 0) == k
  {
    if k == 0 {
      events, s := [], START;
    } else {
      events, s := OneByOne(k - 1, maxTokens, n, t);
      RunKeeps(events, s, maxTokens, n, t);
      Extend(events, s, Admit, maxTokens, n, t);
      events, s := events + [Admit], Step(s, Admit);
      Extend(events, s, Charge(1), maxTokens, n, t);
      events, s := events + [Charge(1)], Step(s, Charge(1));
    }
  }

  /** Then `j` requests are admitted before any of them is charged. */
  lemma {:induction false} AllAtOnce(j: nat, maxTokens: int, n: nat, t: nat) returns (events: seq<Event>, s: State)
    requires 0 < maxTokens && j <= n && n > 0 && t > 0
    ensures Reaches(events, s, maxTokens, n, t)
    ensures s.now == 0 && s.inFlight == j && ChargedOn(events, 0) == maxTokens - 1
  {
    if j == 0 {
      events, s := OneByOne(maxTokens - 1, maxTokens, n, t);
    } else {
      events, s := AllAtOnce(j - 1, maxTokens, n, t);
      RunKeeps(events, s, maxTokens, n, t);
      Extend(events, s, Admit, maxTokens, n, t);
      events, s := events + [Admit], Step(s, Admit);
    }
  }

  /** Then `i` of them are charged in full. */
  lemma {:induction false} ThenCharged(i: nat, maxTokens: int, n: nat, t: nat) returns (events: seq<Event>, s: State)
    requires 0 < maxTokens && i <= n && n > 0 && t > 0
    ensures Reaches(events, s, maxTokens, n, t)
    ensures s.now == 0 && s.inFlight == n - i && ChargedOn(events, 0) == maxTokens - 1 + Load(i, t)
  {
    if i == 0 {
      events, s := AllAtOnce(n, maxTokens, n, t);
    } else {
      events, s := ThenCharged(i - 1, maxTokens, n, t);
      Extend(events, s, Charge(t), maxTokens, n, t);
      events, s := events + [Charge(t)], Step(s, Charge(t));
    }
  }

  /** No smaller bound holds: some run charges exactly this much on one day. */
  lemma BoundIsReached(maxTokens: int, n: nat, t: nat) returns (events: seq<Event>, s: State)
    requires 0 < maxTokens && n > 0 && t > 0
    ensures Reaches(events, s, maxTokens, n, t) && ChargedOn(events, 0) == maxTokens - 1 + n * t
  {
    events, s := ThenCharged(n, maxTokens, n, t);
    LoadIsProduct(n, t);
  }

  // ----- the class -----

  /** What a reachable state says about its current day. */
  lemma TodayIsCounted(events: seq<Event>, s: State, maxTokens: int, n: nat, t: nat)
    requires Reaches(events, s, maxTokens, n, t)
    ensures Read(s, Day(s.now)) == ChargedOn(events, Day(s.now))
    ensures maxTokens > 0 ==> forall day :: ChargedOn(events, day) <= maxTokens - 1 + n * t
  {
    RunKeeps(events, s, maxTokens, n, t);
    LoadIsProduct(n, t);
  }

  /** At most `n` requests in flight, of at most `t` tokens each; `events` is the run so far. */
  class QuotaService {
    const maxTokens: int
    ghost const n: nat
    ghost const t: nat
    /** The tenant's counters in Redis. */
    var store: map<nat, Counter>
    ghost var events: seq<Event>
    ghost var clock: nat
    ghost var inFlight: nat

    ghost predicate Valid()
      reads this
    {
      Reaches(events, State(clock, store, inFlight), maxTokens, n, t)
    }

    /** The tokens charged on a day, whatever Redis has forgotten since. */
    ghost function Used(day: nat): nat
      reads this
    {
      ChargedOn(events, day)
    }

    constructor (maxTokens: int, ghost n: nat, ghost t: nat)
      ensures Valid() && this.maxTokens == maxTokens && this.n == n && this.t == t
      ensures events == [] && clock == 0 && inFlight == 0
    {
      this.maxTokens, store := maxTokens, map[];
      this.n, this.t, events, clock, inFlight := n, t, [], 0, 0;
    }

    ghost method Proceed(now: nat)
      requires Valid() && clock <= now
      modifies this`events, this`clock
      ensures Valid() && clock == now
      ensures forall day :: Used(day) == old(Used(day))
    {
      var s := State(clock, store, inFlight);
      RunKeeps(events, s, maxTokens, n, t);
      Extend(events, s, Tick(now - clock), maxTokens, n, t);
      events, clock := events + [Tick(now - clock)], now;
    }

    /** A request is let through exactly while less than the quota has been charged today. */
    method CheckQuota(now: nat) returns (ok: bool)
      requires Valid() && clock <= now && inFlight < n
      modifies this`events, this`clock, this`inFlight
      ensures Valid() && clock == now
      ensures ok <==> Used(now / 86_400) < maxTokens
      ensures inFlight == old(inFlight) + if ok then 1 else 0
      ensures forall day :: Used(day) == old(Used(day))
    {
      Proceed(now);
      ghost var s := State(clock, store, inFlight);
      TodayIsCounted(events, s, maxTokens, n, t);
      if maxTokens <= 0 { return false; }
      var today := now / DAY;
      ok := today !in store || now >= store[today].expiresAt || store[today].count < maxTokens;
      if ok {
        Extend(events, s, Admit, maxTokens, n, t);
        events, inFlight := events + [Admit], inFlight + 1;
      }
    }

    /** The charge counts on the day of the increment and on no other; the counter then shows
        all that was charged on that day, lives to its end, and is within the bound. */
    method IncrementUsage(now: nat, tokens: nat)
      requires Valid() && clock <= now && inFlight > 0 && tokens <= t
      modifies this
      ensures Valid() && clock == now && inFlight == old(inFlight) - 1
      ensures forall day :: Used(day) == old(Used(day)) + if day == now / 86_400 then tokens else 0
      ensures Day(now) in store && store[Day(now)].count == Used(Day(now))
      ensures (now / 86_400 + 1) * 86_400 <= store[Day(now)].expiresAt == now + 25 * 3_600
      ensures store - {Day(now)} == old(store) - {Day(now)}
      ensures maxTokens > 0 ==> Used(Day(now)) <= maxTokens - 1 + n * t
    {
      Proceed(now);
      ghost var s := State(clock, store, inFlight);
      Extend(events, s, Charge(tokens), maxTokens, n, t);
      var today := now / DAY;
      var current := if today in store && now < store[today].expiresAt then store[today].count else 0;
      store := store[today := Counter(current + tokens, now + TTL)];
      events, inFlight := events + [Charge(tokens)], inFlight - 1;
      assert State(clock, store, inFlight) == Step(s, Charge(tokens));
      TodayIsCounted(events, State(clock, store, inFlight), maxTokens, n, t);
      ExpiresLater(now);
    }

    /** A request that ends without a charge. */
    ghost method Abandon()
      requires Valid() && inFlight > 0
      modifies this`events, this`inFlight
      ensures Valid() && inFlight == old(inFlight) - 1
      ensures forall day :: Used(day) == old(Used(day))
    {
      Extend(events, State(clock, store, inFlight), Abort, maxTokens, n, t);
      events, inFlight := events + [Abort], inFlight - 1;
    }
  }
}
