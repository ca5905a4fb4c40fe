/** `ClassificationCache`: an in-process LRU in front of Redis. */
module Cache {
  import opened Wrappers

  datatype Response = Response(intentLabel: string, confidence: real, source: string,
                               taxonomyVersion: string, modelId: string)

  /** An entry of the OrderedDict; the oldest comes first. */
  datatype Entry = Entry(key: string, value: Response)

  // ----- the key -----

  /** The service's fingerprint, its SHA-256, and what `strip` takes for white space. */
  datatype Keys = Keys(fingerprint: string, digest: string -> string, space: char -> bool)

  /** Digests have one length. */
  ghost predicate IsDigest(k: Keys) { forall s, t :: |k.digest(s)| == |k.digest(t)| }

  function Strip(s: string, space: char -> bool): string
    decreases |s|
  {
    if s == "" then ""
    else if space(s[0]) then Strip(s[1..], space)
    else if space(s[|s|-1]) then Strip(s[..|s|-1], space)
    else s
  }

  /** `(tenant_id or "default").strip() or "default"` */
  function TenantName(k: Keys, tenant: Option<string>): string {
    var given := if tenant.None? || tenant.value == "" then "default" else tenant.value;
    if Strip(given, k.space) == "" then "default" else Strip(given, k.space)
  }

  function CacheKey(k: Keys, text: string, tenant: Option<string>): string {
    "intent:cls:v6:" + k.fingerprint + ":" + TenantName(k, tenant) + ":" + k.digest(text)
  }

  /** Two requests share a key exactly when their texts have one digest and their tenants one
      name, even if names contain colons; so texts whose digests do not collide are kept apart. */
  lemma KeysSeparate(k: Keys, text: string, tenant: Option<string>, other: string, tenant': Option<string>)
    requires IsDigest(k)
    ensures CacheKey(k, text, tenant) == CacheKey(k, other, tenant')
            <==> k.digest(text) == k.digest(other) && TenantName(k, tenant) == TenantName(k, tenant')
    ensures (k.digest(text) == k.digest(other) ==> text == other) ==>
              (CacheKey(k, text, tenant) == CacheKey(k, other, tenant')
               <==> text == other && TenantName(k, tenant) == TenantName(k, tenant'))
  {
    var front := "intent:cls:v6:" + k.fingerprint + ":";
    var a, b := front + TenantName(k, tenant) + ":", front + TenantName(k, tenant') + ":";
    SameEnd(a, k.digest(text), b, k.digest(other));
    if a == b {
      assert |TenantName(k, tenant)| == |TenantName(k, tenant')|;
      assert a[|front|..|a|-1] == TenantName(k, tenant) && b[|front|..|b|-1] == TenantName(k, tenant');
    }
  }

  predicate AllSpace(s: string, space: char -> bool) { forall i :: 0 <= i < |s| ==> space(s[i]) }

  /** A name that is not empty and has no white space at its ends. */
  predicate IsName(s: string, space: char -> bool) { s != "" && !space(s[0]) && !space(s[|s|-1]) }

  lemma {:induction false} StripBlank(s: string, space: char -> bool)
    requires AllSpace(s, space)
    ensures Strip(s, space) == ""
    decreases |s|
  {
    if s == "" {
    } else {
      StripBlank(s[1..], space);
    }
  }

  /** What is left is what stands between the white space. */
  lemma {:induction false} StripIs(a: string, name: string, b: string, space: char -> bool)
    requires AllSpace(a, space) && AllSpace(b, space) && IsName(name, space)
    ensures Strip(a + name + b, space) == name
    decreases |a| + |b|
  {
    var s := a + name + b;
    if a != "" {
      assert s[0] == a[0] && s[1..] == a[1..] + name + b;
      StripIs(a[1..], name, b, space);
    } else if b != "" {
      assert s[0] == name[0] && s[|s|-1] == b[|b|-1] && s[..|s|-1] == a + name + b[..|b|-1];
      StripIs(a, name, b[..|b|-1], space);
    } else {
      assert s == name;
    }
  }

  /** The name of a tenant is what stands between the white space; without one it is "default". */
  lemma TenantNames(k: Keys, a: string, name: string, b: string)
    requires IsName("default", k.space)
    requires AllSpace(a, k.space) && AllSpace(b, k.space) && IsName(name, k.space)
    ensures TenantName(k, Some(a + name + b)) == name
    ensures TenantName(k, None) == TenantName(k, Some("")) == TenantName(k, Some(a)) == "default"
  {
    StripIs(a, name, b, k.space);
    StripIs("", "default", "", k.space);
    assert "" + "default" + "" == "default";
    StripBlank(a, k.space);
  }

  /** So requests of differently named tenants never share a key. */
  lemma TenantsAreSeparate(k: Keys, text: string, name: string, other: string, name': string)
    requires IsDigest(k) && IsName("default", k.space) && IsName(name, k.space) && IsName(name', k.space) && name != name'
    ensures CacheKey(k, text, Some(name)) != CacheKey(k, other, Some(name'))
    ensures name != "default" ==> CacheKey(k, text, Some(name)) != CacheKey(k, other, None)
  {
    TenantNames(k, "", name, "");
    TenantNames(k, "", name', "");
    assert "" + name + "" == name && "" + name' + "" == name';
    KeysSeparate(k, text, Some(name), other, Some(name'));
    KeysSeparate(k, text, Some(name), other, None);
  }

  lemma SameEnd(a: string, x: string, b: string, y: string)
    requires |x| == |y|
    ensures a + x == b + y <==> a == b && x == y
  {
    if a + x == b + y {
      assert |a| == |b|;
      assert (a + x)[..|a|] == a && (b + y)[..|b|] == b;
      assert (a + x)[|a|..] == x && (b + y)[|b|..] == y;
    }
  }

  // ----- the OrderedDict -----

  predicate Has(lru: seq<Entry>, key: string) {
    lru != [] && (lru[0].key == key || Has(lru[1..], key))
  }

  function ValueOf(lru: seq<Entry>, key: string): Response
    requires Has(lru, key)
  {
    if lru[0].key == key then lru[0].value else ValueOf(lru[1..], key)
  }

  predicate Distinct(lru: seq<Entry>) {
    lru != [] ==> !Has(lru[1..], lru[0].key) && Distinct(lru[1..])
  }

  /** `d[key] = value`: in place when the key is there, at the end when it is new. */
  function Assign(lru: seq<Entry>, key: string, value: Response): seq<Entry> {
    if lru == [] then [Entry(key, value)]
    else if lru[0].key == key then [Entry(key, value)] + lru[1..]
    else [lru[0]] + Assign(lru[1..], key, value)
  }

  function Remove(lru: seq<Entry>, key: string): seq<Entry> {
    if lru == [] then []
    else if lru[0].key == key then lru[1..]
    else [lru[0]] + Remove(lru[1..], key)
  }

  function MoveToEnd(lru: seq<Entry>, key: string): seq<Entry>
    requires Has(lru, key)
  {
    Remove(lru, key) + [Entry(key, ValueOf(lru, key))]
  }

  /** The key made the most recent one, with this value. */
  function Touch(lru: seq<Entry>, key: string, value: Response): seq<Entry> {
    Remove(lru, key) + [Entry(key, value)]
  }

  /** The `n` most recent entries. */
  function Recent(lru: seq<Entry>, n: nat): seq<Entry> {
    if |lru| <= n then lru else lru[|lru| - n..]
  }

  // ----- one step -----

  datatype Config = Config(lruMax: nat, connected: bool)

  datatype State = State(lru: seq<Entry>, redis: map<string, Response>)

  /** A set or get with the fate of its Redis call, or entries expiring in Redis. */
  datatype Event =
    | Set(key: string, response: Response, fails: bool)
    | Get(key: string, fails: bool)
    | Vanish(keys: set<string>)

  function AfterSet(c: Config, s: State, key: string, response: Response, fails: bool): State {
    State(Recent(Touch(s.lru, key, response), c.lruMax),
          if c.connected && !fails then s.redis[key := response] else s.redis)
  }

  /** What a get finds, before it is labelled as cached. */
  function Found(c: Config, s: State, key: string, fails: bool): Option<Response> {
    if Has(s.lru, key) then Some(ValueOf(s.lru, key))
    else if c.connected && !fails && key in s.redis then Some(s.redis[key])
    else None
  }

  function AfterGet(c: Config, s: State, key: string, fails: bool): State {
    match Found(c, s, key, fails)
    case None => s
    case Some(v) => s.(lru := Recent(Touch(s.lru, key, v), c.lruMax))
  }

  function Step(c: Config, s: State, e: Event): State {
    match e
    case Set(key, response, fails) => AfterSet(c, s, key, response, fails)
    case Get(key, fails) => AfterGet(c, s, key, fails)
    case Vanish(keys) => s.(redis := s.redis - keys)
  }

  function Run(c: Config, events: seq<Event>): State {
    if events == [] then State([], map[]) else Step(c, Run(c, events[..|events|-1]), events[|events|-1])
  }

  // ----- a hit is the latest value -----

  /** The plain map: the latest value set for each key. */
  function Latest(events: seq<Event>): map<string, Response> {
    if events == [] then map[]
    else
      var before, e := Latest(events[..|events|-1]), events[|events|-1];
      if e.Set? then before[e.key := e.response] else before
  }

  predicate Agrees(m: map<string, Response>, key: string, value: Response) { key in m && m[key] == value }

  /** Whatever either tier holds is the latest value. */
  ghost predicate Coherent(s: State, latest: map<string, Response>) {
    && (forall key :: Has(s.lru, key) ==> Agrees(latest, key, ValueOf(s.lru, key)))
    && (forall key :: key in s.redis ==> Agrees(latest, key, s.redis[key]))
  }

  predicate WritesSucceed(c: Config, events: seq<Event>) {
    c.connected ==> forall i :: 0 <= i < |events| ==> events[i].Set? ==> !events[i].fails
  }

  lemma {:induction false} HasRemove(lru: seq<Entry>, key: string, other: string)
    requires Distinct(lru)
    ensures Has(Remove(lru, key), other) <==> Has(lru, other) && other != key
    ensures Has(Remove(lru, key), other) ==> ValueOf(Remove(lru, key), other) == ValueOf(lru, other)
    ensures Distinct(Remove(lru, key))
  {
    if lru != [] && lru[0].key != key {
      HasRemove(lru[1..], key, other);
      HasRemove(lru[1..], key, lru[0].key);
    }
  }

  lemma {:induction false} HasAppend(a: seq<Entry>, b: seq<Entry>, key: string)
    ensures Has(a + b, key) <==> Has(a, key) || Has(b, key)
    ensures Has(a, key) ==> ValueOf(a + b, key) == ValueOf(a, key)
    ensures !Has(a, key) && Has(b, key) ==> ValueOf(a + b, key) == ValueOf(b, key)
  {
    if a == [] {
      assert a + b == b;
    } else {
      assert (a + b)[1..] == a[1..] + b;
      HasAppend(a[1..], b, key);
    }
  }

  lemma {:induction false} DistinctAppend(a: seq<Entry>, b: seq<Entry>)
    ensures Distinct(a + b) ==> Distinct(a) && Distinct(b) && forall key :: Has(a, key) ==> !Has(b, key)
    ensures Distinct(a) && Distinct(b) && (forall key :: Has(a, key) ==> !Has(b, key)) ==> Distinct(a + b)
  {
    if a == [] {
      assert a + b == b;
    } else {
      assert (a + b)[1..] == a[1..] + b;
      DistinctAppend(a[1..], b);
      HasAppend(a[1..], b, a[0].key);
      assert Has(a, a[0].key);
    }
  }

  lemma HasTouch(lru: seq<Entry>, key: string, value: Response, other: string)
    requires Distinct(lru)
    ensures var t := Touch(lru, key, value);
            && (Has(t, other) <==> Has(lru, other) || other == key)
            && (Has(t, other) ==> ValueOf(t, other) == if other == key then value else ValueOf(lru, other))
  {
    HasRemove(lru, key, other);
    HasAppend(Remove(lru, key), [Entry(key, value)], other);
  }

  lemma DistinctTouch(lru: seq<Entry>, key: string, value: Response)
    requires Distinct(lru)
    ensures Distinct(Touch(lru, key, value))
  {
    HasRemove(lru, key, key);
    var last := [Entry(key, value)];
    assert last[1..] == [] && Distinct(last);
    forall other | Has(Remove(lru, key), other) ensures !Has(last, other) {
      HasRemove(lru, key, other);
    }
    DistinctAppend(Remove(lru, key), last);
  }

  lemma HasRecent(lru: seq<Entry>, n: nat, key: string)
    requires Distinct(lru)
    ensures Has(Recent(lru, n), key) ==> Has(lru, key) && ValueOf(lru, key) == ValueOf(Recent(lru, n), key)
    ensures Distinct(Recent(lru, n))
  {
    if |lru| > n {
      var k := |lru| - n;
      assert lru == lru[..k] + lru[k..];
      DistinctAppend(lru[..k], lru[k..]);
      HasAppend(lru[..k], lru[k..], key);
    }
  }

  lemma TouchedIsCoherent(s: State, n: nat, latest: map<string, Response>, key: string, value: Response)
    requires Distinct(s.lru) && Agrees(latest, key, value)
    requires forall k :: k != key && Has(s.lru, k) ==> Agrees(latest, k, ValueOf(s.lru, k))
    ensures var lru := Recent(Touch(s.lru, key, value), n);
            Distinct(lru) && forall k :: Has(lru, k) ==> Agrees(latest, k, ValueOf(lru, k))
  {
    var t := Touch(s.lru, key, value);
    DistinctTouch(s.lru, key, value);
    HasRecent(t, n, key);
    forall k | Has(Recent(t, n), k) ensures Agrees(latest, k, ValueOf(Recent(t, n), k)) {
      HasRecent(t, n, k);
      HasTouch(s.lru, key, value, k);
    }
  }

  /** A set keeps the tiers coherent exactly when Redis is left with nothing but the new value. */
  lemma SetKeepsCoherence(c: Config, s: State, latest: map<string, Response>, key: string, response: Response, fails: bool)
    requires Distinct(s.lru) && Coherent(s, latest)
    ensures Distinct(AfterSet(c, s, key, response, fails).lru)
    ensures Coherent(AfterSet(c, s, key, response, fails), latest[key := response]) <==>
            (c.connected && !fails) || key !in s.redis || s.redis[key] == response
  {
    var next, latest' := AfterSet(c, s, key, response, fails), latest[key := response];
    TouchedIsCoherent(s, c.lruMax, latest', key, response);
    forall k | k != key && k in next.redis ensures Agrees(latest', k, next.redis[k]) {
      assert k in s.redis;
    }
    if key in s.redis && !(c.connected && !fails) {
      assert key in next.redis && (Agrees(latest', key, next.redis[key]) <==> s.redis[key] == response);
    }
  }

  lemma GetKeepsCoherence(c: Config, s: State, latest: map<string, Response>, key: string, fails: bool)
    requires Distinct(s.lru) && Coherent(s, latest)
    ensures Distinct(AfterGet(c, s, key, fails).lru) && Coherent(AfterGet(c, s, key, fails), latest)
  {
    if Found(c, s, key, fails).Some? {
      TouchedIsCoherent(s, c.lruMax, latest, key, Found(c, s, key, fails).value);
    }
  }

  /** The set writes Redis, or Redis holds nothing else for the key. */
  predicate Safe(c: Config, s: State, key: string, response: Response, fails: bool) {
    (c.connected && !fails) || key !in s.redis || s.redis[key] == response
  }

  /** Every set of the run is safe. */
  predicate Guarded(c: Config, events: seq<Event>) {
    events != [] ==>
      var init, e := events[..|events|-1], events[|events|-1];
      Guarded(c, init) && (e.Set? ==> Safe(c, Run(c, init), e.key, e.response, e.fails))
  }

  lemma StepIsCoherent(c: Config, s: State, latest: map<string, Response>, e: Event)
    requires Distinct(s.lru) && Coherent(s, latest)
    ensures Distinct(Step(c, s, e).lru)
    ensures Coherent(Step(c, s, e), if e.Set? then latest[e.key := e.response] else latest)
            <==> (e.Set? ==> Safe(c, s, e.key, e.response, e.fails))
  {
    match e
    case Set(key, response, fails) => SetKeepsCoherence(c, s, latest, key, response, fails);
    case Get(key, fails) => GetKeepsCoherence(c, s, latest, key, fails);
    case Vanish(keys) =>
  }

  lemma {:induction false} GuardedIsCoherent(c: Config, events: seq<Event>)
    requires Guarded(c, events)
    ensures Distinct(Run(c, events).lru) && Coherent(Run(c, events), Latest(events))
  {
    if events == [] {
    } else {
      var init, e := events[..|events|-1], events[|events|-1];
      GuardedIsCoherent(c, init);
      StepIsCoherent(c, Run(c, init), Latest(init), e);
    }
  }

  /** Both tiers have held nothing but latest values after every step of the run. */
  ghost predicate AlwaysCoherent(c: Config, events: seq<Event>) {
    forall n: nat :: n <= |events| ==> Coherent(Run(c, events[..n]), Latest(events[..n]))
  }

  lemma CoherentFront(c: Config, events: seq<Event>)
    requires events != []
    ensures AlwaysCoherent(c, events) <==>
            AlwaysCoherent(c, events[..|events|-1]) && Coherent(Run(c, events), Latest(events))
  {
    var init := events[..|events|-1];
    assert forall n: nat :: n <= |init| ==> init[..n] == events[..n];
    assert events[..|events|] == events;
    if AlwaysCoherent(c, init) && Coherent(Run(c, events), Latest(events)) {
      forall n: nat | n <= |events| ensures Coherent(Run(c, events[..n]), Latest(events[..n])) {
        if n < |events| { assert init[..n] == events[..n]; }
      }
    }
    if AlwaysCoherent(c, events) {
      assert Coherent(Run(c, events[..|events|]), Latest(events[..|events|]));
      forall n: nat | n <= |init| ensures Coherent(Run(c, init[..n]), Latest(init[..n])) {
        assert init[..n] == events[..n];
      }
    }
  }

  /** A run never holds a stale value if and only if every set of it is safe. */
  lemma {:induction false} CoherentIffGuarded(c: Config, events: seq<Event>)
    ensures AlwaysCoherent(c, events) <==> Guarded(c, events)
  {
    if events == [] {
    } else {
      var init, e := events[..|events|-1], events[|events|-1];
      CoherentIffGuarded(c, init);
      CoherentFront(c, events);
      if Guarded(c, init) {
        GuardedIsCoherent(c, init);
        StepIsCoherent(c, Run(c, init), Latest(init), e);
      }
    }
  }

  /** Runs whose Redis writes succeed are among them. */
  lemma {:induction false} WritesThatSucceedAreGuarded(c: Config, events: seq<Event>)
    requires WritesSucceed(c, events)
    ensures Guarded(c, events) && (!c.connected ==> Run(c, events).redis == map[])
  {
    if events == [] {
    } else {
      WritesThatSucceedAreGuarded(c, events[..|events|-1]);
    }
  }

  /** A hit is the latest value set for the key, whatever expires and whichever reads fail. */
  lemma HitIsLatest(c: Config, events: seq<Event>, key: string, fails: bool)
    requires Guarded(c, events)
    ensures var hit := Found(c, Run(c, events), key, fails);
            hit.Some? ==> Agrees(Latest(events), key, hit.value)
  {
    GuardedIsCoherent(c, events);
  }

  /** One failed write is enough for a stale hit: set, set again without Redis, evict, get. */
  lemma StaleAfterFailedWrite(old': Response, new': Response)
    ensures var c := Config(1, true);
            var s1 := Step(c, State([], map[]), Set("a", old', false));
            var s2 := Step(c, s1, Set("a", new', true));
            var s3 := Step(c, s2, Set("b", new', false));
            Found(c, s3, "a", false) == Some(old')
  {
    var c := Config(1, true);
    var s1 := Step(c, State([], map[]), Set("a", old', false));
    assert s1.lru == [Entry("a", old')];
    var s2 := Step(c, s1, Set("a", new', true));
    assert s2.lru == [Entry("a", new')];
    var s3 := Step(c, s2, Set("b", new', false));
    assert Remove(s2.lru[1..], "b") == [] && Remove(s2.lru, "b") == s2.lru;
    assert s3.lru == [Entry("b", new')] && s3.lru[1..] == [];
    assert "a" != "b" && !Has(s3.lru, "a");
    assert s1.redis["a"] == old' && s3.redis["a"] == old';
  }

  // ----- the LRU is the recency list, cut -----

  /** All keys ever set, by last touch: set, or got after a set. */
  function Recency(events: seq<Event>): seq<Entry> {
    if events == [] then []
    else
      var before, e := Recency(events[..|events|-1]), events[|events|-1];
      match e
      case Set(key, response, _) => Touch(before, key, response)
      case Get(key, _) => if Has(before, key) then Touch(before, key, ValueOf(before, key)) else before
      case Vanish(_) => before
  }

  /** The number of the last event that touched the key: a set, or a get after a set. */
  function LastTouch(events: seq<Event>, key: string): nat {
    if events == [] then 0
    else
      var init, e := events[..|events|-1], events[|events|-1];
      if (e.Set? && e.key == key) || (e.Get? && e.key == key && key in Latest(init)) then |events|
      else LastTouch(init, key)
  }

  /** The keys by the number of their last touch, each once, with the latest value. */
  ghost predicate ByTouch(all: seq<Entry>, events: seq<Event>) {
    && (forall i :: 0 <= i < |all| ==> Agrees(Latest(events), all[i].key, all[i].value))
    && (forall i, j :: 0 <= i < j < |all| ==> LastTouch(events, all[i].key) < LastTouch(events, all[j].key))
    && (forall key :: key in Latest(events) ==> exists i :: 0 <= i < |all| && all[i].key == key)
  }

  predicate NothingLost(c: Config, events: seq<Event>) {
    && c.connected
    && forall i :: 0 <= i < |events| ==> !events[i].Vanish? && !events[i].fails
  }

  lemma {:induction false} RemoveAppend(a: seq<Entry>, b: seq<Entry>, key: string)
    ensures Has(a, key) ==> Remove(a + b, key) == Remove(a, key) + b
    ensures !Has(a, key) ==> Remove(a + b, key) == a + Remove(b, key) && Remove(a, key) == a
  {
    if a == [] {
      assert a + b == b;
    } else {
      assert (a + b)[1..] == a[1..] + b;
      RemoveAppend(a[1..], b, key);
    }
  }

  lemma {:induction false} RemoveSize(lru: seq<Entry>, key: string)
    ensures |Remove(lru, key)| == if Has(lru, key) then |lru| - 1 else |lru|
  {
    if lru == [] {
    } else {
      RemoveSize(lru[1..], key);
    }
  }

  lemma CutFront(front: seq<Entry>, back: seq<Entry>)
    ensures Recent(front + back, |back|) == back
  {
  }

  /** Touching a key among the recent entries ... */
  lemma TouchAmong(a: seq<Entry>, b: seq<Entry>, key: string, value: Response)
    requires !Has(a, key) && Has(b, key)
    ensures Recent(Touch(a + b, key, value), |b|) == Recent(Touch(b, key, value), |b|)
  {
    var e := [Entry(key, value)];
    RemoveAppend(a, b, key);
    RemoveSize(b, key);
    assert Remove(a + b, key) + e == a + (Remove(b, key) + e);
    CutFront(a, Remove(b, key) + e);
  }

  /** ... or one that is not. */
  lemma TouchOther(a: seq<Entry>, b: seq<Entry>, key: string, value: Response)
    requires !Has(b, key) && b != []
    ensures Recent(Touch(a + b, key, value), |b|) == Recent(Touch(b, key, value), |b|)
  {
    RemoveAppend(a, b, key);
    RemoveMissing(b, key);
    TouchNew(if Has(a, key) then Remove(a, key) else a, b, [Entry(key, value)]);
  }

  lemma TouchBack(a: seq<Entry>, b: seq<Entry>, key: string, value: Response)
    requires Distinct(a + b) && b != []
    ensures Recent(Touch(a + b, key, value), |b|) == Recent(Touch(b, key, value), |b|)
  {
    DistinctAppend(a, b);
    if Has(b, key) {
      TouchAmong(a, b, key, value);
    } else {
      TouchOther(a, b, key, value);
    }
  }

  lemma TouchNew(front: seq<Entry>, b: seq<Entry>, e: seq<Entry>)
    requires b != [] && |e| == 1
    ensures Recent((front + b) + e, |b|) == b[1..] + e == Recent(b + e, |b|)
  {
    assert (front + b) + e == (front + [b[0]]) + (b[1..] + e);
    CutFront(front + [b[0]], b[1..] + e);
    assert b + e == [b[0]] + (b[1..] + e);
    CutFront([b[0]], b[1..] + e);
  }

  lemma {:induction false} RemoveMissing(lru: seq<Entry>, key: string)
    requires !Has(lru, key)
    ensures Remove(lru, key) == lru
  {
    if lru == [] {
    } else {
      RemoveMissing(lru[1..], key);
    }
  }

  /** Touching and then cutting, and cutting first, give the same recent entries. */
  lemma TouchRecent(all: seq<Entry>, n: nat, key: string, value: Response)
    requires n > 0 && Distinct(all)
    ensures Recent(Touch(Recent(all, n), key, value), n) == Recent(Touch(all, key, value), n)
  {
    if |all| > n {
      var k := |all| - n;
      assert all == all[..k] + all[k..];
      TouchBack(all[..k], all[k..], key, value);
    }
  }

  lemma {:induction false} RunIsRecency(c: Config, events: seq<Event>)
    requires NothingLost(c, events) && c.lruMax > 0
    ensures Distinct(Recency(events))
    ensures Run(c, events).lru == Recent(Recency(events), c.lruMax)
    ensures forall key :: Has(Recency(events), key) <==> key in Run(c, events).redis
    ensures forall key :: Has(Recency(events), key) ==> ValueOf(Recency(events), key) == Run(c, events).redis[key]
  {
    if events == [] {
    } else {
      var init, e := events[..|events|-1], events[|events|-1];
      RunIsRecency(c, init);
      var all, s := Recency(init), Run(c, init);
      var value := if e.Set? then e.response else if Has(all, e.key) then ValueOf(all, e.key) else Empty();
      HasRecent(all, c.lruMax, e.key);
      if e.Set? || Has(all, e.key) {
        DistinctTouch(all, e.key, value);
        TouchRecent(all, c.lruMax, e.key, value);
        forall k ensures Has(Touch(all, e.key, value), k) <==> Has(all, k) || k == e.key {
          HasTouch(all, e.key, value, k);
        }
        forall k | Has(Touch(all, e.key, value), k)
          ensures ValueOf(Touch(all, e.key, value), k) == if k == e.key then value else ValueOf(all, k)
        {
          HasTouch(all, e.key, value, k);
        }
      }
    }
  }

  lemma {:induction false} LastTouchBound(events: seq<Event>, key: string)
    ensures LastTouch(events, key) <= |events|
  {
    if events == [] {
    } else {
      LastTouchBound(events[..|events|-1], key);
    }
  }

  lemma {:induction false} HasIndex(lru: seq<Entry>, key: string)
    ensures Has(lru, key) <==> exists i :: 0 <= i < |lru| && lru[i].key == key
    ensures Has(lru, key) ==> exists i :: 0 <= i < |lru| && lru[i] == Entry(key, ValueOf(lru, key))
  {
    if lru == [] {
    } else {
      HasIndex(lru[1..], key);
      if Has(lru, key) {
        if lru[0].key == key {
          assert lru[0] == Entry(key, ValueOf(lru, key));
        } else {
          var i :| 0 <= i < |lru[1..]| && lru[1..][i] == Entry(key, ValueOf(lru[1..], key));
          assert lru[i+1] == Entry(key, ValueOf(lru, key));
        }
      }
      if i :| 0 <= i < |lru| && lru[i].key == key {
        assert i > 0 ==> lru[1..][i-1].key == key;
      }
    }
  }

  /** Removing takes out one entry, or none. */
  lemma {:induction false} RemoveAt(lru: seq<Entry>, key: string) returns (k: nat)
    ensures k <= |lru|
    ensures if k < |lru| then lru[k].key == key && Remove(lru, key) == lru[..k] + lru[k+1..]
            else !Has(lru, key) && Remove(lru, key) == lru
  {
    if lru == [] || lru[0].key == key {
      k := 0;
    } else {
      var rest := RemoveAt(lru[1..], key);
      k := rest + 1;
      if rest < |lru[1..]| {
        assert [lru[0]] + lru[1..][..rest] == lru[..k] && lru[1..][rest+1..] == lru[k+1..];
        Join3(lru[0], lru[1..][..rest], lru[k+1..]);
      }
    }
  }

  lemma Join3(e: Entry, a: seq<Entry>, b: seq<Entry>)
    ensures [e] + (a + b) == ([e] + a) + b
  {
  }

  predicate Rising(all: seq<Entry>, events: seq<Event>) {
    forall i, j :: 0 <= i < j < |all| ==> LastTouch(events, all[i].key) < LastTouch(events, all[j].key)
  }

  lemma RisingWithout(all: seq<Entry>, events: seq<Event>, k: nat)
    requires Rising(all, events) && k < |all|
    ensures Rising(all[..k] + all[k+1..], events)
    ensures forall e :: e in all[..k] + all[k+1..] ==> e in all && e.key != all[k].key
  {
  }

  /** What the event just seen touches, if anything. */
  predicate Touches(init: seq<Event>, e: Event) { e.Set? || (e.Get? && e.key in Latest(init)) }

  lemma TouchOfOther(init: seq<Event>, e: Event, key: string)
    requires Touches(init, e)
    ensures LastTouch(init + [e], key) == if key == e.key then |init| + 1 else LastTouch(init, key)
  {
    assert (init + [e])[..|init|] == init;
  }

  /** Without the touched key the order is the old one. */
  lemma OthersRise(rest: seq<Entry>, init: seq<Event>, e: Event)
    requires Rising(rest, init) && Touches(init, e)
    requires forall i :: 0 <= i < |rest| ==> rest[i].key != e.key
    ensures Rising(rest, init + [e])
    ensures forall i :: 0 <= i < |rest| ==> LastTouch(init + [e], rest[i].key) <= |init|
  {
    forall i | 0 <= i < |rest|
      ensures LastTouch(init + [e], rest[i].key) == LastTouch(init, rest[i].key) <= |init|
    {
      TouchOfOther(init, e, rest[i].key);
      LastTouchBound(init, rest[i].key);
    }
  }

  lemma RisingMore(rest: seq<Entry>, last: Entry, events: seq<Event>)
    requires Rising(rest, events)
    requires forall i :: 0 <= i < |rest| ==> LastTouch(events, rest[i].key) < LastTouch(events, last.key)
    ensures Rising(rest + [last], events)
  {
  }

  lemma TouchedRises(init: seq<Event>, e: Event, all: seq<Entry>, value: Response)
    requires Rising(all, init) && Touches(init, e)
    ensures Rising(Touch(all, e.key, value), init + [e])
  {
    RemovedRises(all, init, e.key);
    OthersRise(Remove(all, e.key), init, e);
    TouchOfOther(init, e, e.key);
    RisingMore(Remove(all, e.key), Entry(e.key, value), init + [e]);
  }

  lemma RemovedRises(all: seq<Entry>, init: seq<Event>, key: string)
    requires Rising(all, init)
    ensures Rising(Remove(all, key), init)
    ensures forall i :: 0 <= i < |Remove(all, key)| ==> Remove(all, key)[i].key != key
  {
    var k := RemoveAt(all, key);
    if k < |all| {
      RisingWithout(all, init, k);
      forall i | 0 <= i < |Remove(all, key)| ensures Remove(all, key)[i].key != key {
        assert Remove(all, key)[i] in all[..k] + all[k+1..];
      }
    } else {
      HasIndex(all, key);
    }
  }

  lemma {:induction false} RecencyRises(events: seq<Event>)
    ensures Distinct(Recency(events)) && Rising(Recency(events), events)
    ensures forall key :: Has(Recency(events), key) <==> key in Latest(events)
    ensures forall key :: Has(Recency(events), key) ==> ValueOf(Recency(events), key) == Latest(events)[key]
  {
    if events == [] {
    } else {
      var init, e := events[..|events|-1], events[|events|-1];
      assert events == init + [e];
      RecencyRises(init);
      if Touches(init, e) {
        var value := if e.Set? then e.response else Latest(init)[e.key];
        TouchedRises(init, e, Recency(init), value);
        DistinctTouch(Recency(init), e.key, value);
        forall key { HasTouch(Recency(init), e.key, value, key); }
      } else {
        NothingTouched(init, e);
      }
    }
  }

  lemma NothingTouched(init: seq<Event>, e: Event)
    requires !Touches(init, e)
    ensures forall key :: LastTouch(init + [e], key) == LastTouch(init, key)
    ensures Latest(init + [e]) == Latest(init)
  {
    assert (init + [e])[..|init|] == init;
  }

  /** The recency list holds every key ever set once, with its latest value, in the order in
      which the keys were last touched. */
  lemma RecencyIsByTouch(events: seq<Event>)
    ensures ByTouch(Recency(events), events)
  {
    var all := Recency(events);
    RecencyRises(events);
    forall i | 0 <= i < |all| ensures Agrees(Latest(events), all[i].key, all[i].value) {
      EntryIsValue(all, i);
    }
    forall key | key in Latest(events) ensures exists i :: 0 <= i < |all| && all[i].key == key {
      HasIndex(all, key);
    }
  }

  lemma {:induction false} EntryIsValue(lru: seq<Entry>, i: nat)
    requires Distinct(lru) && i < |lru|
    ensures Has(lru, lru[i].key) && ValueOf(lru, lru[i].key) == lru[i].value
  {
    if i > 0 {
      EntryIsValue(lru[1..], i - 1);
    }
  }

  function Empty(): Response { Response("", 0.0, "", "", "") }

  /** When nothing is lost, the LRU holds exactly the most recently touched keys, in order;
      so the LRU of a smaller cache is the recent end of that of a larger one. */
  lemma LruIsMostRecent(c: Config, larger: Config, events: seq<Event>)
    requires NothingLost(c, events) && larger.connected && 0 < c.lruMax <= larger.lruMax
    ensures Run(c, events).lru == Recent(Recency(events), c.lruMax)
    ensures Run(c, events).lru == Recent(Run(larger, events).lru, c.lruMax)
    ensures forall key :: Has(Run(c, events).lru, key) ==> Has(Run(larger, events).lru, key)
  {
    RunIsRecency(c, events);
    RunIsRecency(larger, events);
    HasRecent(Recency(events), larger.lruMax, "");
    RecentTwice(Recency(events), larger.lruMax, c.lruMax);
    forall key | Has(Run(c, events).lru, key) ensures Has(Run(larger, events).lru, key) {
      HasRecent(Run(larger, events).lru, c.lruMax, key);
    }
  }

  lemma RecentTwice(all: seq<Entry>, n: nat, m: nat)
    requires m <= n
    ensures Recent(Recent(all, n), m) == Recent(all, m)
  {
  }

  // ----- the class -----

  /** Assigning and then moving to the end is touching. */
  lemma {:induction false} AssignThenMove(lru: seq<Entry>, key: string, value: Response)
    requires Distinct(lru)
    ensures var lru2 := Assign(lru, key, value);
            && Has(lru2, key) && ValueOf(lru2, key) == value
            && Remove(lru2, key) == Remove(lru, key)
            && MoveToEnd(lru2, key) == Touch(lru, key, value)
  {
    if lru == [] {
    } else {
      var tail := lru[1..];
      if lru[0].key == key {
        assert ([Entry(key, value)] + tail)[1..] == tail;
      } else {
        AssignThenMove(tail, key, value);
        assert ([lru[0]] + Assign(tail, key, value))[1..] == Assign(tail, key, value);
      }
    }
  }

  class ClassificationCache {
    const config: Config
    var lru: seq<Entry>
    /** The Redis server; it changes behind the cache's back only through `Expire`. */
    var redis: map<string, Response>

    ghost function Fields(): State
      reads this
    {
      State(lru, redis)
    }

    ghost predicate Valid()
      reads this
    {
      config.lruMax > 0 && Distinct(lru) && |lru| <= config.lruMax
    }

    constructor (lruMax: int, connected: bool)
      ensures Valid() && Fields() == State([], map[])
      ensures config == Config(if lruMax > 1 then lruMax else 1, connected)
    {
      config := Config(if lruMax > 1 then lruMax else 1, connected);
      lru, redis := [], map[];
    }

    method LruGet(key: string) returns (hit: Option<Response>)
      requires Valid()
      modifies this`lru
      ensures Valid()
      ensures if Has(old(lru), key)
              then hit == Some(ValueOf(old(lru), key)) && lru == Touch(old(lru), key, hit.value)
              else hit == None && lru == old(lru)
    {
      if !Has(lru, key) { return None; }
      hit := Some(ValueOf(lru, key));
      DistinctTouch(lru, key, hit.value);
      RemoveSize(lru, key);
      lru := MoveToEnd(lru, key);
    }

    method LruSet(key: string, response: Response)
      requires Valid()
      modifies this`lru
      ensures Valid()
      ensures lru == Recent(Touch(old(lru), key, response), config.lruMax)
    {
      AssignThenMove(lru, key, response);
      DistinctTouch(lru, key, response);
      lru := Assign(lru, key, response);
      lru := MoveToEnd(lru, key);
      ghost var touched := lru;
      while |lru| > config.lruMax
        invariant |lru| <= |touched| && lru == touched[|touched| - |lru|..]
        invariant lru == touched || |lru| >= config.lruMax
      {
        lru := lru[1..];
      }
      HasRecent(touched, config.lruMax, "");
    }

    method Get(key: string, fails: bool) returns (hit: Option<Response>)
      requires Valid()
      modifies this`lru
      ensures Valid() && Fields() == AfterGet(config, old(Fields()), key, fails)
      ensures hit == match Found(config, old(Fields()), key, fails)
                     case None => None
                     case Some(v) => Some(v.(source := "cache"))
    {
      hit := LruGet(key);
      if hit.Some? {
        RemoveSize(old(lru), key);
        return Some(hit.value.(source := "cache"));
      }
      if !config.connected || fails || key !in redis { return None; }
      LruSet(key, redis[key]);
      hit := Some(redis[key].(source := "cache"));
    }

    method Set(key: string, response: Response, fails: bool)
      requires Valid()
      modifies this
      ensures Valid() && Fields() == AfterSet(config, old(Fields()), key, response, fails)
    {
      LruSet(key, response);
      if config.connected && !fails {
        redis := redis[key := response];
      }
    }

    /** Redis dropping entries whose time is up. */
    method Expire(keys: set<string>)
      requires Valid()
      modifies this`redis
      ensures Valid() && Fields() == Step(config, old(Fields()), Vanish(keys))
    {
      redis := redis - keys;
    }
  }
}
