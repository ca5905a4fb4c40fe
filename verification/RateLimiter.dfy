/** The sliding-window limiter of `useMessageGuard`, and how the chat page calls it. */
module RateLimiter {

  const RATE_WINDOW_MS := 10000
  const RATE_MAX_SENDS := 5

  /** `filter((ts) => now - ts < RATE_WINDOW_MS)` */
  function Prune(timestamps: seq<int>, now: int): seq<int> {
    if timestamps == [] then []
    else (if now - timestamps[0] < RATE_WINDOW_MS then [timestamps[0]] else []) + Prune(timestamps[1..], now)
  }

  predicate NonDecreasing(times: seq<int>) { forall i, j :: 0 <= i < j < |times| ==> times[i] <= times[j] }

  /** Any six consecutive sends span the window. */
  predicate SixSpan(log: seq<int>) { forall i :: 0 <= i && i + 5 < |log| ==> log[i+5] - log[i] >= RATE_WINDOW_MS }

  /** The limiter's list, all sends so far, and whether a check has passed since the last one. */
  datatype Guard = Guard(timestamps: seq<int>, log: seq<int>, cleared: bool)

  /** A check, which the content checks may stop before the limiter, or a registered send. */
  datatype Step = Check(at: nat, contentBlocked: bool) | Send(at: nat)

  function Next(g: Guard, s: Step): Guard {
    match s
    case Check(at, contentBlocked) =>
      if contentBlocked then g
      else var kept := Prune(g.timestamps, at); g.(timestamps := kept, cleared := |kept| < RATE_MAX_SENDS)
    case Send(at) => Guard(g.timestamps + [at], g.log + [at], false)
  }

  function Run(steps: seq<Step>): Guard {
    if steps == [] then Guard([], [], false) else Next(Run(steps[..|steps|-1]), steps[|steps|-1])
  }

  /** Every send has its own passing check, with no other send in between. */
  predicate Orderly(steps: seq<Step>) {
    steps != [] ==>
      && Orderly(steps[..|steps|-1])
      && (steps[|steps|-1].Send? ==> Run(steps[..|steps|-1]).cleared)
  }

  function LastTime(steps: seq<Step>): nat { if steps == [] then 0 else steps[|steps|-1].at }

  /** The clock never goes back. */
  predicate Clocked(steps: seq<Step>) {
    steps != [] ==> Clocked(steps[..|steps|-1]) && LastTime(steps[..|steps|-1]) <= steps[|steps|-1].at
  }

  /** The list is the recent end of the log; what was dropped is older than the window. */
  predicate Explains(g: Guard, now: int) {
    && NonDecreasing(g.log)
    && (forall i :: 0 <= i < |g.log| ==> g.log[i] <= now)
    && |g.timestamps| <= |g.log|
    && g.timestamps == g.log[|g.log| - |g.timestamps|..]
    && (forall i :: 0 <= i < |g.log| - |g.timestamps| ==> now - g.log[i] >= RATE_WINDOW_MS)
    && (g.cleared ==> |g.timestamps| < RATE_MAX_SENDS)
  }

  predicate AllRecent(times: seq<int>, now: int) {
    forall i :: 0 <= i < |times| ==> now - times[i] < RATE_WINDOW_MS
  }

  lemma {:induction false} PruneKeepsRecent(times: seq<int>, now: int)
    requires AllRecent(times, now)
    ensures Prune(times, now) == times
  {
    if times == [] {
    } else {
      PruneKeepsRecent(times[1..], now);
    }
  }

  /** On a non-decreasing list pruning drops a front part, all of it too old. */
  lemma {:induction false} PruneIsSuffix(times: seq<int>, now: int) returns (k: nat)
    requires NonDecreasing(times)
    ensures k <= |times| && Prune(times, now) == times[k..] && AllRecent(times[k..], now)
    ensures forall i :: 0 <= i < k ==> now - times[i] >= RATE_WINDOW_MS
  {
    if times == [] || now - times[0] < RATE_WINDOW_MS {
      k := 0;
      assert times[0..] == times;
      PruneKeepsRecent(times, now);
    } else {
      var tail := times[1..];
      var rest := PruneIsSuffix(tail, now);
      k := rest + 1;
      assert times[k..] == tail[rest..];
      forall i | 0 < i < k ensures now - times[i] >= RATE_WINDOW_MS {
        assert times[i] == tail[i-1];
      }
    }
  }

  lemma SuffixOrdered(times: seq<int>, n: nat)
    requires n <= |times| && NonDecreasing(times)
    ensures NonDecreasing(times[n..])
  {
  }

  lemma OldFront(log: seq<int>, n: nat, k: nat, now: int, at: int)
    requires n + k <= |log| && now <= at
    requires forall i :: 0 <= i < n ==> now - log[i] >= RATE_WINDOW_MS
    requires forall i :: 0 <= i < k ==> at - log[n..][i] >= RATE_WINDOW_MS
    ensures forall i :: 0 <= i < n + k ==> at - log[i] >= RATE_WINDOW_MS
  {
    forall i | n <= i < n + k ensures at - log[i] >= RATE_WINDOW_MS {
      assert log[i] == log[n..][i - n];
    }
  }

  lemma CheckExplains(g: Guard, now: int, at: nat)
    requires Explains(g, now) && now <= at
    ensures Explains(Next(g, Check(at, false)), at)
  {
    var n := |g.log| - |g.timestamps|;
    SuffixOrdered(g.log, n);
    var k := PruneIsSuffix(g.log[n..], at);
    OldFront(g.log, n, k, now, at);
    SuffixOfSuffix(g.log, n, k);
    ExplainsLater(g, now, at);
  }

  lemma SuffixOfSuffix(log: seq<int>, n: nat, k: nat)
    requires n + k <= |log|
    ensures log[n..][k..] == log[n + k..] && |log[n + k..]| == |log| - n - k
  {
  }

  lemma SendExplains(g: Guard, now: int, at: nat)
    requires Explains(g, now) && now <= at
    ensures Explains(Next(g, Send(at)), at)
    ensures SixSpan(g.log) && g.cleared ==> SixSpan(Next(g, Send(at)).log)
  {
    var n := |g.log| - |g.timestamps|;
    assert (g.log + [at])[n..] == g.log[n..] + [at];
  }

  /** A send keeps every six sends apart if and only if they were, and fewer than five are recent by then. */
  lemma SendExact(g: Guard, now: int, at: nat)
    requires Explains(g, now) && now <= at
    ensures SixSpan(g.log + [at]) <==> SixSpan(g.log) && |Prune(g.timestamps, at)| < RATE_MAX_SENDS
  {
    if SixSpan(g.log) {
      SendToSixSpan(g, now, at);
    } else if SixSpan(g.log + [at]) {
      SixSpanFront(g.log, at);
    }
  }

  lemma SendToSixSpan(g: Guard, now: int, at: nat)
    requires Explains(g, now) && now <= at && SixSpan(g.log)
    ensures SixSpan(g.log + [at]) <==> |Prune(g.timestamps, at)| < RATE_MAX_SENDS
  {
    var n := |g.log| - |g.timestamps|;
    SuffixOrdered(g.log, n);
    var k := PruneIsSuffix(g.timestamps, at);
    OldFront(g.log, n, k, now, at);
    SuffixOfSuffix(g.log, n, k);
    LastSix(g.log, n + k, at);
  }

  lemma SixSpanFront(log: seq<int>, at: int)
    requires SixSpan(log + [at])
    ensures SixSpan(log)
  {
    forall i | 0 <= i && i + 5 < |log| ensures log[i+5] - log[i] >= RATE_WINDOW_MS {
      assert (log + [at])[i] == log[i] && (log + [at])[i+5] == log[i+5];
    }
  }

  /** The new last six, when `r` sends are old and the others recent. */
  lemma LastSix(log: seq<int>, r: nat, at: int)
    requires r <= |log| && SixSpan(log) && AllRecent(log[r..], at)
    requires forall i :: 0 <= i < r ==> at - log[i] >= RATE_WINDOW_MS
    ensures SixSpan(log + [at]) <==> |log| - r < RATE_MAX_SENDS
  {
    var all, first := log + [at], |log| - 5;
    if |log| - r >= RATE_MAX_SENDS {
      assert log[r..][first - r] == log[first];
      assert all[first + 5] - all[first] < RATE_WINDOW_MS;
    }
  }

  lemma SendKeeps(g: Guard, now: int, at: nat)
    requires Explains(g, now) && now <= at
    ensures Explains(Next(g, Send(at)), at)
    ensures SixSpan(g.log) && g.cleared ==> SixSpan(g.log + [at])
    ensures SixSpan(g.log + [at]) <==> SixSpan(g.log) && |Prune(g.timestamps, at)| < RATE_MAX_SENDS
  {
    SendExplains(g, now, at);
    SendExact(g, now, at);
  }

  lemma {:induction false} RunExplains(steps: seq<Step>)
    requires Clocked(steps)
    ensures Explains(Run(steps), LastTime(steps))
    ensures Orderly(steps) ==> SixSpan(Run(steps).log)
  {
    if steps == [] {
    } else {
      var init, s := steps[..|steps|-1], steps[|steps|-1];
      RunExplains(init);
      match s
      case Check(at, contentBlocked) =>
        if contentBlocked {
          ExplainsLater(Run(init), LastTime(init), at);
        } else {
          CheckExplains(Run(init), LastTime(init), at);
        }
      case Send(at) => SendExplains(Run(init), LastTime(init), at);
    }
  }

  /** Fewer than five sends are recent at every send. */
  predicate Guarded(steps: seq<Step>) {
    steps != [] ==>
      var init, s := steps[..|steps|-1], steps[|steps|-1];
      Guarded(init) && (s.Send? ==> |Prune(Run(init).timestamps, s.at)| < RATE_MAX_SENDS)
  }

  /** In every run, whoever sends and in whatever order, six sends span the window if and
      only if fewer than five were recent at each send. */
  lemma {:induction false} SixSpanExact(steps: seq<Step>)
    requires Clocked(steps)
    ensures SixSpan(Run(steps).log) <==> Guarded(steps)
  {
    if steps == [] {
    } else {
      var init, s := steps[..|steps|-1], steps[|steps|-1];
      SixSpanExact(init);
      RunExplains(init);
      if s.Send? { SendExact(Run(init), LastTime(init), s.at); }
    }
  }

  lemma ExplainsLater(g: Guard, now: int, later: int)
    requires Explains(g, now) && now <= later
    ensures Explains(g, later)
  {
  }

  /** In every orderly run under a non-decreasing clock, six consecutive sends span the window. */
  lemma SixSendsSpanWindow(steps: seq<Step>, i: nat)
    requires Clocked(steps) && Orderly(steps) && i + 5 < |Run(steps).log|
    ensures Run(steps).log[i+5] - Run(steps).log[i] >= 10_000
  {
    RunExplains(steps);
  }

  lemma NextRun(steps: seq<Step>, s: Step)
    ensures Run(steps + [s]) == Next(Run(steps), s)
    ensures Orderly(steps + [s]) <==> Orderly(steps) && (s.Send? ==> Run(steps).cleared)
    ensures Clocked(steps + [s]) <==> Clocked(steps) && LastTime(steps) <= s.at
  {
    assert (steps + [s])[..|steps|] == steps;
  }

  lemma {:induction false} PruneAgain(times: seq<int>, now: int, later: int)
    requires now <= later
    ensures Prune(Prune(times, now), later) == Prune(times, later)
  {
    if times == [] {
    } else {
      PruneAgain(times[1..], now, later);
      PruneAppend(if now - times[0] < RATE_WINDOW_MS then [times[0]] else [], Prune(times[1..], now), later);
      PruneOne(times[0], later);
      assert Prune([], later) == [];
    }
  }

  lemma {:induction false} PruneAppend(a: seq<int>, b: seq<int>, now: int)
    ensures Prune(a + b, now) == Prune(a, now) + Prune(b, now)
  {
    if a == [] {
      assert a + b == b;
    } else {
      assert (a + b)[1..] == a[1..] + b;
      PruneAppend(a[1..], b, now);
    }
  }

  lemma PruneOne(time: int, now: int)
    ensures Prune([time], now) == if now - time < RATE_WINDOW_MS then [time] else []
  {
    assert [time][1..] == [];
  }

  lemma {:induction false} PruneShrinks(times: seq<int>, now: int, later: int)
    requires now <= later
    ensures |Prune(times, later)| <= |Prune(times, now)|
  {
    if times == [] {
    } else {
      PruneShrinks(times[1..], now, later);
    }
  }

  /** A message waits for confirmation, another is checked and sent, then the first is confirmed. */
  function Late(asked: nat, checked: nat, sent: nat, confirmed: nat): seq<Step> {
    [Check(asked, false), Check(checked, false), Send(sent), Send(confirmed)]
  }

  function AfterChecks(g: Guard, asked: nat, checked: nat): Guard {
    Next(Next(g, Check(asked, false)), Check(checked, false))
  }

  lemma LateSteps(steps: seq<Step>, asked: nat, checked: nat, sent: nat, confirmed: nat)
    requires LastTime(steps) <= asked <= checked <= sent <= confirmed && Clocked(steps)
    ensures var all := steps + Late(asked, checked, sent, confirmed);
            && Clocked(all)
            && Run(all) == Next(Next(AfterChecks(Run(steps), asked, checked), Send(sent)), Send(confirmed))
  {
    var c1 := steps + [Check(asked, false)];
    var c2 := c1 + [Check(checked, false)];
    var c3 := c2 + [Send(sent)];
    NextRun(steps, Check(asked, false));
    NextRun(c1, Check(checked, false));
    NextRun(c2, Send(sent));
    NextRun(c3, Send(confirmed));
    assert steps + Late(asked, checked, sent, confirmed) == c3 + [Send(confirmed)];
  }

  lemma ChecksExplain(g: Guard, now: int, asked: nat, checked: nat)
    requires Explains(g, now) && now <= asked <= checked
    ensures var c := AfterChecks(g, asked, checked);
            Explains(c, checked) && c.log == g.log && c.timestamps == Prune(g.timestamps, checked)
  {
    CheckExplains(g, now, asked);
    CheckExplains(Next(g, Check(asked, false)), asked, checked);
    PruneAgain(g.timestamps, asked, checked);
  }

  /** Two sends in a row, the first of which keeps the limit. */
  lemma TwoSends(g: Guard, now: int, sent: nat, confirmed: nat)
    requires Explains(g, now) && now <= sent <= confirmed && confirmed - sent < RATE_WINDOW_MS
    requires SixSpan(g.log) && |Prune(g.timestamps, sent)| < RATE_MAX_SENDS
    ensures SixSpan(g.log + [sent] + [confirmed]) <==> |Prune(g.timestamps, confirmed)| < RATE_MAX_SENDS - 1
  {
    SendExact(g, now, sent);
    SendExplains(g, now, sent);
    SendExact(Next(g, Send(sent)), sent, confirmed);
    PruneAppend(g.timestamps, [sent], confirmed);
    PruneOne(sent, confirmed);
  }

  /** The confirmation dialog can break the limit. Both messages have passed their own check;
      with the second sent, the late confirmation keeps every six sends apart if and only if
      fewer than four of the earlier sends are recent by then. */
  lemma LateConfirmation(steps: seq<Step>, asked: nat, checked: nat, sent: nat, confirmed: nat)
    requires Clocked(steps) && SixSpan(Run(steps).log)
    requires LastTime(steps) <= asked <= checked <= sent <= confirmed && confirmed - sent < RATE_WINDOW_MS
    requires |Prune(Run(steps).timestamps, asked)| < RATE_MAX_SENDS
    ensures Clocked(steps + Late(asked, checked, sent, confirmed))
    ensures Run(steps + Late(asked, checked, sent, confirmed)).log == Run(steps).log + [sent] + [confirmed]
    ensures SixSpan(Run(steps + Late(asked, checked, sent, confirmed)).log)
            <==> |Prune(Run(steps).timestamps, confirmed)| < RATE_MAX_SENDS - 1
  {
    var ts := Run(steps).timestamps;
    LateSteps(steps, asked, checked, sent, confirmed);
    RunExplains(steps);
    ChecksExplain(Run(steps), LastTime(steps), asked, checked);
    PruneAgain(ts, checked, sent);
    PruneAgain(ts, checked, confirmed);
    PruneShrinks(ts, asked, sent);
    TwoSends(AfterChecks(Run(steps), asked, checked), checked, sent, confirmed);
  }

  /** Messages that are checked and registered at these times. */
  function Sends(times: seq<nat>): seq<Step> {
    if times == [] then []
    else Sends(times[..|times|-1]) + [Check(times[|times|-1], false)] + [Send(times[|times|-1])]
  }

  function LastOf(times: seq<nat>): nat { if times == [] then 0 else times[|times|-1] }

  /** Times in order, less than the window apart. */
  ghost predicate InWindow(times: seq<nat>) {
    NonDecreasing(times) && (times != [] ==> LastOf(times) - times[0] < RATE_WINDOW_MS)
  }

  lemma WindowFront(times: seq<nat>)
    requires times != [] && InWindow(times)
    ensures var init, t := times[..|times|-1], times[|times|-1];
            InWindow(init) && LastOf(init) <= t && Prune(init, t) == init && times == init + [t]
  {
    PruneKeepsRecent(times[..|times|-1], times[|times|-1]);
  }

  /** A message that is checked and registered at `t`. */
  lemma OneSend(steps: seq<Step>, times: seq<nat>, t: nat)
    requires Run(steps) == Guard(times, times, false) && Orderly(steps) && Clocked(steps) && LastTime(steps) <= t
    requires |times| < RATE_MAX_SENDS && Prune(times, t) == times
    ensures var next := steps + [Check(t, false)] + [Send(t)];
            && Run(next) == Guard(times + [t], times + [t], false)
            && Orderly(next) && Clocked(next) && LastTime(next) == t
  {
    NextRun(steps, Check(t, false));
    NextRun(steps + [Check(t, false)], Send(t));
  }

  lemma {:induction false} SendsInWindow(times: seq<nat>)
    requires |times| <= RATE_MAX_SENDS && InWindow(times)
    ensures Run(Sends(times)) == Guard(times, times, false)
    ensures Orderly(Sends(times)) && Clocked(Sends(times)) && LastTime(Sends(times)) == LastOf(times)
  {
    if times == [] {
    } else {
      WindowFront(times);
      SendsInWindow(times[..|times|-1]);
      OneSend(Sends(times[..|times|-1]), times[..|times|-1], times[|times|-1]);
    }
  }

  lemma FirstFour(times: seq<nat>)
    requires |times| == 6 && InWindow(times)
    ensures InWindow(times[..4]) && LastOf(times[..4]) <= times[4] <= times[5]
    ensures Prune(times[..4], times[4]) == Prune(times[..4], times[5]) == times[..4]
    ensures times == times[..4] + [times[4]] + [times[5]] && times[5] - times[4] < RATE_WINDOW_MS
  {
    PruneKeepsRecent(times[..4], times[4]);
    PruneKeepsRecent(times[..4], times[5]);
  }

  /** So any six times within the window are times at which six sends are let through. */
  lemma SixWithinWindow(times: seq<nat>) returns (steps: seq<Step>)
    requires |times| == 6 && InWindow(times)
    ensures steps == Sends(times[..4]) + Late(times[4], times[4], times[4], times[5])
    ensures Clocked(steps) && Run(steps).log == times && !SixSpan(Run(steps).log)
  {
    steps := Sends(times[..4]) + Late(times[4], times[4], times[4], times[5]);
    FirstFour(times);
    SendsInWindow(times[..4]);
    LateConfirmation(Sends(times[..4]), times[4], times[4], times[4], times[5]);
  }

  /** After a block, a later check with no send in between is limited again exactly while the
      fifth last of the recent sends is recent. With five recent sends, which is all that
      orderly runs have, the announced wait says when that ends; with more it may be too short. */
  lemma WaitIsExact(timestamps: seq<int>, now: int, later: int)
    requires NonDecreasing(timestamps) && now <= later
    requires |Prune(timestamps, now)| >= RATE_MAX_SENDS
    ensures var kept := Prune(timestamps, now);
            var announced, exact := RATE_WINDOW_MS - (now - kept[0]),
                                    RATE_WINDOW_MS - (now - kept[|kept| - RATE_MAX_SENDS]);
            && 0 < announced <= exact
            && (|Prune(kept, later)| >= RATE_MAX_SENDS <==> later - now < exact)
            && (|kept| == RATE_MAX_SENDS ==> announced == exact)
  {
    var kept := Prune(timestamps, now);
    var k := PruneIsSuffix(timestamps, now);
    SuffixOrdered(timestamps, k);
    var j := PruneIsSuffix(kept, later);
    var fifth := |kept| - RATE_MAX_SENDS;
    if j <= fifth { assert kept[j..][fifth - j] == kept[fifth]; }
  }

  /** In orderly runs the list never holds more than five sends, so the wait is exact for them. */
  lemma {:induction false} NeverMoreThanFive(steps: seq<Step>)
    requires Clocked(steps) && Orderly(steps)
    ensures |Run(steps).timestamps| <= RATE_MAX_SENDS
  {
    if steps == [] {
    } else {
      var init, s := steps[..|steps|-1], steps[|steps|-1];
      NeverMoreThanFive(init);
      RunExplains(init);
      if s.Check? {
        var k := PruneIsSuffix(Run(init).timestamps, s.at);
      }
    }
  }

  // ----- the hook and its callers -----

  datatype Verdict = Blocked | RateLimited(waitMs: int) | Warn | Pass

  class MessageGuard {
    var sendTimestamps: seq<int>
    var pending: bool
    ghost var log: seq<int>
    ghost var cleared: bool
    ghost var clock: int
    ghost var orderly: bool

    ghost function State(): Guard
      reads this
    {
      Guard(sendTimestamps, log, cleared)
    }

    ghost predicate Valid()
      reads this
    {
      Explains(State(), clock) && (orderly ==> SixSpan(log))
    }

    constructor ()
      ensures Valid() && State() == Guard([], [], false) && orderly && !pending
    {
      sendTimestamps, pending, log, cleared, clock, orderly := [], false, [], false, 0, true;
    }

    /** The limiter's part of the check: prune, and compare the count. */
    method Limit(now: nat) returns (limited: bool, waitMs: int)
      requires Valid() && clock <= now
      modifies this`sendTimestamps, this`cleared, this`clock
      ensures Valid() && clock == now
      ensures State() == Next(old(State()), Check(now, false))
      ensures limited == !cleared
      ensures limited <==> |sendTimestamps| >= RATE_MAX_SENDS
      ensures limited ==> waitMs == RATE_WINDOW_MS - (now - sendTimestamps[0])
    {
      CheckExplains(State(), clock, now);
      clock := now;
      sendTimestamps := Prune(sendTimestamps, now);
      cleared := |sendTimestamps| < RATE_MAX_SENDS;
      limited, waitMs := |sendTimestamps| >= RATE_MAX_SENDS, 0;
      if limited { waitMs := RATE_WINDOW_MS - (now - sendTimestamps[0]); }
    }

    /** `guardCheck`: `contentBlocked` stands for the checks before the limiter, `warns` for those after. */
    method GuardCheck(now: nat, contentBlocked: bool, warns: bool) returns (verdict: Verdict)
      requires Valid() && clock <= now
      modifies this`sendTimestamps, this`cleared, this`clock
      ensures Valid() && clock == now
      ensures State() == Next(old(State()), Check(now, contentBlocked))
      ensures verdict.Blocked? <==> contentBlocked
      ensures verdict.RateLimited? <==> !contentBlocked && |sendTimestamps| >= RATE_MAX_SENDS
      ensures verdict.RateLimited? ==> verdict.waitMs == RATE_WINDOW_MS - (now - sendTimestamps[0])
      ensures verdict.Warn? <==> !contentBlocked && |sendTimestamps| < RATE_MAX_SENDS && warns
      ensures verdict.Pass? <==> !contentBlocked && |sendTimestamps| < RATE_MAX_SENDS && !warns
      ensures verdict.Warn? || verdict.Pass? ==> cleared
    {
      if contentBlocked {
        ExplainsLater(State(), clock, now);
        clock := now;
        return Blocked;
      }
      var limited, waitMs := Limit(now);
      verdict := if limited then RateLimited(waitMs) else if warns then Warn else Pass;
    }

    method RegisterSend(now: nat)
      requires Valid() && clock <= now
      modifies this`sendTimestamps, this`log, this`cleared, this`clock, this`orderly
      ensures Valid() && clock == now
      ensures State() == Next(old(State()), Send(now))
      ensures orderly == (old(orderly) && old(cleared))
      ensures SixSpan(log) <==> SixSpan(old(log)) && |Prune(old(sendTimestamps), now)| < RATE_MAX_SENDS
    {
      SendKeeps(State(), clock, now);
      orderly := orderly && cleared;
      clock := now;
      sendTimestamps := sendTimestamps + [now];
      log := log + [now];
      cleared := false;
    }

    /** `handleSend`: a message that is not blocked warns or passes if fewer than five sends are
        recent. One that passes is registered at once, so this path is always orderly; one that
        warns is kept for the user to confirm. */
    method HandleSend(now: nat, registered: nat, contentBlocked: bool, warns: bool) returns (verdict: Verdict)
      requires Valid() && clock <= now <= registered
      modifies this
      ensures Valid() && orderly == old(orderly)
      ensures var recent := Prune(old(sendTimestamps), now);
              verdict == if contentBlocked then Blocked
                         else if |recent| >= 5 then RateLimited(10_000 - (now - recent[0]))
                         else if warns then Warn
                         else Pass
      ensures sendTimestamps ==
              if contentBlocked then old(sendTimestamps)
              else Prune(old(sendTimestamps), now) + if verdict.Pass? then [registered] else []
      ensures log == if verdict.Pass? then old(log) + [registered] else old(log)
      ensures pending == (old(pending) || verdict.Warn?)
    {
      verdict := GuardCheck(now, contentBlocked, warns);
      if verdict.Warn? { pending := true; }
      if verdict.Pass? { RegisterSend(registered); }
    }

    /** `handleGuardConfirm`: orderly only if nothing was sent since the check that asked; six
        sends stay apart if and only if fewer than five are recent when the user confirms. */
    method HandleGuardConfirm(now: nat)
      requires Valid() && clock <= now
      modifies this
      ensures Valid() && !pending
      ensures orderly == (old(orderly) && (old(pending) ==> old(cleared)))
      ensures log == if old(pending) then old(log) + [now] else old(log)
      ensures sendTimestamps == if old(pending) then old(sendTimestamps) + [now] else old(sendTimestamps)
      ensures SixSpan(log) <==>
              (SixSpan(old(log)) && (old(pending) ==> |Prune(old(sendTimestamps), now)| < RATE_MAX_SENDS))
    {
      if pending { RegisterSend(now); }
      pending := false;
    }
  }
}
