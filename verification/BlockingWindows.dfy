/** Fixed failure windows against sliding ones: how many failures close together reach the threshold. */
module BlockingWindows {
  import opened Wrappers
  import opened Blocking

  /** All failures of an address between two positions lie within one window length from a time,
      with no success among them. */
  ghost predicate Dense(p: Policy, events: seq<Event>, ip: string, i: nat, j: nat, first: nat)
    requires j <= |events|
  {
    forall k :: i <= k < j && events[k].ip == ip ==>
      !events[k].Succeed? && (events[k].Fail? ==> first <= events[k].now < first + p.windowSecs)
  }

  /** Some failure of the address between two positions reaches the threshold. */
  ghost predicate SomeReaches(p: Policy, events: seq<Event>, ip: string, i: nat, j: nat) {
    exists k :: i <= k < j && k < |events| && events[k].ip == ip && Reaches(p, events, k)
  }

  /** A failure that falls into a window already running. */
  predicate Inside(p: Policy, before: Option<Failures>, e: Event, ip: string) {
    e.Fail? && e.ip == ip && before.Some? && InWindow(p, before.value.start, e.now)
  }

  /** How many failures of an address between two positions still fall into the window running before them: those
      up to its first failure outside. */
  function InsideIn(p: Policy, events: seq<Event>, ip: string, before: Option<Failures>, i: nat, j: nat): nat
    requires i <= j <= |events|
    decreases j
  {
    if i == j then 0
    else
      var n := InsideIn(p, events, ip, before, i, j - 1);
      n + if Inside(p, before, events[j - 1], ip) && n == FailuresIn(events, ip, i, j - 1) then 1 else 0
  }

  /** The running window fills up, or the failures after it do so by themselves. */
  predicate Fills(p: Policy, before: Option<Failures>, inside: nat, all: int) {
    (inside > 0 && before.Some? && before.value.count + inside >= p.maxFailures) || all - inside >= p.maxFailures
  }

  // ----- the exact condition -----

  /** What the counter has become when nothing reached the threshold. */
  ghost predicate CounterIs(
    p: Policy, before: Option<Failures>, inside: nat, all: int, now: Option<Failures>, first: nat)
  {
    if all > inside then
      now.Some? && now.value.count == all - inside && first <= now.value.start
    else if inside > 0 then before.Some? && now == Some(before.value.(count := before.value.count + inside))
    else now == before
  }

  /** One more event of a dense stretch, seen from the counter. */
  lemma DenseStep(p: Policy, before: Option<Failures>, inside: nat, all: int, now: Option<Failures>, first: nat,
                  e: Event, ip: string)
    requires CounterIs(p, before, inside, all, now, first) && all >= inside && !Fills(p, before, inside, all)
    requires e.ip == ip ==> !e.Succeed? && (e.Fail? ==> first <= e.now < first + p.windowSecs)
    requires before.Some? ==> 1 <= before.value.count < p.maxFailures
    ensures var inside' := inside + if Inside(p, before, e, ip) && inside == all then 1 else 0;
            var all' := all + if e.Fail? && e.ip == ip then 1 else 0;
      && (e.Fail? && e.ip == ip && OneMore(p, now, e.now).count >= p.maxFailures <==> Fills(p, before, inside', all'))
      && (!Fills(p, before, inside', all') ==>
            CounterIs(p, before, inside', all', CounterStep(p, now, e, ip), first))
  {
  }

  lemma {:induction false} InsideIsLess(p: Policy, events: seq<Event>, ip: string, before: Option<Failures>, i: nat,
      j: nat)
    requires i <= j <= |events|
    ensures InsideIn(p, events, ip, before, i, j) <= FailuresIn(events, ip, i, j)
    ensures before.None? ==> InsideIn(p, events, ip, before, i, j) == 0
    decreases j
  {
    if i < j {
      InsideIsLess(p, events, ip, before, i, j - 1);
    }
  }

  lemma CountsOneMore(p: Policy, events: seq<Event>, ip: string, before: Option<Failures>, i: nat, k: nat)
    requires i <= k < |events|
    ensures InsideIn(p, events, ip, before, i, k + 1)
         == InsideIn(p, events, ip, before, i, k)
              + if Inside(p, before, events[k], ip)
                   && InsideIn(p, events, ip, before, i, k) == FailuresIn(events, ip, i, k) then 1 else 0
    ensures FailuresIn(events, ip, i, k + 1)
         == FailuresIn(events, ip, i, k) + if events[k].Fail? && events[k].ip == ip then 1 else 0
    ensures Inside(p, before, events[k], ip) ==> events[k].Fail? && events[k].ip == ip
  {
  }

  /** The same over the address's own counter. */
  ghost predicate CounterSome(p: Policy, events: seq<Event>, ip: string, i: nat, j: nat) {
    exists k :: i <= k < j && k < |events| && events[k].ip == ip && CounterReaches(p, events, k)
  }

  lemma CounterSomeOneMore(p: Policy, events: seq<Event>, ip: string, i: nat, k: nat)
    requires i <= k < |events|
    ensures var e := events[k];
      CounterSome(p, events, ip, i, k + 1) <==>
        || CounterSome(p, events, ip, i, k)
        || (e.Fail? && e.ip == ip && OneMore(p, Counter(p, events[..k], ip), e.now).count >= p.maxFailures)
  {
    hide Counter, OneMore;
    if events[k].ip == ip && CounterReaches(p, events, k) {
      assert CounterSome(p, events, ip, i, k + 1);
    }
  }

  /** The condition, over the counter; and what the counter is while it fails. */
  ghost predicate CounterFits(p: Policy, events: seq<Event>, ip: string, i: nat, j: nat, first: nat)
    requires i <= j <= |events|
  {
    var before := Counter(p, events[..i], ip);
    var inside, all := InsideIn(p, events, ip, before, i, j), FailuresIn(events, ip, i, j);
    && (CounterSome(p, events, ip, i, j) <==> Fills(p, before, inside, all))
    && (!Fills(p, before, inside, all) ==> CounterIs(p, before, inside, all, Counter(p, events[..j], ip), first))
  }

  lemma CounterGoesOnFitting(p: Policy, events: seq<Event>, ip: string, i: nat, k: nat, first: nat)
    requires i <= k < |events| && p.Valid() && p.enabled
    requires Dense(p, events, ip, i, k + 1, first) && CounterFits(p, events, ip, i, k, first)
    ensures CounterFits(p, events, ip, i, k + 1, first)
  {
    hide Counter, CounterStep, OneMore, InWindow, CounterIs, CounterSome, InsideIn, FailuresIn,
        Inside;
    var before, now, e := Counter(p, events[..i], ip), Counter(p, events[..k], ip), events[k];
    var inside, all := InsideIn(p, events, ip, before, i, k), FailuresIn(events, ip, i, k);
    CounterBelowThreshold(p, events[..i], ip);
    InsideIsLess(p, events, ip, before, i, k);
    CounterOneMore(p, events, k, ip);
    CountsOneMore(p, events, ip, before, i, k);
    CounterSomeOneMore(p, events, ip, i, k);
    if !Fills(p, before, inside, all) {
      hide Fills;
      DenseStep(p, before, inside, all, now, first, e, ip);
    }
  }

  lemma {:induction false} DenseCounterExactly(p: Policy, events: seq<Event>, ip: string, i: nat, j: nat, first: nat)
    requires i <= j <= |events| && p.Valid() && p.enabled && Dense(p, events, ip, i, j, first)
    ensures CounterFits(p, events, ip, i, j, first)
    decreases j
  {
    if i < j {
      hide CounterFits;
      DenseCounterExactly(p, events, ip, i, j - 1, first);
      CounterGoesOnFitting(p, events, ip, i, j - 1, first);
    }
  }

  /** Exactly when a dense stretch of failures reaches the threshold: with n failures counted in a window
      running before it, of its own failures those inside that window fill it up to the threshold, or those
      after it come to the threshold alone. */
  lemma DenseReachesExactly(p: Policy, events: seq<Event>, ip: string, i: nat, j: nat, first: nat)
    requires i <= j <= |events| && p.Valid() && p.enabled && NothingLost(p, events, ip, j)
    requires Dense(p, events, ip, i, j, first)
    ensures var before := Counter(p, events[..i], ip);
      SomeReaches(p, events, ip, i, j)
      <==> Fills(p, before, InsideIn(p, events, ip, before, i, j), FailuresIn(events, ip, i, j))
  {
    DenseCounterExactly(p, events, ip, i, j, first);
    hide Counter, Fills, After, Drops, InsideIn, FailuresIn;
    forall k | i <= k < j && events[k].ip == ip ensures Reaches(p, events, k) <==> CounterReaches(p, events, k) {
      assert NothingLost(p, events, ip, k + 1);
      ReachesExactly(p, events, k);
    }
    hide Reaches, CounterReaches, NothingLost;
  }

  // ----- how many failures are enough -----

  /** The least number of dense failures that always reaches the threshold. */
  function Enough(p: Policy): int {
    if p.maxFailures == 1 || p.windowSecs == 1 then p.maxFailures else 2 * p.maxFailures - 2
  }

  lemma {:induction false} InsideAllOrNone(
    p: Policy, events: seq<Event>, ip: string, before: Option<Failures>, i: nat, j: nat, inside: bool)
    requires i <= j <= |events|
    requires forall k :: i <= k < j && events[k].Fail? && events[k].ip == ip ==>
        Inside(p, before, events[k], ip) == inside
    ensures InsideIn(p, events, ip, before, i, j) == if inside then FailuresIn(events, ip, i, j) else 0
    decreases j
  {
    if i < j {
      InsideAllOrNone(p, events, ip, before, i, j - 1, inside);
    }
  }

  /** That many failures within one window length, with no success in between, always reach the threshold. */
  lemma EnoughFailuresReach(p: Policy, events: seq<Event>, ip: string, i: nat, j: nat, first: nat)
    requires i <= j <= |events| && p.Valid() && p.enabled && NothingLost(p, events, ip, j)
    requires Dense(p, events, ip, i, j, first) && FailuresIn(events, ip, i, j) >= Enough(p)
    ensures SomeReaches(p, events, ip, i, j)
  {
    var before := Counter(p, events[..i], ip);
    DenseReachesExactly(p, events, ip, i, j, first);
    CounterBelowThreshold(p, events[..i], ip);
    InsideIsLess(p, events, ip, before, i, j);
    if p.windowSecs == 1 {
      InsideAllOrNone(p, events, ip, before, i, j, before.Some? && InWindow(p, before.value.start, first));
    }
    hide SomeReaches, Counter, Fills, InsideIn, FailuresIn, NothingLost, Dense;
    EnoughFills(p, before, InsideIn(p, events, ip, before, i, j), FailuresIn(events, ip, i, j));
  }

  lemma EnoughFills(p: Policy, before: Option<Failures>, inside: nat, all: nat)
    requires p.Valid() && p.enabled && inside <= all && all >= Enough(p)
    requires before.Some? ==> 1 <= before.value.count < p.maxFailures
    requires before.None? ==> inside == 0
    requires p.windowSecs == 1 ==> inside == 0 || inside == all
    ensures Fills(p, before, inside, all)
  {
  }

  /** A window that opens at 0 fills up to one below the threshold just before it ends, and the next one likewise. */
  function Straddling(p: Policy, ip: string): (events: seq<Event>)
    requires p.Valid() && p.enabled
  {
    if p.maxFailures == 1 || p.windowSecs == 1 then seq<Event>(p.maxFailures - 1, _ => Fail(ip, 0))
    else
      seq<Event>(2 * p.maxFailures - 2, k =>
        Fail(ip, if k == 0 then 0 else if k < p.maxFailures - 1 then p.windowSecs - 1 else p.windowSecs))
  }

  /** Where its dense stretch starts, and when. */
  function StretchFrom(p: Policy): nat { if p.maxFailures == 1 || p.windowSecs == 1 then 0 else 1 }

  function StretchTime(p: Policy): nat {
    if p.maxFailures == 1 || p.windowSecs <= 1 then 0 else p.windowSecs - 1
  }

  ghost predicate Lonely(events: seq<Event>, ip: string) {
    forall k :: 0 <= k < |events| ==> events[k].Fail? && events[k].ip == ip
  }

  lemma {:induction false} LonelyFailures(events: seq<Event>, ip: string, i: nat, j: nat)
    requires Lonely(events, ip) && i <= j <= |events|
    ensures FailuresIn(events, ip, i, j) == j - i
    decreases j
  {
    if i < j {
      LonelyFailures(events, ip, i, j - 1);
    }
  }

  /** With a single address the table holds at most its entry. */
  lemma {:induction false} LonelyTable(p: Policy, events: seq<Event>, ip: string, n: nat)
    requires Lonely(events, ip) && n <= |events|
    ensures After(p, events[..n]).failed.Keys <= {ip} && |After(p, events[..n]).failed| <= 1
    decreases n
  {
    if n > 0 {
      LonelyTable(p, events, ip, n - 1);
      AfterOneMore(p, events, n - 1);
      hide After;
      CountKeepsLonely(p, After(p, events[..n - 1]).failed, ip, events[n - 1].now);
    }
  }

  lemma CountKeepsLonely(p: Policy, failed: Table, ip: string, now: nat)
    requires failed.Keys <= {ip}
    ensures Count(p, failed, ip, now).1.Keys <= {ip} && |Count(p, failed, ip, now).1| <= 1
  {
    var t := Count(p, failed, ip, now).1;
    assert t.Keys <= {ip};
    assert t.Keys == {} || t.Keys == {ip};
  }

  /** A single slot is always empty when a failure is counted. */
  lemma OneSlotRoom(p: Policy, failed: Table, now: nat)
    requires |failed| <= 1 && p.maxFailedIps == 1
    ensures WithRoom(p, failed, now) == map[]
  {
    if |failed| == 1 {
      var kept := KeepInWindow(p, failed, now);
      assert |kept| == |kept.Keys|;
    }
  }

  lemma OneSlotCounts(p: Policy, failed: Table, ip: string, now: nat)
    requires |failed| <= 1 && p.maxFailedIps == 1 && p.maxFailures > 1
    ensures Count(p, failed, ip, now) == (false, map[ip := Failures(1, now)])
  {
    OneSlotRoom(p, failed, now);
    hide WithRoom;
  }

  lemma {:induction false} LastFailure(events: seq<Event>, ip: string, i: nat, j: nat) returns (m: nat)
    requires i <= j <= |events| && FailuresIn(events, ip, i, j) > 0
    ensures i <= m < j && events[m].Fail? && events[m].ip == ip
    ensures FailuresIn(events, ip, i, m) == FailuresIn(events, ip, i, j) - 1
    ensures forall k :: m < k < j ==> !(events[k].Fail? && events[k].ip == ip)
    decreases j
  {
    if events[j - 1].Fail? && events[j - 1].ip == ip {
      m := j - 1;
    } else {
      m := LastFailure(events, ip, i, j - 1);
    }
  }

  /** So nothing is ever counted twice. */
  lemma OneSlotReachesNothing(p: Policy, events: seq<Event>, n: nat)
    requires n <= |events| && p.Valid() && p.enabled && p.maxFailedIps == 1 && p.maxFailures > 1
    ensures !Reaches(p, events, n)
    ensures n < |events| && events[n].Fail? ==>
      After(p, events[..n + 1]).failed == map[events[n].ip := Failures(1, events[n].now)]
  {
    if n < |events| && events[n].Fail? {
      TablesStayBounded(p, events[..n]);
      AfterOneMore(p, events, n);
      OneSlotCounts(p, After(p, events[..n]).failed, events[n].ip, events[n].now);
    }
    hide After, Count;
  }

  /** In a single slot the window of a failure does not last until the next one. */
  lemma OneSlotLosesADenseWindow(p: Policy, events: seq<Event>, ip: string, i: nat, j: nat, first: nat)
    requires i <= j <= |events| && p.Valid() && p.enabled && p.maxFailedIps == 1 && p.maxFailures > 1
    requires Dense(p, events, ip, i, j, first) && FailuresIn(events, ip, i, j) >= 2
    ensures !NothingLost(p, events, ip, j)
  {
    hide After, Reaches, FailuresIn, NothingLost, InWindow, Quiet;
    var m := LastFailure(events, ip, i, j);
    var l := LastFailure(events, ip, i, m);
    OneSlotReachesNothing(p, events, l);
    assert Quiet(events, ip, l + 1, m) && InWindow(p, events[l].now, events[m].now) by {
      DenseBetween(p, events, ip, i, j, first, l, m);
    }
    hide Dense;
    OneSlotLoses(p, events, ip, events[l].now, l + 1, m, j);
  }

  lemma DenseBetween(p: Policy, events: seq<Event>, ip: string, i: nat, j: nat, first: nat, l: nat, m: nat)
    requires i <= l < m < j <= |events| && Dense(p, events, ip, i, j, first) && p.windowSecs > 0
    requires events[l].Fail? && events[l].ip == ip && events[m].Fail? && events[m].ip == ip
    requires forall k :: l < k < m ==> !(events[k].Fail? && events[k].ip == ip)
    ensures Quiet(events, ip, l + 1, m) && InWindow(p, events[l].now, events[m].now)
  {
  }

  lemma {:induction false} OneSlotLoses(p: Policy, events: seq<Event>, ip: string, start: nat, n: nat, m: nat, j: nat)
    requires n <= m < j <= |events| && p.Valid() && p.enabled && p.maxFailedIps == 1
    requires EntryOf(After(p, events[..n]).failed, ip) == Some(Failures(1, start))
    requires events[m].Fail? && events[m].ip == ip && InWindow(p, start, events[m].now) && Quiet(events, ip, n, m)
    ensures !NothingLost(p, events, ip, j)
    decreases m - n
  {
    var s, e := After(p, events[..n]), events[n];
    if e.Fail? {
      TablesStayBounded(p, events[..n]);
      OneSlotRoom(p, s.failed, e.now);
      hide After, WithRoom, InWindow;
      assert Drops(p, s.failed, e, ip);
    } else {
      AfterOneMore(p, events, n);
      assert e != Succeed(ip);
      hide After, NothingLost;
      OneSlotLoses(p, events, ip, start, n + 1, m, j);
    }
  }

  /** One failure fewer need not: for every policy there is a run with that many dense failures in which nothing is
      reached and the address is not blocked. */
  lemma FixedWindowsMissABurst(p: Policy, ip: string)
    requires p.Valid() && p.enabled
    ensures var events, i := Straddling(p, ip), StretchFrom(p);
      && i <= |events| && Run(p, events) && FailuresInClockOrder(events)
      && Dense(p, events, ip, i, |events|, StretchTime(p)) && FailuresIn(events, ip, i, |events|) == Enough(p) - 1
      && !SomeReaches(p, events, ip, 0, |events|) && ip !in After(p, events).blocked
  {
    var events := Straddling(p, ip);
    StraddlingIsDense(p, ip);
    hide Straddling, Dense, FailuresIn, FailuresInClockOrder, StretchFrom, StretchTime;
    forall k | 0 <= k < |events| ensures !Reaches(p, events, k) {
      StraddlingReachesNothing(p, ip, k);
    }
    hide Reaches;
    if ip in After(p, events).blocked {
      assert events[..|events|] == events;
      var k := BlockedHasReached(p, events, |events|, ip);
    }
  }

  lemma StraddlingIsDense(p: Policy, ip: string)
    requires p.Valid() && p.enabled
    ensures var events, i := Straddling(p, ip), StretchFrom(p);
      && i <= |events| && Run(p, events) && FailuresInClockOrder(events)
      && Dense(p, events, ip, i, |events|, StretchTime(p)) && FailuresIn(events, ip, i, |events|) == Enough(p) - 1
  {
    var events := Straddling(p, ip);
    if p.maxFailures == 1 || p.windowSecs == 1 {
      LonelyFailures(events, ip, 0, |events|);
    } else {
      StraddlingCounts(p, ip);
      hide Straddling;
    }
  }

  lemma StraddlingReachesNothing(p: Policy, ip: string, k: nat)
    requires p.Valid() && p.enabled && k < |Straddling(p, ip)|
    ensures !Reaches(p, Straddling(p, ip), k)
  {
    var events := Straddling(p, ip);
    if p.maxFailedIps == 1 {
      OneSlotReachesNothing(p, events, k);
    } else {
      StraddlingLosesNothing(p, ip);
      if p.windowSecs == 1 {
        StraddlingAtOnce(p, ip, k);
      } else {
        StraddlingInTwo(p, ip, k);
      }
    }
  }

  lemma StraddlingLosesNothing(p: Policy, ip: string)
    requires p.Valid() && p.enabled && p.maxFailedIps > 1
    ensures NothingLost(p, Straddling(p, ip), ip, |Straddling(p, ip)|)
  {
    var events := Straddling(p, ip);
    StraddlingIsDense(p, ip);
    assert Lonely(events, ip);
    hide Straddling;
    forall k | 0 <= k < |events| ensures |After(p, events[..k]).failed| <= 1 {
      LonelyTable(p, events, ip, k);
    }
    assert NeverCleared(p, events);
    InOrderNothingIsLost(p, events, ip, |events|);
  }

  lemma EmptyCounter(p: Policy, events: seq<Event>, ip: string)
    ensures Counter(p, events[..0], ip) == None
  {
  }

  lemma StraddlingAtOnce(p: Policy, ip: string, k: nat)
    requires p.Valid() && p.enabled && p.windowSecs == 1 && k < |Straddling(p, ip)|
    requires NothingLost(p, Straddling(p, ip), ip, |Straddling(p, ip)|)
    ensures !Reaches(p, Straddling(p, ip), k)
  {
    var events := Straddling(p, ip);
    EmptyCounter(p, events, ip);
    InsideAllOrNone(p, events, ip, None, 0, |events|, false);
    LonelyFailures(events, ip, 0, |events|);
    DenseReachesExactly(p, events, ip, 0, |events|, 0);
    hide Reaches, Counter;
  }

  lemma StraddlingInTwo(p: Policy, ip: string, k: nat)
    requires p.Valid() && p.enabled && p.windowSecs > 1 && k < |Straddling(p, ip)|
    requires NothingLost(p, Straddling(p, ip), ip, |Straddling(p, ip)|)
    ensures !Reaches(p, Straddling(p, ip), k)
  {
    var events, before := Straddling(p, ip), Some(Failures(1, 0));
    StraddlingCounts(p, ip);
    EmptyCounter(p, events, ip);
    CounterOneMore(p, events, 0, ip);
    assert Counter(p, events[..1], ip) == before;
    assert NothingLost(p, events, ip, 1) by { hide After, Counter, Drops, Straddling; }
    ReachesExactly(p, events, 0);
    hide Counter, Straddling, Dense, InsideIn, FailuresIn, FailuresInClockOrder;
    DenseReachesExactly(p, events, ip, 1, |events|, p.windowSecs - 1);
    hide Reaches;
  }

  lemma StraddlingCounts(p: Policy, ip: string)
    requires p.Valid() && p.enabled && p.windowSecs > 1 && p.maxFailures > 1
    ensures var events, before := Straddling(p, ip), Some(Failures(1, 0));
      && Lonely(events, ip) && |events| == 2 * p.maxFailures - 2 && events[0] == Fail(ip, 0)
      && InsideIn(p, events, ip, before, 1, |events|) == p.maxFailures - 2
      && FailuresIn(events, ip, 1, |events|) == 2 * p.maxFailures - 3
      && Dense(p, events, ip, 1, |events|, p.windowSecs - 1) && FailuresInClockOrder(events)
  {
    var events, before, middle := Straddling(p, ip), Some(Failures(1, 0)), p.maxFailures - 1;
    InsideAllOrNone(p, events, ip, before, 1, middle, true);
    InsideStops(p, events, ip, before, 1, middle, |events|);
    LonelyFailures(events, ip, 1, middle);
    LonelyFailures(events, ip, 1, |events|);
    hide InsideIn, FailuresIn;
  }

  lemma {:induction false} InsideStops(
    p: Policy, events: seq<Event>, ip: string, before: Option<Failures>, i: nat, m: nat, j: nat)
    requires i <= m <= j <= |events| && forall k :: m <= k < j ==> !Inside(p, before, events[k], ip)
    ensures InsideIn(p, events, ip, before, i, j) == InsideIn(p, events, ip, before, i, m)
    decreases j
  {
    if m < j {
      InsideStops(p, events, ip, before, i, m, j - 1);
    }
  }

  /** What a sliding window would promise: max_failures failures within one window length always reach the threshold,
      unless the table loses the address's window. */
  ghost predicate KeepsSlidingPromise(p: Policy) {
    forall events, ip, i: nat, j: nat, first: nat ::
      i <= j <= |events| && Run(p, events) && NothingLost(p, events, ip, j)
      && Dense(p, events, ip, i, j, first) && FailuresIn(events, ip, i, j) >= p.maxFailures
      ==> SomeReaches(p, events, ip, i, j)
  }

  /** Fixed windows keep that promise exactly for thresholds up to 2, for windows of one second, and for a table of a
      single slot, which loses the window between any two failures within it. */
  lemma SlidingPromiseExactly(p: Policy)
    requires p.Valid() && p.enabled
    ensures KeepsSlidingPromise(p) <==> p.maxFailures <= 2 || p.windowSecs == 1 || p.maxFailedIps == 1
  {
    if p.maxFailures <= 2 || p.windowSecs == 1 || p.maxFailedIps == 1 {
      forall events, ip, i: nat, j: nat, first: nat |
        i <= j <= |events| && Run(p, events) && NothingLost(p, events, ip, j)
        && Dense(p, events, ip, i, j, first) && FailuresIn(events, ip, i, j) >= p.maxFailures
        ensures SomeReaches(p, events, ip, i, j)
      {
        if p.maxFailures <= 2 || p.windowSecs == 1 {
          EnoughFailuresReach(p, events, ip, i, j, first);
        } else {
          OneSlotLosesADenseWindow(p, events, ip, i, j, first);
          assert false;
        }
      }
    } else {
      var events := Straddling(p, "");
      FixedWindowsMissABurst(p, "");
      StraddlingLosesNothing(p, "");
      assert FailuresIn(events, "", 1, |events|) >= p.maxFailures && !SomeReaches(p, events, "", 1, |events|);
    }
  }
}
