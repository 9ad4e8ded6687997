/** Failure counting per address, and the blocking it leads to. */
module Blocking {
  import opened Seqs
  import opened Words
  import opened Wrappers

  datatype Failures = Failures(count: nat, start: nat)

  type Table = map<string, Failures>

  /** The configured policy; when blocking is enabled, the configuration check demands positive values. */
  datatype Policy = Policy(enabled: bool, maxFailures: nat, windowSecs: nat, maxFailedIps: nat, maxBlockedIps: nat) {
    predicate Valid() {
      enabled ==> maxFailures > 0 && windowSecs > 0 && maxFailedIps > 0 && maxBlockedIps > 0
    }
  }

  predicate InWindow(p: Policy, start: nat, now: nat) { SaturatingSub(now, start) < p.windowSecs }

  function KeepInWindow(p: Policy, failed: Table, now: nat): Table {
    map ip | ip in failed && InWindow(p, failed[ip].start, now) :: failed[ip]
  }

  predicate HasRoom(p: Policy, failed: Table, now: nat) {
    |failed| < p.maxFailedIps || |KeepInWindow(p, failed, now)| < p.maxFailedIps
  }

  /** The table before a failure is counted: when full, entries past their window leave, and all of them
      if that is not enough. */
  function WithRoom(p: Policy, failed: Table, now: nat): Table {
    if |failed| < p.maxFailedIps then failed
    else if HasRoom(p, failed, now) then KeepInWindow(p, failed, now)
    else map[]
  }

  /** One more failure: in the running window, or as the first of a new one. */
  function OneMore(p: Policy, before: Option<Failures>, now: nat): Failures {
    if before.Some? && InWindow(p, before.value.start, now) then before.value.(count := before.value.count + 1)
    else Failures(1, now)
  }

  function EntryOf(failed: Table, ip: string): Option<Failures> {
    if ip in failed then Some(failed[ip]) else None
  }

  /** The counting region of `record_failure`: whether the threshold is reached, and the table after it. */
  function Count(p: Policy, failed: Table, ip: string, now: nat): (bool, Table) {
    var room := WithRoom(p, failed, now);
    var entry := OneMore(p, EntryOf(room, ip), now);
    if entry.count < p.maxFailures then (false, room[ip := entry]) else (true, room - {ip})
  }

  /** The blocking region of `record_failure`. */
  function Block(p: Policy, blocked: set<string>, ip: string): (bool, set<string>) {
    if |blocked| >= p.maxBlockedIps then (false, blocked) else (true, blocked + {ip})
  }

  class FailureTables {
    const policy: Policy
    var failed: Table
    var blocked: set<string>

    constructor (policy: Policy)
      ensures this.policy == policy && failed == map[] && blocked == {}
    {
      this.policy, failed, blocked := policy, map[], {};
    }

    predicate IsBlocked(ip: string)
      reads this
    {
      policy.enabled && ip in blocked
    }

    /** The counting region of `record_failure`. */
    method CountFailure(ip: string, now: nat) returns (reached: bool)
      requires policy.enabled && policy.Valid()
      modifies `failed
      ensures (reached, failed) == Count(policy, old(failed), ip, now)
    {
      hide KeepInWindow;
      if |failed| >= policy.maxFailedIps {
        failed := KeepInWindow(policy, failed, now);
        if |failed| >= policy.maxFailedIps {
          failed := map[];
        }
      }
      ghost var room := failed;
      assert room == WithRoom(policy, old(failed), now);
      hide WithRoom;
      var entry := if ip in failed then failed[ip] else Failures(0, now);
      if SaturatingSub(now, entry.start) >= policy.windowSecs {
        entry := Failures(0, now);
      }
      entry := entry.(count := entry.count + 1);
      assert entry == OneMore(policy, EntryOf(room, ip), now);
      hide OneMore, EntryOf;
      failed := failed[ip := entry];
      if entry.count < policy.maxFailures {
        return false;
      }
      failed := failed - {ip};
      assert failed == room - {ip};
      return true;
    }

    /** The blocking region of `record_failure`. */
    method InsertBlocked(ip: string) returns (isBlocked: bool)
      modifies `blocked
      ensures (isBlocked, blocked) == Block(policy, old(blocked), ip)
    {
      if |blocked| >= policy.maxBlockedIps {
        return false;
      }
      blocked := blocked + {ip};
      return true;
    }

    /** `record_failure`, its two regions run one after the other. */
    method RecordFailure(ip: string, now: nat) returns (isBlocked: bool)
      requires policy.Valid()
      modifies this
      ensures !policy.enabled ==> !isBlocked && failed == old(failed) && blocked == old(blocked)
      ensures policy.enabled ==>
                var (reached, failed') := Count(policy, old(failed), ip, now);
                && failed == failed'
                && (isBlocked, blocked) == if reached then Block(policy, old(blocked), ip) else (false, old(blocked))
    {
      hide Count, Block;
      if !policy.enabled {
        return false;
      }
      var reached := CountFailure(ip, now);
      if !reached {
        return false;
      }
      isBlocked := InsertBlocked(ip);
    }

    /** `clear_failures`. */
    method ClearFailures(ip: string)
      modifies `failed
      ensures failed == old(failed) - {ip}
    {
      failed := failed - {ip};
    }
  }

  // ----- runs -----

  /** Both tables, and the addresses between the two regions of `record_failure`. */
  datatype State = State(failed: Table, blocked: set<string>, reached: multiset<string>)

  /** The regions: counting a failure, inserting into the blocked table, clearing after a success, and only looking. */
  datatype Event = Fail(ip: string, now: nat) | Insert(ip: string) | Succeed(ip: string) | Look(ip: string)

  predicate Enabled(s: State, e: Event) { e.Insert? ==> e.ip in s.reached }

  function Step(p: Policy, s: State, e: Event): State {
    match e
    case Fail(ip, now) =>
      var (reached, failed') := Count(p, s.failed, ip, now);
      s.(failed := failed', reached := if reached then s.reached + multiset{ip} else s.reached)
    case Insert(ip) => s.(blocked := Block(p, s.blocked, ip).1, reached := s.reached - multiset{ip})
    case Succeed(ip) => s.(failed := s.failed - {ip})
    case Look(_) => s
  }

  function After(p: Policy, events: seq<Event>): State
    decreases |events|
  {
    if events == [] then State(map[], {}, multiset{})
        else Step(p, After(p, events[..|events| - 1]), events[|events| - 1])
  }

  ghost predicate Run(p: Policy, events: seq<Event>) {
    && p.enabled && p.Valid()
    && forall j :: 0 <= j < |events| ==> Enabled(After(p, events[..j]), events[j])
  }

  lemma AfterOneMore(p: Policy, events: seq<Event>, n: nat)
    requires n < |events|
    ensures After(p, events[..n + 1]) == Step(p, After(p, events[..n]), events[n])
  {
    assert events[..n + 1][..n] == events[..n];
  }

  /** The j-th event is the failure with which an address reaches the threshold. */
  predicate Reaches(p: Policy, events: seq<Event>, j: nat) {
    && j < |events| && events[j].Fail?
    && Count(p, After(p, events[..j]).failed, events[j].ip, events[j].now).0
  }

  // ----- soundness -----

  /** The failures of one address between two positions. */
  function FailuresIn(events: seq<Event>, ip: string, start: nat, end: nat): nat
    requires start <= end <= |events|
    decreases end
  {
    if start == end then 0
    else FailuresIn(events, ip, start, end - 1) + if events[end - 1].Fail? && events[end - 1].ip == ip then 1 else 0
  }

  /** Since position a, where a failure opened a window, the address has failed only inside
      that window and not succeeded. */
  ghost predicate Streak(p: Policy, events: seq<Event>, ip: string, a: nat, end: nat)
    requires end <= |events|
  {
    && a < end && events[a].Fail? && events[a].ip == ip
    && forall k :: a <= k < end && events[k].ip == ip ==>
         !events[k].Succeed? && (events[k].Fail? ==> InWindow(p, events[a].now, events[k].now))
  }

  /** The failure at j is the threshold-th since a, all in the window that a opened, with no success in between. */
  ghost predicate Burst(p: Policy, events: seq<Event>, ip: string, a: nat, j: nat) {
    && j < |events| && events[j].Fail? && events[j].ip == ip
    && Streak(p, events, ip, a, j + 1) && FailuresIn(events, ip, a, j + 1) == p.maxFailures
  }

  /** An entry after a step is untouched, or is the one more failure of this address. */
  lemma EntryAfterStep(p: Policy, s: State, e: Event, ip: string)
    requires ip in Step(p, s, e).failed
    ensures if e.Fail? && e.ip == ip then
              && Step(p, s, e).failed[ip] == OneMore(p, EntryOf(WithRoom(p, s.failed, e.now), ip), e.now)
              && Step(p, s, e).failed[ip].count < p.maxFailures
            else !(e.Succeed? && e.ip == ip) && ip in s.failed && Step(p, s, e).failed[ip] == s.failed[ip]
  {
    hide OneMore;
  }

  /** A streak that goes on. */
  lemma StreakGoesOn(p: Policy, events: seq<Event>, ip: string, a: nat, end: nat)
    requires end < |events| && Streak(p, events, ip, a, end)
    requires var e := events[end]; e.ip == ip ==> !e.Succeed? && (e.Fail? ==> InWindow(p, events[a].now, e.now))
    ensures Streak(p, events, ip, a, end + 1)
    ensures FailuresIn(events, ip, a, end + 1)
         == FailuresIn(events, ip, a, end) + if events[end].Fail? && events[end].ip == ip then 1 else 0
  {
  }

  lemma StreakBegins(p: Policy, events: seq<Event>, ip: string, a: nat)
    requires p.windowSecs > 0 && a < |events| && events[a].Fail? && events[a].ip == ip
    ensures Streak(p, events, ip, a, a + 1) && FailuresIn(events, ip, a, a + 1) == 1
  {
    assert FailuresIn(events, ip, a, a + 1) == FailuresIn(events, ip, a, a) + 1;
  }

  /** A resting entry counts the failures of a streak that is still below the threshold. */
  lemma {:induction false} EntryIsStreak(p: Policy, events: seq<Event>, n: nat, ip: string) returns (a: nat)
    requires p.Valid() && p.enabled && n <= |events| && ip in After(p, events[..n]).failed
    ensures var entry := After(p, events[..n]).failed[ip];
      && Streak(p, events, ip, a, n) && entry.start == events[a].now
      && entry.count == FailuresIn(events, ip, a, n) && 1 <= entry.count < p.maxFailures
    decreases n
  {
    var k := n - 1;
    var s, e := After(p, events[..k]), events[k];
    AfterOneMore(p, events, k);
    EntryAfterStep(p, s, e, ip);
    hide After, Step, FailuresIn, Streak;
    if e.Fail? && e.ip == ip && EntryOf(WithRoom(p, s.failed, e.now), ip).None? {
      StreakBegins(p, events, ip, k);
      a := k;
    } else if e.Fail? && e.ip == ip && !InWindow(p, s.failed[ip].start, e.now) {
      StreakBegins(p, events, ip, k);
      a := k;
    } else {
      a := EntryIsStreak(p, events, k, ip);
      StreakGoesOn(p, events, ip, a, k);
    }
  }

  /** Reaching the threshold takes max_failures failures in one fixed window with no success in between. */
  lemma ReachingTakesABurst(p: Policy, events: seq<Event>, j: nat) returns (a: nat)
    requires p.Valid() && p.enabled && Reaches(p, events, j)
    ensures Burst(p, events, events[j].ip, a, j)
  {
    var s, e := After(p, events[..j]), events[j];
    var room := WithRoom(p, s.failed, e.now);
    hide After, FailuresIn, Streak;
    if e.ip in room && InWindow(p, room[e.ip].start, e.now) {
      a := EntryIsStreak(p, events, j, e.ip);
      StreakGoesOn(p, events, e.ip, a, j);
    } else {
      a := j;
      StreakBegins(p, events, e.ip, j);
    }
  }

  /** The addresses blocked, or about to be, are those that reached the threshold. */
  lemma {:induction false} BlockedHasReached(p: Policy, events: seq<Event>, n: nat, ip: string) returns (j: nat)
    requires n <= |events| && Run(p, events)
    requires ip in After(p, events[..n]).blocked || ip in After(p, events[..n]).reached
    ensures j < n && Reaches(p, events, j) && events[j].ip == ip
    decreases n
  {
    var k := n - 1;
    var s, e := After(p, events[..k]), events[k];
    AfterOneMore(p, events, k);
    assert Enabled(s, e);
    hide After, Count;
    if e.Fail? && e.ip == ip && Reaches(p, events, k) {
      j := k;
    } else {
      j := BlockedHasReached(p, events, k, ip);
    }
  }

  /** An address is only ever blocked after max_failures failures in one fixed window with no success in between. */
  lemma BlockedSoundly(p: Policy, events: seq<Event>, ip: string) returns (a: nat, j: nat)
    requires Run(p, events) && ip in After(p, events).blocked
    ensures Burst(p, events, ip, a, j)
  {
    assert events[..|events|] == events;
    j := BlockedHasReached(p, events, |events|, ip);
    a := ReachingTakesABurst(p, events, j);
  }

  /** Blocking is permanent. */
  lemma {:induction false} BlockedForGood(p: Policy, events: seq<Event>, i: nat, j: nat)
    requires i <= j <= |events|
    ensures After(p, events[..i]).blocked <= After(p, events[..j]).blocked
    decreases j
  {
    hide After, Step;
    if i < j {
      var k := j - 1;
      BlockedForGood(p, events, i, k);
      AfterOneMore(p, events, k);
      StepKeepsBlocked(p, After(p, events[..k]), events[k]);
    }
  }

  lemma StepKeepsBlocked(p: Policy, s: State, e: Event)
    ensures s.blocked <= Step(p, s, e).blocked
  {
    hide Count;
  }

  // ----- bounds -----

  lemma {:induction false} TablesStayBounded(p: Policy, events: seq<Event>)
    requires p.Valid() && p.enabled
    ensures |After(p, events).failed| <= p.maxFailedIps && |After(p, events).blocked| <= p.maxBlockedIps
    decreases |events|
  {
    if events != [] {
      var s, e := After(p, events[..|events| - 1]), events[|events| - 1];
      TablesStayBounded(p, events[..|events| - 1]);
      hide After;
      match e
      case Fail(ip, now) =>
        CountStaysBounded(p, s.failed, ip, now);
      case Insert(ip) =>
      case Succeed(ip) =>
        SubsetFits((s.failed - {ip}).Keys, s.failed.Keys);
      case Look(_) =>
    }
  }

  lemma CountStaysBounded(p: Policy, failed: Table, ip: string, now: nat)
    requires p.maxFailedIps > 0
    ensures |Count(p, failed, ip, now).1| <= p.maxFailedIps
  {
    var room := WithRoom(p, failed, now);
    assert |room| < p.maxFailedIps;
    var entry := OneMore(p, EntryOf(room, ip), now);
    assert room[ip := entry].Keys == room.Keys + {ip};
    assert |room.Keys + {ip}| <= |room.Keys| + 1;
    SubsetFits((room - {ip}).Keys, room.Keys);
  }

  // ----- exactness -----

  /** A counter for one address alone, with unlimited room: its entry, if a window has failures that count. */
  function Counter(p: Policy, events: seq<Event>, ip: string): Option<Failures>
    decreases |events|
  {
    if events == [] then None
    else CounterStep(p, Counter(p, events[..|events| - 1], ip), events[|events| - 1], ip)
  }

  predicate CounterReaches(p: Policy, events: seq<Event>, j: nat) {
    && j < |events| && events[j].Fail?
    && OneMore(p, Counter(p, events[..j], events[j].ip), events[j].now).count >= p.maxFailures
  }

  /** No failure so far had to clear the whole table. */
  predicate NeverCleared(p: Policy, events: seq<Event>) {
    forall k :: 0 <= k < |events| && events[k].Fail? ==> HasRoom(p, After(p, events[..k]).failed, events[k].now)
  }

  /** The counting regions run in the order of the times they go by. Each time is read before the lock is taken, so a
      clock that does not go back is not enough for this. */
  predicate FailuresInClockOrder(events: seq<Event>) {
    forall i, j :: 0 <= i < j < |events| && events[i].Fail? && events[j].Fail? ==> events[i].now <= events[j].now
  }

  /** A counting region that drops this address's entry in making room. */
  predicate Drops(p: Policy, failed: Table, e: Event, ip: string) {
    e.Fail? && ip in failed && ip !in WithRoom(p, failed, e.now)
  }

  /** No window dropped before position n would still have counted the address's next failure, if that is before n and
      no success comes first. */
  ghost predicate NothingLost(p: Policy, events: seq<Event>, ip: string, n: nat) {
    forall k, m :: 0 <= k <= m < n && m < |events| && Drops(p, After(p, events[..k]).failed, events[k], ip)
                   && events[m].Fail? && events[m].ip == ip && Quiet(events, ip, k, m)
                   ==> !InWindow(p, After(p, events[..k]).failed[ip].start, events[m].now)
  }

  /** The address neither fails nor succeeds between two positions. */
  predicate Quiet(events: seq<Event>, ip: string, k: nat, m: nat) {
    forall i :: k <= i < m && i < |events| && events[i].ip == ip ==> events[i].Insert? || events[i].Look?
  }

  /** A counter after one more event. */
  function CounterStep(p: Policy, before: Option<Failures>, e: Event, ip: string): Option<Failures> {
    if e.ip != ip || e.Insert? || e.Look? then before
    else if e.Succeed? then None
    else if OneMore(p, before, e.now).count < p.maxFailures then Some(OneMore(p, before, e.now))
    else None
  }

  lemma {:induction false} CounterBelowThreshold(p: Policy, events: seq<Event>, ip: string)
    ensures var c := Counter(p, events, ip); c.Some? ==> 1 <= c.value.count < p.maxFailures
    decreases |events|
  {
    if events != [] {
      CounterBelowThreshold(p, events[..|events| - 1], ip);
    }
  }

  /** The table has dropped the entry that the counter still holds, and the address has been quiet since. */
  ghost predicate DroppedAt(p: Policy, events: seq<Event>, n: nat, ip: string, k: nat)
    requires n <= |events|
  {
    && k < n && Drops(p, After(p, events[..k]).failed, events[k], ip) && Quiet(events, ip, k, n)
    && Counter(p, events[..n], ip) == Some(After(p, events[..k]).failed[ip])
  }

  /** The table agrees with the counter, or has dropped what the counter holds. */
  ghost predicate Follows(p: Policy, events: seq<Event>, n: nat, ip: string)
    requires n <= |events|
  {
    var entry := EntryOf(After(p, events[..n]).failed, ip);
    entry == Counter(p, events[..n], ip) || (entry.None? && exists k :: DroppedAt(p, events, n, ip, k))
  }

  lemma CounterOneMore(p: Policy, events: seq<Event>, n: nat, ip: string)
    requires n < |events|
    ensures Counter(p, events[..n + 1], ip) == CounterStep(p, Counter(p, events[..n], ip), events[n], ip)
  {
    assert events[..n + 1][..n] == events[..n];
  }

  lemma DroppedGoesOn(p: Policy, events: seq<Event>, n: nat, ip: string, k: nat)
    requires n < |events| && DroppedAt(p, events, n, ip, k)
    requires events[n].ip == ip ==> events[n].Insert? || events[n].Look?
    ensures DroppedAt(p, events, n + 1, ip, k)
  {
    hide Counter, After, Drops, OneMore;
    CounterOneMore(p, events, n, ip);
    assert Quiet(events, ip, k, n + 1);
  }

  lemma DropBegins(p: Policy, events: seq<Event>, n: nat, ip: string)
    requires n < |events| && events[n].ip != ip && Drops(p, After(p, events[..n]).failed, events[n], ip)
    requires EntryOf(After(p, events[..n]).failed, ip) == Counter(p, events[..n], ip)
    ensures DroppedAt(p, events, n + 1, ip, n)
  {
    hide Counter, After, OneMore;
    CounterOneMore(p, events, n, ip);
  }

  /** Room is made by dropping entries; what stays is as it was. */
  lemma RoomKeeps(p: Policy, failed: Table, e: Event, ip: string)
    requires e.Fail?
    ensures EntryOf(WithRoom(p, failed, e.now), ip) == if Drops(p, failed, e, ip) then None else EntryOf(failed, ip)
  {
  }

  /** While nothing is lost, a failure counts in the table as it does in the counter. */
  lemma FailureCountsTheSame(p: Policy, events: seq<Event>, n: nat, ip: string)
    requires n < |events| && events[n].Fail? && events[n].ip == ip
    requires Follows(p, events, n, ip) && NothingLost(p, events, ip, n + 1)
    ensures var failed, now := After(p, events[..n]).failed, events[n].now;
      OneMore(p, EntryOf(WithRoom(p, failed, now), ip), now) == OneMore(p, Counter(p, events[..n], ip), now)
  {
    RoomKeeps(p, After(p, events[..n]).failed, events[n], ip);
    hide After, Counter, WithRoom, InWindow;
    assert Quiet(events, ip, n, n);
  }

  lemma EntryAfterCount(p: Policy, failed: Table, e: Event, ip: string)
    requires e.Fail?
    ensures var entry := EntryOf(WithRoom(p, failed, e.now), ip);
      EntryOf(Count(p, failed, e.ip, e.now).1, ip)
      == if e.ip != ip then entry
         else if OneMore(p, entry, e.now).count < p.maxFailures then Some(OneMore(p, entry, e.now))
         else None
  {
    hide WithRoom, OneMore;
  }

  lemma StepKeepsFollowing(p: Policy, events: seq<Event>, n: nat, ip: string)
    requires n < |events| && Follows(p, events, n, ip) && NothingLost(p, events, ip, n + 1)
    ensures Follows(p, events, n + 1, ip)
  {
    var s, e := After(p, events[..n]), events[n];
    AfterOneMore(p, events, n);
    CounterOneMore(p, events, n, ip);
    if e.Fail? {
      EntryAfterCount(p, s.failed, e, ip);
      RoomKeeps(p, s.failed, e, ip);
    }
    if e.Fail? && e.ip == ip {
      FailureCountsTheSame(p, events, n, ip);
    } else if e.Fail? && Drops(p, s.failed, e, ip) {
      DropBegins(p, events, n, ip);
    } else if !(e.Succeed? && e.ip == ip) && EntryOf(s.failed, ip) != Counter(p, events[..n], ip) {
      var k :| DroppedAt(p, events, n, ip, k);
      DroppedGoesOn(p, events, n, ip, k);
    }
    hide After, Counter, Count, WithRoom, OneMore, DroppedAt, NothingLost, Drops;
  }

  lemma {:induction false} TableFollowsCounter(p: Policy, events: seq<Event>, n: nat, ip: string)
    requires n <= |events| && NothingLost(p, events, ip, n)
    ensures Follows(p, events, n, ip)
    decreases n
  {
    if n > 0 {
      assert NothingLost(p, events, ip, n - 1) by { hide After, Drops; }
      hide NothingLost, Follows;
      TableFollowsCounter(p, events, n - 1, ip);
      StepKeepsFollowing(p, events, n - 1, ip);
    }
  }

  /** The failure at m counts in the table, once it has made room, as it does in the address's own counter. */
  predicate CountsTheSame(p: Policy, events: seq<Event>, m: nat)
    requires m < |events| && events[m].Fail?
  {
    var failed, ip, now := After(p, events[..m]).failed, events[m].ip, events[m].now;
    OneMore(p, EntryOf(WithRoom(p, failed, now), ip), now) == OneMore(p, Counter(p, events[..m], ip), now)
  }

  /** An address's failures count as they do in its own counter exactly as long as no window of its own is dropped that
      would still have counted one of them: other addresses, pruning, clearing, the limits and the order of times make
      no other difference. */
  lemma CountsTheSameExactly(p: Policy, events: seq<Event>, ip: string, n: nat)
    requires n <= |events|
    ensures NothingLost(p, events, ip, n)
       <==> forall m :: 0 <= m < n && events[m].Fail? && events[m].ip == ip ==> CountsTheSame(p, events, m)
  {
    if NothingLost(p, events, ip, n) {
      forall m | 0 <= m < n && events[m].Fail? && events[m].ip == ip ensures CountsTheSame(p, events, m) {
        assert NothingLost(p, events, ip, m) && NothingLost(p, events, ip, m + 1) by { hide After, Drops, InWindow; }
        hide After, Counter, WithRoom, OneMore, NothingLost, Follows;
        TableFollowsCounter(p, events, m, ip);
        FailureCountsTheSame(p, events, m, ip);
      }
    } else {
      var m := LossShows(p, events, ip, n);
    }
    hide *;
  }

  lemma LastLoss(p: Policy, events: seq<Event>, ip: string, m: nat) returns (k: nat)
    requires m < |events| && NothingLost(p, events, ip, m) && !NothingLost(p, events, ip, m + 1)
    ensures k <= m && NothingLost(p, events, ip, k) && Quiet(events, ip, k, m)
    ensures events[m].Fail? && events[m].ip == ip && Drops(p, After(p, events[..k]).failed, events[k], ip)
    ensures InWindow(p, After(p, events[..k]).failed[ip].start, events[m].now)
  {
    hide After, WithRoom, InWindow, Quiet;
    k :| 0 <= k <= m && Drops(p, After(p, events[..k]).failed, events[k], ip) && events[m].Fail? && events[m].ip == ip
         && Quiet(events, ip, k, m) && InWindow(p, After(p, events[..k]).failed[ip].start, events[m].now);
  }

  lemma LossCounts(p: Policy, events: seq<Event>, ip: string, k: nat, m: nat)
    requires k <= m < |events| && Follows(p, events, k, ip) && Quiet(events, ip, k, m)
    requires events[m].Fail? && events[m].ip == ip && Drops(p, After(p, events[..k]).failed, events[k], ip)
    requires InWindow(p, After(p, events[..k]).failed[ip].start, events[m].now)
    ensures !CountsTheSame(p, events, m)
  {
    var entry := After(p, events[..k]).failed[ip];
    CounterBelowThreshold(p, events[..k], ip);
    RoomKeeps(p, After(p, events[..m]).failed, events[m], ip);
    hide After, Counter, WithRoom, InWindow;
    if k < m {
      GoneUntil(p, events, ip, k, m);
    }
  }

  /** Nothing but a failure brings a dropped entry back, and the counter keeps it. */
  lemma {:induction false} GoneUntil(p: Policy, events: seq<Event>, ip: string, k: nat, m: nat)
    requires k < m <= |events| && Quiet(events, ip, k, m)
    requires Drops(p, After(p, events[..k]).failed, events[k], ip)
    ensures ip !in After(p, events[..m]).failed && Counter(p, events[..m], ip) == Counter(p, events[..k], ip)
    decreases m
  {
    hide After, Counter, WithRoom, Step, CounterStep;
    var s, e := After(p, events[..m - 1]), events[m - 1];
    AfterOneMore(p, events, m - 1);
    CounterOneMore(p, events, m - 1, ip);
    if k < m - 1 {
      GoneUntil(p, events, ip, k, m - 1);
    }
    StepWithoutAddress(p, s, e, ip, Counter(p, events[..m - 1], ip));
  }

  lemma StepWithoutAddress(p: Policy, s: State, e: Event, ip: string, counter: Option<Failures>)
    requires e.ip == ip ==> e.Insert? || e.Look?
    requires ip !in s.failed || Drops(p, s.failed, e, ip)
    ensures ip !in Step(p, s, e).failed && CounterStep(p, counter, e, ip) == counter
  {
    if e.Fail? {
      EntryAfterCount(p, s.failed, e, ip);
      RoomKeeps(p, s.failed, e, ip);
    }
    hide Count, WithRoom, OneMore;
  }

  /** The first loss shows at the failure that is no longer counted. */
  lemma {:induction false} LossShows(p: Policy, events: seq<Event>, ip: string, n: nat) returns (m: nat)
    requires n <= |events| && !NothingLost(p, events, ip, n)
    ensures m < n && events[m].Fail? && events[m].ip == ip && !CountsTheSame(p, events, m)
    decreases n
  {
    if !NothingLost(p, events, ip, n - 1) {
      hide *;
      m := LossShows(p, events, ip, n - 1);
    } else {
      m := n - 1;
      var k := LastLoss(p, events, ip, m);
      TableFollowsCounter(p, events, k, ip);
      LossCounts(p, events, ip, k, m);
    }
  }

  /** An address reaches the threshold exactly when its own counter does, as long as nothing is lost. */
  lemma ReachesExactly(p: Policy, events: seq<Event>, j: nat)
    requires j < |events| && NothingLost(p, events, events[j].ip, j + 1)
    ensures Reaches(p, events, j) <==> CounterReaches(p, events, j)
  {
    hide After, Counter, WithRoom, OneMore, NothingLost;
    CountsTheSameExactly(p, events, events[j].ip, j + 1);
  }

  /** A run that goes on with failures of one address at one time. */
  function Onwards(events: seq<Event>, ip: string, t: nat, n: nat): (r: seq<Event>)
    ensures |r| == |events| + n
    decreases n
  {
    if n == 0 then events else Onwards(events, ip, t, n - 1) + [Fail(ip, t)]
  }

  lemma OnwardsOneMore(p: Policy, events: seq<Event>, ip: string, t: nat, n: nat)
    ensures var before, more := Onwards(events, ip, t, n), Onwards(events, ip, t, n + 1);
      && more[..|more| - 1] == before && more[|more| - 1] == Fail(ip, t)
      && After(p, more) == Step(p, After(p, before), Fail(ip, t))
      && Counter(p, more, ip) == CounterStep(p, Counter(p, before, ip), Fail(ip, t), ip)
  {
    var before, more := Onwards(events, ip, t, n), Onwards(events, ip, t, n + 1);
    assert more == before + [Fail(ip, t)];
    hide Onwards, Step, CounterStep;
    assert more[..|more| - 1] == before;
  }

  /** What a failure of this address at this time would count as in the table. */
  function CountAt(p: Policy, s: State, ip: string, t: nat): nat {
    OneMore(p, EntryOf(WithRoom(p, s.failed, t), ip), t).count
  }

  lemma CountGrowsByOne(p: Policy, s: State, ip: string, t: nat)
    ensures CountAt(p, Step(p, s, Fail(ip, t)), ip, t) <= CountAt(p, s, ip, t) + 1
  {
    var failed' := Count(p, s.failed, ip, t).1;
    EntryAfterCount(p, s.failed, Fail(ip, t), ip);
    RoomKeeps(p, failed', Fail(ip, t), ip);
    hide Count, WithRoom, InWindow;
  }

  /** From a table without the address, n failures count as n at most. */
  lemma {:induction false} FreshCount(p: Policy, events: seq<Event>, ip: string, t: nat, n: nat)
    requires EntryOf(WithRoom(p, After(p, events).failed, t), ip).None?
    ensures CountAt(p, After(p, Onwards(events, ip, t, n)), ip, t) <= n + 1
  {
    hide After, Onwards, WithRoom, CountAt, Step;
    OnwardsNone(events, ip, t);
    if n == 0 {
      NoneCountsOne(p, After(p, events), ip, t);
    } else {
      FreshCount(p, events, ip, t, n - 1);
      OnwardsOneMore(p, events, ip, t, n - 1);
      CountGrowsByOne(p, After(p, Onwards(events, ip, t, n - 1)), ip, t);
    }
  }

  lemma OnwardsNone(events: seq<Event>, ip: string, t: nat)
    ensures Onwards(events, ip, t, 0) == events
  {
  }

  lemma NoneCountsOne(p: Policy, s: State, ip: string, t: nat)
    requires EntryOf(WithRoom(p, s.failed, t), ip).None?
    ensures CountAt(p, s, ip, t) == 1
  {
  }

  lemma {:induction false} CounterGoesOn(p: Policy, events: seq<Event>, ip: string, t: nat, n: nat)
    requires Counter(p, events, ip).Some? && InWindow(p, Counter(p, events, ip).value.start, t)
    requires Counter(p, events, ip).value.count + n < p.maxFailures
    ensures var c := Counter(p, events, ip).value;
      Counter(p, Onwards(events, ip, t, n), ip) == Some(c.(count := c.count + n))
  {
    hide Counter, After, Step, InWindow, Onwards;
    OnwardsNone(events, ip, t);
    if n > 0 {
      CounterGoesOn(p, events, ip, t, n - 1);
      OnwardsOneMore(p, events, ip, t, n - 1);
    }
  }

  lemma VerdictsAtEnd(p: Policy, before: seq<Event>, more: seq<Event>, ip: string, t: nat)
    requires more != [] && more[..|more| - 1] == before && more[|more| - 1] == Fail(ip, t)
    ensures CounterReaches(p, more, |more| - 1) <==> OneMore(p, Counter(p, before, ip), t).count >= p.maxFailures
    ensures Reaches(p, more, |more| - 1) <==> CountAt(p, After(p, before), ip, t) >= p.maxFailures
  {
    hide After, Counter, WithRoom, OneMore;
  }

  /** And every loss can be told: where the counter holds a window that still counts and the table, once it has made
      room, does not, the failures missing to the threshold reach it in the counter and not in the table. */
  lemma LostWindowTells(p: Policy, events: seq<Event>, ip: string, t: nat)
    requires p.Valid() && p.enabled && Counter(p, events, ip).Some?
    requires InWindow(p, Counter(p, events, ip).value.start, t)
    requires EntryOf(WithRoom(p, After(p, events).failed, t), ip).None?
    ensures var missing := p.maxFailures - Counter(p, events, ip).value.count;
      && missing > 0
      && var more := Onwards(events, ip, t, missing);
      CounterReaches(p, more, |more| - 1) && !Reaches(p, more, |more| - 1)
  {
    hide Onwards, CounterStep, Step, CountAt, Reaches, CounterReaches, After, WithRoom;
    CounterBelowThreshold(p, events, ip);
    hide Counter;
    var c := Counter(p, events, ip).value;
    var missing := p.maxFailures - c.count;
    var before, more := Onwards(events, ip, t, missing - 1), Onwards(events, ip, t, missing);
    CounterGoesOn(p, events, ip, t, missing - 1);
    FreshCount(p, events, ip, t, missing - 1);
    OnwardsOneMore(p, events, ip, t, missing - 1);
    VerdictsAtEnd(p, before, more, ip, t);
    assert OneMore(p, Counter(p, before, ip), t).count == p.maxFailures;
    assert CountAt(p, After(p, before), ip, t) <= missing;
  }

  /** With failures in clock order and no whole-table clear nothing is ever lost. */
  lemma InOrderNothingIsLost(p: Policy, events: seq<Event>, ip: string, n: nat)
    requires FailuresInClockOrder(events) && NeverCleared(p, events)
    ensures NothingLost(p, events, ip, n)
  {
    hide After;
  }

  /** The threshold and what follows: an insertion belongs to a failure that reached the threshold before, and from
      then on the address is blocked for good exactly when there was room for it, or it was blocked already. */
  lemma InsertedUnlessFull(p: Policy, events: seq<Event>, j: nat, k: nat) returns (i: nat)
    requires Run(p, events) && j < k <= |events| && events[j].Insert?
    ensures i < j && events[i].ip == events[j].ip && Reaches(p, events, i)
    ensures var ip, before := events[j].ip, After(p, events[..j]).blocked;
      && (ip in After(p, events[..j + 1]).blocked <==> |before| < p.maxBlockedIps || ip in before)
      && (ip in After(p, events[..j + 1]).blocked ==> ip in After(p, events[..k]).blocked)
  {
    assert Enabled(After(p, events[..j]), events[j]);
    AfterOneMore(p, events, j);
    i := BlockedHasReached(p, events, j, events[j].ip);
    BlockedForGood(p, events, j + 1, k);
    hide After, Run, Count;
  }

  /** Without failures in clock order the table can differ from the counter: a failure reads 599, another address's
      failure then reads 600 and gets the lock first, and in making room drops the first address's window. */
  lemma LateRegionForgetsAFailure(a: string, b: string, c: string)
    requires a != b && b != c && a != c
    ensures var p, events := TWO_SLOTS, [Fail(a, 0), Fail(c, 0), Fail(b, 600), Fail(a, 599)];
      NeverCleared(p, events) && CounterReaches(p, events, 3) && !Reaches(p, events, 3)
  {
    hide Count, HasRoom, Step, CounterStep, After, Counter, OneMore;
    var p, events := TWO_SLOTS, [Fail(a, 0), Fail(c, 0), Fail(b, 600), Fail(a, 599)];
    assert events[..0] == [];
    Beginning(p, a);
    AfterOneMore(p, events, 0);
    AfterOneMore(p, events, 1);
    AfterOneMore(p, events, 2);
    CounterOneMore(p, events, 0, a);
    CounterOneMore(p, events, 1, a);
    CounterOneMore(p, events, 2, a);
    SlotsAreTaken(a, b, c);
    CounterKeepsCounting(a, b, c);
    forall k | 0 <= k < |events| ensures HasRoom(p, After(p, events[..k]).failed, events[k].now) {
      assert k in {0, 1, 2, 3};
    }
  }

  const TWO_SLOTS := Policy(true, 2, 600, 2, 1)

  lemma Beginning(p: Policy, ip: string)
    ensures After(p, []) == State(map[], {}, multiset{}) && Counter(p, [], ip) == None
  {
  }

  lemma SlotsAreTaken(a: string, b: string, c: string)
    requires a != b && b != c && a != c
    ensures var p, s0 := TWO_SLOTS, State(map[], {}, multiset{});
      var s1 := Step(p, s0, Fail(a, 0)); var s2 := Step(p, s1, Fail(c, 0)); var s3 := Step(p, s2, Fail(b, 600));
      && HasRoom(p, s0.failed, 0) && HasRoom(p, s1.failed, 0) && HasRoom(p, s2.failed, 600)
           && HasRoom(p, s3.failed, 599)
      && !Count(p, s3.failed, a, 599).0
  {
    var p, s0 := TWO_SLOTS, State(map[], {}, multiset{});
    var s1 := Step(p, s0, Fail(a, 0));
    assert s1.failed == map[a := Failures(1, 0)];
    var s2 := Step(p, s1, Fail(c, 0));
    assert s2.failed == map[a := Failures(1, 0), c := Failures(1, 0)] && |s2.failed| == 2;
    assert KeepInWindow(p, s2.failed, 600) == map[];
    assert Step(p, s2, Fail(b, 600)).failed == map[b := Failures(1, 600)];
  }

  lemma CounterKeepsCounting(a: string, b: string, c: string)
    requires a != b && b != c && a != c
    ensures var p := TWO_SLOTS;
      var before := CounterStep(p, CounterStep(p, None, Fail(a, 0), a), Fail(c, 0), a);
      var counter := CounterStep(p, before, Fail(b, 600), a);
      OneMore(p, counter, 599).count >= p.maxFailures
  {
  }
}
