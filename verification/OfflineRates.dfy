/** How fast one sender can fill the offline store, over every interleaving. */
module OfflineRates {
  import opened OfflineMessages
  import opened OfflineRuns

  /** A pass is late when it carries a time below an earlier pass of its sender. */
  predicate IsLate(before: seq<Pass>, p: Pass) {
    exists i :: 0 <= i < |before| && before[i].from == p.from && p.at < before[i].at
  }

  /** How many passes of a sender through the rate gate carry a time between two, both included: all of them, the late
      ones, and the others. */
  function Passed(ps: seq<Pass>, from: string, first: int, last: int): nat {
    OnTime(ps, from, first, last) + Late(ps, from, first, last)
  }

  function Late(ps: seq<Pass>, from: string, first: int, last: int): nat {
    if ps == [] then 0
    else
      var before, p := ps[..|ps| - 1], ps[|ps| - 1];
      Late(before, from, first, last) + if p.from == from && first <= p.at <= last && IsLate(before, p) then 1 else 0
  }

  function OnTime(ps: seq<Pass>, from: string, first: int, last: int): nat {
    if ps == [] then 0
    else
      var before, p := ps[..|ps| - 1], ps[|ps| - 1];
      OnTime(before, from, first, last) + if p.from == from && first <= p.at <= last && !IsLate(before, p) then 1 else 0
  }

  /** The passes on time within 60 seconds from a time, both ends included. */
  function Minute(ps: seq<Pass>, from: string, t: int): nat {
    OnTime(ps, from, t, t + SENDER_RATE_WINDOW_SECS)
  }

  lemma {:induction false} OnTimeSplits(ps: seq<Pass>, from: string, first: int, middle: int, last: int)
    requires first <= middle + 1 && middle <= last
    ensures OnTime(ps, from, first, last) == OnTime(ps, from, first, middle) + OnTime(ps, from, middle + 1, last)
  {
    if ps != [] {
      OnTimeSplits(ps[..|ps| - 1], from, first, middle, last);
    }
  }

  lemma {:induction false} OnTimeWider(ps: seq<Pass>, from: string, first: int, last: int, first': int, last': int)
    requires first' <= first && last <= last'
    ensures OnTime(ps, from, first, last) <= OnTime(ps, from, first', last')
  {
    if ps != [] {
      OnTimeWider(ps[..|ps| - 1], from, first, last, first', last');
    }
  }

  lemma {:induction false} NoneOnTime(ps: seq<Pass>, from: string, first: int, last: int)
    requires forall i :: 0 <= i < |ps| && ps[i].from == from ==> ps[i].at < first
    ensures OnTime(ps, from, first, last) == 0
  {
    if ps != [] {
      NoneOnTime(ps[..|ps| - 1], from, first, last);
    }
  }

  lemma PassedOneMore(ps: seq<Pass>, p: Pass, from: string, first: int, last: int)
    ensures OnTime(ps + [p], from, first, last)
         == OnTime(ps, from, first, last) + if p.from == from && first <= p.at <= last && !IsLate(ps, p) then 1 else 0
    ensures Passed(ps + [p], from, first, last)
         == Passed(ps, from, first, last) + if p.from == from && first <= p.at <= last then 1 else 0
  {
    assert (ps + [p])[..|ps|] == ps;
    hide IsLate;
  }

  // ----- the sender's window -----

  /** A sender's passes against its current window: all lie before the window's end, and one of them opened it; of
      those on time no more than the count lie in it, at most one limit's worth lies in the minute before it, and no
      minute holds more than two limits' worth. */
  ghost predicate RateOk(ps: seq<Pass>, from: string, w: Window) {
    && w.count <= SENDER_RATE_LIMIT
    && (forall i :: 0 <= i < |ps| && ps[i].from == from ==> ps[i].at < w.start + SENDER_RATE_WINDOW_SECS)
    && OnTime(ps, from, w.start, w.start + SENDER_RATE_WINDOW_SECS - 1) <= w.count
    && OnTime(ps, from, w.start - SENDER_RATE_WINDOW_SECS, w.start - 1) <= SENDER_RATE_LIMIT
    && forall t: int :: Minute(ps, from, t) <= 2 * SENDER_RATE_LIMIT
  }

  /** Opening a new window at a time after the old one. */
  lemma NewWindowIsOk(ps: seq<Pass>, from: string, w: Window, now: nat)
    requires RateOk(ps, from, w) && now >= w.start + SENDER_RATE_WINDOW_SECS
    ensures RateOk(ps, from, Window(now, 0))
  {
    hide Minute;
    NoneOnTime(ps, from, now, now + SENDER_RATE_WINDOW_SECS - 1);
    var first, middle := now - SENDER_RATE_WINDOW_SECS, w.start + SENDER_RATE_WINDOW_SECS - 1;
    if first <= middle {
      OnTimeSplits(ps, from, first, middle, now - 1);
      OnTimeWider(ps, from, first, middle, w.start, middle);
      NoneOnTime(ps, from, middle + 1, now - 1);
    } else {
      NoneOnTime(ps, from, first, now - 1);
    }
  }

  lemma FirstWindowIsOk(ps: seq<Pass>, from: string, now: nat)
    requires forall i :: 0 <= i < |ps| ==> ps[i].from != from
    ensures RateOk(ps, from, Window(now, 0))
  {
    forall t: int, last: int ensures OnTime(ps, from, t, last) == 0 {
      NoneOnTime(ps, from, t, last);
    }
  }

  /** A pass within the window's limit: late, or at a time inside the window. */
  lemma PassIsOk(ps: seq<Pass>, from: string, now: nat, w: Window)
    requires RateOk(ps, from, w) && w.count < SENDER_RATE_LIMIT && now < w.start + SENDER_RATE_WINDOW_SECS
    requires w.start <= now || IsLate(ps, Pass(from, now))
    ensures RateOk(ps + [Pass(from, now)], from, w.(count := w.count + 1))
  {
    hide Passed, OnTime, IsLate;
    var p, end := Pass(from, now), w.start + SENDER_RATE_WINDOW_SECS - 1;
    PassedOneMore(ps, p, from, w.start, end);
    PassedOneMore(ps, p, from, w.start - SENDER_RATE_WINDOW_SECS, w.start - 1);
    forall t: int ensures Minute(ps + [p], from, t) <= 2 * SENDER_RATE_LIMIT {
      var last := t + SENDER_RATE_WINDOW_SECS;
      PassedOneMore(ps, p, from, t, last);
      assert Minute(ps, from, t) <= 2 * SENDER_RATE_LIMIT;
      if t <= now <= last && w.start <= now {
        MinuteAroundWindow(ps, from, w, t);
      }
    }
  }

  /** Before a pass, a minute that reaches into the window holds less than two limits' worth. */
  lemma MinuteAroundWindow(ps: seq<Pass>, from: string, w: Window, t: int)
    requires RateOk(ps, from, w) && w.count < SENDER_RATE_LIMIT
    requires w.start - SENDER_RATE_WINDOW_SECS <= t < w.start + SENDER_RATE_WINDOW_SECS
    ensures Minute(ps, from, t) < 2 * SENDER_RATE_LIMIT
  {
    var last, end := t + SENDER_RATE_WINDOW_SECS, w.start + SENDER_RATE_WINDOW_SECS - 1;
    if t < w.start {
      OnTimeSplits(ps, from, t, w.start - 1, last);
      OnTimeWider(ps, from, t, w.start - 1, w.start - SENDER_RATE_WINDOW_SECS, w.start - 1);
      OnTimeWider(ps, from, w.start, last, w.start, end);
    } else {
      OnTimeSplits(ps, from, t, end, last);
      OnTimeWider(ps, from, t, end, w.start, end);
      NoneOnTime(ps, from, end + 1, last);
    }
  }

  lemma OtherSenderIsOk(ps: seq<Pass>, p: Pass, from: string, w: Window)
    requires RateOk(ps, from, w) && p.from != from
    ensures RateOk(ps + [p], from, w)
  {
    forall first: int, last: int ensures OnTime(ps + [p], from, first, last) == OnTime(ps, from, first, last) {
      PassedOneMore(ps, p, from, first, last);
    }
    forall t: int ensures Minute(ps + [p], from, t) == Minute(ps, from, t) {}
  }

  /** The window was opened by a pass of this sender. */
  predicate Opened(ps: seq<Pass>, from: string, w: Window) { Pass(from, w.start) in ps }

  /** The sender's window is right. */
  ghost predicate SenderOk(s: State, from: string) {
    if from in s.rates then Opened(s.passes, from, s.rates[from]) && RateOk(s.passes, from, s.rates[from])
    else forall i :: 0 <= i < |s.passes| ==> s.passes[i].from != from
  }

  /** Whatever time a store carries to the gate: it opens a window, or comes inside one, or is late. */
  lemma GateKeepsSender(s: State, id: nat)
    requires id in s.stores && SenderOk(s, s.stores[id].from)
    ensures SenderOk(AfterGate(s, id), s.stores[id].from)
  {
    var st := s.stores[id];
    var from, now, w, p := st.from, st.now, CurrentWindow(s.rates, st.from, st.now), Pass(st.from, st.now);
    if from !in s.rates {
      FirstWindowIsOk(s.passes, from, now);
    } else if now >= s.rates[from].start + SENDER_RATE_WINDOW_SECS {
      NewWindowIsOk(s.passes, from, s.rates[from], now);
    }
    if w.count < SENDER_RATE_LIMIT {
      assert w.start <= now || IsLate(s.passes, p);
      PassIsOk(s.passes, from, now, w);
      assert p in s.passes + [p];
    }
    hide RateOk;
  }

  lemma StepKeepsSender(s: State, e: Event, from: string)
    requires Enabled(s, e) && SenderOk(s, from)
    ensures SenderOk(Step(s, e), from)
  {
    if e.Gate? && s.stores[e.store].from == from {
      GateKeepsSender(s, e.store);
    } else if e.Gate? {
      if from in s.rates {
        OtherSenderIsOk(s.passes, Pass(s.stores[e.store].from, s.stores[e.store].now), from, s.rates[from]);
      }
      hide RateOk, CurrentWindow;
    } else {
      OnlyGatesPass(s, e);
      hide RateOk, Step;
    }
  }

  lemma OnlyGatesPass(s: State, e: Event)
    requires Enabled(s, e) && !e.Gate?
    ensures Step(s, e).rates == s.rates && Step(s, e).passes == s.passes
  {
    hide StoreIn, AfterPutBack;
    if e.PutBackPending? {
      QueuesOfPutBack(s, e.delivery);
      PutBackKeepsPasses(s, e.delivery);
    }
  }

  lemma PutBackKeepsPasses(s: State, d: nat)
    requires d in s.flights
    ensures AfterPutBack(s, d).passes == s.passes && AfterPutBack(s, d).accepted == s.accepted
    ensures AfterPutBack(s, d).stores == s.stores
  {
  }

  // ----- accepted messages have passed -----

  /** How many messages of a sender were accepted with a time between two, both included. */
  function Accepted(ms: seq<Message>, from: string, first: int, last: int): nat {
    if ms == [] then 0
    else
      var m := ms[|ms| - 1];
      Accepted(ms[..|ms| - 1], from, first, last) + if m.from == from && first <= m.receivedAt <= last then 1 else 0
  }

  lemma AcceptedOneMore(ms: seq<Message>, m: Message, from: string, first: int, last: int)
    ensures Accepted(ms + [m], from, first, last)
         == Accepted(ms, from, first, last) + if m.from == from && first <= m.receivedAt <= last then 1 else 0
  {
    assert (ms + [m])[..|ms|] == ms;
  }

  predicate Counts(st: Storing, from: string, first: int, last: int) {
    st.passed && st.from == from && first <= st.now <= last
  }

  /** The stores that have passed the gate and not yet reached their queue region. */
  function Between(stores: map<nat, Storing>, from: string, first: int, last: int): set<nat> {
    set id | id in stores && Counts(stores[id], from, first, last)
  }

  /** Every accepted message, and every store between its regions, has a pass of its own. */
  ghost predicate AcceptedHavePassed(s: State, from: string, first: int, last: int) {
    Accepted(s.accepted, from, first, last)
        + |Between(s.stores, from, first, last)| <= Passed(s.passes, from, first, last)
  }

  lemma StepKeepsAcceptedPassed(s: State, e: Event, from: string, first: int, last: int)
    requires Enabled(s, e) && AcceptedHavePassed(s, from, first, last)
    ensures AcceptedHavePassed(Step(s, e), from, first, last)
  {
    match e
    case ReadClock(id, sender, text, callee, now) =>
      var stores' := s.stores[id := Storing(sender, text, callee, now, false)];
      assert Between(stores', from, first, last) == Between(s.stores, from, first, last);
    case Gate(id) => GateKeepsAcceptedPassed(s, id, from, first, last);
    case Queue(id) => QueueKeepsAcceptedPassed(s, id, from, first, last);
    case PutBackPending(d) =>
      PutBackKeepsPasses(s, d);
      hide AfterPutBack;
    case _ =>
  }

  lemma GateKeepsAcceptedPassed(s: State, id: nat, from: string, first: int, last: int)
    requires id in s.stores && !s.stores[id].passed && AcceptedHavePassed(s, from, first, last)
    ensures AcceptedHavePassed(AfterGate(s, id), from, first, last)
  {
    var st := s.stores[id];
    PassedOneMore(s.passes, Pass(st.from, st.now), from, first, last);
    BetweenAfterGate(s.stores, id, from, first, last);
    hide CurrentWindow, Accepted, Passed, Between;
  }

  lemma BetweenAfterGate(stores: map<nat, Storing>, id: nat, from: string, first: int, last: int)
    requires id in stores && !stores[id].passed
    ensures Between(stores - {id}, from, first, last) == Between(stores, from, first, last)
    ensures var st := stores[id].(passed := true);
      |Between(stores[id := st], from, first, last)|
      == |Between(stores, from, first, last)| + if st.from == from && first <= st.now <= last then 1 else 0
  {
    var st, between := stores[id].(passed := true), Between(stores, from, first, last);
    assert Between(stores - {id}, from, first, last) == between;
    assert Between(stores[id := st], from, first, last)
        == if Counts(st, from, first, last) then between + {id} else between;
  }

  lemma QueueKeepsAcceptedPassed(s: State, id: nat, from: string, first: int, last: int)
    requires id in s.stores && s.stores[id].passed && AcceptedHavePassed(s, from, first, last)
    ensures AcceptedHavePassed(AfterQueue(s, id), from, first, last)
  {
    hide StoreIn, Accepted, Passed, AfterStored, Prune;
    var st, between := s.stores[id], Between(s.stores, from, first, last);
    var m := NewMessage(s, st);
    QueuesOfStored(WithoutStore(s, id), m);
    AcceptedOneMore(s.accepted, m, from, first, last);
    assert Between(s.stores - {id}, from, first, last) == between - {id};
    assert Counts(st, from, first, last) <==> id in between;
  }

  // ----- the bound -----

  lemma {:induction false} RunKeepsSender(states: seq<State>, events: seq<Event>, from: string)
    requires Run(states, events)
    ensures SenderOk(states[|events|], from)
    decreases |events|
  {
    hide Step, Enabled;
    if events == [] {
      assert states[0] == INITIAL;
    } else {
      hide SenderOk;
      var n := |events| - 1;
      RunKeepsSender(states[..n + 1], events[..n], from);
      StepKeepsSender(states[n], events[n], from);
    }
  }

  lemma {:induction false} RunKeepsAcceptedPassed(states: seq<State>, events: seq<Event>, from: string, first: int,
      last: int)
    requires Run(states, events)
    ensures AcceptedHavePassed(states[|events|], from, first, last)
    decreases |events|
  {
    hide Step, Enabled;
    if events == [] {
      assert Between(map[], from, first, last) == {};
    } else {
      hide AcceptedHavePassed;
      var n := |events| - 1;
      RunKeepsAcceptedPassed(states[..n + 1], events[..n], from, first, last);
      StepKeepsAcceptedPassed(states[n], events[n], from, first, last);
    }
  }

  /** The rate bound, in every interleaving: within 60 seconds of any time a sender has at most 240 messages accepted,
      and as many more as its stores pass the gate late, after one that carries a later time. */
  lemma SenderRateBound(states: seq<State>, events: seq<Event>, from: string, t: int)
    requires Run(states, events)
    ensures var s := states[|events|];
      Accepted(s.accepted, from, t, t + 60) <= 240 + Late(s.passes, from, t, t + 60)
  {
    RunKeepsSender(states, events, from);
    RunKeepsAcceptedPassed(states, events, from, t, t + SENDER_RATE_WINDOW_SECS);
    var s := states[|events|];
    if from in s.rates {
      assert Minute(s.passes, from, t) <= 2 * SENDER_RATE_LIMIT;
    } else {
      NoneOnTime(s.passes, from, t, t + SENDER_RATE_WINDOW_SECS);
    }
  }

  /** In particular at most 240 when none is late. */
  lemma {:induction false} NoneLate(ps: seq<Pass>, from: string, first: int, last: int)
    requires forall i, j :: 0 <= i < j < |ps| && ps[i].from == ps[j].from == from ==> ps[i].at <= ps[j].at
    ensures Late(ps, from, first, last) == 0
  {
    if ps != [] {
      NoneLate(ps[..|ps| - 1], from, first, last);
    }
  }

  lemma OnTimeSenderBound(states: seq<State>, events: seq<Event>, from: string, t: int)
    requires Run(states, events)
    requires var ps := states[|events|].passes;
      forall i, j :: 0 <= i < j < |ps| && ps[i].from == ps[j].from == from ==> ps[i].at <= ps[j].at
    ensures Accepted(states[|events|].accepted, from, t, t + 60) <= 240
  {
    SenderRateBound(states, events, from, t);
    NoneLate(states[|events|].passes, from, t, t + SENDER_RATE_WINDOW_SECS);
  }
}
