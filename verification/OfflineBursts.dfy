/** Runs that show that stores which pass the gate late have no bound, and why trimming the oldest asks for one
    delivery at a time. */
module OfflineBursts {
  import opened Seqs
  import opened OfflineMessages
  import opened OfflineRuns
  import opened OfflineOrder
  import opened OfflineRates

  // ----- building runs -----

  datatype Trace = Trace(states: seq<State>, events: seq<Event>)
  {
    ghost predicate IsRun() { Run(states, events) }

    ghost function Last(): State
      requires IsRun()
    {
      states[|events|]
    }

    ghost function Then(e: Event): (t: Trace)
      requires IsRun() && Enabled(Last(), e)
      ensures t.IsRun() && t.Last() == Step(Last(), e) && t.events == events + [e]
    {
      Trace(states + [Step(Last(), e)], events + [e])
    }
  }

  /** The times read by stores never go back, and none is later than this. */
  predicate ClockUpTo(events: seq<Event>, now: nat) {
    && (forall i :: 0 <= i < |events| && events[i].ReadClock? ==> events[i].now <= now)
    && forall i, j :: 0 <= i < j < |events| && events[i].ReadClock? && events[j].ReadClock? ==>
         events[i].now <= events[j].now
  }

  lemma ClockOneMore(events: seq<Event>, e: Event, now: nat)
    requires ClockUpTo(events, now) && (e.ReadClock? ==> e.now == now)
    ensures ClockUpTo(events + [e], now)
  {
  }

  // ----- stores to one callee alone -----

  /** No other queue exists. */
  predicate Alone(s: State, callee: string) { s.queues.Keys <= {callee} }

  lemma {:induction false} NothingExpires(queue: seq<Message>, now: nat)
    requires now < OFFLINE_MSG_TTL_SECS
    ensures KeepFresh(queue, now) == queue
    decreases |queue|
  {
    if queue != [] {
      NothingExpires(queue[1..], now);
    }
  }

  lemma TotalOfOne(queues: Queues, callee: string, size: seq<Message> -> nat)
    requires queues.Keys <= {callee} && size([]) == 0
    ensures Total(queues, size) == size(QueueOf(queues, callee))
  {
    if callee in queues {
      TotalWithout(queues, size, callee);
      assert queues - {callee} == map[];
    } else {
      assert queues == map[];
    }
  }

  /** With one callee alone nothing but the rate gate can refuse a store. */
  lemma QueueRegionAccepts(s: State, id: nat)
    requires id in s.stores && Alone(s, s.stores[id].callee)
    requires |QueueOf(s.queues, s.stores[id].callee)| <= MAX_OFFLINE_MESSAGES
    ensures var t, m := AfterQueue(s, id), NewMessage(s, s.stores[id]);
      && t.accepted == s.accepted + [m] && t.rates == s.rates && t.stores == s.stores - {id} && t.flights == s.flights
      && Alone(t, m.callee)
      && QueueOf(t.queues, m.callee) == Enqueue(KeepFresh(QueueOf(s.queues, m.callee), m.receivedAt), m)
  {
    var m := NewMessage(s, s.stores[id]);
    var pruned, queue := Prune(s.queues, m.receivedAt), QueueOf(s.queues, m.callee);
    QueueOfPruned(s.queues, m.receivedAt, m.callee);
    TotalOfOne(pruned, m.callee, CounterOf(m.from));
    TotalOfOne(pruned, m.callee, LengthOf);
    assert pruned.Keys <= s.queues.Keys;
    QueuesOfStored(WithoutStore(s, id), m);
    StoredKeepsFlights(WithoutStore(s, id), m);
    hide Prune, KeepFresh, Total, AfterStored;
  }

  lemma StoredKeepsFlights(s: State, m: Message)
    ensures AfterStored(s, m).flights == s.flights
  {
  }

  /** What this sender's window admits at this time. */
  predicate Admits(s: State, from: string, now: nat, n: nat) {
    CurrentWindow(s.rates, from, now).count + n <= SENDER_RATE_LIMIT
  }

  function Raised(w: Window, n: nat): Window { w.(count := w.count + n) }

  datatype Batch = Batch(from: string, callee: string, now: nat)

  /** The state after n stores of a batch, run one after the other. */
  ghost predicate Extended(b: Batch, s: State, t: State, n: nat) {
    && Alone(t, b.callee) && t.stores == s.stores && t.flights == s.flights
    && s.accepted <= t.accepted && |t.accepted| == |s.accepted| + n
    && (forall k :: |s.accepted| <= k < |t.accepted| ==> t.accepted[k] == Message(b.from, "", b.now, b.callee, k))
    && CurrentWindow(t.rates, b.from, b.now) == Raised(CurrentWindow(s.rates, b.from, b.now), n)
    && (n > 0 ==> b.from in t.rates && t.rates[b.from] == Raised(CurrentWindow(s.rates, b.from, b.now), n))
    && (|QueueOf(s.queues, b.callee)| + n <= MAX_OFFLINE_MESSAGES ==>
          QueueOf(t.queues, b.callee) == QueueOf(s.queues, b.callee) + t.accepted[|s.accepted|..])
  }

  /** A store passes the gate and is accepted. */
  lemma GateThenQueue(tr: Trace, id: nat) returns (next: Trace)
    requires tr.IsRun() && id in tr.Last().stores && !tr.Last().stores[id].passed && tr.Last().stores[id].text == ""
    requires var s := tr.Last(); var st := s.stores[id];
      Alone(s, st.callee) && st.now < OFFLINE_MSG_TTL_SECS && Admits(s, st.from, st.now, 1)
    ensures next.IsRun() && next.events == tr.events + [Gate(id), Queue(id)]
    ensures var s := tr.Last(); var st := s.stores[id];
      Extended(Batch(st.from, st.callee, st.now), s.(stores := s.stores - {id}), next.Last(), 1)
  {
    var s, st := tr.Last(), tr.Last().stores[id];
    RunConserves(tr.states, tr.events);
    assert QueuesBounded(s);
    hide Run, Conserved, QueuesBounded;
    GateThenQueueExtends(s, id);
    hide AfterQueue, AfterGate, Extended, Alone, Admits;
    next := tr.Then(Gate(id)).Then(Queue(id));
    assert next.events == tr.events + [Gate(id), Queue(id)];
  }

  lemma GateThenQueueExtends(s: State, id: nat)
    requires id in s.stores && s.stores[id].text == "" && QueuesBounded(s)
    requires Alone(s, s.stores[id].callee) && s.stores[id].now < OFFLINE_MSG_TTL_SECS
    requires Admits(s, s.stores[id].from, s.stores[id].now, 1)
    ensures var g, st := AfterGate(s, id), s.stores[id];
      && id in g.stores && g.stores[id].passed
      && Extended(Batch(st.from, st.callee, st.now), s.(stores := s.stores - {id}), AfterQueue(g, id), 1)
  {
    var g, st := AfterGate(s, id), s.stores[id];
    assert |QueueOf(s.queues, st.callee)| <= MAX_OFFLINE_MESSAGES;
    GateOpens(s, id);
    NothingExpires(QueueOf(s.queues, st.callee), st.now);
    hide AfterGate, CurrentWindow, QueuesBounded, KeepFresh;
    QueueRegionAccepts(g, id);
    hide AfterQueue, QueueOf, StoreIn;
  }

  lemma GateOpens(s: State, id: nat)
    requires id in s.stores && Admits(s, s.stores[id].from, s.stores[id].now, 1)
    ensures var g, st := AfterGate(s, id), s.stores[id]; var w := Raised(CurrentWindow(s.rates, st.from, st.now), 1);
      && g.stores == s.stores[id := st.(passed := true)] && g.stores - {id} == s.stores - {id}
      && g.queues == s.queues && g.accepted == s.accepted && g.flights == s.flights
      && st.from in g.rates && CurrentWindow(g.rates, st.from, st.now) == g.rates[st.from] == w
  {
  }

  lemma StoreOne(tr: Trace, id: nat, b: Batch) returns (next: Trace)
    requires tr.IsRun() && id !in tr.Last().stores && Alone(tr.Last(), b.callee)
    requires b.now < OFFLINE_MSG_TTL_SECS && Admits(tr.Last(), b.from, b.now, 1)
    ensures next.IsRun() && Extended(b, tr.Last(), next.Last(), 1)
    ensures ClockUpTo(tr.events, b.now) ==> ClockUpTo(next.events, b.now)
  {
    var s, e := tr.Last(), ReadClock(id, b.from, "", b.callee, b.now);
    var started := tr.Then(e);
    next := GateThenQueue(started, id);
    assert started.Last().stores - {id} == s.stores;
    assert started.Last().(stores := s.stores) == s;
    if ClockUpTo(tr.events, b.now) {
      ClockOneMore(tr.events, e, b.now);
      ClockOneMore(tr.events + [e], Gate(id), b.now);
      ClockOneMore(tr.events + [e] + [Gate(id)], Queue(id), b.now);
      assert next.events == tr.events + [e] + [Gate(id)] + [Queue(id)];
    }
  }

  lemma ExtendedChain(b: Batch, s: State, t: State, u: State, n: nat)
    requires Extended(b, s, t, n) && Extended(b, t, u, 1)
    ensures Extended(b, s, u, n + 1)
  {
    hide CurrentWindow, QueueOf;
    assert u.accepted[|s.accepted|..] == t.accepted[|s.accepted|..] + u.accepted[|t.accepted|..];
  }

  /** A batch of stores, as far as the window admits them. */
  lemma {:induction false} StoreMany(tr: Trace, id: nat, b: Batch, n: nat) returns (next: Trace)
    requires tr.IsRun() && id !in tr.Last().stores && Alone(tr.Last(), b.callee)
    requires b.now < OFFLINE_MSG_TTL_SECS && Admits(tr.Last(), b.from, b.now, n) && ClockUpTo(tr.events, b.now)
    ensures next.IsRun() && Extended(b, tr.Last(), next.Last(), n) && ClockUpTo(next.events, b.now)
    decreases n
  {
    if n == 0 {
      next := tr;
    } else {
      var most := StoreMany(tr, id, b, n - 1);
      next := StoreOne(most, id, b);
      ExtendedChain(b, tr.Last(), most.Last(), next.Last(), n - 1);
      hide Extended, ClockUpTo;
    }
  }

  // ----- no bound on late stores -----

  /** A store passes the gate and is accepted, at any time. */
  lemma PassAndStore(tr: Trace, id: nat, now: nat) returns (next: Trace)
    requires tr.IsRun() && id in tr.Last().stores && !tr.Last().stores[id].passed && ClockUpTo(tr.events, now)
    requires var s := tr.Last(); var st := s.stores[id]; Alone(s, st.callee) && Admits(s, st.from, st.now, 1)
    ensures next.IsRun() && ClockUpTo(next.events, now)
    ensures var s, t := tr.Last(), next.Last(); var st := s.stores[id];
      && t.stores == s.stores - {id} && t.accepted == s.accepted + [NewMessage(s, st)] && Alone(t, st.callee)
      && st.from in t.rates && t.rates[st.from] == Raised(CurrentWindow(s.rates, st.from, st.now), 1)
  {
    var s := tr.Last();
    RunConserves(tr.states, tr.events);
    assert |QueueOf(s.queues, s.stores[id].callee)| <= MAX_OFFLINE_MESSAGES;
    hide Run, Conserved, QueuesBounded, ClockUpTo;
    GateOpens(s, id);
    QueueRegionAccepts(AfterGate(s, id), id);
    hide AfterQueue, AfterGate, Alone, Admits;
    next := tr.Then(Gate(id)).Then(Queue(id));
    assert next.events == tr.events + [Gate(id)] + [Queue(id)];
    ClockOneMore(tr.events, Gate(id), now);
    ClockOneMore(tr.events + [Gate(id)], Queue(id), now);
  }

  /** So many stores of one sender have read time 0. */
  ghost predicate Waiting(s: State, from: string, callee: string, first: nat, last: nat) {
    && Alone(s, callee) && 0 !in s.stores
    && forall id: nat :: first < id <= last ==> id in s.stores && s.stores[id] == Storing(from, "", callee, 0, false)
  }

  lemma {:induction false} ReadMany(from: string, callee: string, n: nat) returns (tr: Trace)
    ensures tr.IsRun() && ClockUpTo(tr.events, 0) && Waiting(tr.Last(), from, callee, 0, n)
    ensures forall id :: id in tr.Last().stores ==> 1 <= id <= n
    ensures tr.Last().accepted == [] && tr.Last().rates == map[]
    decreases n
  {
    if n == 0 {
      tr := Trace([INITIAL], []);
    } else {
      var e := ReadClock(n, from, "", callee, 0);
      var fewer := ReadMany(from, callee, n - 1);
      tr := fewer.Then(e);
      ClockOneMore(fewer.events, e, 0);
    }
  }

  /** One round a minute: a store opens the minute's window, and one that read time 0 passes it. */
  lemma LateRound(tr: Trace, from: string, callee: string, k: nat, n: nat) returns (next: Trace)
    requires tr.IsRun() && k < n && Waiting(tr.Last(), from, callee, k, n)
    requires ClockUpTo(tr.events, k * SENDER_RATE_WINDOW_SECS)
    requires from in tr.Last().rates ==> tr.Last().rates[from].start == k * SENDER_RATE_WINDOW_SECS
    ensures next.IsRun() && Waiting(next.Last(), from, callee, k + 1, n)
    ensures ClockUpTo(next.events, (k + 1) * SENDER_RATE_WINDOW_SECS)
    ensures from in next.Last().rates && next.Last().rates[from].start == (k + 1) * SENDER_RATE_WINDOW_SECS
    ensures Accepted(next.Last().accepted, from, 0, SENDER_RATE_WINDOW_SECS)
         >= Accepted(tr.Last().accepted, from, 0, SENDER_RATE_WINDOW_SECS) + 1
  {
    var now, s := (k + 1) * SENDER_RATE_WINDOW_SECS, tr.Last();
    var e := ReadClock(0, from, "", callee, now);
    ClockOneMore(tr.events, e, now);
    var started := tr.Then(e);
    assert CurrentWindow(s.rates, from, now) == Window(now, 0);
    hide Run, ClockUpTo, Accepted;
    var held := PassAndStore(started, 0, now);
    next := PassAndStore(held, k + 1, now);
    var t, u := held.Last(), next.Last();
    AcceptedOneMore(s.accepted, NewMessage(started.Last(), started.Last().stores[0]), from, 0, SENDER_RATE_WINDOW_SECS);
    AcceptedOneMore(t.accepted, NewMessage(t, t.stores[k + 1]), from, 0, SENDER_RATE_WINDOW_SECS);
  }

  lemma {:induction false} LateRounds(from: string, callee: string, k: nat, n: nat) returns (tr: Trace)
    requires k <= n
    ensures tr.IsRun() && Waiting(tr.Last(), from, callee, k, n) && ClockUpTo(tr.events, k * SENDER_RATE_WINDOW_SECS)
    ensures from in tr.Last().rates ==> tr.Last().rates[from].start == k * SENDER_RATE_WINDOW_SECS
    ensures Accepted(tr.Last().accepted, from, 0, SENDER_RATE_WINDOW_SECS) >= k
    decreases k
  {
    hide ClockUpTo, Accepted, Waiting, Run;
    if k == 0 {
      tr := ReadMany(from, callee, n);
    } else {
      var fewer := LateRounds(from, callee, k - 1, n);
      tr := LateRound(fewer, from, callee, k - 1, n);
    }
  }

  /** No number of messages bounds what a sender can have accepted within 60 seconds, although all times are read in
      order: stores that have read time 0 and pass the gate late pass one window after another. */
  lemma LateStoresHaveNoBound(from: string, callee: string, n: nat) returns (states: seq<State>, events: seq<Event>)
    ensures Run(states, events) && ClockUpTo(events, n * 60)
    ensures Accepted(states[|events|].accepted, from, 0, 60) >= n
  {
    var tr := LateRounds(from, callee, n, n);
    states, events := tr.states, tr.events;
  }

  // ----- two deliveries at once -----

  /** Without one delivery at a time the newest message can be trimmed: of two deliveries to one extension the first
      has taken messages 0 to 99 and the second message 100; both put back, the first one first, and message 100 is
      cut off in front of all the older ones. */
  lemma TwoDeliveriesTrimTheNewest(from: string, ext: string) returns (states: seq<State>, events: seq<Event>)
    ensures Run(states, events) && events != []
    ensures var n := |events| - 1;
      && JustTrimmed(states[n], states[n + 1], 100) && states[n].accepted[100].callee == ext
      && forall k :: 0 <= k < 100 ==> states[n].accepted[k] in QueueOf(states[n + 1].queues, ext)
  {
    var tr := TwoTaken(from, ext);
    var returned := tr.Then(PutBackPending(1));
    FirstPutBack(tr.Last(), ext);
    var done := returned.Then(PutBackPending(2));
    RunConserves(returned.states, returned.events);
    SecondPutBack(returned.Last(), ext);
    states, events := done.states, done.events;
    assert states[|events| - 1] == returned.Last();
  }

  /** One delivery holds the first hundred messages, and another the next. */
  ghost predicate Taken(s: State, ext: string) {
    && |s.accepted| == 101 && s.flights == map[1 := Flight(ext, s.accepted[..100]), 2 := Flight(ext, s.accepted[100..])]
    && QueueOf(s.queues, ext) == []
    && forall k :: 0 <= k < 101 ==> s.accepted[k].number == k && s.accepted[k].callee == ext
  }

  /** One delivery holds the first hundred messages, and the sender may go on. */
  lemma HundredTaken(b: Batch) returns (tr: Trace)
    requires b.now == 0
    ensures tr.IsRun() && Alone(tr.Last(), b.callee) && tr.Last().stores == map[] && Admits(tr.Last(), b.from, 0, 1)
    ensures var s := tr.Last();
      && |s.accepted| == 100 && s.flights == map[1 := Flight(b.callee, s.accepted)] && QueueOf(s.queues, b.callee) == []
      && forall k :: 0 <= k < 100 ==> s.accepted[k] == Message(b.from, "", 0, b.callee, k)
  {
    var filled := StoreMany(Trace([INITIAL], []), 0, b, 100);
    var s := filled.Last();
    EmptyConcat(s.accepted);
    assert s.accepted[|INITIAL.accepted|..] == s.accepted;
    TakeAll(s, 1, b.callee);
    hide AfterTake;
    tr := filled.Then(Take(1, b.callee, 0));
  }

  lemma TwoTaken(from: string, ext: string) returns (tr: Trace)
    ensures tr.IsRun() && Taken(tr.Last(), ext)
  {
    hide Extended, Taken, Alone, Admits, AfterTake, Run, Step;
    var b := Batch(from, ext, 0);
    var first := HundredTaken(b);
    var more := StoreOne(first, 0, b);
    SecondTaken(b, first.Last(), more.Last());
    tr := TakeSecond(more, ext);
  }

  lemma TakeSecond(tr: Trace, ext: string) returns (next: Trace)
    requires tr.IsRun() && 2 !in tr.Last().flights
    ensures next.IsRun() && next.Last() == AfterTake(tr.Last(), 2, ext, 0)
  {
    hide AfterTake, Run;
    next := tr.Then(Take(2, ext, 0));
  }

  lemma SecondTaken(b: Batch, s: State, t: State)
    requires Extended(b, s, t, 1) && b.now == 0
    requires |s.accepted| == 100 && s.flights == map[1 := Flight(b.callee, s.accepted)]
        && QueueOf(s.queues, b.callee) == []
    requires forall k :: 0 <= k < 100 ==> s.accepted[k] == Message(b.from, "", 0, b.callee, k)
    ensures 2 !in t.flights && Taken(AfterTake(t, 2, b.callee, 0), b.callee)
  {
    hide CurrentWindow;
    EmptyConcat(t.accepted[100..]);
    TakeAll(t, 2, b.callee);
    hide AfterTake;
    assert t.accepted[..100] == s.accepted;
  }

  lemma TakeAll(s: State, d: nat, ext: string)
    ensures var t := AfterTake(s, d, ext, 0);
      && t.flights == s.flights[d := Flight(ext, QueueOf(s.queues, ext))] && t.stores == s.stores
      && t.rates == s.rates && t.accepted == s.accepted && QueueOf(t.queues, ext) == []
      && (Alone(s, ext) ==> Alone(t, ext))
  {
    NothingExpires(QueueOf(s.queues, ext), 0);
    hide KeepFresh, Moved, Numbers;
  }

  /** What putting back leaves of deliveries and acceptances. */
  lemma PutBackShape(s: State, d: nat)
    requires d in s.flights
    ensures AfterPutBack(s, d).flights == s.flights - {d} && AfterPutBack(s, d).accepted == s.accepted
  {
    hide Moved, Numbers, Excess;
  }

  lemma FirstPutBack(s: State, ext: string)
    requires Taken(s, ext)
    ensures var t := AfterPutBack(s, 1);
      && t.accepted == s.accepted && t.flights == map[2 := Flight(ext, s.accepted[100..])]
      && QueueOf(t.queues, ext) == s.accepted[..100]
  {
    hide AfterPutBack;
    QueuesOfPutBack(s, 1);
    PutBackShape(s, 1);
    EmptyConcat(s.accepted[..100]);
    assert s.flights - {1} == map[2 := Flight(ext, s.accepted[100..])];
  }

  lemma SecondPutBack(s: State, ext: string)
    requires Conserved(s) && |s.accepted| == 101 && s.flights == map[2 := Flight(ext, s.accepted[100..])]
    requires QueueOf(s.queues, ext) == s.accepted[..100]
    ensures var t := AfterPutBack(s, 2);
      && JustTrimmed(s, t, 100) && s.accepted[100].callee == ext && QueueOf(t.queues, ext) == s.accepted[..100]
  {
    assert s.accepted[100..] == [s.accepted[100]];
    PendingIsInFlight(s, 2);
    hide Conserved, AfterReturn, AfterTrim;
    PutBackShape(s, 2);
    ReturnedInFront(s, 2, s.accepted[100]);
    FirstIsTrimmed(AfterReturn(s, 2), ext, 100);
    hide QueueOf;
  }

  lemma ReturnedInFront(s: State, d: nat, m: Message)
    requires d in s.flights && s.flights[d].pending == [m]
    ensures var t, f := AfterReturn(s, d), s.flights[d];
      && |t.places| == |s.places| && QueueOf(t.queues, f.ext) == [m] + QueueOf(s.queues, f.ext)
      && QueueOf(t.queues, f.ext)[1..] == QueueOf(s.queues, f.ext)
  {
    hide Numbers;
  }

  lemma PendingIsInFlight(s: State, d: nat)
    requires Conserved(s) && d in s.flights && s.flights[d].pending != []
    ensures |s.places| == |s.accepted|
    ensures var f := s.flights[d];
      f.pending[0].number < |s.places| && s.places[f.pending[0].number] == InFlight(d) && f.pending[0].callee == f.ext
    ensures forall k :: 0 <= k < |s.accepted| ==> s.accepted[k].number == k
  {
    assert Box(s, s.flights[d].pending, InFlight(d), s.flights[d].ext);
  }

  lemma FirstIsTrimmed(s: State, ext: string, k: nat)
    requires QueueOf(s.queues, ext) != [] && QueueOf(s.queues, ext)[0].number == k < |s.places|
    ensures var t := AfterTrim(s, ext, 1);
      && |t.places| == |s.places| && t.places[k] == Trimmed && QueueOf(t.queues, ext) == QueueOf(s.queues, ext)[1..]
  {
    NumberIn(QueueOf(s.queues, ext)[..1], 0);
    hide Numbers;
  }
}
