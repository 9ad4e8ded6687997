/** Delivery order with at most one delivery per extension, and which messages are trimmed or expire. */
module OfflineOrder {
  import opened Seqs
  import opened OfflineMessages
  import opened OfflineRuns

  // ----- order -----

  ghost predicate Increasing(ms: seq<Message>) {
    forall i, j :: 0 <= i < j < |ms| ==> ms[i].number < ms[j].number
  }

  /** Everything in a was accepted before everything in b. */
  ghost predicate Before(a: seq<Message>, b: seq<Message>) {
    forall x, y :: x in a && y in b ==> x.number < y.number
  }

  /** What one extension received comes before what is queued for it, both in order. */
  ghost predicate QueueInOrder(s: State, ext: string) {
    && Increasing(QueueOf(s.queues, ext)) && Increasing(ReceivedBy(s, ext))
    && Before(ReceivedBy(s, ext), QueueOf(s.queues, ext))
  }

  /** What is in flight to an extension comes after what it received and before what is queued for it. */
  ghost predicate FlightInOrder(s: State, f: Flight) {
    && Increasing(f.pending) && Before(f.pending, QueueOf(s.queues, f.ext)) && Before(ReceivedBy(s, f.ext), f.pending)
  }

  ghost predicate Ordered(s: State) {
    && (forall ext :: QueueInOrder(s, ext))
    && (forall d :: d in s.flights ==> FlightInOrder(s, s.flights[d]))
    && (forall d, f :: d in s.flights && f in s.flights && s.flights[d].ext == s.flights[f].ext ==> d == f)
  }

  /** All numbers in use belong to accepted messages. */
  ghost predicate Numbered(s: State) {
    && (forall ext, m :: m in QueueOf(s.queues, ext) ==> m.number < |s.accepted|)
    && (forall ext, m :: m in ReceivedBy(s, ext) ==> m.number < |s.accepted|)
    && (forall d, m :: d in s.flights && m in s.flights[d].pending ==> m.number < |s.accepted|)
  }

  lemma ConservedIsNumbered(s: State)
    requires Conserved(s)
    ensures Numbered(s)
  {
    forall ext, m | m in QueueOf(s.queues, ext) ensures m.number < |s.accepted| {
      assert Box(s, QueueOf(s.queues, ext), Queued(ext), ext);
    }
    forall ext, m | m in ReceivedBy(s, ext) ensures m.number < |s.accepted| {
      assert Box(s, ReceivedBy(s, ext), Delivered(ext), ext);
    }
  }

  lemma {:induction false} KeepFreshIncreasing(ms: seq<Message>, now: nat)
    requires Increasing(ms)
    ensures Increasing(KeepFresh(ms, now))
  {
    if ms != [] {
      var kept := KeepFresh(ms[1..], now);
      KeepFreshIncreasing(ms[1..], now);
      forall i | 0 <= i < |kept| ensures ms[0].number < kept[i].number {
        assert kept[i] in ms[1..];
      }
      if IsFresh(ms[0], now) {
        assert KeepFresh(ms, now) == [ms[0]] + kept;
      } else {
        EmptyConcat(kept);
      }
    }
  }

  lemma PruneKeepsOrder(s: State, now: nat)
    requires Ordered(s)
    ensures Ordered(AfterPrune(s, now))
  {
    hide Prune, KeepFresh;
    var t := AfterPrune(s, now);
    forall ext ensures QueueInOrder(t, ext) {
      assert QueueInOrder(s, ext);
      PruneKeepsQueueInOrder(s, now, ext);
    }
    forall d | d in t.flights ensures FlightInOrder(t, t.flights[d]) {
      PruneKeepsFlightInOrder(s, now, s.flights[d]);
    }
    hide QueueInOrder, FlightInOrder, AfterPrune;
  }

  lemma PruneKeepsQueueInOrder(s: State, now: nat, ext: string)
    requires QueueInOrder(s, ext)
    ensures QueueInOrder(AfterPrune(s, now), ext)
  {
    hide Prune, KeepFresh;
    QueueOfPruned(s.queues, now, ext);
    KeepFreshIncreasing(QueueOf(s.queues, ext), now);
  }

  lemma PruneKeepsFlightInOrder(s: State, now: nat, f: Flight)
    requires FlightInOrder(s, f)
    ensures FlightInOrder(AfterPrune(s, now), f)
  {
    hide Prune, KeepFresh, Increasing;
    QueueOfPruned(s.queues, now, f.ext);
  }

  /** Nothing has changed for one extension. */
  ghost predicate SameAt(s: State, t: State, ext: string) {
    QueueOf(t.queues, ext) == QueueOf(s.queues, ext) && ReceivedBy(t, ext) == ReceivedBy(s, ext)
  }

  /** A step that changes one extension's queue, receipts and flights keeps the order if it does so there. */
  lemma OneExtensionChanges(s: State, t: State, ext: string)
    requires Ordered(s) && QueueInOrder(t, ext)
    requires forall e :: e != ext ==> SameAt(s, t, e)
    requires forall d :: d in t.flights && t.flights[d].ext != ext ==> d in s.flights && s.flights[d] == t.flights[d]
    requires forall d :: d in t.flights && t.flights[d].ext == ext ==> FlightInOrder(t, t.flights[d])
    requires forall d, f :: d in t.flights && f in t.flights && t.flights[d].ext == ext == t.flights[f].ext ==> d == f
    ensures Ordered(t)
  {
    hide Increasing, Before, QueueOf, ReceivedBy;
    forall e ensures QueueInOrder(t, e) {
      if e != ext { assert QueueInOrder(s, e) && SameAt(s, t, e); }
    }
    forall d | d in t.flights ensures FlightInOrder(t, t.flights[d]) {
      var e := t.flights[d].ext;
      if e != ext { assert FlightInOrder(s, s.flights[d]) && SameAt(s, t, e); }
    }
    hide QueueInOrder, FlightInOrder, SameAt;
  }

  lemma TrimKeepsOrder(s: State, ext: string, n: nat)
    requires Ordered(s) && n <= |QueueOf(s.queues, ext)|
    ensures Ordered(AfterTrim(s, ext, n))
  {
    var t, queue := AfterTrim(s, ext, n), QueueOf(s.queues, ext);
    assert QueueInOrder(s, ext) && QueueOf(t.queues, ext) == queue[n..];
    assert forall e :: ReceivedBy(t, e) == ReceivedBy(s, e);
    assert forall e :: e != ext ==> SameAt(s, t, e);
    hide Moved, SameAt, QueueOf, ReceivedBy;
    OneExtensionChanges(s, t, ext);
  }

  lemma AcceptKeepsOrder(s: State, m: Message)
    requires Ordered(s) && Numbered(s) && m.number == |s.accepted|
    ensures Ordered(AfterAccept(s, m))
  {
    var t, ext, queue := AfterAccept(s, m), m.callee, QueueOf(s.queues, m.callee);
    assert QueueInOrder(s, ext) && QueueOf(t.queues, ext) == queue + [m];
    assert forall e :: ReceivedBy(t, e) == ReceivedBy(s, e);
    assert forall e :: e != ext ==> SameAt(s, t, e);
    assert Before(queue, [m]) && Before(ReceivedBy(s, ext), [m]);
    hide Moved, SameAt, QueueOf, ReceivedBy, Numbered;
    JoinInOrder(queue, [m]);
    BeforeJoin(ReceivedBy(s, ext), queue, [m]);
    hide Increasing, Before;
    forall d | d in t.flights && t.flights[d].ext == ext ensures FlightInOrder(t, t.flights[d]) {
      assert FlightInOrder(s, t.flights[d]);
      PendingBefore(s, m, d);
      BeforeJoin(t.flights[d].pending, queue, [m]);
    }
    OneExtensionChanges(s, t, ext);
  }

  lemma PendingBefore(s: State, m: Message, d: nat)
    requires Numbered(s) && m.number == |s.accepted| && d in s.flights
    ensures Before(s.flights[d].pending, [m])
  {
  }

  /** What a take changes. */
  lemma TakeShape(s: State, d: nat, ext: string, now: nat)
    ensures var t := AfterTake(s, d, ext, now);
      && t.flights == s.flights[d := Flight(ext, KeepFresh(QueueOf(s.queues, ext), now))]
      && QueueOf(t.queues, ext) == [] && ReceivedBy(t, ext) == ReceivedBy(s, ext)
      && forall e :: e != ext ==> SameAt(s, t, e)
  {
    hide KeepFresh, Moved;
  }

  lemma FreshInOrder(received: seq<Message>, queue: seq<Message>, now: nat)
    requires Before(received, queue)
    ensures Before(received, KeepFresh(queue, now)) && Before(received, []) && Before(KeepFresh(queue, now), [])
    ensures Increasing([])
  {
  }

  lemma TakeKeepsOrder(s: State, d: nat, ext: string, now: nat)
    requires Ordered(s) && d !in s.flights && forall f :: f in s.flights ==> s.flights[f].ext != ext
    ensures Ordered(AfterTake(s, d, ext, now))
  {
    TakeShape(s, d, ext, now);
    assert QueueInOrder(s, ext);
    KeepFreshIncreasing(QueueOf(s.queues, ext), now);
    FreshInOrder(ReceivedBy(s, ext), QueueOf(s.queues, ext), now);
    hide KeepFresh, QueueOf, ReceivedBy, AfterTake, SameAt, Increasing, Before;
    OneExtensionChanges(s, AfterTake(s, d, ext, now), ext);
  }

  lemma SendKeepsOrder(s: State, d: nat)
    requires Ordered(s) && d in s.flights && s.flights[d].pending != []
    ensures Ordered(AfterSend(s, d))
  {
    var f := s.flights[d];
    SendShape(s, d);
    assert forall e :: e != f.ext ==> SameAt(s, AfterSend(s, d), e);
    assert QueueInOrder(s, f.ext) && FlightInOrder(s, f);
    hide Increasing, Before, QueueOf, AfterSend, ReceivedBy, SameAt;
    ReceiveInOrder(ReceivedBy(s, f.ext), f.pending, QueueOf(s.queues, f.ext));
    OneExtensionChanges(s, AfterSend(s, d), f.ext);
  }

  lemma ReceiveInOrder(received: seq<Message>, pending: seq<Message>, queue: seq<Message>)
    requires pending != [] && Increasing(received) && Increasing(pending)
    requires Before(received, pending) && Before(pending, queue) && Before(received, queue)
    ensures Increasing(received + [pending[0]]) && Increasing(pending[1..])
    ensures Before(received + [pending[0]], pending[1..]) && Before(received + [pending[0]], queue)
    ensures Before(pending[1..], queue)
  {
    var first := pending[0];
    assert first in pending;
    forall i | 0 <= i < |received| ensures received[i].number < first.number {
      assert received[i] in received;
    }
  }

  lemma ReturnKeepsOrder(s: State, d: nat)
    requires Ordered(s) && d in s.flights
    ensures Ordered(AfterReturn(s, d))
  {
    var t, f := AfterReturn(s, d), s.flights[d];
    var queue, received := QueueOf(s.queues, f.ext), ReceivedBy(s, f.ext);
    assert QueueInOrder(s, f.ext) && FlightInOrder(s, f) && QueueOf(t.queues, f.ext) == f.pending + queue;
    assert forall e :: ReceivedBy(t, e) == ReceivedBy(s, e);
    assert forall e :: e != f.ext ==> SameAt(s, t, e);
    hide Increasing, Before, QueueOf, ReceivedBy, SameAt, Moved;
    JoinInOrder(f.pending, queue);
    BeforeJoin(received, f.pending, queue);
    OneExtensionChanges(s, t, f.ext);
  }

  lemma JoinInOrder(a: seq<Message>, b: seq<Message>)
    requires Increasing(a) && Increasing(b) && Before(a, b)
    ensures Increasing(a + b)
  {
    forall i, j | 0 <= i < |a| && 0 <= j < |b| ensures a[i].number < b[j].number {
      assert a[i] in a && b[j] in b;
    }
  }

  lemma BeforeJoin(x: seq<Message>, a: seq<Message>, b: seq<Message>)
    requires Before(x, a) && Before(x, b)
    ensures Before(x, a + b)
  {
  }

  /** A delivery is only started while none is under way for the same extension. */
  ghost predicate OneAtATime(s: State, e: Event) {
    e.Take? ==> forall f :: f in s.flights ==> s.flights[f].ext != e.ext
  }

  lemma StoredKeepsOrder(s: State, m: Message)
    requires Conserved(s) && Ordered(s) && m.number == |s.accepted|
    ensures Ordered(AfterStored(s, m))
  {
    hide Conserved, Ordered, Prune, Moved, Numbered;
    PruneConserves(s, m.receivedAt);
    PruneKeepsOrder(s, m.receivedAt);
    var pruned := AfterPrune(s, m.receivedAt);
    var n := if |QueueOf(pruned.queues, m.callee)| >= MAX_OFFLINE_MESSAGES then 1 else 0;
    TrimConserves(pruned, m.callee, n);
    TrimKeepsOrder(pruned, m.callee, n);
    ConservedIsNumbered(AfterTrim(pruned, m.callee, n));
    AcceptKeepsOrder(AfterTrim(pruned, m.callee, n), m);
  }

  lemma FewerFlightsKeepOrder(s: State, t: State)
    requires Ordered(s) && t.queues == s.queues && t.received == s.received
    requires t.flights.Keys <= s.flights.Keys && forall d :: d in t.flights ==> t.flights[d] == s.flights[d]
    ensures Ordered(t)
  {
    hide Increasing, Before, QueueOf;
    assert forall e :: ReceivedBy(t, e) == ReceivedBy(s, e);
    hide ReceivedBy;
    forall e ensures QueueInOrder(t, e) {
      assert QueueInOrder(s, e);
    }
    forall d | d in t.flights ensures FlightInOrder(t, t.flights[d]) {
      assert FlightInOrder(s, s.flights[d]);
    }
    hide QueueInOrder, FlightInOrder;
  }

  lemma FinishKeepsOrder(s: State, d: nat)
    requires Ordered(s) && d in s.flights
    ensures Ordered(s.(flights := s.flights - {d}))
  {
    FewerFlightsKeepOrder(s, s.(flights := s.flights - {d}));
  }

  lemma QueueKeepsOrder(s: State, id: nat)
    requires Conserved(s) && Ordered(s) && id in s.stores
    ensures Ordered(AfterQueue(s, id))
  {
    hide Conserved, Ordered, AfterPrune, AfterStored, StoreIn;
    var left := WithoutStore(s, id);
    SameMessagesConserve(s, left);
    FewerFlightsKeepOrder(s, left);
    PruneKeepsOrder(left, s.stores[id].now);
    StoredKeepsOrder(left, NewMessage(s, s.stores[id]));
  }

  lemma StepKeepsOrder(s: State, e: Event)
    requires Conserved(s) && Ordered(s) && Enabled(s, e) && OneAtATime(s, e)
    ensures Ordered(Step(s, e))
  {
    hide Conserved, Ordered, AfterQueue, PassGate, AfterTake, AfterSend, AfterReturn, AfterTrim;
    match e
    case ReadClock(_, _, _, _, _) => FewerFlightsKeepOrder(s, Step(s, e));
    case Gate(_) => FewerFlightsKeepOrder(s, Step(s, e));
    case Queue(id) => QueueKeepsOrder(s, id);
    case Take(d, ext, now) => TakeKeepsOrder(s, d, ext, now);
    case SendOk(d) => SendKeepsOrder(s, d);
    case PutBackPending(d) =>
      var returned, ext := AfterReturn(s, d), s.flights[d].ext;
      ReturnKeepsOrder(s, d);
      TrimKeepsOrder(returned, ext, Excess(QueueOf(returned.queues, ext)));
    case Finish(d) => FinishKeepsOrder(s, d);
  }

  /** With at most one delivery per extension, each extension receives its messages in the order they were accepted. */
  lemma {:induction false} DeliveredInAcceptanceOrder(states: seq<State>, events: seq<Event>)
    requires Run(states, events)
    requires forall i :: 0 <= i < |events| ==> OneAtATime(states[i], events[i])
    ensures Ordered(states[|events|])
    decreases |events|
  {
    hide Step, Conserved, QueuesBounded, Enabled, Ordered, OneAtATime;
    if events == [] {
      InitiallyOrdered();
    } else {
      var n := |events| - 1;
      DeliveredInAcceptanceOrder(states[..n + 1], events[..n]);
      RunConserves(states, events);
      StepKeepsOrder(states[n], events[n]);
    }
  }

  lemma InitiallyOrdered()
    ensures Ordered(INITIAL)
  {
  }

  // ----- which messages are trimmed -----

  /** A step moves this message to the trimmed ones. */
  ghost predicate JustTrimmed(s: State, t: State, k: nat) {
    k < |s.accepted| <= |s.places| <= |t.places| && s.places[k] != Trimmed && t.places[k] == Trimmed
  }

  /** With at most one delivery per extension, whenever a message is trimmed its queue is full afterwards, and
      everything that stays in it is newer. */
  lemma OnlyTheOldestAreTrimmed(states: seq<State>, events: seq<Event>, i: nat, k: nat)
    requires Run(states, events) && i < |events| && JustTrimmed(states[i], states[i + 1], k)
    requires forall j :: 0 <= j < i ==> OneAtATime(states[j], events[j])
    ensures var queue := QueueOf(states[i + 1].queues, states[i].accepted[k].callee);
      |queue| >= 100 && forall m :: m in queue ==> k < m.number
  {
    hide Step, Conserved, QueuesBounded, Enabled, Ordered, OneAtATime, JustTrimmed;
    assert Run(states[..i + 1], events[..i]);
    RunConserves(states, events);
    DeliveredInAcceptanceOrder(states[..i + 1], events[..i]);
    StepTrimsOldest(states[i], events[i], k);
  }

  lemma StepTrimsOldest(s: State, e: Event, k: nat)
    requires Conserved(s) && Ordered(s) && Enabled(s, e) && JustTrimmed(s, Step(s, e), k)
    ensures |QueueOf(Step(s, e).queues, s.accepted[k].callee)| >= MAX_OFFLINE_MESSAGES
    ensures forall m :: m in QueueOf(Step(s, e).queues, s.accepted[k].callee) ==> k < m.number
  {
    hide Conserved, Ordered;
    match e
    case Queue(id) => QueueTrimsOldest(s, id, k);
    case PutBackPending(d) => PutBackTrimsOldest(s, d, k);
    case _ =>
  }

  lemma QueueTrimsOldest(s: State, id: nat, k: nat)
    requires id in s.stores && Conserved(s) && Ordered(s) && JustTrimmed(s, AfterQueue(s, id), k)
    ensures |QueueOf(AfterQueue(s, id).queues, s.accepted[k].callee)| >= MAX_OFFLINE_MESSAGES
    ensures forall m :: m in QueueOf(AfterQueue(s, id).queues, s.accepted[k].callee) ==> k < m.number
  {
    var left, m := WithoutStore(s, id), NewMessage(s, s.stores[id]);
    hide Conserved, Ordered, StoreIn, Prune, QueueOf, StaleNumbers, AfterStored;
    SameMessagesConserve(s, left);
    FewerFlightsKeepOrder(s, left);
    assert AfterQueue(s, id) == AfterStored(left, m);
    hide AfterQueue;
    StoredTrimsOldest(left, m, k);
  }

  lemma StoredTrimsOldest(s: State, m: Message, k: nat)
    requires Conserved(s) && Ordered(s) && m.number == |s.accepted| && JustTrimmed(s, AfterStored(s, m), k)
    ensures s.accepted[k].callee == m.callee && |QueueOf(AfterStored(s, m).queues, m.callee)| >= MAX_OFFLINE_MESSAGES
    ensures forall x :: x in QueueOf(AfterStored(s, m).queues, m.callee) ==> k < x.number
  {
    hide Conserved, Ordered, Prune, QueueOf, StaleNumbers;
    PruneConserves(s, m.receivedAt);
    PruneKeepsOrder(s, m.receivedAt);
    var pruned := AfterPrune(s, m.receivedAt);
    assert pruned.places[k] != Trimmed && pruned.accepted == s.accepted && |pruned.places| == |s.places|;
    var n := if |QueueOf(pruned.queues, m.callee)| >= MAX_OFFLINE_MESSAGES then 1 else 0;
    hide AfterPrune, Moved;
    PlacesMatch(s);
    AcceptedAfterTrim(AfterTrim(pruned, m.callee, n), m, k);
    TrimmedAreOldest(pruned, m.callee, n, k);
  }

  lemma PlacesMatch(s: State)
    requires Conserved(s)
    ensures |s.places| == |s.accepted|
  {
  }

  /** A message accepted next is newer than all before it and moves none of them. */
  lemma AcceptedAfterTrim(s: State, m: Message, k: nat)
    requires k < |s.accepted| == |s.places| && m.number == |s.accepted|
    ensures AfterAccept(s, m).places[k] == s.places[k]
    ensures QueueOf(AfterAccept(s, m).queues, m.callee) == QueueOf(s.queues, m.callee) + [m]
  {
  }

  lemma PutBackTrimsOldest(s: State, d: nat, k: nat)
    requires Conserved(s) && Ordered(s) && d in s.flights && JustTrimmed(s, AfterPutBack(s, d), k)
    ensures |QueueOf(AfterPutBack(s, d).queues, s.accepted[k].callee)| >= MAX_OFFLINE_MESSAGES
    ensures forall m :: m in QueueOf(AfterPutBack(s, d).queues, s.accepted[k].callee) ==> k < m.number
  {
    assert |s.places| == |s.accepted|;
    hide Conserved, Ordered, QueueOf;
    ReturnConserves(s, d);
    ReturnKeepsOrder(s, d);
    var returned, ext := AfterReturn(s, d), s.flights[d].ext;
    assert returned.places[k] != Trimmed && returned.accepted == s.accepted;
    hide AfterReturn, Moved;
    TrimmedAreOldest(returned, ext, Excess(QueueOf(returned.queues, ext)), k);
  }

  lemma TrimmedAreOldest(s: State, ext: string, n: nat, k: nat)
    requires Conserved(s) && Ordered(s) && n <= |QueueOf(s.queues, ext)| && JustTrimmed(s, AfterTrim(s, ext, n), k)
    ensures s.accepted[k].callee == ext && n > 0
    ensures |QueueOf(AfterTrim(s, ext, n).queues, ext)| == |QueueOf(s.queues, ext)| - n
    ensures forall m :: m in QueueOf(AfterTrim(s, ext, n).queues, ext) ==> k < m.number
  {
    var queue := QueueOf(s.queues, ext);
    assert Box(s, queue, Queued(ext), ext);
    NumbersAreAt(s, queue, Queued(ext), ext, queue[..n], k);
    var i :| 0 <= i < n && queue[..n][i] == s.accepted[k];
    assert queue[i] == s.accepted[k] && queue[i].number == k && QueueInOrder(s, ext);
    forall m | m in queue[n..] ensures k < m.number {
      var j :| 0 <= j < |queue[n..]| && queue[n..][j] == m;
      assert queue[n + j] == m;
    }
  }

  // ----- which messages expire -----

  /** A step moves this message to the expired ones. */
  ghost predicate JustExpired(s: State, t: State, k: nat) {
    k < |s.accepted| <= |s.places| <= |t.places| && s.places[k] != Expired && t.places[k] == Expired
  }

  /** The time that the region of this event goes by. */
  function TimeOf(s: State, e: Event): nat
    requires Enabled(s, e) && (e.Queue? || e.Take?)
  {
    if e.Queue? then s.stores[e.store].now else e.now
  }

  /** In every interleaving, a message only expires in a region that goes by a time at which its
      time to live is over. */
  lemma OnlyTheStaleExpire(states: seq<State>, events: seq<Event>, i: nat, k: nat)
    requires Run(states, events) && i < |events| && JustExpired(states[i], states[i + 1], k)
    ensures events[i].Queue? || events[i].Take?
    ensures !IsFresh(states[i].accepted[k], TimeOf(states[i], events[i]))
  {
    hide Step, Conserved, QueuesBounded, JustExpired, IsFresh;
    RunConserves(states, events);
    StepExpiresStale(states[i], events[i], k);
  }

  lemma StepExpiresStale(s: State, e: Event, k: nat)
    requires Conserved(s) && Enabled(s, e) && JustExpired(s, Step(s, e), k)
    ensures (e.Queue? || e.Take?) && !IsFresh(s.accepted[k], TimeOf(s, e))
  {
    hide Conserved, Prune, KeepFresh, Numbers;
    match e
    case Queue(id) => QueueExpiresStale(s, id, k);
    case Take(d, ext, now) => TakeExpiresStale(s, d, ext, now, k);
    case _ =>
  }

  lemma QueueExpiresStale(s: State, id: nat, k: nat)
    requires Conserved(s) && id in s.stores && JustExpired(s, AfterQueue(s, id), k)
    ensures !IsFresh(s.accepted[k], s.stores[id].now)
  {
    hide StoreIn, Prune, StaleNumbers, Numbers, QueueOf;
    var left := WithoutStore(s, id);
    assert k in StaleNumbers(s.queues, s.stores[id].now);
    StaleIsQueued(s, s.stores[id].now, k);
  }

  lemma TakeExpiresStale(s: State, d: nat, ext: string, now: nat, k: nat)
    requires Conserved(s) && JustExpired(s, AfterTake(s, d, ext, now), k)
    ensures !IsFresh(s.accepted[k], now)
  {
    var queue := QueueOf(s.queues, ext);
    TakenPlaces(s, d, ext, now);
    assert Box(s, queue, Queued(ext), ext);
    AllNumbered(KeepFresh(queue, now));
    assert s.accepted[k].number == k;
    hide Conserved, Boxes, Numbers, AfterTake;
    NumbersAreAt(s, queue, Queued(ext), ext, queue, k);
  }
}
