/** Every interleaving of the regions of storing and delivering: where each accepted message is. */
module OfflineRuns {
  import opened Seqs
  import opened OfflineMessages

  /** Where an accepted message is. */
  datatype Place = Queued(ext: string) | InFlight(delivery: nat) | Delivered(ext: string) | Expired | Trimmed

  /** A delivery in progress: what it has taken and not yet sent. */
  datatype Flight = Flight(ext: string, pending: seq<Message>)

  /** A store in progress: the time it has read, and whether it has passed the rate gate. */
  datatype Storing = Storing(from: string, text: string, callee: string, now: nat, passed: bool)

  /** A store of this sender passed the rate gate with this time. */
  datatype Pass = Pass(from: string, at: nat)

  /** The shared tables, the stores and deliveries in progress, and the history: every accepted message, where it is
      now, what each extension has received, and who passed the rate gate. */
  datatype State = State(
    queues: Queues, rates: Rates, stores: map<nat, Storing>, flights: map<nat, Flight>,
    accepted: seq<Message>, places: seq<Place>, received: map<string, seq<Message>>, passes: seq<Pass>)

  const INITIAL := State(map[], map[], map[], map[], [], [], map[], [])

  /** A store reads the clock, then passes its rate region and its queue region; a delivery
      takes, sends and puts back. */
  datatype Event =
    | ReadClock(store: nat, from: string, text: string, callee: string, now: nat)
    | Gate(store: nat)
    | Queue(store: nat)
    | Take(delivery: nat, ext: string, now: nat)
    | SendOk(delivery: nat)
    | PutBackPending(delivery: nat)
    | Finish(delivery: nat)

  predicate Enabled(s: State, e: Event) {
    match e
    case ReadClock(id, _, _, _, _) => id !in s.stores
    case Gate(id) => id in s.stores && !s.stores[id].passed
    case Queue(id) => id in s.stores && s.stores[id].passed
    case Take(d, _, _) => d !in s.flights
    case SendOk(d) => d in s.flights && s.flights[d].pending != []
    case PutBackPending(d) => d in s.flights && s.flights[d].pending != []
    case Finish(d) => d in s.flights && s.flights[d].pending == []
  }

  function ReceivedBy(s: State, ext: string): seq<Message> {
    if ext in s.received then s.received[ext] else []
  }

  /** The numbers of some messages. */
  function Numbers(ms: seq<Message>): set<nat> { set m | m in ms :: m.number }

  /** The messages in these positions move to a new place. */
  function Moved(places: seq<Place>, numbers: set<nat>, to: Place): (r: seq<Place>)
    ensures |r| == |places|
    ensures forall k :: 0 <= k < |places| ==> r[k] == if k in numbers then to else places[k]
  {
    seq(|places|, k requires 0 <= k < |places| => if k in numbers then to else places[k])
  }

  /** The queued messages that have expired. */
  function StaleNumbers(queues: Queues, now: nat): set<nat> {
    set ext, m | ext in queues && m in queues[ext] && !IsFresh(m, now) :: m.number
  }

  // ----- the steps -----

  /** Expired messages leave all queues. */
  function AfterPrune(s: State, now: nat): State {
    s.(queues := Prune(s.queues, now), places := Moved(s.places, StaleNumbers(s.queues, now), Expired))
  }

  /** The first messages of one queue are trimmed away. */
  function AfterTrim(s: State, ext: string, n: nat): State
    requires n <= |QueueOf(s.queues, ext)|
  {
    s.(queues := s.queues[ext := QueueOf(s.queues, ext)[n..]],
       places := Moved(s.places, Numbers(QueueOf(s.queues, ext)[..n]), Trimmed))
  }

  /** A new message is accepted at the end of a queue. */
  function AfterAccept(s: State, m: Message): State {
    s.(queues := s.queues[m.callee := QueueOf(s.queues, m.callee) + [m]],
       accepted := s.accepted + [m], places := s.places + [Queued(m.callee)])
  }

  /** One queue leaves for a delivery: its fresh messages take off, the others have expired. */
  function AfterTake(s: State, d: nat, ext: string, now: nat): State {
    var (messages, queues') := TakeFrom(s.queues, ext, now);
    var places1 := Moved(s.places, Numbers(QueueOf(s.queues, ext)), Expired);
    s.(queues := queues', flights := s.flights[d := Flight(ext, messages)],
       places := Moved(places1, Numbers(messages), InFlight(d)))
  }

  /** The first pending message of a delivery is received. */
  function AfterSend(s: State, d: nat): State
    requires d in s.flights && s.flights[d].pending != []
  {
    var f := s.flights[d];
    s.(flights := s.flights[d := f.(pending := f.pending[1..])],
       received := s.received[f.ext := ReceivedBy(s, f.ext) + [f.pending[0]]],
       places := Moved(s.places, {f.pending[0].number}, Delivered(f.ext)))
  }

  /** The pending messages of a delivery return to the front of the queue, which may then be too long. */
  function AfterReturn(s: State, d: nat): State
    requires d in s.flights
  {
    var f := s.flights[d];
    s.(queues := s.queues[f.ext := f.pending + QueueOf(s.queues, f.ext)], flights := s.flights - {d},
       places := Moved(s.places, Numbers(f.pending), Queued(f.ext)))
  }

  /** How many messages beyond the limit a queue holds. */
  function Excess(queue: seq<Message>): nat {
    if |queue| <= MAX_OFFLINE_MESSAGES then 0 else |queue| - MAX_OFFLINE_MESSAGES
  }

  /** A stored message: expired ones are pruned first, and a full queue drops its oldest. */
  function AfterStored(s: State, m: Message): State {
    var pruned := AfterPrune(s, m.receivedAt);
    var full := |QueueOf(pruned.queues, m.callee)| >= MAX_OFFLINE_MESSAGES;
    AfterAccept(AfterTrim(pruned, m.callee, if full then 1 else 0), m)
  }

  function AfterPutBack(s: State, d: nat): State
    requires d in s.flights
  {
    var returned, ext := AfterReturn(s, d), s.flights[d].ext;
    AfterTrim(returned, ext, Excess(QueueOf(returned.queues, ext)))
  }

  function NewMessage(s: State, st: Storing): Message {
    Message(st.from, st.text, st.now, st.callee, |s.accepted|)
  }

  /** The rate region: the store goes on if it passes. */
  function AfterGate(s: State, id: nat): State
    requires id in s.stores
  {
    var st := s.stores[id];
    var (ok, rates') := PassGate(s.rates, st.from, st.now);
    if ok then s.(rates := rates', stores := s.stores[id := st.(passed := true)],
        passes := s.passes + [Pass(st.from, st.now)])
    else s.(rates := rates', stores := s.stores - {id})
  }

  function WithoutStore(s: State, id: nat): State { s.(stores := s.stores - {id}) }

  /** The queue region, which ends the store. */
  ghost function AfterQueue(s: State, id: nat): State
    requires id in s.stores
  {
    var m := NewMessage(s, s.stores[id]);
    if StoreIn(s.queues, m).0 == Stored then AfterStored(WithoutStore(s, id), m)
    else AfterPrune(WithoutStore(s, id), m.receivedAt)
  }

  ghost function Step(s: State, e: Event): State
    requires Enabled(s, e)
  {
    match e
    case ReadClock(id, from, text, callee, now) => s.(stores := s.stores[id := Storing(from, text, callee, now, false)])
    case Gate(id) => AfterGate(s, id)
    case Queue(id) => AfterQueue(s, id)
    case Take(d, ext, now) => AfterTake(s, d, ext, now)
    case SendOk(d) => AfterSend(s, d)
    case PutBackPending(d) => AfterPutBack(s, d)
    case Finish(d) => s.(flights := s.flights - {d})
  }

  /** A step changes the shared tables as the lock regions of the store do. */
  lemma StepFollowsRegions(s: State, e: Event)
    requires Enabled(s, e)
    ensures var t := Step(s, e); match e
      case ReadClock(_, _, _, _, _) => t.queues == s.queues && t.rates == s.rates
      case Gate(id) =>
        var (ok, rates') := PassGate(s.rates, s.stores[id].from, s.stores[id].now);
        t.rates == rates' && t.queues == s.queues && (ok <==> id in t.stores)
      case Queue(id) =>
        var (outcome, queues') := StoreIn(s.queues, NewMessage(s, s.stores[id]));
        t.queues == queues' && t.rates == s.rates && (outcome == Stored <==> |t.accepted| == |s.accepted| + 1)
      case Take(d, ext, now) => t.queues == TakeFrom(s.queues, ext, now).1 && t.rates == s.rates
      case SendOk(d) => t.queues == s.queues && t.rates == s.rates
      case PutBackPending(d) =>
        t.queues == PutBackIn(s.queues, s.flights[d].ext, s.flights[d].pending) && t.rates == s.rates
      case Finish(d) => t.queues == s.queues && t.rates == s.rates
  {
    hide Prune, PassGate, HeldBy, HeldInAll, Enqueue, AfterStored, AfterPutBack, QueueOf, Merge;
    match e
    case Queue(id) => QueuesOfStored(WithoutStore(s, id), NewMessage(s, s.stores[id]));
    case PutBackPending(d) => QueuesOfPutBack(s, d);
    case _ =>
  }

  lemma QueuesOfStored(s: State, m: Message)
    ensures var t, pruned := AfterStored(s, m), Prune(s.queues, m.receivedAt);
      && t.queues == pruned[m.callee := Enqueue(QueueOf(pruned, m.callee), m)]
      && t.rates == s.rates && t.stores == s.stores && t.passes == s.passes && t.accepted == s.accepted + [m]
  {
    hide Prune;
  }

  lemma QueuesOfPutBack(s: State, d: nat)
    requires d in s.flights
    ensures var t := AfterPutBack(s, d);
      t.queues == PutBackIn(s.queues, s.flights[d].ext, s.flights[d].pending) && t.rates == s.rates
  {
  }

  ghost predicate Run(states: seq<State>, events: seq<Event>) {
    && |states| == |events| + 1 && states[0] == INITIAL
    && forall i :: 0 <= i < |events| ==> Enabled(states[i], events[i]) && states[i + 1] == Step(states[i], events[i])
  }

  // ----- conservation -----

  /** These messages are accepted ones, each once, and all of them are at this place. */
  ghost predicate Box(s: State, ms: seq<Message>, place: Place, ext: string)
    requires |s.places| == |s.accepted|
  {
    && (forall i :: 0 <= i < |ms| ==>
          && ms[i].number < |s.accepted| && ms[i] == s.accepted[ms[i].number]
          && s.places[ms[i].number] == place && ms[i].callee == ext)
    && (forall i, j :: 0 <= i < j < |ms| ==> ms[i].number != ms[j].number)
  }

  /** The message numbered k is where its place says. */
  ghost predicate Found(s: State, k: nat)
    requires k < |s.places| == |s.accepted|
  {
    match s.places[k]
    case Queued(ext) => s.accepted[k] in QueueOf(s.queues, ext)
    case InFlight(d) => d in s.flights && s.accepted[k] in s.flights[d].pending
    case Delivered(ext) => s.accepted[k] in ReceivedBy(s, ext)
    case Expired => true
    case Trimmed => true
  }

  /** Each container holds only messages whose place it is, once each. */
  ghost predicate Boxes(s: State)
    requires |s.places| == |s.accepted|
  {
    && (forall ext :: Box(s, QueueOf(s.queues, ext), Queued(ext), ext))
    && (forall d :: d in s.flights ==> Box(s, s.flights[d].pending, InFlight(d), s.flights[d].ext))
    && (forall ext :: Box(s, ReceivedBy(s, ext), Delivered(ext), ext))
  }

  /** Every accepted message is in exactly one place: each container holds exactly the messages
      whose place it is, once. */
  ghost predicate Conserved(s: State) {
    && |s.places| == |s.accepted| && Boxes(s)
    && forall k :: 0 <= k < |s.accepted| ==> s.accepted[k].number == k && Found(s, k)
  }

  /** Later states only add acceptances. */
  ghost predicate Extends(s: State, t: State) {
    && |s.places| == |s.accepted| && |t.places| == |t.accepted| && s.accepted <= t.accepted
  }

  /** A container whose messages have not moved is as it was. */
  lemma BoxStays(s: State, t: State, ms: seq<Message>, place: Place, ext: string)
    requires Extends(s, t) && Box(s, ms, place, ext)
    requires forall i :: 0 <= i < |ms| ==> t.places[ms[i].number] == place
    ensures Box(t, ms, place, ext)
  {
  }

  /** A container whose messages have all moved to a new place. */
  lemma BoxMoves(s: State, t: State, ms: seq<Message>, from: Place, to: Place, ext: string)
    requires Extends(s, t) && Box(s, ms, from, ext)
    requires forall i :: 0 <= i < |ms| ==> t.places[ms[i].number] == to
    ensures Box(t, ms, to, ext)
  {
  }

  lemma {:induction false} KeepFreshKeepsBox(s: State, ms: seq<Message>, place: Place, ext: string, now: nat)
    requires |s.places| == |s.accepted| && Box(s, ms, place, ext)
    ensures Box(s, KeepFresh(ms, now), place, ext)
  {
    if ms != [] {
      var kept := KeepFresh(ms[1..], now);
      KeepFreshKeepsBox(s, ms[1..], place, ext, now);
      forall i | 0 <= i < |kept| ensures kept[i].number != ms[0].number {
        assert kept[i] in ms[1..];
        var j :| 0 <= j < |ms[1..]| && ms[1..][j] == kept[i];
        assert ms[j + 1] == kept[i];
      }
      if IsFresh(ms[0], now) {
        assert KeepFresh(ms, now) == [ms[0]] + kept;
      } else {
        EmptyConcat(kept);
      }
    }
  }

  lemma NumberIn(ms: seq<Message>, i: nat)
    requires i < |ms|
    ensures ms[i].number in Numbers(ms)
  {
    assert ms[i] in ms;
  }

  /** In a container, a number among those of some of its messages belongs to one of them. */
  lemma NumberOf(s: State, ms: seq<Message>, place: Place, ext: string, some: seq<Message>, i: nat)
    requires |s.places| == |s.accepted| && Box(s, ms, place, ext) && i < |ms|
    requires forall m :: m in some ==> m in ms
    ensures ms[i].number in Numbers(some) <==> ms[i] in some
  {
    if ms[i].number in Numbers(some) {
      var m :| m in some && m.number == ms[i].number;
      var j :| 0 <= j < |ms| && ms[j] == m;
      assert i == j;
    }
  }

  // ----- pruning -----

  lemma StaleIsQueued(s: State, now: nat, k: nat)
    requires Conserved(s) && k in StaleNumbers(s.queues, now)
    ensures k < |s.accepted| && s.places[k].Queued? && !IsFresh(s.accepted[k], now)
  {
    var ext, m :| ext in s.queues && m in s.queues[ext] && !IsFresh(m, now) && m.number == k;
    var i :| 0 <= i < |QueueOf(s.queues, ext)| && QueueOf(s.queues, ext)[i] == m;
  }

  lemma FreshIsNotStale(s: State, now: nat, ext: string, i: nat)
    requires Conserved(s) && i < |QueueOf(s.queues, ext)|
    ensures var m := QueueOf(s.queues, ext)[i]; m.number in StaleNumbers(s.queues, now) <==> !IsFresh(m, now)
  {
    var m := QueueOf(s.queues, ext)[i];
    if m.number in StaleNumbers(s.queues, now) {
      StaleIsQueued(s, now, m.number);
    }
    if !IsFresh(m, now) {
      assert ext in s.queues && m in s.queues[ext];
    }
  }

  lemma QueueOfPruned(queues: Queues, now: nat, ext: string)
    ensures QueueOf(Prune(queues, now), ext) == KeepFresh(QueueOf(queues, ext), now)
  {
  }

  lemma PruneConserves(s: State, now: nat)
    requires Conserved(s)
    ensures Conserved(AfterPrune(s, now))
  {
    hide Prune, KeepFresh, StaleNumbers;
    var t := AfterPrune(s, now);
    forall ext ensures Box(t, QueueOf(t.queues, ext), Queued(ext), ext) {
      var queue, kept := QueueOf(s.queues, ext), KeepFresh(QueueOf(s.queues, ext), now);
      QueueOfPruned(s.queues, now, ext);
      KeepFreshKeepsBox(s, queue, Queued(ext), ext, now);
      forall i | 0 <= i < |kept| ensures t.places[kept[i].number] == Queued(ext) {
        assert kept[i] in queue && IsFresh(kept[i], now);
        var j :| 0 <= j < |queue| && queue[j] == kept[i];
        FreshIsNotStale(s, now, ext, j);
      }
      BoxStays(s, t, kept, Queued(ext), ext);
    }
    forall d | d in t.flights ensures Box(t, t.flights[d].pending, InFlight(d), t.flights[d].ext) {
      var pending := s.flights[d].pending;
      forall i | 0 <= i < |pending| ensures t.places[pending[i].number] == InFlight(d) {
        if pending[i].number in StaleNumbers(s.queues, now) { StaleIsQueued(s, now, pending[i].number); }
      }
      BoxStays(s, t, pending, InFlight(d), s.flights[d].ext);
    }
    forall ext ensures Box(t, ReceivedBy(t, ext), Delivered(ext), ext) {
      var received := ReceivedBy(s, ext);
      forall i | 0 <= i < |received| ensures t.places[received[i].number] == Delivered(ext) {
        if received[i].number in StaleNumbers(s.queues, now) { StaleIsQueued(s, now, received[i].number); }
      }
      BoxStays(s, t, received, Delivered(ext), ext);
    }
    forall k | 0 <= k < |t.accepted| ensures Found(t, k) {
      assert Found(s, k);
      if t.places[k].Queued? {
        var ext := t.places[k].ext;
        var i :| 0 <= i < |QueueOf(s.queues, ext)| && QueueOf(s.queues, ext)[i] == s.accepted[k];
        FreshIsNotStale(s, now, ext, i);
        QueueOfPruned(s.queues, now, ext);
      }
    }
  }

  // ----- moving whole containers -----

  lemma NumbersAreAt(s: State, ms: seq<Message>, place: Place, ext: string, some: seq<Message>, k: nat)
    requires |s.places| == |s.accepted| && Box(s, ms, place, ext) && k in Numbers(some)
    requires forall m :: m in some ==> m in ms
    ensures k < |s.places| && s.places[k] == place && s.accepted[k] in some
  {
    var m :| m in some && m.number == k;
    var i :| 0 <= i < |ms| && ms[i] == m;
  }

  /** Containers other than the one that messages move out of keep their messages where they were. */
  lemma OthersStay(s: State, t: State, moved: set<nat>, home: Place)
    requires Conserved(s) && Extends(s, t)
    requires forall k :: k in moved ==> k < |s.places| && s.places[k] == home
    requires forall k :: 0 <= k < |s.places| && k !in moved ==> t.places[k] == s.places[k]
    ensures forall ext :: Queued(ext) != home ==> Box(t, QueueOf(s.queues, ext), Queued(ext), ext)
    ensures forall d :: d in s.flights && InFlight(d) != home ==>
        Box(t, s.flights[d].pending, InFlight(d), s.flights[d].ext)
    ensures forall ext :: Delivered(ext) != home ==> Box(t, ReceivedBy(s, ext), Delivered(ext), ext)
  {
    forall ext | Queued(ext) != home ensures Box(t, QueueOf(s.queues, ext), Queued(ext), ext) {
      BoxStays(s, t, QueueOf(s.queues, ext), Queued(ext), ext);
    }
    forall d | d in s.flights && InFlight(d) != home
        ensures Box(t, s.flights[d].pending, InFlight(d), s.flights[d].ext) {
      BoxStays(s, t, s.flights[d].pending, InFlight(d), s.flights[d].ext);
    }
    forall ext | Delivered(ext) != home ensures Box(t, ReceivedBy(s, ext), Delivered(ext), ext) {
      BoxStays(s, t, ReceivedBy(s, ext), Delivered(ext), ext);
    }
  }

  lemma InPrefixOrRest(ms: seq<Message>, n: nat, i: nat)
    requires n <= |ms| && i < |ms|
    ensures if i < n then ms[i] in ms[..n] else ms[i] in ms[n..]
  {
    assert i < n ==> ms[..n][i] == ms[i];
    assert i >= n ==> ms[n..][i - n] == ms[i];
  }

  /** Where the messages of a trimmed queue end up. */
  lemma TrimmedPlaces(s: State, ext: string, n: nat)
    requires Conserved(s) && n <= |QueueOf(s.queues, ext)|
    ensures var t, queue := AfterTrim(s, ext, n), QueueOf(s.queues, ext);
      && (forall k :: k in Numbers(queue[..n]) ==> k < |s.places| && s.places[k] == Queued(ext))
      && (forall k :: 0 <= k < |s.places| && k !in Numbers(queue[..n]) ==> t.places[k] == s.places[k])
      && (forall k :: 0 <= k < |s.places| && k in Numbers(queue[..n]) ==> t.places[k] == Trimmed)
      && (forall i :: n <= i < |queue| ==> queue[i].number !in Numbers(queue[..n]))
  {
    var queue := QueueOf(s.queues, ext);
    assert Box(s, queue, Queued(ext), ext);
    hide Conserved, Boxes, Found;
    forall k | k in Numbers(queue[..n]) ensures k < |s.places| && s.places[k] == Queued(ext) {
      NumbersAreAt(s, queue, Queued(ext), ext, queue[..n], k);
    }
    forall i | n <= i < |queue| ensures queue[i].number !in Numbers(queue[..n]) {
      NumberOf(s, queue, Queued(ext), ext, queue[..n], i);
    }
  }

  lemma TrimBoxes(s: State, ext: string, n: nat)
    requires Conserved(s) && n <= |QueueOf(s.queues, ext)|
    ensures Boxes(AfterTrim(s, ext, n))
  {
    var t, queue := AfterTrim(s, ext, n), QueueOf(s.queues, ext);
    TrimmedPlaces(s, ext, n);
    OthersStay(s, t, Numbers(queue[..n]), Queued(ext));
    assert Box(s, queue, Queued(ext), ext);
    hide Conserved, Boxes, Found, Numbers, Moved;
    KeptBox(s, t, queue, queue[n..], n, Queued(ext), ext);
    hide Box;
    BoxesFromParts(s, t, Queued(ext));
  }

  /** The messages of a container after the first n, when their places have not changed. */
  lemma KeptBox(s: State, t: State, ms: seq<Message>, kept: seq<Message>, n: nat, place: Place, ext: string)
    requires Extends(s, t) && Box(s, ms, place, ext) && n <= |ms| && kept == ms[n..]
    requires forall i :: n <= i < |ms| ==> ms[i].number < |s.places| && t.places[ms[i].number] == place
    ensures Box(t, kept, place, ext)
  {
  }

  /** Containers that one step leaves alone, together with the one it changes. */
  lemma BoxesFromParts(s: State, t: State, home: Place)
    requires |t.places| == |t.accepted|
    requires forall ext :: Queued(ext) != home ==> QueueOf(t.queues, ext) == QueueOf(s.queues, ext)
    requires t.flights == s.flights && t.received == s.received && (home.Queued? || home.Expired?)
    requires forall ext :: Queued(ext) != home ==> Box(t, QueueOf(s.queues, ext), Queued(ext), ext)
    requires forall d :: d in s.flights ==> Box(t, s.flights[d].pending, InFlight(d), s.flights[d].ext)
    requires forall ext :: Box(t, ReceivedBy(s, ext), Delivered(ext), ext)
    requires home.Queued? ==> Box(t, QueueOf(t.queues, home.ext), home, home.ext)
    ensures Boxes(t)
  {
    hide Box, QueueOf;
    forall ext ensures Box(t, QueueOf(t.queues, ext), Queued(ext), ext) {
      if Queued(ext) != home { assert QueueOf(t.queues, ext) == QueueOf(s.queues, ext); }
    }
    assert forall ext :: ReceivedBy(t, ext) == ReceivedBy(s, ext);
  }

  lemma TrimFinds(s: State, ext: string, n: nat, k: nat)
    requires Conserved(s) && n <= |QueueOf(s.queues, ext)| && k < |s.accepted|
    ensures Found(AfterTrim(s, ext, n), k)
  {
    var queue := QueueOf(s.queues, ext);
    TrimmedPlaces(s, ext, n);
    assert Found(s, k) && s.accepted[k].number == k;
    hide Conserved, Boxes, Box, Moved;
    if s.places[k] == Queued(ext) {
      var i :| 0 <= i < |queue| && queue[i] == s.accepted[k];
      InPrefixOrRest(queue, n, i);
    }
  }

  lemma TrimConserves(s: State, ext: string, n: nat)
    requires Conserved(s) && n <= |QueueOf(s.queues, ext)|
    ensures Conserved(AfterTrim(s, ext, n))
  {
    hide Boxes, Found;
    TrimBoxes(s, ext, n);
    forall k | 0 <= k < |s.accepted| ensures Found(AfterTrim(s, ext, n), k) {
      TrimFinds(s, ext, n, k);
    }
  }

  lemma AcceptedBox(s: State, t: State, queue: seq<Message>, m: Message)
    requires Extends(s, t) && Box(t, queue, Queued(m.callee), m.callee)
    requires m.number == |s.accepted| && t.accepted == s.accepted + [m] && t.places == s.places + [Queued(m.callee)]
    requires forall i :: 0 <= i < |queue| ==> queue[i].number < m.number
    ensures Box(t, queue + [m], Queued(m.callee), m.callee)
  {
  }

  lemma AcceptBoxes(s: State, m: Message)
    requires Conserved(s) && m.number == |s.accepted|
    ensures Boxes(AfterAccept(s, m))
  {
    var t, queue := AfterAccept(s, m), QueueOf(s.queues, m.callee);
    assert Box(s, queue, Queued(m.callee), m.callee);
    OthersStay(s, t, {}, Expired);
    AcceptedBox(s, t, queue, m);
    hide Conserved, Boxes, Box, Found;
    BoxesFromParts(s, t, Queued(m.callee));
  }

  lemma AcceptFinds(s: State, m: Message, k: nat)
    requires Conserved(s) && m.number == |s.accepted| && k <= |s.accepted|
    ensures var t := AfterAccept(s, m); t.accepted[k].number == k && Found(t, k)
  {
    hide Boxes;
    if k < |s.accepted| {
      assert Found(s, k);
    } else {
      var queue := QueueOf(s.queues, m.callee);
      assert (queue + [m])[|queue|] == m;
    }
  }

  lemma AcceptConserves(s: State, m: Message)
    requires Conserved(s) && m.number == |s.accepted|
    ensures Conserved(AfterAccept(s, m))
  {
    hide Boxes, Found;
    AcceptBoxes(s, m);
    forall k | 0 <= k < |s.accepted| + 1
        ensures AfterAccept(s, m).accepted[k].number == k && Found(AfterAccept(s, m), k) {
      AcceptFinds(s, m, k);
    }
  }

  // ----- taking, sending and putting back -----

  /** Where the messages of the taken queue end up. */
  lemma TakenPlaces(s: State, d: nat, ext: string, now: nat)
    requires Conserved(s)
    ensures var t, queue := AfterTake(s, d, ext, now), QueueOf(s.queues, ext); var messages := KeepFresh(queue, now);
      && (forall k :: k in Numbers(queue) ==> k < |s.places| && s.places[k] == Queued(ext))
      && (forall k :: 0 <= k < |s.places| && k !in Numbers(queue) ==> t.places[k] == s.places[k])
      && (forall k :: 0 <= k < |s.places| && k in Numbers(messages) ==>
            t.places[k] == InFlight(d) && s.accepted[k] in messages)
      && (forall k :: 0 <= k < |s.places| && k in Numbers(queue) - Numbers(messages) ==> t.places[k] == Expired)
  {
    var queue := QueueOf(s.queues, ext);
    var messages := KeepFresh(queue, now);
    hide KeepFresh;
    assert Box(s, queue, Queued(ext), ext);
    forall k | k in Numbers(queue) ensures k < |s.places| && s.places[k] == Queued(ext) {
      NumbersAreAt(s, queue, Queued(ext), ext, queue, k);
    }
    forall k | k in Numbers(messages) ensures k in Numbers(queue) && s.accepted[k] in messages {
      NumbersAreAt(s, queue, Queued(ext), ext, messages, k);
      var m :| m in messages && m.number == k;
      assert m in queue;
    }
  }

  lemma TakeFinds(s: State, d: nat, ext: string, now: nat, k: nat)
    requires Conserved(s) && d !in s.flights && k < |s.accepted|
    ensures Found(AfterTake(s, d, ext, now), k)
  {
    hide KeepFresh, Box, Moved;
    TakenPlaces(s, d, ext, now);
    AllNumbered(QueueOf(s.queues, ext));
    hide Numbers;
    assert Found(s, k);
  }

  lemma TakeBoxes(s: State, d: nat, ext: string, now: nat)
    requires Conserved(s) && d !in s.flights
    ensures var t := AfterTake(s, d, ext, now);
      && (forall e :: Box(t, QueueOf(t.queues, e), Queued(e), e))
      && (forall f :: f in t.flights ==> Box(t, t.flights[f].pending, InFlight(f), t.flights[f].ext))
      && (forall e :: Box(t, ReceivedBy(t, e), Delivered(e), e))
  {
    hide KeepFresh, Moved, Found;
    var t, queue := AfterTake(s, d, ext, now), QueueOf(s.queues, ext);
    var messages := KeepFresh(queue, now);
    TakenPlaces(s, d, ext, now);
    KeepFreshKeepsBox(s, queue, Queued(ext), ext, now);
    forall i | 0 <= i < |messages| ensures t.places[messages[i].number] == InFlight(d) {
      NumberIn(messages, i);
    }
    hide Numbers;
    OthersStay(s, t, Numbers(queue), Queued(ext));
    BoxMoves(s, t, messages, Queued(ext), InFlight(d), ext);
    hide Box;
    forall e ensures Box(t, QueueOf(t.queues, e), Queued(e), e) {
      if e == ext {
        EmptyBox(t, Queued(e), e);
      } else {
        assert QueueOf(t.queues, e) == QueueOf(s.queues, e);
      }
    }
  }

  lemma EmptyBox(s: State, place: Place, ext: string)
    requires |s.places| == |s.accepted|
    ensures Box(s, [], place, ext)
  {
  }

  lemma TakeConserves(s: State, d: nat, ext: string, now: nat)
    requires Conserved(s) && d !in s.flights
    ensures Conserved(AfterTake(s, d, ext, now))
  {
    TakeBoxes(s, d, ext, now);
    var t := AfterTake(s, d, ext, now);
    forall k | 0 <= k < |t.accepted| ensures Found(t, k) {
      TakeFinds(s, d, ext, now, k);
    }
  }

  lemma AllNumbered(ms: seq<Message>)
    ensures forall m :: m in ms ==> m.number in Numbers(ms)
  {
  }

  lemma SendBoxes(s: State, d: nat)
    requires Conserved(s) && d in s.flights && s.flights[d].pending != []
    ensures Boxes(AfterSend(s, d))
  {
    var t, f := AfterSend(s, d), s.flights[d];
    var first, received := f.pending[0], ReceivedBy(s, f.ext);
    assert Box(s, f.pending, InFlight(d), f.ext) && Box(s, received, Delivered(f.ext), f.ext);
    OthersStay(s, t, {first.number}, InFlight(d));
    hide Conserved, Boxes, Found, Moved;
    KeptBox(s, t, f.pending, f.pending[1..], 1, InFlight(d), f.ext);
    ReceivedBox(s, t, f.pending, received, InFlight(d), Delivered(f.ext), f.ext);
    hide Box, QueueOf;
    assert ReceivedBy(t, f.ext) == received + [first];
    forall e ensures Box(t, ReceivedBy(t, e), Delivered(e), e) {
      if e != f.ext { assert ReceivedBy(t, e) == ReceivedBy(s, e); }
    }
    assert Boxes(t) by { BoxesOf(t); }
  }

  lemma BoxesOf(s: State)
    requires |s.places| == |s.accepted|
    requires forall ext :: Box(s, QueueOf(s.queues, ext), Queued(ext), ext)
    requires forall d :: d in s.flights ==> Box(s, s.flights[d].pending, InFlight(d), s.flights[d].ext)
    requires forall ext :: Box(s, ReceivedBy(s, ext), Delivered(ext), ext)
    ensures Boxes(s)
  {
    hide Box, QueueOf, ReceivedBy;
  }

  /** The first message of one container moves to the end of another. */
  lemma ReceivedBox(s: State, t: State, a: seq<Message>, b: seq<Message>, from: Place, place: Place, ext: string)
    requires Extends(s, t) && Box(s, a, from, ext) && Box(s, b, place, ext) && Box(t, b, place, ext)
    requires from != place && a != [] && t.places[a[0].number] == place
    ensures Box(t, b + [a[0]], place, ext)
  {
  }

  lemma SendFinds(s: State, d: nat, k: nat)
    requires Conserved(s) && d in s.flights && s.flights[d].pending != [] && k < |s.accepted|
    ensures Found(AfterSend(s, d), k)
  {
    var t, f := AfterSend(s, d), s.flights[d];
    var first, received := f.pending[0], ReceivedBy(s, f.ext);
    assert Box(s, f.pending, InFlight(d), f.ext) && Found(s, k) && s.accepted[k].number == k;
    hide Conserved, Boxes;
    assert f.pending == [first] + f.pending[1..];
    assert (received + [first])[|received|] == first;
    assert k == first.number ==> s.accepted[k] == first;
    assert t.places[k] == if k == first.number then Delivered(f.ext) else s.places[k];
    hide Box, Moved;
    SendShape(s, d);
    hide AfterSend;
  }

  /** What a successful send changes. */
  lemma SendShape(s: State, d: nat)
    requires d in s.flights && s.flights[d].pending != []
    ensures var t, f := AfterSend(s, d), s.flights[d];
      && t.flights == s.flights[d := Flight(f.ext, f.pending[1..])] && t.queues == s.queues && t.accepted == s.accepted
      && ReceivedBy(t, f.ext) == ReceivedBy(s, f.ext) + [f.pending[0]]
      && forall e :: e != f.ext ==> ReceivedBy(t, e) == ReceivedBy(s, e)
  {
    hide Moved;
  }

  lemma SendConserves(s: State, d: nat)
    requires Conserved(s) && d in s.flights && s.flights[d].pending != []
    ensures Conserved(AfterSend(s, d))
  {
    hide Boxes, Found;
    SendBoxes(s, d);
    forall k | 0 <= k < |s.accepted| ensures Found(AfterSend(s, d), k) {
      SendFinds(s, d, k);
    }
  }

  lemma ReturnBoxes(s: State, d: nat)
    requires Conserved(s) && d in s.flights
    ensures Boxes(AfterReturn(s, d))
  {
    var t, f := AfterReturn(s, d), s.flights[d];
    var queue := QueueOf(s.queues, f.ext);
    assert Box(s, f.pending, InFlight(d), f.ext) && Box(s, queue, Queued(f.ext), f.ext);
    forall k | k in Numbers(f.pending) ensures k < |s.places| && s.places[k] == InFlight(d) {
      NumbersAreAt(s, f.pending, InFlight(d), f.ext, f.pending, k);
    }
    OthersStay(s, t, Numbers(f.pending), InFlight(d));
    hide Conserved, Boxes, Found;
    forall i | 0 <= i < |f.pending| ensures t.places[f.pending[i].number] == Queued(f.ext) {
      NumberIn(f.pending, i);
    }
    hide Numbers, Moved;
    BoxMoves(s, t, f.pending, InFlight(d), Queued(f.ext), f.ext);
    JoinedBox(s, t, f.pending, queue, InFlight(d), Queued(f.ext), f.ext);
    hide Box;
    forall e ensures Box(t, QueueOf(t.queues, e), Queued(e), e) {
      if e != f.ext { assert QueueOf(t.queues, e) == QueueOf(s.queues, e); }
    }
    assert forall e :: ReceivedBy(t, e) == ReceivedBy(s, e);
    BoxesOf(t);
  }

  lemma ReturnFinds(s: State, d: nat, k: nat)
    requires Conserved(s) && d in s.flights && k < |s.accepted|
    ensures Found(AfterReturn(s, d), k)
  {
    var f := s.flights[d];
    assert Box(s, f.pending, InFlight(d), f.ext) && Found(s, k) && s.accepted[k].number == k;
    hide Conserved, Boxes, Box;
    AllNumbered(f.pending);
    if k in Numbers(f.pending) {
      NumbersAreAt(s, f.pending, InFlight(d), f.ext, f.pending, k);
    }
  }

  lemma ReturnConserves(s: State, d: nat)
    requires Conserved(s) && d in s.flights
    ensures Conserved(AfterReturn(s, d))
  {
    hide Boxes, Found;
    ReturnBoxes(s, d);
    forall k | 0 <= k < |s.accepted| ensures Found(AfterReturn(s, d), k) {
      ReturnFinds(s, d, k);
    }
  }

  lemma JoinedBox(s: State, t: State, a: seq<Message>, b: seq<Message>, from: Place, place: Place, ext: string)
    requires Extends(s, t) && Box(s, a, from, ext) && Box(s, b, place, ext) && from != place
    requires Box(t, a, place, ext) && Box(t, b, place, ext)
    ensures Box(t, a + b, place, ext)
  {
  }

  // ----- conservation over runs -----

  ghost predicate QueuesBounded(s: State) {
    forall ext :: |QueueOf(s.queues, ext)| <= 100
  }

  lemma StoredConserves(s: State, m: Message)
    requires Conserved(s) && QueuesBounded(s) && m.number == |s.accepted|
    ensures Conserved(AfterStored(s, m)) && QueuesBounded(AfterStored(s, m))
  {
    hide Conserved, Prune, StaleNumbers, Moved, Numbers;
    PruneConserves(s, m.receivedAt);
    var pruned := AfterPrune(s, m.receivedAt);
    PruneBounded(s, m.receivedAt);
    var n := if |QueueOf(pruned.queues, m.callee)| >= MAX_OFFLINE_MESSAGES then 1 else 0;
    TrimConserves(pruned, m.callee, n);
    AcceptConserves(AfterTrim(pruned, m.callee, n), m);
    forall e ensures |QueueOf(AfterStored(s, m).queues, e)| <= MAX_OFFLINE_MESSAGES {
      assert |QueueOf(pruned.queues, e)| <= MAX_OFFLINE_MESSAGES;
    }
  }

  lemma PruneBounded(s: State, now: nat)
    requires QueuesBounded(s)
    ensures QueuesBounded(AfterPrune(s, now))
  {
    forall ext ensures |QueueOf(AfterPrune(s, now).queues, ext)| <= MAX_OFFLINE_MESSAGES {
      QueueOfPruned(s.queues, now, ext);
      assert |QueueOf(s.queues, ext)| <= MAX_OFFLINE_MESSAGES;
    }
  }

  lemma PutBackConserves(s: State, d: nat)
    requires Conserved(s) && QueuesBounded(s) && d in s.flights
    ensures Conserved(AfterPutBack(s, d)) && QueuesBounded(AfterPutBack(s, d))
  {
    hide Conserved, Moved, Numbers;
    ReturnConserves(s, d);
    var returned, ext := AfterReturn(s, d), s.flights[d].ext;
    TrimConserves(returned, ext, Excess(QueueOf(returned.queues, ext)));
    forall e ensures |QueueOf(AfterPutBack(s, d).queues, e)| <= MAX_OFFLINE_MESSAGES {
      assert |QueueOf(s.queues, e)| <= MAX_OFFLINE_MESSAGES;
    }
  }

  lemma FinishConserves(s: State, d: nat)
    requires Conserved(s) && d in s.flights && s.flights[d].pending == []
    ensures Conserved(s.(flights := s.flights - {d}))
  {
    var t := s.(flights := s.flights - {d});
    OthersStay(s, t, {}, Expired);
    forall k | 0 <= k < |t.accepted| ensures Found(t, k) {
      hide Box;
      assert Found(s, k);
    }
  }

  /** These states differ in windows and stores at most. */
  predicate SameMessages(s: State, t: State) {
    && t.queues == s.queues && t.flights == s.flights && t.received == s.received
    && t.accepted == s.accepted && t.places == s.places
  }

  lemma SameMessagesConserve(s: State, t: State)
    requires Conserved(s) && SameMessages(s, t)
    ensures Conserved(t)
  {
    OthersStay(s, t, {}, Expired);
    forall k | 0 <= k < |t.accepted| ensures Found(t, k) {
      assert Found(s, k);
    }
  }

  lemma QueueConserves(s: State, id: nat)
    requires Conserved(s) && QueuesBounded(s) && id in s.stores
    ensures Conserved(AfterQueue(s, id)) && QueuesBounded(AfterQueue(s, id))
  {
    hide Conserved, AfterPrune, AfterStored, StoreIn;
    var left := WithoutStore(s, id);
    SameMessagesConserve(s, left);
    PruneConserves(left, s.stores[id].now);
    PruneBounded(left, s.stores[id].now);
    StoredConserves(left, NewMessage(s, s.stores[id]));
  }

  lemma StepConserves(s: State, e: Event)
    requires Conserved(s) && QueuesBounded(s) && Enabled(s, e)
    ensures Conserved(Step(s, e)) && QueuesBounded(Step(s, e))
  {
    hide Conserved, AfterPutBack, AfterQueue, PassGate, TakeFrom;
    match e
    case ReadClock(_, _, _, _, _) => SameMessagesConserve(s, Step(s, e));
    case Gate(_) => SameMessagesConserve(s, Step(s, e));
    case Queue(id) => QueueConserves(s, id);
    case Take(d, ext, now) =>
      TakeConserves(s, d, ext, now);
      TakeBounded(s, d, ext, now);
    case SendOk(d) => SendConserves(s, d);
    case PutBackPending(d) => PutBackConserves(s, d);
    case Finish(d) => FinishConserves(s, d);
  }

  lemma TakeBounded(s: State, d: nat, ext: string, now: nat)
    requires QueuesBounded(s)
    ensures QueuesBounded(AfterTake(s, d, ext, now))
  {
    forall e ensures |QueueOf(AfterTake(s, d, ext, now).queues, e)| <= MAX_OFFLINE_MESSAGES {
      assert |QueueOf(s.queues, e)| <= MAX_OFFLINE_MESSAGES;
    }
  }

  /** In every interleaving, every accepted message is in exactly one place, and no queue exceeds its limit. */
  lemma {:induction false} RunConserves(states: seq<State>, events: seq<Event>)
    requires Run(states, events)
    ensures forall i :: 0 <= i < |states| ==> Conserved(states[i]) && QueuesBounded(states[i])
    decreases |events|
  {
    hide Step, Conserved, QueuesBounded, Enabled;
    if events == [] {
      InitiallyConserved();
    } else {
      var n := |events| - 1;
      RunConserves(states[..n + 1], events[..n]);
      assert states[..n + 1][n] == states[n] && states[..n + 1] + [states[n + 1]] == states;
      StepConserves(states[n], events[n]);
      forall i | 0 <= i < |states| ensures Conserved(states[i]) && QueuesBounded(states[i]) {
        if i <= n { assert states[i] == states[..n + 1][i]; }
      }
    }
  }

  lemma InitiallyConserved()
    ensures Conserved(INITIAL) && QueuesBounded(INITIAL)
  {
  }

  /** What being in one place means: the containers that hold a message are exactly the one its place names. */
  lemma PlaceDecides(s: State, k: nat)
    requires Conserved(s) && k < |s.accepted|
    ensures var m, place := s.accepted[k], s.places[k];
      && (forall ext :: m in QueueOf(s.queues, ext) <==> place == Queued(ext))
      && (forall d :: d in s.flights ==> (m in s.flights[d].pending <==> place == InFlight(d)))
      && (forall ext :: m in ReceivedBy(s, ext) <==> place == Delivered(ext))
      && (forall ext :: m in ReceivedBy(s, ext) ==> m.callee == ext)
  {
    var m, place := s.accepted[k], s.places[k];
    assert Found(s, k);
    forall ext ensures m in QueueOf(s.queues, ext) <==> place == Queued(ext) {
      assert Box(s, QueueOf(s.queues, ext), Queued(ext), ext);
    }
    forall ext ensures m in ReceivedBy(s, ext) <==> place == Delivered(ext)
      ensures m in ReceivedBy(s, ext) ==> m.callee == ext
    {
      assert Box(s, ReceivedBy(s, ext), Delivered(ext), ext);
    }
  }
}
