/** The store of offline messages: what each lock region does to the queues and the sender windows. */
module OfflineMessages {
  import opened Seqs
  import opened Wrappers

  const MAX_OFFLINE_MESSAGES := 100
  const MAX_TOTAL_OFFLINE_MESSAGES := 10000
  const OFFLINE_MSG_TTL_SECS := 86400
  const SENDER_RATE_WINDOW_SECS := 60
  const SENDER_RATE_LIMIT := 120
  const SENDER_OFFLINE_QUOTA := 500
  const U64_MAX := 0xFFFF_FFFF_FFFF_FFFF

  /** A stored message. `number` and `callee` are not stored by the source: they say which acceptance this was,
      counting from 0, and whom the message was for, so that order and destination can be spoken of. */
  datatype Message = Message(from: string, text: string, receivedAt: nat, callee: string, number: nat)

  datatype Window = Window(start: nat, count: nat)

  type Queues = map<string, seq<Message>>
  type Rates = map<string, Window>

  datatype StoreOutcome = Stored | RateLimited | QuotaExceeded | CapacityFull

  function QueueOf(queues: Queues, ext: string): seq<Message> {
    if ext in queues then queues[ext] else []
  }

  /** Not yet expired; the sum saturates. */
  predicate IsFresh(m: Message, now: nat) {
    now < if m.receivedAt + OFFLINE_MSG_TTL_SECS > U64_MAX then U64_MAX else m.receivedAt + OFFLINE_MSG_TTL_SECS
  }

  function KeepFresh(queue: seq<Message>, now: nat): (r: seq<Message>)
    ensures |r| <= |queue|
    ensures forall m :: m in r <==> m in queue && IsFresh(m, now)
  {
    if queue == [] then []
    else
      assert forall m :: m in queue <==> m == queue[0] || m in queue[1..];
      (if IsFresh(queue[0], now) then [queue[0]] else []) + KeepFresh(queue[1..], now)
  }

  /** `prune_expired`: drops expired messages, and the queues this empties. */
  function Prune(queues: Queues, now: nat): Queues {
    map ext | ext in queues && KeepFresh(queues[ext], now) != [] :: KeepFresh(queues[ext], now)
  }

  /** `merge_back`: undelivered messages go before newer ones, and the oldest are cut off beyond the queue limit. */
  function Merge(pending: seq<Message>, existing: seq<Message>): (r: seq<Message>)
    ensures |r| <= MAX_OFFLINE_MESSAGES
  {
    var all := pending + existing;
    if |all| <= MAX_OFFLINE_MESSAGES then all else all[|all| - MAX_OFFLINE_MESSAGES..]
  }

  // ----- totals over all queues -----

  ghost function Total(queues: Queues, size: seq<Message> -> nat): nat {
    if queues == map[] then 0
    else
      var ext :| ext in queues;
      size(queues[ext]) + Total(queues - {ext}, size)
  }

  lemma {:induction false} TotalWithout(queues: Queues, size: seq<Message> -> nat, ext: string)
    requires ext in queues
    ensures Total(queues, size) == size(queues[ext]) + Total(queues - {ext}, size)
    decreases |queues|
  {
    var first :| first in queues && Total(queues, size) == size(queues[first]) + Total(queues - {first}, size);
    if first != ext {
      TotalWithout(queues - {first}, size, ext);
      TotalWithout(queues - {ext}, size, first);
      assert queues - {first} - {ext} == queues - {ext} - {first};
    }
  }

  function CountFrom(queue: seq<Message>, from: string): (n: nat)
    ensures n <= |queue|
  {
    if queue == [] then 0 else (if queue[0].from == from then 1 else 0) + CountFrom(queue[1..], from)
  }

  function CounterOf(from: string): seq<Message> -> nat { q => CountFrom(q, from) }

  function LengthOf(queue: seq<Message>): nat { |queue| }

  /** How many stored messages a sender has, and how many there are at all. */
  ghost function HeldBy(queues: Queues, from: string): nat { Total(queues, CounterOf(from)) }

  ghost function HeldInAll(queues: Queues): nat { Total(queues, LengthOf) }

  // ----- the lock regions -----

  /** The sender's window at this time: a new one when there is none or the old one is over. */
  function CurrentWindow(rates: Rates, from: string, now: nat): Window {
    if from !in rates || now >= rates[from].start + SENDER_RATE_WINDOW_SECS then Window(now, 0) else rates[from]
  }

  /** The rate region: counts this attempt unless the window is used up. */
  function PassGate(rates: Rates, from: string, now: nat): (bool, Rates) {
    var w := CurrentWindow(rates, from, now);
    if w.count >= SENDER_RATE_LIMIT then (false, rates[from := w]) else (true, rates[from := w.(count := w.count + 1)])
  }

  /** A queue with a new message at the end, its oldest dropped if it was full. */
  function Enqueue(queue: seq<Message>, m: Message): seq<Message> {
    (if |queue| >= MAX_OFFLINE_MESSAGES then queue[1..] else queue) + [m]
  }

  /** The queue region of a store that passed the rate gate. */
  ghost function StoreIn(queues: Queues, m: Message): (StoreOutcome, Queues) {
    var pruned := Prune(queues, m.receivedAt);
    if HeldBy(pruned, m.from) >= SENDER_OFFLINE_QUOTA then (QuotaExceeded, pruned)
    else if HeldInAll(pruned) >= MAX_TOTAL_OFFLINE_MESSAGES then (CapacityFull, pruned)
    else (Stored, pruned[m.callee := Enqueue(QueueOf(pruned, m.callee), m)])
  }

  /** The region that takes a queue for delivery; expired messages are dropped on the way. */
  function TakeFrom(queues: Queues, ext: string, now: nat): (seq<Message>, Queues) {
    (KeepFresh(QueueOf(queues, ext), now), queues - {ext})
  }

  function PutBackIn(queues: Queues, ext: string, pending: seq<Message>): Queues {
    queues[ext := Merge(pending, QueueOf(queues, ext))]
  }

  // ----- the store as it runs -----

  method MergeBack(queue: seq<Message>, pending: seq<Message>) returns (r: seq<Message>)
    ensures r == Merge(pending, queue)
  {
    var combined := pending + queue;
    ghost var all := combined;
    while |combined| > MAX_OFFLINE_MESSAGES
      invariant |combined| <= |all| && combined == all[|all| - |combined|..]
      invariant |all| >= MAX_OFFLINE_MESSAGES ==> |combined| >= MAX_OFFLINE_MESSAGES
      invariant |all| < MAX_OFFLINE_MESSAGES ==> combined == all
    {
      combined := combined[1..];
    }
    return combined;
  }

  /** Adds up a size over all queues. */
  method AddUp(queues: Queues, size: seq<Message> -> nat) returns (n: nat)
    ensures n == Total(queues, size)
  {
    n := 0;
    var left := queues;
    while left != map[]
      invariant n + Total(left, size) == Total(queues, size)
      decreases |left|
    {
      var ext :| ext in left;
      TotalWithout(left, size, ext);
      n := n + size(left[ext]);
      left := left - {ext};
    }
  }

  class OfflineStore {
    var queues: Queues
    var rates: Rates

    constructor ()
      ensures queues == map[] && rates == map[]
    {
      queues, rates := map[], map[];
    }

    /** The rate region of `store_offline_message`. */
    method PassRateGate(from: string, now: nat) returns (ok: bool)
      modifies `rates
      ensures (ok, rates) == PassGate(old(rates), from, now)
    {
      if from !in rates {
        rates := rates[from := Window(now, 0)];
      }
      if now >= rates[from].start + SENDER_RATE_WINDOW_SECS {
        rates := rates[from := Window(now, 0)];
      }
      var w := rates[from];
      assert w == CurrentWindow(old(rates), from, now) && rates == old(rates)[from := w];
      if w.count >= SENDER_RATE_LIMIT {
        return false;
      }
      rates := rates[from := w.(count := w.count + 1)];
      assert rates == old(rates)[from := w.(count := w.count + 1)];
      return true;
    }

    /** `store_offline_message`; the message carries the time read at the start. */
    method StoreOfflineMessage(m: Message) returns (outcome: StoreOutcome)
      modifies this
      ensures rates == PassGate(old(rates), m.from, m.receivedAt).1
      ensures (outcome, queues)
           == if PassGate(old(rates), m.from, m.receivedAt).0 then StoreIn(old(queues), m)
               else (RateLimited, old(queues))
    {
      hide PassGate, Prune, Total, QueueOf;
      var ok := PassRateGate(m.from, m.receivedAt);
      if !ok {
        return RateLimited;
      }
      queues := Prune(queues, m.receivedAt);
      var senderTotal := AddUp(queues, CounterOf(m.from));
      if senderTotal >= SENDER_OFFLINE_QUOTA {
        return QuotaExceeded;
      }
      var total := AddUp(queues, LengthOf);
      if total >= MAX_TOTAL_OFFLINE_MESSAGES {
        return CapacityFull;
      }
      var queue := QueueOf(queues, m.callee);
      if |queue| >= MAX_OFFLINE_MESSAGES {
        queue := queue[1..];
      }
      queues := queues[m.callee := queue + [m]];
      return Stored;
    }

    method TakeQueue(ext: string, now: nat) returns (messages: seq<Message>)
      modifies `queues
      ensures (messages, queues) == TakeFrom(old(queues), ext, now)
    {
      messages := KeepFresh(QueueOf(queues, ext), now);
      queues := queues - {ext};
    }

    method PutBack(ext: string, pending: seq<Message>)
      modifies `queues
      ensures queues == PutBackIn(old(queues), ext, pending)
    {
      var merged := MergeBack(QueueOf(queues, ext), pending);
      queues := queues[ext := merged];
    }

    /** `deliver_offline_messages` run without interruption: `sendWorks` says how many sends in a row succeed, and is
        `None` when there is no connection. */
    method DeliverOfflineMessages(ext: string, now: nat, sendWorks: Option<nat>) returns (delivered: seq<Message>)
      modifies `queues
      ensures (delivered, queues) == Deliver(old(queues), ext, now, sendWorks)
      ensures Handover(old(queues), ext, now, sendWorks, delivered, queues)
    {
      DeliverHandsOver(queues, ext, now, sendWorks);
      hide Handover;
      var pending := TakeQueue(ext, now);
      delivered := [];
      if pending == [] {
        return;
      }
      if sendWorks.None? {
        PutBack(ext, pending);
        return;
      }
      ghost var all := pending;
      while pending != []
        invariant all == delivered + pending && |delivered| <= sendWorks.value
        invariant queues == old(queues) - {ext}
        decreases |pending|
      {
        if |delivered| == sendWorks.value {
          PutBack(ext, pending);
          assert delivered == all[..sendWorks.value] && pending == all[sendWorks.value..];
          return;
        }
        delivered := delivered + [pending[0]];
        pending := pending[1..];
      }
      EmptyConcat(delivered);
    }
  }

  /** What one uninterrupted delivery hands over, and the queues it leaves. */
  function Deliver(queues: Queues, ext: string, now: nat, sendWorks: Option<nat>): (seq<Message>, Queues) {
    var (messages, rest) := TakeFrom(queues, ext, now);
    var sent := if sendWorks.None? then 0 else if sendWorks.value > |messages| then |messages| else sendWorks.value;
    (messages[..sent], if sent == |messages| then rest else PutBackIn(rest, ext, messages[sent..]))
  }

  /** What a delivery owes to the extension: the fresh messages of its queue split, in their order, into those handed
      over, as many as sends work, and those that stay, of which the oldest go beyond the limit; other queues stay. */
  ghost predicate Handover(before: Queues, ext: string, now: nat, sendWorks: Option<nat>,
      delivered: seq<Message>, after: Queues)
  {
    var kept, left := KeepFresh(QueueOf(before, ext), now), QueueOf(after, ext);
    && |delivered| == (if sendWorks.None? then 0 else if sendWorks.value < |kept| then sendWorks.value else |kept|)
    && (if |kept| - |delivered| <= 100 then delivered + left == kept
        else |left| == 100 && delivered <= kept && left == kept[|kept| - 100..])
    && forall other :: other != ext ==> QueueOf(after, other) == QueueOf(before, other)
  }

  lemma DeliverHandsOver(queues: Queues, ext: string, now: nat, sendWorks: Option<nat>)
    ensures var (delivered, after) := Deliver(queues, ext, now, sendWorks);
      Handover(queues, ext, now, sendWorks, delivered, after)
  {
    hide KeepFresh, Merge;
    var kept := KeepFresh(QueueOf(queues, ext), now);
    var (delivered, after) := Deliver(queues, ext, now, sendWorks);
    var pending := kept[|delivered|..];
    assert kept == delivered + pending;
    if pending == [] {
      assert after == queues - {ext} && QueueOf(after, ext) == [];
      EmptyConcat(delivered);
    } else {
      assert after == (queues - {ext})[ext := Merge(pending, [])];
      MergeAlone(pending);
    }
  }

  lemma MergeAlone(pending: seq<Message>)
    ensures Merge(pending, []) == if |pending| <= 100 then pending else pending[|pending| - 100..]
  {
    EmptyConcat(pending);
  }

  /** Which messages count as fresh, one by one and in order: those not yet a day old, until the end of time. */
  lemma {:induction false} FreshOneByOne(m: Message, queue: seq<Message>, now: nat)
    ensures KeepFresh([m], now)
         == if now < m.receivedAt + 86400 && now < 0xFFFF_FFFF_FFFF_FFFF then [m] else []
    ensures KeepFresh([m] + queue, now) == KeepFresh([m], now) + KeepFresh(queue, now)
  {
    TailOfConcat([m], queue);
    EmptyConcat(queue);
    assert [m][1..] == [];
  }

  // ----- what a store does -----

  /** The rate gate: a sender whose window is younger than 60 seconds passes while it has counted fewer than 120; any
      other passes and opens a window. Refused attempts are not counted, and other senders' windows stay. */
  lemma GateExactly(rates: Rates, from: string, now: nat)
    ensures var (ok, after) := PassGate(rates, from, now);
      var young := from in rates && now < rates[from].start + 60;
      && (ok <==> !young || rates[from].count < 120)
      && after.Keys == rates.Keys + {from}
      && (forall other :: other in rates && other != from ==> after[other] == rates[other])
      && after[from].start == (if young then rates[from].start else now)
      && after[from].count == (if young then rates[from].count else 0) + if ok then 1 else 0
  {
  }

  function SentBy(from: string): Message -> bool { (m: Message) => m.from == from }

  function Any(): Message -> bool { _ => true }

  /** The positions in a queue, and in all queues, of the messages with some property. */
  function Spots(queue: seq<Message>, p: Message -> bool): set<nat> {
    set i: nat | i < |queue| && p(queue[i])
  }

  function Slots(queues: Queues, p: Message -> bool): set<(string, nat)> {
    set ext, i: nat | ext in queues && i < |queues[ext]| && p(queues[ext][i]) :: (ext, i)
  }

  lemma SpotsOfConcat(a: seq<Message>, m: Message, p: Message -> bool)
    ensures |Spots(a + [m], p)| == |Spots(a, p)| + if p(m) then 1 else 0
  {
    if p(m) {
      assert Spots(a + [m], p) == Spots(a, p) + {|a|};
    } else {
      assert Spots(a + [m], p) == Spots(a, p);
    }
  }

  lemma {:induction false} CountIsSpots(queue: seq<Message>, from: string)
    ensures CountFrom(queue, from) == |Spots(queue, SentBy(from))|
    ensures LengthOf(queue) == |Spots(queue, Any())|
    decreases |queue|
  {
    if queue == [] {
      assert Spots(queue, SentBy(from)) == {} && Spots(queue, Any()) == {};
    } else {
      var n := |queue| - 1;
      CountIsSpots(queue[..n], from);
      assert queue[..n] + [queue[n]] == queue;
      CountFromOfConcat(queue[..n], [queue[n]], from);
      assert [queue[n]][1..] == [];
      SpotsOfConcat(queue[..n], queue[n], SentBy(from));
      SpotsOfConcat(queue[..n], queue[n], Any());
    }
  }

  lemma SlotsWithout(queues: Queues, p: Message -> bool, ext: string)
    requires ext in queues
    ensures |Slots(queues, p)| == |Spots(queues[ext], p)| + |Slots(queues - {ext}, p)|
  {
    var here, rest := Paired(ext, Spots(queues[ext], p)), Slots(queues - {ext}, p);
    assert Slots(queues, p) == here + rest && here !! rest;
    PairedCount(ext, Spots(queues[ext], p));
  }

  function Paired(ext: string, spots: set<nat>): set<(string, nat)> { set i | i in spots :: (ext, i) }

  lemma {:induction false} PairedCount(ext: string, spots: set<nat>)
    ensures |Paired(ext, spots)| == |spots|
  {
    if spots == {} {
      assert Paired(ext, spots) == {};
    } else {
      var i :| i in spots;
      PairedCount(ext, spots - {i});
      assert Paired(ext, spots) == Paired(ext, spots - {i}) + {(ext, i)};
    }
  }

  lemma {:induction false} TotalIsSlots(queues: Queues, size: seq<Message> -> nat, p: Message -> bool)
    requires forall q :: size(q) == |Spots(q, p)|
    ensures Total(queues, size) == |Slots(queues, p)|
    decreases |queues|
  {
    if queues == map[] {
      assert Slots(queues, p) == {};
    } else {
      var ext :| ext in queues;
      TotalWithout(queues, size, ext);
      SlotsWithout(queues, p, ext);
      TotalIsSlots(queues - {ext}, size, p);
    }
  }

  /** What a sender holds, and what the store holds, is how many messages there are, over all queues. */
  lemma HeldExactly(queues: Queues, from: string)
    ensures HeldBy(queues, from) == |Slots(queues, SentBy(from))|
    ensures HeldInAll(queues) == |Slots(queues, Any())|
  {
    forall q ensures CounterOf(from)(q) == |Spots(q, SentBy(from))| { CountIsSpots(q, from); }
    forall q ensures LengthOf(q) == |Spots(q, Any())| { CountIsSpots(q, from); }
    TotalIsSlots(queues, CounterOf(from), SentBy(from));
    TotalIsSlots(queues, LengthOf, Any());
  }

  lemma PrunedQueue(queues: Queues, now: nat, ext: string)
    ensures QueueOf(Prune(queues, now), ext) == KeepFresh(QueueOf(queues, ext), now)
  {
  }

  /** These queues hold the messages that are still fresh, in their order. */
  ghost predicate AreFresh(kept: Queues, queues: Queues, now: nat) {
    forall ext :: QueueOf(kept, ext) == KeepFresh(QueueOf(queues, ext), now)
  }

  lemma SameSlots(a: Queues, b: Queues, p: Message -> bool)
    requires forall ext :: QueueOf(a, ext) == QueueOf(b, ext)
    ensures Slots(a, p) == Slots(b, p)
  {
    forall ext, i: nat ensures (ext, i) in Slots(a, p) <==> (ext, i) in Slots(b, p) {
      assert QueueOf(a, ext) == QueueOf(b, ext);
    }
  }

  /** A store that has passed the gate keeps the fresh messages of every queue; it is refused when 500 of them are from
      its sender, or 10000 are held in all; otherwise its message goes to the end of its queue, whose oldest message
      leaves if there are 100 or more. */
  lemma StoreExactly(queues: Queues, m: Message, kept: Queues)
    requires AreFresh(kept, queues, m.receivedAt)
    ensures var (outcome, after) := StoreIn(queues, m);
      var mine, all, queue := |Slots(kept, SentBy(m.from))|, |Slots(kept, Any())|, QueueOf(kept, m.callee);
      && outcome == (if mine >= 500 then QuotaExceeded else if all >= 10000 then CapacityFull else Stored)
      && (forall ext :: ext != m.callee || outcome != Stored ==> QueueOf(after, ext) == QueueOf(kept, ext))
      && (outcome == Stored ==>
            QueueOf(after, m.callee) == (if |queue| >= 100 then queue[1..] else queue) + [m])
  {
    var pruned := Prune(queues, m.receivedAt);
    HeldExactly(pruned, m.from);
    forall ext ensures QueueOf(pruned, ext) == QueueOf(kept, ext) {
      PrunedQueue(queues, m.receivedAt, ext);
    }
    SameSlots(pruned, kept, SentBy(m.from));
    SameSlots(pruned, kept, Any());
    hide Total, KeepFresh, Slots, SentBy, Any, Prune, HeldBy, HeldInAll, AreFresh;
  }

  // ----- quotas when stores and deliveries run one at a time -----

  lemma {:induction false} CountFromOfConcat(a: seq<Message>, b: seq<Message>, from: string)
    ensures CountFrom(a + b, from) == CountFrom(a, from) + CountFrom(b, from)
  {
    if a == [] {
      EmptyConcat(b);
    } else {
      TailOfConcat(a, b);
      CountFromOfConcat(a[1..], b, from);
    }
  }

  /** A size that dropping messages, from the front or because they expired, never increases. */
  ghost predicate Shrinks(size: seq<Message> -> nat) {
    && size([]) == 0
    && (forall q, now :: size(KeepFresh(q, now)) <= size(q))
    && (forall q: seq<Message>, i: nat :: i <= |q| ==> size(q[i..]) <= size(q))
  }

  lemma {:induction false} KeepFreshCountsLess(queue: seq<Message>, now: nat, from: string)
    ensures CountFrom(KeepFresh(queue, now), from) <= CountFrom(queue, from)
  {
    if queue != [] {
      KeepFreshCountsLess(queue[1..], now, from);
      CountFromOfConcat(if IsFresh(queue[0], now) then [queue[0]] else [], KeepFresh(queue[1..], now), from);
    }
  }

  lemma CountFromShrinks(from: string)
    ensures Shrinks(CounterOf(from))
  {
    var size: seq<Message> -> nat := CounterOf(from);
    forall q, now ensures size(KeepFresh(q, now)) <= size(q) {
      KeepFreshCountsLess(q, now, from);
    }
    forall q: seq<Message>, i: nat | i <= |q| ensures size(q[i..]) <= size(q) {
      CountFromOfConcat(q[..i], q[i..], from);
      assert q[..i] + q[i..] == q;
    }
  }

  lemma LengthShrinks()
    ensures Shrinks(LengthOf)
  {
  }

  lemma PruneWithout(queues: Queues, now: nat, ext: string)
    ensures Prune(queues - {ext}, now) == Prune(queues, now) - {ext}
  {
  }

  lemma {:induction false} PruneShrinks(queues: Queues, now: nat, size: seq<Message> -> nat)
    requires Shrinks(size)
    ensures Total(Prune(queues, now), size) <= Total(queues, size)
    decreases |queues|
  {
    if queues == map[] {
      assert Prune(queues, now) == map[];
    } else {
      var ext :| ext in queues;
      TotalWithout(queues, size, ext);
      PruneShrinks(queues - {ext}, now, size);
      PruneWithout(queues, now, ext);
      PruneOneShrinks(queues, now, size, ext);
    }
  }

  lemma PruneOneShrinks(queues: Queues, now: nat, size: seq<Message> -> nat, ext: string)
    requires Shrinks(size) && ext in queues
    ensures var pruned := Prune(queues, now); Total(pruned, size) <= size(queues[ext]) + Total(pruned - {ext}, size)
  {
    hide Total;
    var pruned := Prune(queues, now);
    if ext in pruned {
      TotalWithout(pruned, size, ext);
    } else {
      assert pruned - {ext} == pruned;
    }
  }

  lemma TotalOfUpdate(queues: Queues, size: seq<Message> -> nat, ext: string, queue: seq<Message>)
    requires size([]) == 0
    ensures Total(queues[ext := queue], size) + size(QueueOf(queues, ext)) == Total(queues, size) + size(queue)
  {
    var updated := queues[ext := queue];
    TotalWithout(updated, size, ext);
    if ext in queues {
      TotalWithout(queues, size, ext);
      assert updated - {ext} == queues - {ext};
    } else {
      assert updated - {ext} == queues;
    }
  }

  lemma DeliverShrinks(queues: Queues, ext: string, now: nat, sendWorks: Option<nat>, size: seq<Message> -> nat)
    requires Shrinks(size)
    ensures Total(Deliver(queues, ext, now, sendWorks).1, size) <= Total(queues, size)
  {
    var rest := queues - {ext};
    if ext in queues {
      TotalWithout(queues, size, ext);
    } else {
      assert rest == queues;
    }
    var (messages, _) := TakeFrom(queues, ext, now);
    var (delivered, after) := Deliver(queues, ext, now, sendWorks);
    if |delivered| < |messages| {
      var undelivered := messages[|delivered|..];
      EmptyConcat(undelivered);
      TotalOfUpdate(rest, size, ext, Merge(undelivered, []));
    }
  }

  /** One call at a time: a store, or a delivery. */
  datatype Call = Store(m: Message) | DeliverTo(ext: string, now: nat, sendWorks: Option<nat>)

  /** The queues after one call; the rate gate may turn a store away before it looks at them. */
  ghost predicate Calls(before: Queues, call: Call, after: Queues) {
    match call
    case Store(m) => after == before || after == StoreIn(before, m).1
    case DeliverTo(ext, now, sendWorks) => after == Deliver(before, ext, now, sendWorks).1
  }

  ghost predicate WithinQuotas(queues: Queues) {
    && (forall from :: HeldBy(queues, from) <= 500)
    && HeldInAll(queues) <= 10000
  }

  lemma StoreKeepsQuotas(queues: Queues, m: Message)
    requires WithinQuotas(queues)
    ensures WithinQuotas(StoreIn(queues, m).1)
  {
    var pruned := Prune(queues, m.receivedAt);
    var after := StoreIn(queues, m).1;
    LengthShrinks();
    PruneShrinks(queues, m.receivedAt, LengthOf);
    var queue := QueueOf(pruned, m.callee);
    TotalOfUpdate(pruned, LengthOf, m.callee, Enqueue(queue, m));
    forall from ensures HeldBy(after, from) <= SENDER_OFFLINE_QUOTA {
      CountFromShrinks(from);
      PruneShrinks(queues, m.receivedAt, CounterOf(from));
      assert HeldBy(queues, from) <= SENDER_OFFLINE_QUOTA;
      TotalOfUpdate(pruned, CounterOf(from), m.callee, Enqueue(queue, m));
      EnqueueCounts(queue, m, from);
    }
  }

  lemma EnqueueCounts(queue: seq<Message>, m: Message, from: string)
    ensures CountFrom(Enqueue(queue, m), from) <= CountFrom(queue, from) + if m.from == from then 1 else 0
  {
    var kept := if |queue| >= MAX_OFFLINE_MESSAGES then queue[1..] else queue;
    CountFromOfConcat(kept, [m], from);
    assert [m][1..] == [];
  }

  lemma CallKeepsQuotas(before: Queues, call: Call, after: Queues)
    requires WithinQuotas(before) && Calls(before, call, after)
    ensures WithinQuotas(after)
  {
    hide Total, Prune, Enqueue;
    match call
    case Store(m) => StoreKeepsQuotas(before, m);
    case DeliverTo(ext, now, sendWorks) =>
      LengthShrinks();
      DeliverShrinks(before, ext, now, sendWorks, LengthOf);
      forall from ensures HeldBy(after, from) <= SENDER_OFFLINE_QUOTA {
        CountFromShrinks(from);
        assert HeldBy(before, from) <= SENDER_OFFLINE_QUOTA;
        DeliverShrinks(before, ext, now, sendWorks, CounterOf(from));
      }
  }

  /** With stores and deliveries run one at a time, no sender ever holds more than its quota, nor the whole
      store more than its capacity. */
  lemma {:induction false} QuotasHoldOverRuns(states: seq<Queues>, calls: seq<Call>)
    requires |states| == |calls| + 1 && WithinQuotas(states[0])
    requires forall i :: 0 <= i < |calls| ==> Calls(states[i], calls[i], states[i + 1])
    ensures forall i :: 0 <= i < |states| ==> WithinQuotas(states[i])
    decreases |calls|
  {
    hide WithinQuotas, Calls;
    if calls != [] {
      CallKeepsQuotas(states[0], calls[0], states[1]);
      QuotasHoldOverRuns(states[1..], calls[1..]);
      assert forall i :: 1 <= i < |states| ==> states[i] == states[1..][i - 1];
    }
  }

  /** In particular from the empty store on. */
  lemma QuotasHoldFromTheStart(states: seq<Queues>, calls: seq<Call>)
    requires |states| == |calls| + 1 && states[0] == map[]
    requires forall i :: 0 <= i < |calls| ==> Calls(states[i], calls[i], states[i + 1])
    ensures forall i :: 0 <= i < |states| ==> WithinQuotas(states[i])
  {
    assert WithinQuotas(map[]);
    hide WithinQuotas, Calls;
    QuotasHoldOverRuns(states, calls);
  }
}
