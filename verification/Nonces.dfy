/** Issued nonces: which challenge an accepted nonce refers to, and in which order its counts are accepted. */
module Nonces {
  import opened Seqs
  import opened Words
  import opened Wrappers

  const NONCE_TTL_SECS := 300
  const MAX_ISSUED_NONCES := 100_000

  datatype Entry = Entry(issuedAt: nat, ip: string, maxNc: nat)

  type Table = map<string, Entry>

  /** Less than the time to live has passed since a time. */
  predicate Recent(issuedAt: nat, now: nat) { SaturatingSub(now, issuedAt) < NONCE_TTL_SECS }

  function KeepRecent(table: Table, now: nat): (r: Table)
    ensures r.Keys <= table.Keys
  {
    map n | n in table && Recent(table[n].issuedAt, now) :: table[n]
  }

  /** The table with room for one more: when full, expired entries leave, and all of them if that is not enough. */
  function WithRoom(table: Table, now: nat): Table {
    if |table| < MAX_ISSUED_NONCES then table
    else if |KeepRecent(table, now)| < MAX_ISSUED_NONCES then KeepRecent(table, now)
    else map[]
  }

  function AfterChallenge(table: Table, nonce: string, ip: string, now: nat): Table {
    WithRoom(table, now)[nonce := Entry(now, ip, 0)]
  }

  /** The verdict on a nonce sent back with a count, and the table after it. */
  function Judge(table: Table, nonce: string, ip: string, nc: Option<nat>, qop: Option<string>, now: nat)
    : (bool, Table)
  {
    if nonce !in table || table[nonce].ip != ip then (false, table)
    else if !Recent(table[nonce].issuedAt, now) then (false, table - {nonce})
    else if qop != Some("auth") then (true, table)
    else if NcOf(nc) <= table[nonce].maxNc then (false, table)
    else (true, table[nonce := table[nonce].(maxNc := NcOf(nc))])
  }

  /** A missing or unreadable count reads as 0. */
  function NcOf(nc: Option<nat>): nat { if nc.Some? then nc.value else 0 }

  class NonceTable {
    var nonces: Table

    constructor ()
      ensures nonces == map[]
    {
      nonces := map[];
    }

    /** The table region of `digest_challenge`. */
    method Challenge(nonce: string, ip: string, now: nat)
      modifies this
      ensures nonces == AfterChallenge(old(nonces), nonce, ip, now)
    {
      if |nonces| >= MAX_ISSUED_NONCES {
        nonces := KeepRecent(nonces, now);
        if |nonces| >= MAX_ISSUED_NONCES {
          nonces := map[];
        }
      }
      nonces := nonces[nonce := Entry(now, ip, 0)];
    }

    /** `validate_nonce`. */
    method ValidateNonce(nonce: string, ip: string, nc: Option<nat>, qop: Option<string>, now: nat) returns (ok: bool)
      modifies this
      ensures (ok, nonces) == Judge(old(nonces), nonce, ip, nc, qop, now)
    {
      if nonce !in nonces {
        return false;
      }
      var entry := nonces[nonce];
      if entry.ip != ip {
        return false;
      }
      var expired := SaturatingSub(now, entry.issuedAt) >= NONCE_TTL_SECS;
      if expired {
        nonces := nonces - {nonce};
        return false;
      }
      if qop == Some("auth") {
        var count := if nc.Some? then nc.value else 0;
        if count <= entry.maxNc {
          return false;
        }
        nonces := nonces[nonce := entry.(maxNc := count)];
      }
      return true;
    }

    /** The nonce region of `cleanup_expired`. */
    method CleanUp(now: nat)
      modifies this
      ensures nonces == KeepRecent(old(nonces), now)
    {
      nonces := KeepRecent(nonces, now);
    }
  }

  // ----- runs -----

  datatype Event =
    | Challenge(nonce: string, ip: string, now: nat)
    | Validate(nonce: string, ip: string, nc: Option<nat>, qop: Option<string>, now: nat)
    | CleanUp(now: nat)

  function Step(table: Table, e: Event): Table {
    match e
    case Challenge(nonce, ip, now) => AfterChallenge(table, nonce, ip, now)
    case Validate(nonce, ip, nc, qop, now) => Judge(table, nonce, ip, nc, qop, now).1
    case CleanUp(now) => KeepRecent(table, now)
  }

  /** The table after a whole history. */
  function TableAfter(events: seq<Event>): Table
    decreases |events|
  {
    if events == [] then map[] else Step(TableAfter(events[..|events| - 1]), events[|events| - 1])
  }

  /** The j-th event is a validation that succeeds. */
  predicate Accepted(events: seq<Event>, j: nat) {
    && j < |events| && events[j].Validate?
    && Judge(TableAfter(events[..j]), events[j].nonce, events[j].ip, events[j].nc, events[j].qop, events[j].now).0
  }

  /** A successful validation under qop=auth. */
  predicate Counted(events: seq<Event>, j: nat) { Accepted(events, j) && events[j].qop == Some("auth") }

  /** No nonce is issued twice. */
  predicate FreshNonces(events: seq<Event>) {
    forall i, j :: 0 <= i < j < |events| && events[i].Challenge? && events[j].Challenge? ==>
        events[i].nonce != events[j].nonce
  }

  /** No region before this one went by a later time. Each region goes by a time that was read before its lock was
      taken, so a clock that does not go back is not enough for this. */
  predicate NoneLater(events: seq<Event>, j: nat) {
    j < |events| && forall k :: 0 <= k < j ==> events[k].now <= events[j].now
  }

  /** The c-th event issued this nonce to this address at this time. */
  predicate Issued(events: seq<Event>, c: nat, nonce: string, ip: string, at: nat) {
    c < |events| && events[c] == Challenge(nonce, ip, at)
  }

  lemma TableAfterOneMore(events: seq<Event>, n: nat)
    requires n < |events|
    ensures TableAfter(events[..n + 1]) == Step(TableAfter(events[..n]), events[n])
  {
    assert events[..n + 1][..n] == events[..n];
  }

  /** An entry survives a step only as it was, except that a counted validation raises its count. */
  lemma StepEntries(table: Table, e: Event, nonce: string)
    requires nonce in Step(table, e) && !(e.Challenge? && e.nonce == nonce)
    ensures nonce in table
    ensures Step(table, e)[nonce].(maxNc := 0) == table[nonce].(maxNc := 0)
    ensures Step(table, e)[nonce].maxNc >= table[nonce].maxNc
    ensures (e.Validate? && e.nonce == nonce && e.qop == Some("auth")
             && Judge(table, nonce, e.ip, e.nc, e.qop, e.now).0) ==>
              Step(table, e)[nonce].maxNc == NcOf(e.nc) > table[nonce].maxNc
    ensures Step(table, e)[nonce] != table[nonce] ==>
              && e.Validate? && e.nonce == nonce && e.qop == Some("auth") && Step(table, e)[nonce].maxNc == NcOf(e.nc)
              && Judge(table, nonce, e.ip, e.nc, e.qop, e.now).0
  {
  }

  /** Every entry comes from a challenge. */
  lemma {:induction false} EntryWasIssued(events: seq<Event>, n: nat, nonce: string) returns (c: nat)
    requires n <= |events| && nonce in TableAfter(events[..n])
    ensures c < n && Issued(events, c, nonce, TableAfter(events[..n])[nonce].ip,
        TableAfter(events[..n])[nonce].issuedAt)
  {
    var k := n - 1;
    var table, e := TableAfter(events[..k]), events[k];
    TableAfterOneMore(events, k);
    hide TableAfter;
    if e.Challenge? && e.nonce == nonce {
      c := k;
    } else {
      StepEntries(table, e, nonce);
      c := EntryWasIssued(events, k, nonce);
    }
  }

  /** Every acceptance refers to an earlier challenge with that nonce to the same address, less than 300 s old. */
  lemma AcceptanceHasChallenge(events: seq<Event>, j: nat) returns (c: nat)
    requires Accepted(events, j)
    ensures c < j && events[c].Challenge? && events[c].nonce == events[j].nonce && events[c].ip == events[j].ip
    ensures Recent(events[c].now, events[j].now) && events[j].now < events[c].now + 300
    ensures NoneLater(events, j) ==> events[c].now <= events[j].now
  {
    c := EntryWasIssued(events, j, events[j].nonce);
    hide TableAfter;
  }

  /** An entry's count is not below any count accepted for its nonce. */
  lemma {:induction false} CountsBelowEntry(events: seq<Event>, n: nat, nonce: string, i: nat)
    requires n <= |events| && FreshNonces(events) && nonce in TableAfter(events[..n])
    requires i < n && Counted(events, i) && events[i].nonce == nonce
    ensures NcOf(events[i].nc) <= TableAfter(events[..n])[nonce].maxNc
  {
    var k := n - 1;
    var table, e := TableAfter(events[..k]), events[k];
    TableAfterOneMore(events, k);
    if e.Challenge? && e.nonce == nonce {
      var c := AcceptanceHasChallenge(events, i);
      assert false;
    } else {
      hide TableAfter;
      StepEntries(table, e, nonce);
      if i < k {
        CountsBelowEntry(events, k, nonce, i);
      }
    }
  }

  /** Replay protection over whole runs, whatever expires or is evicted: the counts accepted for one
      nonce under qop=auth strictly increase. */
  lemma CountsStrictlyIncrease(events: seq<Event>, i: nat, j: nat)
    requires FreshNonces(events) && i < j && Counted(events, i) && Counted(events, j)
    requires events[i].nonce == events[j].nonce
    ensures NcOf(events[i].nc) < NcOf(events[j].nc)
  {
    CountsBelowEntry(events, j, events[j].nonce, i);
    hide TableAfter;
  }

  /** The same request again at once is accepted exactly when its qop is not auth: only the count protects. */
  lemma ReplayExactly(table: Table, nonce: string, ip: string, nc: Option<nat>, qop: Option<string>, now: nat)
    requires Judge(table, nonce, ip, nc, qop, now).0
    ensures Judge(Judge(table, nonce, ip, nc, qop, now).1, nonce, ip, nc, qop, now).0 <==> qop != Some("auth")
  {
  }

  /** The table never exceeds its limit. */
  lemma {:induction false} TableStaysBounded(events: seq<Event>)
    ensures |TableAfter(events)| <= 100_000
    decreases |events|
  {
    if events != [] {
      var table, e := TableAfter(events[..|events| - 1]), events[|events| - 1];
      TableStaysBounded(events[..|events| - 1]);
      hide TableAfter;
      StepStaysBounded(table, e);
    }
  }

  lemma StepStaysBounded(table: Table, e: Event)
    requires |table| <= MAX_ISSUED_NONCES
    ensures |Step(table, e)| <= MAX_ISSUED_NONCES
  {
    FewerKeysFit(Step(table, e), table);
    match e
    case Challenge(nonce, ip, now) =>
      var room := WithRoom(table, now);
      FewerKeysFit(KeepRecent(table, now), table);
      assert |room| < MAX_ISSUED_NONCES;
      var after := room[nonce := Entry(now, ip, 0)];
      assert after.Keys == room.Keys + {nonce};
      assert |after.Keys| <= |room.Keys| + 1;
    case Validate(nonce, ip, nc, qop, now) =>
    case CleanUp(now) =>
  }

  lemma FewerKeysFit(a: Table, b: Table)
    ensures a.Keys <= b.Keys ==> |a| <= |b|
  {
    if a.Keys <= b.Keys {
      SubsetFits(a.Keys, b.Keys);
    }
  }

  // ----- which validations succeed -----

  /** No challenge so far had to clear the whole table. */
  predicate NeverCleared(events: seq<Event>) {
    forall k :: 0 <= k < |events| && events[k].Challenge? ==> RoomAt(TableAfter(events[..k]), events[k].now)
  }

  predicate RoomAt(table: Table, now: nat) {
    |table| < MAX_ISSUED_NONCES || |KeepRecent(table, now)| < MAX_ISSUED_NONCES
  }

  /** What the j-th event's validation should depend on: a live challenge to the same address, and under qop=auth a
      count above 0 and above all counts accepted for that nonce before. */
  ghost predicate Deserved(events: seq<Event>, j: nat)
    requires j < |events| && events[j].Validate?
  {
    var e := events[j];
    && (exists c :: 0 <= c < j && Issues(events, c, e))
    && (e.qop == Some("auth") ==>
          NcOf(e.nc) > 0 && forall i :: 0 <= i < j && Counted(events, i) && events[i].nonce == e.nonce ==>
                              NcOf(events[i].nc) < NcOf(e.nc))
  }

  /** The c-th event issued what this validation sends back, and it has not expired. */
  predicate Issues(events: seq<Event>, c: nat, e: Event)
    requires e.Validate?
  {
    && c < |events| && events[c].Challenge?
    && events[c].nonce == e.nonce && events[c].ip == e.ip && Recent(events[c].now, e.now)
  }

  /** This region takes what a challenge issued out of the table: by its expiry, or by clearing a full table. */
  predicate Removes(table: Table, e: Event, c: Event)
    requires c.Challenge?
  {
    match e
    case CleanUp(now) => !Recent(c.now, now)
    case Challenge(_, _, now) => |table| >= MAX_ISSUED_NONCES && (!RoomAt(table, now) || !Recent(c.now, now))
    case Validate(nonce, ip, _, _, now) => nonce == c.nonce && ip == c.ip && !Recent(c.now, now)
  }

  /** Some region after the challenge at c and before position n removes what it issued. */
  predicate RemovedBefore(events: seq<Event>, c: nat, n: nat)
    requires c < |events| && events[c].Challenge?
  {
    exists k :: c < k < n && k < |events| && Removes(TableAfter(events[..k]), events[k], events[c])
  }

  /** The entry of a challenge is there, with a count that some accepted validation carried or that is still 0. */
  ghost predicate HoldsEntry(events: seq<Event>, n: nat, c: nat)
    requires c < n <= |events| && events[c].Challenge?
  {
    var t, nonce := TableAfter(events[..n]), events[c].nonce;
    && nonce in t && t[nonce].ip == events[c].ip && t[nonce].issuedAt == events[c].now
    && (t[nonce].maxNc == 0 || exists i :: 0 <= i < n && CountedAs(events, i, nonce, t[nonce].maxNc))
  }

  predicate CountedAs(events: seq<Event>, i: nat, nonce: string, nc: nat) {
    Counted(events, i) && events[i].nonce == nonce && NcOf(events[i].nc) == nc
  }

  lemma StepRemoves(table: Table, e: Event, c: Event)
    requires c.Challenge? && c.nonce in table && table[c.nonce].ip == c.ip && table[c.nonce].issuedAt == c.now
    requires e.Challenge? ==> e.nonce != c.nonce
    ensures c.nonce in Step(table, e) <==> !Removes(table, e, c)
  {
  }

  lemma EntryGoesOn(events: seq<Event>, k: nat, c: nat)
    requires c < k < |events| && events[c].Challenge? && FreshNonces(events) && HoldsEntry(events, k, c)
    ensures Removes(TableAfter(events[..k]), events[k], events[c]) || HoldsEntry(events, k + 1, c)
    ensures events[c].nonce in TableAfter(events[..k + 1]) <==>
        !Removes(TableAfter(events[..k]), events[k], events[c])
  {
    var table, e, nonce := TableAfter(events[..k]), events[k], events[c].nonce;
    TableAfterOneMore(events, k);
    hide TableAfter;
    StepRemoves(table, e, events[c]);
    hide Removes;
    if nonce in Step(table, e) {
      StepEntries(table, e, nonce);
      if Step(table, e)[nonce] != table[nonce] {
        assert CountedAs(events, k, nonce, NcOf(e.nc));
      }
    }
  }

  lemma RemovedOneMore(events: seq<Event>, c: nat, k: nat)
    requires c <= k < |events| && events[c].Challenge?
    ensures RemovedBefore(events, c, k + 1)
       <==> RemovedBefore(events, c, k) || (c < k && Removes(TableAfter(events[..k]), events[k], events[c]))
    ensures !RemovedBefore(events, c, c)
  {
    hide Removes, TableAfter;
  }

  lemma IssuedEntry(events: seq<Event>, c: nat)
    requires c < |events| && events[c].Challenge?
    ensures HoldsEntry(events, c + 1, c)
  {
    TableAfterOneMore(events, c);
    hide TableAfter, WithRoom;
  }

  lemma GoneStaysGone(events: seq<Event>, k: nat, nonce: string)
    requires k < |events| && nonce !in TableAfter(events[..k]) && !(events[k].Challenge? && events[k].nonce == nonce)
    ensures nonce !in TableAfter(events[..k + 1])
  {
    TableAfterOneMore(events, k);
    hide TableAfter;
    if nonce in Step(TableAfter(events[..k]), events[k]) {
      StepEntries(TableAfter(events[..k]), events[k], nonce);
    }
  }

  /** An issued nonce stays in the table exactly as long as no region has removed it. */
  lemma {:induction false} StaysUntilRemoved(events: seq<Event>, n: nat, c: nat)
    requires c < n <= |events| && events[c].Challenge? && FreshNonces(events)
    ensures events[c].nonce in TableAfter(events[..n]) <==> !RemovedBefore(events, c, n)
    ensures events[c].nonce in TableAfter(events[..n]) ==> HoldsEntry(events, n, c)
    decreases n
  {
    var k, nonce := n - 1, events[c].nonce;
    if c < k {
      StaysUntilRemoved(events, k, c);
      RemovedOneMore(events, c, k);
      hide TableAfter, Removes, RemovedBefore, HoldsEntry;
      if nonce in TableAfter(events[..k]) {
        EntryGoesOn(events, k, c);
      } else {
        GoneStaysGone(events, k, nonce);
      }
    } else {
      IssuedEntry(events, c);
      RemovedOneMore(events, c, c);
      hide HoldsEntry, RemovedBefore;
    }
  }

  /** What one validation depends on, whatever else goes on: it succeeds exactly when it is deserved and no region
      since the challenge has removed the nonce. */
  lemma AcceptedExactly(events: seq<Event>, j: nat, c: nat)
    requires j < |events| && events[j].Validate? && FreshNonces(events)
    requires c < j && Issues(events, c, events[j])
    ensures Accepted(events, j) <==> Deserved(events, j) && !RemovedBefore(events, c, j)
  {
    StaysUntilRemoved(events, j, c);
    hide RemovedBefore;
    if Accepted(events, j) {
      AcceptedIsDeserved(events, j);
    }
    hide TableAfter;
  }

  /** In particular nothing live is lost, and a validation succeeds exactly when it is deserved, if no region before it
      went by a later time and the table was never cleared. */
  lemma ExactlyTheDeservedAreAccepted(events: seq<Event>, j: nat)
    requires j < |events| && events[j].Validate?
    requires FreshNonces(events) && NoneLater(events, j) && NeverCleared(events)
    ensures Accepted(events, j) <==> Deserved(events, j)
  {
    if Accepted(events, j) {
      AcceptedIsDeserved(events, j);
    }
    if Deserved(events, j) {
      var c :| 0 <= c < j && Issues(events, c, events[j]);
      AcceptedExactly(events, j, c);
      hide TableAfter, Accepted, Deserved;
    }
  }

  lemma AcceptedIsDeserved(events: seq<Event>, j: nat)
    requires FreshNonces(events) && Accepted(events, j)
    ensures Deserved(events, j)
  {
    var c := AcceptanceHasChallenge(events, j);
    assert Issues(events, c, events[j]);
    forall i | 0 <= i < j && Counted(events, i) && Counted(events, j) && events[i].nonce == events[j].nonce
      ensures NcOf(events[i].nc) < NcOf(events[j].nc)
    {
      CountsStrictlyIncrease(events, i, j);
    }
    hide TableAfter;
  }

  /** For instance a live nonce can be lost although all times are read in order: a validation reads 299, a clean-up
      then reads 300 and gets the lock first. */
  lemma LateRegionLosesALiveNonce(nonce: string, ip: string)
    ensures var events := [Challenge(nonce, ip, 0), CleanUp(300), Validate(nonce, ip, Some(1), Some("auth"), 299)];
      FreshNonces(events) && NeverCleared(events) && Deserved(events, 2) && !Accepted(events, 2)
  {
    var events := [Challenge(nonce, ip, 0), CleanUp(300), Validate(nonce, ip, Some(1), Some("auth"), 299)];
    assert events[..0] == [];
    EmptyTable();
    hide TableAfter;
    assert Issues(events, 0, events[2]);
    assert Removes(TableAfter(events[..1]), events[1], events[0]);
    AcceptedExactly(events, 2, 0);
  }

  lemma EmptyTable()
    ensures TableAfter([]) == map[]
  {
  }
}
