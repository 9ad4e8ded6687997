/** Concurrent REGISTER requests: every interleaving of their regions, with clean-ups and failures counted elsewhere. */
module RegistrarRuns {
  import opened Wrappers
  import opened Registrar
  import Nonces
  import Blocking

  /** What follows a counted failure. */
  datatype Next = Refuse(reply: Reply) | ThenChallenge

  /** The region that a request enters next, or its reply. */
  datatype Stage =
    | Checking
    | Validating(extension: string, credentials: Credentials)
    | Counting(next: Next)
    | Inserting(next: Next)
    | Challenging
    | Clearing(extension: string)
    | Storing(extension: string)
    | Done(reply: Reply)

  datatype Active = Active(request: Request, stage: Stage)

  /** The shared tables, all requests so far, and the failures counted elsewhere that reached the threshold. */
  datatype World = World(tables: State, requests: map<nat, Active>, outside: multiset<string>)

  const INITIAL := World(State(map[], map[], {}, map[]), map[], multiset{})

  /** The regions of a request in progress, the background clean-ups, and failures of unauthenticated calls. */
  datatype Event =
    | Arrive(id: nat, request: Request)
    | Check(id: nat)
    | Validate(id: nat, now: nat)
    | CountFailure(id: nat, now: nat)
    | InsertBlocked(id: nat)
    | Challenge(id: nat, nonce: string, now: nat)
    | Clear(id: nat)
    | Store(id: nat, now: nat)
    | CleanRegistrations(now: nat)
    | CleanNonces(now: nat)
    | OutsideFailure(ip: string, now: nat)
    | OutsideInsert(ip: string)
  {
    /** The request that this is a region of. */
    function Subject(): Option<nat> {
      match this
      case Arrive(id, _) => Some(id)
      case Check(id) => Some(id)
      case Validate(id, _) => Some(id)
      case CountFailure(id, _) => Some(id)
      case InsertBlocked(id) => Some(id)
      case Challenge(id, _, _) => Some(id)
      case Clear(id) => Some(id)
      case Store(id, _) => Some(id)
      case _ => None
    }
  }

  predicate Enabled(w: World, e: Event) {
    if e.Arrive? then e.id !in w.requests
    else if e.Subject().Some? then
      var id := e.Subject().value;
      id in w.requests &&
      var stage := w.requests[id].stage;
      match e
      case Check(_) => stage.Checking?
      case Validate(_, _) => stage.Validating?
      case CountFailure(_, _) => stage.Counting?
      case InsertBlocked(_) => stage.Inserting?
      case Challenge(_, _, _) => stage.Challenging?
      case Clear(_) => stage.Clearing?
      case Store(_, _) => stage.Storing?
      case _ => true
    else e.OutsideInsert? ==> e.ip in w.outside
  }

  // ----- the regions -----

  /** Where a request goes from the blocked check, which decides everything up to the first table access. */
  function AfterCheck(c: Config, s: State, r: Request): Stage {
    if IsBlocked(c, s, r.ip) then Done(Forbidden)
    else if r.extension.None? then Counting(Refuse(BadRequest))
    else if !Admissible(c, r.extension.value, r.transport) then Counting(Refuse(Forbidden))
    else if !r.authorization.Digest? then Challenging
    else if r.authorization.credentials.username != r.extension.value then Counting(Refuse(Forbidden))
    else Validating(r.extension.value, r.authorization.credentials)
  }

  function AfterVerdict(c: Config, extension: string, cr: Credentials, valid: bool): Stage {
    if !valid then Counting(ThenChallenge)
    else if !DigestMatches(c, cr, PasswordOf(c, extension)) then Counting(Refuse(Forbidden))
    else Clearing(extension)
  }

  function Onward(next: Next): Stage { if next.Refuse? then Done(next.reply) else Challenging }

  /** Counting a failure: nothing when blocking is disabled, and otherwise perhaps the threshold. */
  function Counted(c: Config, s: State, ip: string, now: nat): (bool, State) {
    if !c.policy.enabled then (false, s)
    else
      var (reached, failed') := Blocking.Count(c.policy, s.failed, ip, now);
      (reached, s.(failed := failed'))
  }

  function Inserted(c: Config, s: State, ip: string): State {
    s.(blocked := Blocking.Block(c.policy, s.blocked, ip).1)
  }

  /** The expiry filter of the clean-up. */
  function Unexpired(registrations: map<string, Registration>, now: nat): map<string, Registration> {
    map ext | ext in registrations && registrations[ext].expiresAt > now :: registrations[ext]
  }

  function Moved(w: World, id: nat, stage: Stage): World
    requires id in w.requests
  {
    w.(requests := w.requests[id := w.requests[id].(stage := stage)])
  }

  function Step(c: Config, w: World, e: Event): World
    requires Enabled(w, e)
  {
    var s := w.tables;
    match e
    case Arrive(id, r) => w.(requests := w.requests[id := Active(r, Checking)])
    case Check(id) => Moved(w, id, AfterCheck(c, s, w.requests[id].request))
    case Validate(id, now) =>
      var r, stage := w.requests[id].request, w.requests[id].stage;
      var cr := stage.credentials;
      var (valid, nonces') := Nonces.Judge(s.nonces, cr.nonce, r.ip, CountOf(cr), cr.qop, now);
      Moved(w.(tables := s.(nonces := nonces')), id, AfterVerdict(c, stage.extension, cr, valid))
    case CountFailure(id, now) =>
      var (reached, s') := Counted(c, s, w.requests[id].request.ip, now);
      var next := w.requests[id].stage.next;
      Moved(w.(tables := s'), id, if reached then Inserting(next) else Onward(next))
    case InsertBlocked(id) =>
      Moved(w.(tables := Inserted(c, s, w.requests[id].request.ip)), id, Onward(w.requests[id].stage.next))
    case Challenge(id, nonce, now) =>
      var s' := s.(nonces := Nonces.AfterChallenge(s.nonces, nonce, w.requests[id].request.ip, now));
      Moved(w.(tables := s'), id, Done(Challenged(nonce)))
    case Clear(id) => Moved(w.(tables := AfterSuccess(s, w.requests[id].request.ip)), id,
        Storing(w.requests[id].stage.extension))
    case Store(id, now) =>
      var (reply, s') := Register(s, w.requests[id].request, w.requests[id].stage.extension, now);
      Moved(w.(tables := s'), id, Done(reply))
    case CleanRegistrations(now) => w.(tables := s.(registrations := Unexpired(s.registrations, now)))
    case CleanNonces(now) => w.(tables := s.(nonces := Nonces.KeepRecent(s.nonces, now)))
    case OutsideFailure(ip, now) =>
      var (reached, s') := Counted(c, s, ip, now);
      World(s', w.requests, if reached then w.outside + multiset{ip} else w.outside)
    case OutsideInsert(ip) => World(Inserted(c, s, ip), w.requests, w.outside - multiset{ip})
  }

  ghost predicate Run(c: Config, worlds: seq<World>, events: seq<Event>) {
    && |worlds| == |events| + 1 && worlds[0] == INITIAL
    && forall i :: 0 <= i < |events| ==> Enabled(worlds[i], events[i]) && worlds[i + 1] == Step(c, worlds[i], events[i])
  }

  predicate Known(w: World, id: nat, r: Request) { id in w.requests && w.requests[id].request == r }

  /** A request keeps its fields. */
  lemma StepKeepsRequests(c: Config, w: World, e: Event, id: nat)
    requires Enabled(w, e) && id in w.requests
    ensures id in Step(c, w, e).requests && Step(c, w, e).requests[id].request == w.requests[id].request
    ensures e.Subject() != Some(id) ==> Step(c, w, e).requests[id] == w.requests[id]
  {
    hide AfterCheck, AfterVerdict, Counted, Inserted, Register, Nonces.Judge, Nonces.AfterChallenge,
        Nonces.KeepRecent, Unexpired;
  }

  lemma {:induction false} RequestsStay(c: Config, worlds: seq<World>, events: seq<Event>, i: nat, j: nat, id: nat)
    requires Run(c, worlds, events) && i <= j <= |events| && id in worlds[i].requests
    ensures Known(worlds[j], id, worlds[i].requests[id].request)
    decreases j
  {
    if i < j {
      RequestsStay(c, worlds, events, i, j - 1, id);
      hide Step, Enabled;
      StepKeepsRequests(c, worlds[j - 1], events[j - 1], id);
    }
  }

  // ----- nonces -----

  /** What a region does to the issued nonces; the others keep all of them, like a clean-up at time 0. */
  function NonceEvent(w: World, e: Event): Nonces.Event
    requires Enabled(w, e)
  {
    match e
    case Validate(id, now) =>
      var cr := w.requests[id].stage.credentials;
      Nonces.Validate(cr.nonce, w.requests[id].request.ip, CountOf(cr), cr.qop, now)
    case Challenge(id, nonce, now) => Nonces.Challenge(nonce, w.requests[id].request.ip, now)
    case CleanNonces(now) => Nonces.CleanUp(now)
    case _ => Nonces.CleanUp(0)
  }

  ghost function NonceLog(c: Config, worlds: seq<World>, events: seq<Event>): (log: seq<Nonces.Event>)
    requires Run(c, worlds, events)
    ensures |log| == |events| && forall i :: 0 <= i < |events| ==> log[i] == NonceEvent(worlds[i], events[i])
  {
    seq(|events|, i requires 0 <= i < |events| => NonceEvent(worlds[i], events[i]))
  }

  lemma StepFollowsNonces(c: Config, w: World, e: Event)
    requires Enabled(w, e)
    ensures Step(c, w, e).tables.nonces == Nonces.Step(w.tables.nonces, NonceEvent(w, e))
  {
    hide AfterCheck, AfterVerdict, Unexpired, Nonces.Judge, Nonces.AfterChallenge, Blocking.Count, Blocking.Block;
    assert Nonces.KeepRecent(w.tables.nonces, 0) == w.tables.nonces;
  }

  /** The nonce table of the service follows the log of its nonce regions, in every interleaving. */
  lemma {:induction false} NoncesFollowLog(c: Config, worlds: seq<World>, events: seq<Event>, n: nat)
    requires Run(c, worlds, events) && n <= |events|
    ensures worlds[n].tables.nonces == Nonces.TableAfter(NonceLog(c, worlds, events)[..n])
    decreases n
  {
    hide Step, NonceEvent, Nonces.Step, Nonces.TableAfter;
    var log := NonceLog(c, worlds, events);
    if n == 0 {
      assert log[..0] == [];
      Nonces.EmptyTable();
    } else {
      var k := n - 1;
      NoncesFollowLog(c, worlds, events, k);
      Nonces.TableAfterOneMore(log, k);
      StepFollowsNonces(c, worlds[k], events[k]);
      assert log[k] == NonceEvent(worlds[k], events[k]) && worlds[k + 1] == Step(c, worlds[k], events[k]);
    }
  }

  /** No nonce is supplied twice. */
  predicate FreshChallenges(events: seq<Event>) {
    forall i, j :: 0 <= i < j < |events| && events[i].Challenge? && events[j].Challenge? ==>
        events[i].nonce != events[j].nonce
  }

  /** This request has been accepted, or only its last regions are left. */
  predicate Passed(a: Active) { a.stage.Clearing? || a.stage.Storing? || (a.stage.Done? && a.stage.reply.Accepted()) }

  /** A request in good order up to its nonce. */
  predicate InOrder(c: Config, r: Request) {
    && r.extension.Some? && Admissible(c, r.extension.value, r.transport)
    && r.authorization.Digest? && r.authorization.credentials.username == r.extension.value
  }

  /** What a request's stage says about it. */
  predicate StageOk(c: Config, a: Active) {
    && (a.stage.Validating? ==>
          InOrder(c, a.request) && a.request.extension == Some(a.stage.extension)
          && a.request.authorization == Digest(a.stage.credentials))
    && (Passed(a) ==>
          && InOrder(c, a.request)
          && DigestMatches(c, a.request.authorization.credentials, PasswordOf(c, a.request.extension.value)))
    && (a.stage.Clearing? || a.stage.Storing? ==> a.request.extension == Some(a.stage.extension))
    && (a.stage.Counting? || a.stage.Inserting? ==> a.stage.next.Refuse? ==> !a.stage.next.reply.Accepted())
  }

  lemma StepKeepsStages(c: Config, w: World, e: Event, id: nat)
    requires Enabled(w, e) && id in Step(c, w, e).requests && (id in w.requests ==> StageOk(c, w.requests[id]))
    ensures StageOk(c, Step(c, w, e).requests[id])
  {
    hide Admissible, DigestMatches, IsBlocked, Counted, Inserted, Unexpired;
    hide Nonces.Judge, Nonces.AfterChallenge, Nonces.KeepRecent;
  }

  lemma {:induction false} StagesStayOk(c: Config, worlds: seq<World>, events: seq<Event>, n: nat, id: nat)
    requires Run(c, worlds, events) && n <= |events| && id in worlds[n].requests
    ensures StageOk(c, worlds[n].requests[id])
    decreases n
  {
    hide StageOk;
    if n > 0 {
      if id in worlds[n - 1].requests { StagesStayOk(c, worlds, events, n - 1, id); }
      hide Step, Enabled;
      StepKeepsStages(c, worlds[n - 1], events[n - 1], id);
    }
  }

  /** The i-th event validated the nonce of this request, and it was accepted. */
  ghost predicate ValidatedAt(c: Config, worlds: seq<World>, events: seq<Event>, id: nat, i: nat)
    requires Run(c, worlds, events)
  {
    && i < |events| && events[i].Validate? && events[i].id == id && id in worlds[i].requests
    && InOrder(c, worlds[i].requests[id].request)
    && var r := worlds[i].requests[id].request;
       var cr := r.authorization.credentials;
    && NonceLog(c, worlds, events)[i] == Nonces.Validate(cr.nonce, r.ip, CountOf(cr), cr.qop, events[i].now)
    && Nonces.Accepted(NonceLog(c, worlds, events), i)
  }

  /** A request passes only in its validation. */
  lemma StepPasses(c: Config, w: World, e: Event, id: nat)
    requires Enabled(w, e) && id in Step(c, w, e).requests && Passed(Step(c, w, e).requests[id])
    requires id in w.requests ==> StageOk(c, w.requests[id])
    ensures id in w.requests
    ensures !Passed(w.requests[id]) ==>
      && e.Validate? && e.id == id && w.requests[id].stage.Validating?
      && var r, cr := w.requests[id].request, w.requests[id].stage.credentials;
      Nonces.Judge(w.tables.nonces, cr.nonce, r.ip, CountOf(cr), cr.qop, e.now).0
  {
    hide Admissible, DigestMatches, IsBlocked, Counted, Inserted, Unexpired;
    hide Nonces.Judge, Nonces.AfterChallenge, Nonces.KeepRecent;
  }

  /** Every accepted request was validated, once, by its own region. */
  lemma {:induction false} AcceptedWasValidated(c: Config, worlds: seq<World>, events: seq<Event>, n: nat, id: nat)
    returns (i: nat)
    requires Run(c, worlds, events) && n <= |events| && id in worlds[n].requests && Passed(worlds[n].requests[id])
    ensures i < n && ValidatedAt(c, worlds, events, id, i)
    ensures worlds[n].requests[id].request == worlds[i].requests[id].request
    decreases n
  {
    hide Step, Enabled, Passed, StageOk;
    var k := n - 1;
    assert n > 0 by { NoneAtFirst(id); }
    if id in worlds[k].requests { StagesStayOk(c, worlds, events, k, id); }
    StepPasses(c, worlds[k], events[k], id);
    StepKeepsRequests(c, worlds[k], events[k], id);
    if Passed(worlds[k].requests[id]) {
      i := AcceptedWasValidated(c, worlds, events, k, id);
    } else {
      i := k;
      ValidationInLog(c, worlds, events, k, id);
    }
  }

  lemma NoneAtFirst(id: nat)
    ensures id !in INITIAL.requests
  {
  }

  lemma ValidationInLog(c: Config, worlds: seq<World>, events: seq<Event>, k: nat, id: nat)
    requires Run(c, worlds, events) && k < |events| && events[k].Validate? && events[k].id == id
        && id in worlds[k].requests
    requires worlds[k].requests[id].stage.Validating? && StageOk(c, worlds[k].requests[id])
    requires var r, cr := worlds[k].requests[id].request, worlds[k].requests[id].stage.credentials;
      Nonces.Judge(worlds[k].tables.nonces, cr.nonce, r.ip, CountOf(cr), cr.qop, events[k].now).0
    ensures ValidatedAt(c, worlds, events, id, k)
  {
    NoncesFollowLog(c, worlds, events, k);
    hide Step, Nonces.Judge, Nonces.TableAfter, Admissible, DigestMatches;
  }

  lemma LogIsFresh(c: Config, worlds: seq<World>, events: seq<Event>)
    requires Run(c, worlds, events) && FreshChallenges(events)
    ensures Nonces.FreshNonces(NonceLog(c, worlds, events))
  {
    var log := NonceLog(c, worlds, events);
    forall i | 0 <= i < |events| && log[i].Challenge? ensures events[i].Challenge? && log[i].nonce == events[i].nonce {
      assert log[i] == NonceEvent(worlds[i], events[i]);
    }
    hide Step, NonceEvent;
  }

  /** The credentials that a request carries. */
  function CredentialsOf(w: World, id: nat): Credentials
    requires id in w.requests && w.requests[id].request.authorization.Digest?
  {
    w.requests[id].request.authorization.credentials
  }

  /** With nonces that never repeat, of two accepted requests with one nonce under qop=auth the one validated later
      carries the higher count, in every interleaving: no such request is accepted a second time. */
  lemma NoRequestAcceptedTwice(c: Config, worlds: seq<World>, events: seq<Event>, a: nat, b: nat)
      returns (i: nat, j: nat)
    requires Run(c, worlds, events) && FreshChallenges(events)
    requires var w := worlds[|events|];
      && a in w.requests && Passed(w.requests[a]) && b in w.requests && Passed(w.requests[b])
    ensures var w := worlds[|events|];
      && w.requests[a].request.authorization.Digest? && w.requests[b].request.authorization.Digest?
      && ValidatedAt(c, worlds, events, a, i) && ValidatedAt(c, worlds, events, b, j) && (i == j ==> a == b)
      && var ca, cb := CredentialsOf(w, a), CredentialsOf(w, b);
      ca.nonce == cb.nonce && ca.qop == cb.qop == Some("auth") ==>
        && (i < j ==> Nonces.NcOf(CountOf(ca)) < Nonces.NcOf(CountOf(cb)))
        && (j < i ==> Nonces.NcOf(CountOf(cb)) < Nonces.NcOf(CountOf(ca)))
  {
    hide Passed, CountOf, FreshChallenges, Nonces.FreshNonces, Nonces.Accepted, Step, Enabled;
    var log := NonceLog(c, worlds, events);
    i := AcceptedWasValidated(c, worlds, events, |events|, a);
    j := AcceptedWasValidated(c, worlds, events, |events|, b);
    LogIsFresh(c, worlds, events);
    if log[i].nonce == log[j].nonce && log[i].qop == log[j].qop == Some("auth") {
      if i < j { Nonces.CountsStrictlyIncrease(log, i, j); }
      if j < i { Nonces.CountsStrictlyIncrease(log, j, i); }
    }
  }

  /** Every accepted request answers a 401 that a request from the same address was sent, less than 300 s before. */
  lemma AcceptedAnswersAChallenge(c: Config, worlds: seq<World>, events: seq<Event>, id: nat) returns (k: nat, i: nat)
    requires Run(c, worlds, events) && id in worlds[|events|].requests && Passed(worlds[|events|].requests[id])
    ensures k < i && ValidatedAt(c, worlds, events, id, i) && events[k].Challenge?
    ensures var w, r := worlds[k + 1], worlds[|events|].requests[id].request;
      && r.authorization.Digest? && events[k].nonce == r.authorization.credentials.nonce
      && events[k].id in w.requests && w.requests[events[k].id].stage == Done(Challenged(events[k].nonce))
      && w.requests[events[k].id].request.ip == r.ip && Nonces.Recent(events[k].now, events[i].now)
  {
    var log := NonceLog(c, worlds, events);
    i := AcceptedWasValidated(c, worlds, events, |events|, id);
    k := Nonces.AcceptanceHasChallenge(log, i);
    assert log[k] == NonceEvent(worlds[k], events[k]);
    assert worlds[k + 1] == Step(c, worlds[k], events[k]);
    hide Nonces.Accepted, Nonces.AfterChallenge, CountOf, Passed;
  }

  /** In every interleaving a registration only changes by expiry, or in the last region of a request that has passed
      all checks, and then only its own extension's. */
  lemma OnlyPassedRequestsRegister(c: Config, worlds: seq<World>, events: seq<Event>, k: nat)
    requires Run(c, worlds, events) && k < |events|
    requires worlds[k + 1].tables.registrations != worlds[k].tables.registrations
    ensures var before, after := worlds[k].tables.registrations, worlds[k + 1].tables.registrations;
      if events[k].CleanRegistrations? then
        && (forall ext :: ext in after <==> ext in before && events[k].now < before[ext].expiresAt)
        && forall ext :: ext in after ==> after[ext] == before[ext]
      else
        && events[k].Store? && events[k].id in worlds[k].requests
        && var a := worlds[k].requests[events[k].id];
        && Passed(a) && StageOk(c, a) && a.request.extension.Some?
        && after - {a.request.extension.value} == before - {a.request.extension.value}
        && Passed(worlds[k + 1].requests[events[k].id])
  {
    assert Enabled(worlds[k], events[k]) && worlds[k + 1] == Step(c, worlds[k], events[k]);
    OnlyStoresRegister(c, worlds[k], events[k]);
    if events[k].Store? {
      StagesStayOk(c, worlds, events, k, events[k].id);
      StepKeepsStages(c, worlds[k], events[k], events[k].id);
      StoreRegistersOwn(c, worlds[k], events[k].id, events[k].now);
    }
    hide Step, StageOk, Run;
  }

  lemma OnlyStoresRegister(c: Config, w: World, e: Event)
    requires Enabled(w, e) && Step(c, w, e).tables.registrations != w.tables.registrations
    ensures e.Store? || e.CleanRegistrations?
    ensures e.CleanRegistrations? ==> Step(c, w, e).tables.registrations == Unexpired(w.tables.registrations, e.now)
  {
    hide Nonces.Judge, Nonces.AfterChallenge, Nonces.KeepRecent, Unexpired, Blocking.Count, Blocking.Block;
  }

  lemma StoreRegistersOwn(c: Config, w: World, id: nat, now: nat)
    requires Enabled(w, Store(id, now)) && StageOk(c, w.requests[id])
    ensures var a, t := w.requests[id], Step(c, w, Store(id, now));
      && Passed(a) && a.request.extension.Some? && id in t.requests && Passed(t.requests[id])
      && t.tables.registrations - {a.request.extension.value} == w.tables.registrations - {a.request.extension.value}
  {
    hide Admissible, DigestMatches;
  }

  // ----- blocking -----

  /** What a region does to the failure tables. */
  function BlockEvent(c: Config, w: World, e: Event): Blocking.Event
    requires Enabled(w, e)
  {
    match e
    case CountFailure(id, now) =>
      var ip := w.requests[id].request.ip;
      if c.policy.enabled then Blocking.Fail(ip, now) else Blocking.Look(ip)
    case InsertBlocked(id) => Blocking.Insert(w.requests[id].request.ip)
    case Clear(id) => Blocking.Succeed(w.requests[id].request.ip)
    case OutsideFailure(ip, now) => if c.policy.enabled then Blocking.Fail(ip, now) else Blocking.Look(ip)
    case OutsideInsert(ip) => Blocking.Insert(ip)
    case _ => Blocking.Look("")
  }

  ghost function BlockLog(c: Config, worlds: seq<World>, events: seq<Event>): (log: seq<Blocking.Event>)
    requires Run(c, worlds, events)
    ensures |log| == |events| && forall i :: 0 <= i < |events| ==> log[i] == BlockEvent(c, worlds[i], events[i])
  {
    seq(|events|, i requires 0 <= i < |events| => BlockEvent(c, worlds[i], events[i]))
  }

  /** The requests of an address that have reached the threshold and not yet inserted it. */
  function InsertingFor(requests: map<nat, Active>, ip: string): set<nat> {
    set id | id in requests && Inserts(requests[id], ip)
  }

  predicate Inserts(a: Active, ip: string) { a.stage.Inserting? && a.request.ip == ip }

  /** The failure tables, and who is between the two regions of counting a failure. */
  ghost predicate Follows(w: World, b: Blocking.State) {
    && b.failed == w.tables.failed && b.blocked == w.tables.blocked
    && forall ip :: b.reached[ip] == |InsertingFor(w.requests, ip)| + w.outside[ip]
  }

  /** A request that changes its stage enters or leaves the insertion, or neither. */
  lemma InsertingAfterMove(w: World, id: nat, stage: Stage, ip: string)
    requires id in w.requests
    ensures var was := w.requests[id].request.ip == ip && w.requests[id].stage.Inserting?;
            var now := w.requests[id].request.ip == ip && stage.Inserting?;
      |InsertingFor(Moved(w, id, stage).requests, ip)|
      == |InsertingFor(w.requests, ip)| + (if now then 1 else 0) - (if was then 1 else 0)
  {
    InsertingAfterUpdate(w.requests, id, w.requests[id].(stage := stage), ip);
    hide InsertingFor;
  }

  lemma InsertingAfterUpdate(requests: map<nat, Active>, id: nat, a: Active, ip: string)
    requires id in requests && a.request == requests[id].request
    ensures |InsertingFor(requests[id := a], ip)| + (if Inserts(requests[id], ip) then 1 else 0)
         == |InsertingFor(requests, ip)| + if Inserts(a, ip) then 1 else 0
  {
    hide Inserts;
    var before, after := InsertingFor(requests, ip), InsertingFor(requests[id := a], ip);
    assert id in before <==> Inserts(requests[id], ip);
    assert id in after <==> Inserts(a, ip);
    assert before - {id} == after - {id};
    hide InsertingFor;
    WithAndWithout(before, id);
    WithAndWithout(after, id);
  }

  lemma WithAndWithout<T>(s: set<T>, x: T)
    ensures |s| == |s - {x}| + if x in s then 1 else 0
  {
  }

  lemma InsertingAfterArrival(requests: map<nat, Active>, id: nat, r: Request, ip: string)
    requires id !in requests
    ensures InsertingFor(requests[id := Active(r, Checking)], ip) == InsertingFor(requests, ip)
  {
  }

  lemma StepFollowsBlocking(c: Config, w: World, e: Event, b: Blocking.State)
    requires Enabled(w, e) && Follows(w, b)
    ensures Blocking.Enabled(b, BlockEvent(c, w, e))
    ensures Follows(Step(c, w, e), Blocking.Step(c.policy, b, BlockEvent(c, w, e)))
  {
    match e
    case CountFailure(id, now) => CountFollows(c, w, id, now, b);
    case InsertBlocked(id) => InsertFollows(c, w, id, b);
    case OutsideFailure(_, _) => OutsideFollows(c, w, e, b);
    case OutsideInsert(_) => OutsideFollows(c, w, e, b);
    case Arrive(id, r) => ArrivalFollows(c, w, id, r, b);
    case _ =>
      OthersFollow(c, w, e, b);
      hide Follows, Step;
  }

  lemma OutsideFollows(c: Config, w: World, e: Event, b: Blocking.State)
    requires Enabled(w, e) && Follows(w, b) && (e.OutsideFailure? || e.OutsideInsert?)
    ensures Blocking.Enabled(b, BlockEvent(c, w, e))
    ensures Follows(Step(c, w, e), Blocking.Step(c.policy, b, BlockEvent(c, w, e)))
  {
    assert b.reached[e.ip] == |InsertingFor(w.requests, e.ip)| + w.outside[e.ip];
    if e.OutsideFailure? {
      OutsideFailureFollows(c, w, e.ip, e.now, b);
    } else {
      OutsideInsertFollows(c, w, e.ip, b);
    }
    hide Follows, Step;
  }

  lemma OutsideInsertFollows(c: Config, w: World, ip: string, b: Blocking.State)
    requires ip in w.outside && Follows(w, b)
    ensures Follows(Step(c, w, OutsideInsert(ip)), Blocking.Step(c.policy, b, Blocking.Insert(ip)))
  {
    hide Blocking.Block, InsertingFor;
  }

  lemma OutsideFailureFollows(c: Config, w: World, ip: string, now: nat, b: Blocking.State)
    requires Follows(w, b)
    ensures Follows(Step(c, w, OutsideFailure(ip, now)),
                    Blocking.Step(c.policy, b, BlockEvent(c, w, OutsideFailure(ip, now))))
  {
    hide Blocking.Count, InsertingFor;
  }

  lemma ArrivalFollows(c: Config, w: World, id: nat, r: Request, b: Blocking.State)
    requires Enabled(w, Arrive(id, r)) && Follows(w, b)
    ensures Follows(Step(c, w, Arrive(id, r)), b)
  {
    forall ip ensures InsertingFor(w.requests[id := Active(r, Checking)], ip) == InsertingFor(w.requests, ip) {
      InsertingAfterArrival(w.requests, id, r, ip);
    }
    hide InsertingFor;
  }

  lemma CountFollows(c: Config, w: World, id: nat, now: nat, b: Blocking.State)
    requires Enabled(w, CountFailure(id, now)) && Follows(w, b)
    ensures Follows(Step(c, w, CountFailure(id, now)),
                    Blocking.Step(c.policy, b, BlockEvent(c, w, CountFailure(id, now))))
  {
    var (reached, s') := Counted(c, w.tables, w.requests[id].request.ip, now);
    var next := w.requests[id].stage.next;
    forall ip {
      InsertingAfterMove(w.(tables := s'), id, if reached then Inserting(next) else Onward(next), ip);
    }
    hide Blocking.Count, InsertingFor;
  }

  lemma InsertFollows(c: Config, w: World, id: nat, b: Blocking.State)
    requires Enabled(w, InsertBlocked(id)) && Follows(w, b)
    ensures Blocking.Enabled(b, BlockEvent(c, w, InsertBlocked(id)))
    ensures Follows(Step(c, w, InsertBlocked(id)), Blocking.Step(c.policy, b, BlockEvent(c, w, InsertBlocked(id))))
  {
    var r := w.requests[id].request;
    assert id in InsertingFor(w.requests, r.ip);
    assert b.reached[r.ip] == |InsertingFor(w.requests, r.ip)| + w.outside[r.ip];
    forall ip {
      InsertingAfterMove(w.(tables := Inserted(c, w.tables, r.ip)), id, Onward(w.requests[id].stage.next), ip);
    }
    hide Blocking.Block, InsertingFor;
  }

  /** The other regions neither start nor end an insertion. */
  lemma OthersFollow(c: Config, w: World, e: Event, b: Blocking.State)
    requires Enabled(w, e) && Follows(w, b)
    requires !e.CountFailure? && !e.InsertBlocked? && !e.OutsideFailure? && !e.OutsideInsert? && !e.Arrive?
    ensures Follows(Step(c, w, e), Blocking.Step(c.policy, b, BlockEvent(c, w, e)))
  {
    hide Nonces.Judge, Nonces.AfterChallenge, Nonces.KeepRecent, Unexpired, Register, IsBlocked, Admissible,
        DigestMatches;
    var t := Step(c, w, e);
    forall ip ensures |InsertingFor(t.requests, ip)| == |InsertingFor(w.requests, ip)| {
      if e.Subject().Some? {
        var id := e.Subject().value;
        assert t.requests == Moved(w, id, t.requests[id].stage).requests;
        InsertingAfterMove(w, id, t.requests[id].stage, ip);
      }
    }
    RegisterKeepsTables(c, w, e);
    hide InsertingFor, Step;
  }

  lemma RegisterKeepsTables(c: Config, w: World, e: Event)
    requires Enabled(w, e)
    requires !e.CountFailure? && !e.InsertBlocked? && !e.OutsideFailure? && !e.OutsideInsert? && !e.Arrive?
    ensures Step(c, w, e).outside == w.outside && Step(c, w, e).tables.blocked == w.tables.blocked
    ensures Step(c, w, e).tables.failed
         == if e.Clear? then w.tables.failed - {w.requests[e.id].request.ip} else w.tables.failed
  {
    hide Nonces.Judge, Nonces.AfterChallenge, Nonces.KeepRecent, Unexpired, IsBlocked, Admissible, DigestMatches;
  }

  /** The failure tables of the service follow the log of its regions, which is a run of the failure tables. */
  lemma {:induction false} TablesFollowLog(c: Config, worlds: seq<World>, events: seq<Event>, n: nat)
    requires Run(c, worlds, events) && n <= |events|
    ensures Follows(worlds[n], Blocking.After(c.policy, BlockLog(c, worlds, events)[..n]))
    decreases n
  {
    hide Step, BlockEvent, Blocking.Step, Blocking.After;
    var log := BlockLog(c, worlds, events);
    if n == 0 {
      assert log[..0] == [];
      Blocking.Beginning(c.policy, "");
      assert forall ip :: InsertingFor(INITIAL.requests, ip) == {};
    } else {
      hide Follows;
      var k := n - 1;
      TablesFollowLog(c, worlds, events, k);
      Blocking.AfterOneMore(c.policy, log, k);
      StepFollowsBlocking(c, worlds[k], events[k], Blocking.After(c.policy, log[..k]));
      assert log[k] == BlockEvent(c, worlds[k], events[k]) && worlds[k + 1] == Step(c, worlds[k], events[k]);
    }
  }

  lemma LogIsARun(c: Config, worlds: seq<World>, events: seq<Event>)
    requires Run(c, worlds, events) && c.policy.enabled && c.policy.Valid()
    ensures Blocking.Run(c.policy, BlockLog(c, worlds, events))
  {
    var log := BlockLog(c, worlds, events);
    hide Step, BlockEvent, Blocking.After, Follows, Blocking.Enabled;
    forall k | 0 <= k < |log| ensures Blocking.Enabled(Blocking.After(c.policy, log[..k]), log[k]) {
      TablesFollowLog(c, worlds, events, k);
      StepFollowsBlocking(c, worlds[k], events[k], Blocking.After(c.policy, log[..k]));
    }
  }

  /** In every interleaving of requests, clean-ups and failures elsewhere, an address is only ever blocked after
      max_failures counted failures in one fixed window with no success in between. */
  lemma BlockedTookABurst(c: Config, worlds: seq<World>, events: seq<Event>, ip: string) returns (a: nat, j: nat)
    requires Run(c, worlds, events) && c.policy.enabled && c.policy.Valid()
    requires ip in worlds[|events|].tables.blocked
    ensures Blocking.Burst(c.policy, BlockLog(c, worlds, events), ip, a, j)
  {
    var log := BlockLog(c, worlds, events);
    LogIsARun(c, worlds, events);
    TablesFollowLog(c, worlds, events, |events|);
    assert log[..|events|] == log;
    a, j := Blocking.BlockedSoundly(c.policy, log, ip);
  }

  lemma {:induction false} BlockedGrows(c: Config, worlds: seq<World>, events: seq<Event>, i: nat, j: nat)
    requires Run(c, worlds, events) && i <= j <= |events|
    ensures worlds[i].tables.blocked <= worlds[j].tables.blocked
    decreases j
  {
    hide Step, Enabled;
    if i < j {
      var k := j - 1;
      BlockedGrows(c, worlds, events, i, k);
      assert worlds[k + 1] == Step(c, worlds[k], events[k]);
      StepKeepsBlocked(c, worlds[k], events[k]);
    }
  }

  lemma StepKeepsBlocked(c: Config, w: World, e: Event)
    requires Enabled(w, e)
    ensures w.tables.blocked <= Step(c, w, e).tables.blocked
  {
    hide Nonces.Judge, Nonces.AfterChallenge, Nonces.KeepRecent, Unexpired, IsBlocked, Admissible, DigestMatches,
        Blocking.Count;
  }

  lemma {:induction false} DoneStaysDone(c: Config, worlds: seq<World>, events: seq<Event>, i: nat, j: nat, id: nat)
    requires Run(c, worlds, events) && i <= j <= |events| && id in worlds[i].requests
        && worlds[i].requests[id].stage.Done?
    ensures id in worlds[j].requests && worlds[j].requests[id] == worlds[i].requests[id]
    ensures forall k :: i <= k < j ==> events[k].Subject() != Some(id)
    decreases j
  {
    if i < j {
      DoneStaysDone(c, worlds, events, i, j - 1, id);
      assert Enabled(worlds[j - 1], events[j - 1]);
      hide Step;
      StepKeepsRequests(c, worlds[j - 1], events[j - 1], id);
    }
  }

  /** A request whose blocked check runs after its address was blocked is refused for good and touches no table. */
  lemma BlockedStaysOut(c: Config, worlds: seq<World>, events: seq<Event>, i: nat, j: nat)
    requires Run(c, worlds, events) && c.policy.enabled && i <= j < |events| && events[j].Check?
    requires worlds[j].requests[events[j].id].request.ip in worlds[i].tables.blocked
    ensures var id, last := events[j].id, worlds[|events|];
      && worlds[j + 1].tables == worlds[j].tables
      && id in last.requests && last.requests[id].stage == Done(Forbidden)
      && forall k :: j < k < |events| ==> events[k].Subject() != Some(id)
  {
    BlockedGrows(c, worlds, events, i, j);
    assert Enabled(worlds[j], events[j]) && worlds[j + 1] == Step(c, worlds[j], events[j]);
    DoneStaysDone(c, worlds, events, j + 1, |events|, events[j].id);
  }

  /** The same requests, registrations, nonces and failure counts, whatever addresses are blocked. */
  predicate SameButBlocked(w: World, v: World) {
    w.requests == v.requests && w.outside == v.outside && w.tables.(blocked := v.tables.blocked) == v.tables
  }

  lemma StepIgnoresBlocked(c: Config, w: World, v: World, e: Event)
    requires SameButBlocked(w, v) && Enabled(w, e) && !e.Check?
    ensures Enabled(v, e) && SameButBlocked(Step(c, w, e), Step(c, v, e))
  {
    hide AfterCheck, AfterVerdict, Blocking.Count, Blocking.Block, Nonces.Judge, Nonces.AfterChallenge,
        Nonces.KeepRecent, Unexpired, Admissible, DigestMatches;
  }

  /** These worlds follow each other by these regions. */
  ghost predicate Chain(c: Config, worlds: seq<World>, events: seq<Event>) {
    && |worlds| == |events| + 1
    && forall i :: 0 <= i < |events| ==> Enabled(worlds[i], events[i]) && worlds[i + 1] == Step(c, worlds[i], events[i])
  }

  /** The other half: only the blocked check looks at the blocked addresses. Whatever else had been blocked, the same
      regions would have run, to the same stages and replies, registrations, nonces and failure counts. */
  lemma {:induction false} OnlyTheCheckLooks(c: Config, worlds: seq<World>, events: seq<Event>, start: World)
      returns (others: seq<World>)
    requires Chain(c, worlds, events) && SameButBlocked(worlds[0], start)
    requires forall i :: 0 <= i < |events| ==> !events[i].Check?
    ensures Chain(c, others, events) && others[0] == start
    ensures forall i :: 0 <= i <= |events| ==> SameButBlocked(worlds[i], others[i])
    decreases |events|
  {
    hide Step, Enabled, SameButBlocked;
    if events == [] {
      others := [start];
    } else {
      var n := |events| - 1;
      var before := OnlyTheCheckLooks(c, worlds[..n + 1], events[..n], start);
      StepIgnoresBlocked(c, worlds[n], before[n], events[n]);
      others := before + [Step(c, before[n], events[n])];
    }
  }

  // ----- one request alone, and two that race -----

  datatype Trace = Trace(worlds: seq<World>, events: seq<Event>)
  {
    ghost predicate IsRun(c: Config) { Run(c, worlds, events) }

    ghost function Last(c: Config): World
      requires IsRun(c)
    {
      worlds[|events|]
    }

    ghost function Then(c: Config, e: Event): (t: Trace)
      requires IsRun(c) && Enabled(Last(c), e)
      ensures t.IsRun(c) && t.Last(c) == Step(c, Last(c), e) && t.events == events + [e]
    {
      Trace(worlds + [Step(c, Last(c), e)], events + [e])
    }
  }

  /** A failure counted, and what follows it. */
  lemma FailureAlone(c: Config, tr: Trace, id: nat, x: Supply) returns (next: Trace)
    requires tr.IsRun(c) && id in tr.Last(c).requests && tr.Last(c).requests[id].stage.Counting?
    ensures next.IsRun(c) && tr.events <= next.events
    ensures var w := tr.Last(c); var r, stage := w.requests[id].request, w.requests[id].stage;
      var failed := AfterFailure(c, w.tables, r.ip, x.failed);
      next.Last(c) ==
        if stage.next.Refuse? then Moved(w.(tables := failed), id, Done(stage.next.reply))
        else Moved(w.(tables := AfterChallenge(failed, r.ip, x)), id, Done(Challenged(x.nonce)))
  {
    hide Blocking.Count, Blocking.Block, Nonces.AfterChallenge, Run;
    next := tr.Then(c, CountFailure(id, x.failed));
    if next.Last(c).requests[id].stage.Inserting? {
      next := next.Then(c, InsertBlocked(id));
    }
    if next.Last(c).requests[id].stage.Challenging? {
      next := next.Then(c, Challenge(id, x.nonce, x.challenged));
    }
  }

  /** The regions from the nonce on. */
  lemma AuthenticateAlone(c: Config, tr: Trace, id: nat, r: Request, extension: string, x: Supply) returns (next: Trace)
    requires tr.IsRun(c) && Known(tr.Last(c), id, r) && r.authorization.Digest?
    requires tr.Last(c).requests[id].stage == Validating(extension, r.authorization.credentials)
    requires r.authorization.credentials.username == extension
    ensures next.IsRun(c) && tr.events <= next.events
    ensures var (reply, s') := Authenticate(c, tr.Last(c).tables, r, extension, x); var w := tr.Last(c);
      next.Last(c) == World(s', w.requests[id := Active(r, Done(reply))], w.outside)
  {
    hide DigestMatches, Nonces.Judge, Nonces.AfterChallenge, AfterFailure, Run, Register, PasswordOf;
    next := tr.Then(c, Validate(id, x.validated));
    if next.Last(c).requests[id].stage.Counting? {
      next := FailureAlone(c, next, id, x);
    } else {
      next := next.Then(c, Clear(id)).Then(c, Store(id, x.registered));
    }
  }

  /** A request whose regions run without others in between is handled as the handler by itself says. */
  lemma HandledAlone(c: Config, tr: Trace, id: nat, r: Request, x: Supply) returns (next: Trace)
    requires tr.IsRun(c) && id !in tr.Last(c).requests
    ensures next.IsRun(c) && tr.events <= next.events
    ensures var (reply, s') := Handle(c, tr.Last(c).tables, r, x); var w := tr.Last(c);
      next.Last(c) == World(s', w.requests[id := Active(r, Done(reply))], w.outside)
  {
    hide Admissible, Nonces.AfterChallenge, AfterFailure, Run, IsBlocked;
    next := tr.Then(c, Arrive(id, r)).Then(c, Check(id));
    var stage := next.Last(c).requests[id].stage;
    if stage.Validating? {
      next := AuthenticateAlone(c, next, id, r, stage.extension, x);
      hide Authenticate;
    } else if stage.Counting? {
      next := FailureAlone(c, next, id, x);
    } else if stage.Challenging? {
      next := next.Then(c, Challenge(id, x.nonce, x.challenged));
    }
  }

  /** Three requests from one address: one that asks for a challenge, one that answers it properly, and a bad one. */
  predicate Race(c: Config, asks: Request, answers: Request, bad: Request, nonce: string) {
    && c.policy.enabled && c.policy.Valid() && c.policy.maxFailures == 1
    && asks.ip == answers.ip == bad.ip
    && asks.extension.Some? && Admissible(c, asks.extension.value, asks.transport) && asks.authorization.Missing?
    && InOrder(c, answers) && answers.authorization.credentials.nonce == nonce
    && answers.authorization.credentials.qop.None? && answers.expires.None?
    && DigestMatches(c, answers.authorization.credentials, PasswordOf(c, answers.extension.value))
    && bad.extension.None?
  }

  /** That a blocked address changes nothing needs its check to come later: a request that has passed the check goes
      on to register, although another request gets the address blocked in between. */
  lemma PassedBeforeBlocked(c: Config, asks: Request, answers: Request, bad: Request, nonce: string)
    returns (worlds: seq<World>, events: seq<Event>, j: nat)
    requires Race(c, asks, answers, bad, nonce)
    ensures Run(c, worlds, events) && j < |events|
    ensures answers.ip in worlds[j].tables.blocked && worlds[j].tables.registrations == map[]
    ensures answers.extension.value in worlds[|events|].tables.registrations
  {
    var x := Supply(nonce, 0, 0, 0, 0);
    var blocked := BlockedWhileValidating(c, asks, answers, bad, x);
    var last := AnswerGoesOn(c, blocked, answers, nonce);
    worlds, events, j := last.worlds, last.events, |blocked.events|;
  }

  lemma BlockedWhileValidating(c: Config, asks: Request, answers: Request, bad: Request, x: Supply) returns (tr: Trace)
    requires Race(c, asks, answers, bad, x.nonce) && x == Supply(x.nonce, 0, 0, 0, 0)
    ensures tr.IsRun(c) && Known(tr.Last(c), 1, answers)
    ensures var w := tr.Last(c);
      && w.requests[1].stage == Validating(answers.extension.value, answers.authorization.credentials)
      && w.tables.blocked == {answers.ip} && w.tables.registrations == map[]
      && w.tables.nonces == map[x.nonce := Nonces.Entry(0, answers.ip, 0)]
  {
    var start := Trace([INITIAL], []);
    assert start.IsRun(c) && start.Last(c) == INITIAL;
    hide Run, DigestMatches, PasswordOf, Admissible, Authenticate;
    var asked := HandledAlone(c, start, 0, asks, x);
    ChallengedFirst(c, asks, x);
    hide Handle;
    var checked := asked.Then(c, Arrive(1, answers)).Then(c, Check(1));
    var s := checked.Last(c).tables;
    assert s == State(map[], map[], {}, map[x.nonce := Nonces.Entry(0, asks.ip, 0)]);
    assert checked.Last(c).requests[1].stage == Validating(answers.extension.value, answers.authorization.credentials);
    tr := HandledAlone(c, checked, 2, bad, x);
    BlockedAtOnce(c, s, bad, x);
  }

  lemma ChallengedFirst(c: Config, asks: Request, x: Supply)
    requires asks.extension.Some? && Admissible(c, asks.extension.value, asks.transport) && asks.authorization.Missing?
    requires x.challenged == 0
    ensures Handle(c, INITIAL.tables, asks, x)
         == (Challenged(x.nonce), State(map[], map[], {}, map[x.nonce := Nonces.Entry(0, asks.ip, 0)]))
  {
    hide Admissible;
  }

  lemma BlockedAtOnce(c: Config, s: State, bad: Request, x: Supply)
    requires c.policy.enabled && c.policy.Valid() && c.policy.maxFailures == 1 && bad.extension.None?
    requires s.failed == map[] && s.blocked == {}
    ensures Handle(c, s, bad, x) == (BadRequest, s.(blocked := {bad.ip}))
  {
    var room := Blocking.WithRoom(c.policy, s.failed, x.failed);
    assert room == map[];
    assert room - {bad.ip} == map[];
  }

  /** A request at its validation is not stopped by what happened since its check. */
  lemma AnswerGoesOn(c: Config, tr: Trace, answers: Request, nonce: string) returns (next: Trace)
    requires tr.IsRun(c) && Known(tr.Last(c), 1, answers) && InOrder(c, answers)
    requires tr.Last(c).requests[1].stage == Validating(answers.extension.value, answers.authorization.credentials)
    requires tr.Last(c).tables.nonces == map[nonce := Nonces.Entry(0, answers.ip, 0)]
    requires answers.authorization.credentials.nonce == nonce && answers.authorization.credentials.qop.None?
    requires answers.expires.None?
    requires DigestMatches(c, answers.authorization.credentials, PasswordOf(c, answers.extension.value))
    ensures next.IsRun(c) && |tr.events| < |next.events| && next.worlds[|tr.events|] == tr.Last(c)
    ensures answers.extension.value in next.Last(c).tables.registrations
  {
    hide DigestMatches, PasswordOf, CountOf;
    var valid := tr.Then(c, Validate(1, 0));
    assert valid.Last(c).requests[1].stage == Clearing(answers.extension.value);
    hide Nonces.Judge;
    next := valid.Then(c, Clear(1)).Then(c, Store(1, 0));
  }
}
