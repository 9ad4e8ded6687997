/** The handlers of the router as they change calls and relay resources, each message handled to
    its end before the next. */
module CallHandlers {
  import opened Wrappers
  import opened Srtp
  import opened SrtpContext
  import opened RelayPorts
  import opened Calls
  import SdesLines
  import Sdp

  /** Random key and salt octets. */
  datatype Drawn = Drawn(key: Block, salt: Salt)

  /** `new_with_suite`: salt octets that the suite does not use stay zero. */
  function WithSuite(suite: SrtpSuite, d: Drawn): (keys: MasterKeys)
    ensures keys.suite == suite && SaltFits(suite, keys.salt)
  {
    MasterKeys(suite, d.key, PadSalt(d.salt[..suite.SaltLen()]))
  }

  /** Where an INVITE comes from: whether its address is blocked, whether the caller it names is registered, the
      extension that its connection has authenticated as, and for connectionless UDP whether the caller registered
      from the same address. */
  datatype Origin = Origin(
    blocked: bool, callerRegistered: bool, connectionExt: Option<string>, udp: bool, sameAddress: bool)

  /** An INVITE with what the world has to say about it: whether the callee is registered and has a way out, the
      random keys, and whether forwarding succeeds. */
  datatype Invite = Invite(
    id: string, callerExt: string, calleeExt: string, callerTag: string, body: Option<string>, media: Option<string>,
    origin: Origin, calleeOnline: bool, calleeReachable: bool,
    toCaller: Drawn, toCallee: Drawn, toCalleeGcm: Drawn, forwarded: bool)
  {
    /** The caller is registered, and the connection vouches for it. */
    predicate Admitted() {
      && !origin.blocked && callerExt != "" && origin.callerRegistered
      && match origin.connectionExt
         case Some(ext) => ext == callerExt
         case None => origin.udp && origin.sameAddress
    }

    /** A refusal at this point counts as a failure of the address, unless that is blocked already. */
    predicate CountsAsFailure() { !origin.blocked && !Admitted() }
  }

  datatype Message =
    | InviteMessage(invite: Invite, ports: Option<RelaySession>)
    | Response(id: string, status: nat, d: Details, body: Option<string>)
    | Bye(id: string, fromTag: string, connectionExt: string)
    | CancelMessage(id: string, fromTag: string)

  function OfferOf(c: Primitives, body: Option<string>): Option<(nat, MasterKeys)> {
    if body.None? then None else SdesLines.Extract(c, body.value)
  }

  function CallFor(v: Invite, offer: (nat, MasterKeys), session: RelaySession): Call {
    Call(v.callerExt, v.calleeExt, v.callerTag, None, Trying, None, v.media, None,
         Some(offer.1), offer.0, Some(WithSuite(offer.1.suite, v.toCaller)),
         None, Some(WithSuite(AesCm128HmacSha180, v.toCallee)), Some(WithSuite(AeadAes128Gcm, v.toCalleeGcm)),
         session.callerPort, session.calleePort, false)
  }

  lemma CallForHasKeys(v: Invite, offer: (nat, MasterKeys), session: RelaySession)
    ensures var call := CallFor(v, offer, session); call.calleeLocal.Some? && call.calleeLocalGcm.Some?
  {
  }

  /** `create_session`: an existing session is used again; otherwise the allocator may have ports for a new one. */
  function SessionFor(s: State, id: string, ports: Option<RelaySession>): Option<RelaySession> {
    if id in s.sessions then Some(s.sessions[id]) else ports
  }

  datatype Side = CallerSide | CalleeSide

  datatype Sent = ForwardedCancel | StatusToCaller(status: nat)

  /** This side speaks: by its dialogue tag, or by the identity of its connection. */
  predicate Speaks(call: Call, side: Side, fromTag: string, connectionExt: string) {
    match side
    case CallerSide =>
      (fromTag != "" && fromTag == call.callerTag) || (connectionExt != "" && connectionExt == call.callerExt)
    case CalleeSide =>
      (fromTag != "" && call.calleeTag == Some(fromTag)) || (connectionExt != "" && connectionExt == call.calleeExt)
  }

  /** Who may end a call: either side. */
  predicate MayHangUp(s: State, id: string, fromTag: string, connectionExt: string) {
    id in s.calls
    && (Speaks(s.calls[id], CallerSide, fromTag, connectionExt)
         || Speaks(s.calls[id], CalleeSide, fromTag, connectionExt))
  }

  /** The side that a BYE is forwarded to. */
  function ByeGoesTo(s: State, id: string, fromTag: string, connectionExt: string): Option<Side> {
    if !MayHangUp(s, id, fromTag, connectionExt) then None
    else if Speaks(s.calls[id], CalleeSide, fromTag, connectionExt) then Some(CallerSide)
    else Some(CalleeSide)
  }

  /** A BYE from one side alone goes to the other side; only if both seem to speak does it go to the caller. */
  lemma ByeGoesToTheOtherSide(s: State, id: string, fromTag: string, connectionExt: string)
    ensures var goesTo := ByeGoesTo(s, id, fromTag, connectionExt);
      && (goesTo.Some? <==> MayHangUp(s, id, fromTag, connectionExt))
      && (goesTo.Some? ==>
            var call, to := s.calls[id], goesTo.value;
            && Speaks(call, if to.CallerSide? then CalleeSide else CallerSide, fromTag, connectionExt)
            && (Speaks(call, to, fromTag, connectionExt) ==> to == CallerSide))
  {
  }

  // ----- one message -----

  function Apply(s: State, events: seq<Event>): State
    decreases |events|
  {
    if events == [] then s else Step(Apply(s, events[..|events| - 1]), events[|events| - 1])
  }

  /** A leftover call with the same Call-ID goes first. */
  function CleanFirst(s: State, v: Invite): seq<Event> {
    if v.Admitted() && v.id in s.calls then [Cleanup(v.id)] else []
  }

  /** What an INVITE inserts once it has passed all checks. */
  function Insertions(s: State, v: Invite, offer: (nat, MasterKeys), session: RelaySession): seq<Event> {
    (if v.id in s.sessions then [] else [InsertSession(v.id, session)]) +
    [InsertCall(v.id, CallFor(v, offer, session))] + (if v.forwarded then [] else [Cleanup(v.id)])
  }

  /** Whether an INVITE passes the checks before its session is created. */
  predicate Passes(c: Primitives, v: Invite) {
    v.Admitted() && v.calleeOnline && v.calleeReachable && OfferOf(c, v.body).Some?
  }

  function InviteEvents(c: Primitives, s: State, v: Invite, ports: Option<RelaySession>): seq<Event> {
    var clean := Apply(s, CleanFirst(s, v));
    var session := SessionFor(clean, v.id, ports);
    CleanFirst(s, v) +
    if Passes(c, v) && session.Some? then Insertions(clean, v, OfferOf(c, v.body).value, session.value) else []
  }

  /** The reply to an INVITE, in the order of its checks. */
  function InviteReply(c: Primitives, s: State, v: Invite, ports: Option<RelaySession>): nat {
    if !v.Admitted() then 403
    else if !v.calleeOnline then 404
    else if !v.calleeReachable then 480
    else if OfferOf(c, v.body).None? then 488
    else if SessionFor(Apply(s, CleanFirst(s, v)), v.id, ports).None? then 503
    else if !v.forwarded then 500
    else 100
  }

  /** A 200 without a usable key, from a callee that has not sent one before. */
  predicate LacksKey(s: State, id: string, status: nat) {
    id in s.calls && status == 200 && s.calls[id].calleeRemote.None?
  }

  function ResponseEvents(c: Primitives, s: State, id: string, status: nat, d: Details, body: Option<string>)
    : seq<Event>
  {
    if id !in s.calls then []
    else
      var respond := Respond(id, status, d, OfferOf(c, body));
      var s1 := Step(s, respond);
      if LacksKey(s1, id, status) || (body.Some? && s1.calls[id].callerLocal.None?) || status >= 400 then
        [respond, Cleanup(id)]
      else if status == 200 && !s1.calls[id].relayStarted then [respond, MarkStarted(id), StartRelay(id)]
      else if status == 200 then [respond, MarkStarted(id)]
      else [respond]
  }

  /** What a response from the callee makes the caller see. */
  datatype Seen = Nothing | Failed(status: nat) | Forwarded(status: nat, description: Option<string>)

  /** `addr` is the server's own media address, which it writes into every description. */
  function SeenByCaller(
    c: Primitives, addr: string, s: State, id: string, status: nat, d: Details, body: Option<string>)
    : Seen
  {
    if id !in s.calls then Nothing
    else
      var s1 := Step(s, Respond(id, status, d, OfferOf(c, body)));
      if LacksKey(s1, id, status) then Failed(488)
      else if body.None? then Forwarded(status, None)
      else if s1.calls[id].callerLocal.None? then Failed(500)
      else
        var target := Sdp.Target(addr, s1.calls[id].callerPort, [AnswerCrypto(c, s1, s1, id).value]);
        Forwarded(status, Some(Sdp.Rewrite(target, body.value)))
  }

  /** The description in the INVITE that is sent on to the callee. */
  function SeenByCallee(c: Primitives, addr: string, s: State, v: Invite, ports: Option<RelaySession>): Option<string> {
    var session := SessionFor(Apply(s, CleanFirst(s, v)), v.id, ports);
    if !Passes(c, v) || session.None? then None
    else
      var call := CallFor(v, OfferOf(c, v.body).value, session.value);
      Some(Sdp.Rewrite(Sdp.Target(addr, session.value.calleePort, CalleeOffer(c, call)), v.body.value))
  }

  /** The regions that a message runs through. */
  function EventsOf(c: Primitives, s: State, m: Message): seq<Event> {
    match m
    case InviteMessage(v, ports) => InviteEvents(c, s, v, ports)
    case Response(id, status, d, body) => ResponseEvents(c, s, id, status, d, body)
    case Bye(id, fromTag, connectionExt) => if MayHangUp(s, id, fromTag, connectionExt) then [Cleanup(id)] else []
    case CancelMessage(id, fromTag) => if MayCancel(s, id, fromTag) then [Cancel(id, fromTag), Cleanup(id)] else []
  }

  function Handle(c: Primitives, s: State, m: Message): State { Apply(s, EventsOf(c, s, m)) }

  lemma {:induction false} ApplyConcat(s: State, a: seq<Event>, b: seq<Event>)
    ensures Apply(s, a + b) == Apply(Apply(s, a), b)
    decreases |b|
  {
    if b == [] {
      assert a + b == a;
    } else {
      var rest := b[..|b| - 1];
      assert (a + b)[..|a + b| - 1] == a + rest;
      ApplyConcat(s, a, rest);
    }
  }

  lemma ApplyTwo(s: State, e: Event, f: Event)
    ensures Apply(s, [e]) == Step(s, e) && Apply(s, [e, f]) == Step(Step(s, e), f)
  {
    assert [e][..0] == [] && [e, f][..1] == [e];
  }

  lemma ApplyThree(s: State, e: Event, f: Event, g: Event)
    ensures Apply(s, [e, f, g]) == Step(Step(Step(s, e), f), g)
  {
    ApplyTwo(s, e, f);
    assert [e, f, g][..2] == [e, f];
  }

  function Opened(s: State, id: string, session: RelaySession): State {
    if id in s.sessions then s else s.(sessions := s.sessions[id := session])
  }

  function Stored(s: State, v: Invite, offer: (nat, MasterKeys), session: RelaySession): State {
    var ready := Opened(s, v.id, session);
    ready.(calls := ready.calls[v.id := CallFor(v, offer, session)])
  }

  lemma InsertionsApplied(s: State, v: Invite, offer: (nat, MasterKeys), session: RelaySession)
    ensures Apply(s, Insertions(s, v, offer, session))
         == if v.forwarded then Stored(s, v, offer, session) else Cleaned(Stored(s, v, offer, session), v.id)
  {
    hide CallFor;
    var open := if v.id in s.sessions then [] else [InsertSession(v.id, session)];
    var insert := InsertCall(v.id, CallFor(v, offer, session));
    var end := if v.forwarded then [] else [Cleanup(v.id)];
    ApplyConcat(s, open + [insert], end);
    ApplyConcat(s, open, [insert]);
    ApplyTwo(s, InsertSession(v.id, session), insert);
    ApplyTwo(Apply(s, open), insert, insert);
    ApplyTwo(Apply(s, open + [insert]), Cleanup(v.id), Cleanup(v.id));
  }

  /** The state that an INVITE leaves. */
  lemma InviteOutcome(c: Primitives, s: State, v: Invite, ports: Option<RelaySession>)
    ensures var clean := if v.Admitted() then Cleaned(s, v.id) else s; var session := SessionFor(clean, v.id, ports);
      && Apply(s, CleanFirst(s, v)) == clean
      && Handle(c, s, InviteMessage(v, ports)) ==
           if !Passes(c, v) || session.None? then clean
           else if v.forwarded then Stored(clean, v, OfferOf(c, v.body).value, session.value)
           else Cleaned(Stored(clean, v, OfferOf(c, v.body).value, session.value), v.id)
  {
    hide Insertions, Stored, SdesLines.Extract;
    ApplyTwo(s, Cleanup(v.id), Cleanup(v.id));
    var clean := Apply(s, CleanFirst(s, v));
    var session := SessionFor(clean, v.id, ports);
    if Passes(c, v) && session.Some? {
      InsertionsApplied(clean, v, OfferOf(c, v.body).value, session.value);
      ApplyConcat(s, CleanFirst(s, v), Insertions(clean, v, OfferOf(c, v.body).value, session.value));
    } else {
      assert CleanFirst(s, v) + [] == CleanFirst(s, v);
    }
  }

  lemma ApplyNothing(s: State)
    ensures Apply(s, []) == s
  {
  }

  /** The state that a response leaves. */
  lemma ResponseOutcome(c: Primitives, s: State, id: string, status: nat, d: Details, body: Option<string>)
    ensures var s1 := Responded(s, id, status, d, OfferOf(c, body));
      Handle(c, s, Response(id, status, d, body)) ==
        if id !in s.calls then s
        else if LacksKey(s1, id, status) || (body.Some? && s1.calls[id].callerLocal.None?) || status >= 400 then
          Cleaned(s1, id)
        else if status == 200 && !s1.calls[id].relayStarted then Started(Marked(s1, id), id)
        else s1
  {
    hide Answer, SdesLines.Extract, Apply;
    var respond := Respond(id, status, d, OfferOf(c, body));
    ApplyNothing(s);
    ApplyTwo(s, respond, Cleanup(id));
    ApplyTwo(s, respond, MarkStarted(id));
    ApplyThree(s, respond, MarkStarted(id), StartRelay(id));
  }

  lemma CleanedParts(s: State, id: string)
    ensures Cleaned(s, id) == if id !in s.calls then s else
      State(s.calls - {id}, s.sessions - {id}, s.senders - {id}, s.starting, s.relays)
  {
  }

  // ----- the router as it runs -----

  class Router {
    const primitives: Primitives
    const mediaAddr: string
    const media: MediaRelayManager
    var activeCalls: map<string, Call>
    /** The relay tasks spawned so far. */
    ghost var relays: seq<Relay>

    constructor (primitives: Primitives, mediaAddr: string, media: MediaRelayManager)
      ensures this.primitives == primitives && this.mediaAddr == mediaAddr && this.media == media
      ensures activeCalls == map[] && relays == []
    {
      this.primitives, this.mediaAddr, this.media := primitives, mediaAddr, media;
      activeCalls, relays := map[], [];
    }

    ghost function Abstract(): State
      reads this, media
    {
      State(activeCalls, media.sessions, media.shutdownSenders, multiset{}, relays)
    }

    method CleanupCall(id: string)
      modifies `activeCalls, media`sessions, media`shutdownSenders
      ensures Abstract() == Cleaned(old(Abstract()), id)
    {
      hide Cleaned;
      ghost var s0 := Abstract();
      CleanedParts(s0, id);
      if id in activeCalls {
        activeCalls := activeCalls - {id};
        var _ := media.RemoveSession(id);
      }
    }

    /** Whether the caller is who it says; each refusal but the first counts as a failure. */
    method AdmitCaller(v: Invite) returns (admitted: bool, counts: bool)
      ensures admitted == v.Admitted() && counts == v.CountsAsFailure()
    {
      if v.origin.blocked {
        return false, false;
      }
      if v.callerExt == "" || !v.origin.callerRegistered {
        return false, true;
      }
      match v.origin.connectionExt {
        case Some(ext) =>
          if ext != v.callerExt {
            return false, true;
          }
        case None =>
          if !v.origin.udp || !v.origin.sameAddress {
            return false, true;
          }
      }
      return true, false;
    }

    /** A new session gets the next two ports of the round robin. */
    method HandleInvite(v: Invite)
      returns (status: nat, counts: bool, toCallee: Option<string>, ghost ports: Option<RelaySession>)
      requires media.Valid()
      modifies `activeCalls, media
      ensures media.Valid() && counts == v.CountsAsFailure()
      ensures ports.Some? && v.id !in Cleaned(old(Abstract()), v.id).sessions ==>
        var n := old(media.handed);
        && Handed(media.portStart, media.portEnd, n).Some? && Handed(media.portStart, media.portEnd, n + 1).Some?
        && ports == Some(RelaySession(v.id, Handed(media.portStart, media.portEnd, n).value,
                                      Handed(media.portStart, media.portEnd, n + 1).value))
      ensures Abstract() == Handle(primitives, old(Abstract()), InviteMessage(v, ports))
      ensures status == InviteReply(primitives, old(Abstract()), v, ports)
      ensures toCallee == SeenByCallee(primitives, mediaAddr, old(Abstract()), v, ports)
    {
      hide SdesLines.Extract, Apply, CallFor, Handle, SdesLines.Advertised, Sdp.Rewrite;
      toCallee, ports := None, None;
      ghost var s0 := Abstract();
      InviteOutcome(primitives, s0, v, None);
      var admitted;
      admitted, counts := AdmitCaller(v);
      if !admitted {
        return 403, counts, None, None;
      }
      if v.id in activeCalls {
        CleanupCall(v.id);
      }
      ghost var s1 := Abstract();
      assert s1 == Cleaned(s0, v.id);
      if !v.calleeOnline {
        return 404, false, None, None;
      }
      if !v.calleeReachable {
        return 480, false, None, None;
      }
      if v.body.None? {
        return 488, false, None, None;
      }
      var offer := SdesLines.ExtractSrtpCrypto(primitives, v.body.value);
      if offer.None? {
        return 488, false, None, None;
      }
      var session := media.CreateSession(v.id);
      ports := session;
      InviteOutcome(primitives, s0, v, ports);
      if session.None? {
        return 503, false, None, None;
      }
      var call := CallFor(v, offer.value, session.value);
      CallForHasKeys(v, offer.value, session.value);
      var description := Sdp.RewriteSdpWithCryptos(v.body.value, mediaAddr, session.value.calleePort,
                                                   CalleeOffer(primitives, call));
      toCallee := Some(description);
      activeCalls := activeCalls[v.id := call];
      status := 100;
      if !v.forwarded {
        CleanupCall(v.id);
        status := 500;
      }
    }

    /** `start_media_relay`: the new task's contexts are taken from the call. */
    method StartMediaRelay(id: string)
      modifies media`shutdownSenders, `relays
      ensures Abstract() == Started(old(Abstract()), id)
    {
      if id in activeCalls {
        relays := relays + [RelayOf(id, activeCalls[id])];
        media.RegisterShutdown(id);
      }
      ghost var t := Started(old(Abstract()), id);
      assert t.starting == multiset{} && t.senders == media.shutdownSenders && t.relays == relays;
    }

    method HandleCalleeResponse(id: string, status: nat, d: Details, body: Option<string>) returns (seen: Seen)
      modifies `activeCalls, media`sessions, media`shutdownSenders, `relays
      ensures Abstract() == Handle(primitives, old(Abstract()), Response(id, status, d, body))
      ensures seen == SeenByCaller(primitives, mediaAddr, old(Abstract()), id, status, d, body)
    {
      hide SdesLines.Extract, Apply, Handle, Answer, RelayOf, SdesLines.Advertised, Sdp.Rewrite;
      ghost var s0 := Abstract();
      ResponseOutcome(primitives, s0, id, status, d, body);
      if id !in activeCalls {
        return Nothing;
      }
      var answer := None;
      if body.Some? {
        answer := SdesLines.ExtractSrtpCrypto(primitives, body.value);
      }
      activeCalls := activeCalls[id := Answer(activeCalls[id], status, d, answer)];
      ghost var s1 := Abstract();
      assert s1 == Responded(s0, id, status, d, OfferOf(primitives, body));
      var call := activeCalls[id];
      if status == 200 && call.calleeRemote.None? {
        CleanupCall(id);
        return Failed(488);
      }
      seen := Forwarded(status, None);
      if body.Some? {
        if call.callerLocal.None? {
          CleanupCall(id);
          return Failed(500);
        }
        var crypto := SdesLines.Advertised(primitives, call.callerRemoteTag, call.callerLocal.value);
        var description := Sdp.RewriteSdpWithCryptos(body.value, mediaAddr, call.callerPort, [crypto]);
        seen := Forwarded(status, Some(description));
      }
      if status >= 400 {
        CleanupCall(id);
      }
      if status == 200 && !call.relayStarted {
        activeCalls := activeCalls[id := call.(relayStarted := true)];
        StartMediaRelay(id);
      }
    }

    /** Ends a call, and says to which side the BYE is forwarded. */
    method HandleBye(id: string, fromTag: string, connectionExt: string) returns (status: nat, goesTo: Option<Side>)
      modifies `activeCalls, media`sessions, media`shutdownSenders
      ensures Abstract() == Handle(primitives, old(Abstract()), Bye(id, fromTag, connectionExt))
      ensures status == if MayHangUp(old(Abstract()), id, fromTag, connectionExt) then 200 else 481
      ensures goesTo == ByeGoesTo(old(Abstract()), id, fromTag, connectionExt)
    {
      hide Apply;
      ApplyTwo(Abstract(), Cleanup(id), Cleanup(id));
      ApplyNothing(Abstract());
      if id !in activeCalls {
        return 481, None;
      }
      var call := activeCalls[id];
      var fromCaller := fromTag != "" && fromTag == call.callerTag;
      var fromCallee := fromTag != "" && call.calleeTag == Some(fromTag);
      var connectionIsCaller := connectionExt != "" && connectionExt == call.callerExt;
      var connectionIsCallee := connectionExt != "" && connectionExt == call.calleeExt;
      if !fromCaller && !fromCallee && !connectionIsCaller && !connectionIsCallee {
        return 481, None;
      }
      var callerSide := fromCaller || connectionIsCaller;
      var calleeSide := fromCallee || connectionIsCallee;
      goesTo := Some(if callerSide && !calleeSide then CalleeSide else CallerSide);
      CleanupCall(id);
      status := 200;
    }

    /** Cancels a call: the callee gets the CANCEL, and the caller a 487 for its INVITE. */
    method HandleCancel(id: string, fromTag: string) returns (status: nat, sent: seq<Sent>)
      modifies `activeCalls, media`sessions, media`shutdownSenders
      ensures Abstract() == Handle(primitives, old(Abstract()), CancelMessage(id, fromTag))
      ensures status == if MayCancel(old(Abstract()), id, fromTag) then 200 else 481
      ensures sent == if MayCancel(old(Abstract()), id, fromTag) then [ForwardedCancel, StatusToCaller(487)] else []
    {
      hide Apply;
      ApplyTwo(Abstract(), Cancel(id, fromTag), Cleanup(id));
      ApplyNothing(Abstract());
      if id !in activeCalls || fromTag == "" || fromTag != activeCalls[id].callerTag {
        return 481, [];
      }
      activeCalls := activeCalls[id := activeCalls[id].(state := Terminated)];
      assert Abstract() == Cancelled(old(Abstract()), id, fromTag);
      sent := [ForwardedCancel];
      if id in activeCalls {
        sent := sent + [StatusToCaller(487)];
      }
      CleanupCall(id);
      status := 200;
    }
  }

  // ----- one message at a time -----

  /** The keys of a call on both legs, as long as it is active. */
  predicate KeyedCall(call: Call) {
    && call.callerRemote.Some? && call.callerLocal.Some?
         && call.callerLocal.value.suite == call.callerRemote.value.suite
    && call.calleeLocal.Some? && call.calleeLocalGcm.Some?
    && (call.relayStarted ==> call.calleeRemote.Some?)
  }

  /** Calls and relay resources agree: each active call has its relay session, and no session is left
      without a call; exactly the calls whose relay has started have a stop sender; and every relay was
      started with all its contexts. */
  ghost predicate Agree(s: State) {
    && s.sessions.Keys == s.calls.Keys && s.starting == multiset{}
    && (forall id :: id in s.senders <==> id in s.calls && s.calls[id].relayStarted)
    && (forall id :: id in s.calls ==> KeyedCall(s.calls[id]))
    && (forall r :: r in s.relays ==> r.FullyKeyed())
  }

  lemma CleanedAgrees(s: State, id: string)
    requires Agree(s)
    ensures Agree(Cleaned(s, id)) && id !in Cleaned(s, id).calls
  {
    hide KeyedCall;
  }

  lemma StoredAgrees(s: State, v: Invite, offer: (nat, MasterKeys), session: RelaySession)
    requires Agree(s) && v.id !in s.calls
    ensures Agree(Stored(s, v, offer, session))
  {
    var t := Stored(s, v, offer, session);
    assert KeyedCall(CallFor(v, offer, session)) && !CallFor(v, offer, session).relayStarted;
    hide KeyedCall, CallFor;
    assert t.sessions.Keys == s.sessions.Keys + {v.id} && t.calls.Keys == s.calls.Keys + {v.id};
  }

  lemma AnswerKeepsKeys(call: Call, status: nat, d: Details, answer: Option<(nat, MasterKeys)>)
    requires KeyedCall(call)
    ensures var call' := Answer(call, status, d, answer); KeyedCall(call') && call'.relayStarted == call.relayStarted
  {
  }

  lemma RespondedAgrees(s: State, id: string, status: nat, d: Details, answer: Option<(nat, MasterKeys)>)
    requires Agree(s)
    ensures Agree(Responded(s, id, status, d, answer))
  {
    if id in s.calls {
      AnswerKeepsKeys(s.calls[id], status, d, answer);
      assert Responded(s, id, status, d, answer).calls.Keys == s.calls.Keys;
    }
    hide KeyedCall, Answer;
  }

  lemma StartedAgrees(s: State, id: string)
    requires Agree(s) && id in s.calls && !s.calls[id].relayStarted && s.calls[id].calleeRemote.Some?
    ensures Agree(Started(Marked(s, id), id))
  {
    var t, call := Started(Marked(s, id), id), s.calls[id].(relayStarted := true);
    assert KeyedCall(s.calls[id]);
    assert KeyedCall(call) && RelayOf(id, call).FullyKeyed();
    hide KeyedCall, RelayOf;
    assert t.calls == s.calls[id := call] && t.calls.Keys == s.calls.Keys;
    assert t.starting == multiset{} && t.relays == s.relays + [RelayOf(id, call)];
  }

  lemma HandleAgrees(c: Primitives, s: State, m: Message)
    requires Agree(s)
    ensures Agree(Handle(c, s, m))
  {
    hide Agree, Handle, Stored, SdesLines.Extract, Started, Marked;
    match m
    case InviteMessage(v, ports) =>
      InviteOutcome(c, s, v, ports);
      CleanedAgrees(s, v.id);
      var clean := if v.Admitted() then Cleaned(s, v.id) else s;
      var session := SessionFor(clean, v.id, ports);
      if Passes(c, v) && session.Some? {
        var offer := OfferOf(c, v.body).value;
        StoredAgrees(clean, v, offer, session.value);
        CleanedAgrees(Stored(clean, v, offer, session.value), v.id);
      }
    case Response(id, status, d, body) =>
      ResponseOutcome(c, s, id, status, d, body);
      RespondedAgrees(s, id, status, d, OfferOf(c, body));
      var s1 := Responded(s, id, status, d, OfferOf(c, body));
      CleanedAgrees(s1, id);
      if id in s.calls && status == 200 && s1.calls[id].calleeRemote.Some? && !s1.calls[id].relayStarted {
        StartedAgrees(s1, id);
      }
    case Bye(id, fromTag, connectionExt) =>
      HangUpOutcome(c, s, id, fromTag, connectionExt);
      CleanedAgrees(s, id);
    case CancelMessage(id, fromTag) =>
      HangUpOutcome(c, s, id, fromTag, "");
      CancelledAgrees(s, id, fromTag);
      CleanedAgrees(Cancelled(s, id, fromTag), id);
  }

  lemma HangUpOutcome(c: Primitives, s: State, id: string, fromTag: string, connectionExt: string)
    ensures Handle(c, s, Bye(id, fromTag, connectionExt))
        == if MayHangUp(s, id, fromTag, connectionExt) then Cleaned(s, id) else s
    ensures Handle(c, s, CancelMessage(id, fromTag))
         == if MayCancel(s, id, fromTag) then Cleaned(Cancelled(s, id, fromTag), id) else s
  {
    hide MayHangUp, MayCancel, Apply;
    ApplyNothing(s);
    ApplyTwo(s, Cleanup(id), Cleanup(id));
    ApplyTwo(s, Cancel(id, fromTag), Cleanup(id));
  }

  lemma CancelledAgrees(s: State, id: string, fromTag: string)
    requires Agree(s)
    ensures Agree(Cancelled(s, id, fromTag))
  {
    if MayCancel(s, id, fromTag) {
      assert KeyedCall(s.calls[id]);
      assert Cancelled(s, id, fromTag).calls.Keys == s.calls.Keys;
    }
  }

  function HandleAll(c: Primitives, messages: seq<Message>): State
    decreases |messages|
  {
    if messages == [] then INITIAL
    else Handle(c, HandleAll(c, messages[..|messages| - 1]), messages[|messages| - 1])
  }

  /** When messages are handled one at a time, calls and relay resources agree after each of them, even
      if Call-IDs are used again. */
  lemma {:induction false} OneAtATimeAgrees(c: Primitives, messages: seq<Message>)
    ensures Agree(HandleAll(c, messages))
    decreases |messages|
  {
    if messages != [] {
      OneAtATimeAgrees(c, messages[..|messages| - 1]);
      hide Agree, Handle;
      HandleAgrees(c, HandleAll(c, messages[..|messages| - 1]), messages[|messages| - 1]);
    }
  }

  /** The callee answers with a key under a tag and suite that were offered to it. */
  predicate WellAnswered(answer: Option<(nat, MasterKeys)>) {
    answer.Some? && AnswerIsOffered(answer.value.0, answer.value.1.suite)
  }

  /** Then every answer that the caller sees carries the server's key for it under the tag and in the suite of its own
      offer, and the internal error of a missing key does not occur. */
  lemma AnswersMatchOffers(
    c: Primitives, addr: string, s: State, id: string, status: nat, d: Details, body: Option<string>)
    requires Agree(s) && id in s.calls
    ensures var seen, call := SeenByCaller(c, addr, s, id, status, d, body), s.calls[id];
      && call.callerLocal.value.suite == call.callerRemote.value.suite
      && seen ==
           if status == 200 && call.calleeRemote.None? && !WellAnswered(OfferOf(c, body)) then Failed(488)
           else if body.None? then Forwarded(status, None)
           else
             var crypto := SdesLines.Advertised(c, call.callerRemoteTag, call.callerLocal.value);
             Forwarded(status, Some(Sdp.Rewrite(Sdp.Target(addr, call.callerPort, [crypto]), body.value)))
  {
    assert KeyedCall(s.calls[id]);
    AnswerKeepsKeys(s.calls[id], status, d, OfferOf(c, body));
    AnswerKeepsOffer(s.calls[id], status, d, OfferOf(c, body));
    hide SdesLines.Extract, SdesLines.Advertised, Agree, Answer, KeyedCall, AnswerIsOffered, OfferOf, Sdp.Rewrite;
  }

  lemma AnswerKeepsOffer(call: Call, status: nat, d: Details, answer: Option<(nat, MasterKeys)>)
    ensures var call' := Answer(call, status, d, answer);
      && call'.callerLocal == call.callerLocal && call'.callerRemoteTag == call.callerRemoteTag
      && call'.callerPort == call.callerPort
      && call'.calleeRemote.None? == (call.calleeRemote.None? && !(status == 200 && WellAnswered(answer)))
  {
  }

  /** A call that ends leaves nothing behind: after a hang-up, a cancellation, a failure response or a refused answer,
      its Call-ID is in no table. */
  lemma EndedCallsLeaveNothing(c: Primitives, addr: string, s: State, m: Message)
    requires Agree(s)
    requires match m
      case InviteMessage(v, ports) => v.Admitted() && InviteReply(c, s, v, ports) != 100
      case Response(id, status, d, body) =>
        status >= 400 || (id in s.calls && SeenByCaller(c, addr, s, id, status, d, body).Failed?)
      case Bye(id, fromTag, connectionExt) => MayHangUp(s, id, fromTag, connectionExt)
      case CancelMessage(id, fromTag) => MayCancel(s, id, fromTag)
    ensures var t := Handle(c, s, m); var id := if m.InviteMessage? then m.invite.id else m.id;
      id !in t.calls && id !in t.sessions && id !in t.senders
  {
    HandleAgrees(c, s, m);
    hide Handle, SdesLines.Extract, Answer, MayHangUp, MayCancel, KeyedCall, InviteReply, SeenByCaller;
    match m
    case InviteMessage(v, ports) => RefusedInviteIsGone(c, s, v, ports);
    case Response(id, status, d, body) => FailedCallIsGone(c, addr, s, id, status, d, body);
    case Bye(id, fromTag, connectionExt) => HangUpOutcome(c, s, id, fromTag, connectionExt);
    case CancelMessage(id, fromTag) => HangUpOutcome(c, s, id, fromTag, "");
  }

  lemma RefusedInviteIsGone(c: Primitives, s: State, v: Invite, ports: Option<RelaySession>)
    requires v.Admitted() && InviteReply(c, s, v, ports) != 100
    ensures v.id !in Handle(c, s, InviteMessage(v, ports)).calls
  {
    hide Handle, SdesLines.Extract, Stored, CleanFirst, Apply;
    InviteOutcome(c, s, v, ports);
  }

  lemma FailedCallIsGone(
    c: Primitives, addr: string, s: State, id: string, status: nat, d: Details, body: Option<string>)
    requires status >= 400 || (id in s.calls && SeenByCaller(c, addr, s, id, status, d, body).Failed?)
    ensures id !in Handle(c, s, Response(id, status, d, body)).calls
  {
    hide Handle, SdesLines.Extract, Answer;
    ResponseOutcome(c, s, id, status, d, body);
  }

  // ----- one message at a time is one of the interleavings -----

  /** All regions that a sequence of messages runs through. */
  function Log(c: Primitives, messages: seq<Message>): seq<Event>
    decreases |messages|
  {
    if messages == [] then []
    else
      var before := messages[..|messages| - 1];
      Log(c, before) + EventsOf(c, HandleAll(c, before), messages[|messages| - 1])
  }

  lemma {:induction false} AfterIsApply(events: seq<Event>)
    ensures After(events) == Apply(INITIAL, events)
    decreases |events|
  {
    if events != [] {
      AfterIsApply(events[..|events| - 1]);
    }
  }

  /** The events that one message runs through are allowed wherever they start. */
  ghost predicate Allowed(s: State, events: seq<Event>) {
    forall k :: 0 <= k < |events| ==>
      && (events[k].InsertCall? ==> NewCall(events[k].call))
      && (events[k].StartRelay? ==> events[k].id in Apply(s, events[..k]).starting)
  }

  lemma ResponseEventsAllowed(
    c: Primitives, s: State, id: string, status: nat, d: Details, body: Option<string>)
    ensures Allowed(s, ResponseEvents(c, s, id, status, d, body))
  {
    hide SdesLines.Extract, Apply, Answer;
    var es, respond := ResponseEvents(c, s, id, status, d, body), Respond(id, status, d, OfferOf(c, body));
    if |es| == 3 {
      ApplyTwo(s, respond, MarkStarted(id));
      assert es[..2] == [respond, MarkStarted(id)];
    }
  }

  lemma EventsAllowed(c: Primitives, s: State, m: Message)
    ensures Allowed(s, EventsOf(c, s, m))
  {
    hide SdesLines.Extract, Apply, Allowed, ResponseEvents, MayHangUp, MayCancel, WithSuite, InviteEvents;
    match m
    case InviteMessage(v, ports) =>
      InviteEventsPlain(c, s, v, ports);
      NoStartsAllowed(s, EventsOf(c, s, m));
    case Response(id, status, d, body) => ResponseEventsAllowed(c, s, id, status, d, body);
    case Bye(_, _, _) => NoStartsAllowed(s, EventsOf(c, s, m));
    case CancelMessage(_, _) => NoStartsAllowed(s, EventsOf(c, s, m));
  }

  lemma InviteEventsPlain(c: Primitives, s: State, v: Invite, ports: Option<RelaySession>)
    ensures var es := InviteEvents(c, s, v, ports);
      forall k :: 0 <= k < |es| ==> !es[k].StartRelay? && (es[k].InsertCall? ==> NewCall(es[k].call))
  {
    hide SdesLines.Extract, Apply;
  }

  lemma NoStartsAllowed(s: State, events: seq<Event>)
    requires forall k :: 0 <= k < |events| ==>
      !events[k].StartRelay? && (events[k].InsertCall? ==> NewCall(events[k].call))
    ensures Allowed(s, events)
  {
  }

  lemma RunExtends(log: seq<Event>, events: seq<Event>)
    requires Run(log) && Allowed(After(log), events)
    ensures Run(log + events)
  {
    hide After, Apply, NewCall;
    var all := log + events;
    forall k | 0 <= k < |all|
      ensures (all[k].InsertCall? ==> NewCall(all[k].call))
           && (all[k].StartRelay? ==> all[k].id in After(all[..k]).starting)
    {
      if k < |log| {
        assert all[..k] == log[..k] && all[k] == log[k];
      } else {
        var i := k - |log|;
        assert all[..k] == log + events[..i] && all[k] == events[i];
        AfterIsApply(log);
        AfterIsApply(log + events[..i]);
        ApplyConcat(INITIAL, log, events[..i]);
      }
    }
  }

  /** Handling messages one at a time is one of the interleavings, so all that holds of these, such as the key
      agreement of every relay, holds there too. */
  lemma {:induction false} OneAtATimeIsARun(c: Primitives, messages: seq<Message>)
    ensures Run(Log(c, messages)) && After(Log(c, messages)) == HandleAll(c, messages)
    decreases |messages|
  {
    hide Apply, EventsOf, Allowed, Run;
    if messages == [] {
      EmptyRun();
    } else {
      var before, m := messages[..|messages| - 1], messages[|messages| - 1];
      OneAtATimeIsARun(c, before);
      var s := HandleAll(c, before);
      EventsAllowed(c, s, m);
      RunExtends(Log(c, before), EventsOf(c, s, m));
      AfterIsApply(Log(c, before));
      AfterIsApply(Log(c, before) + EventsOf(c, s, m));
      ApplyConcat(INITIAL, Log(c, before), EventsOf(c, s, m));
    }
  }

  lemma EmptyRun()
    ensures Run([]) && After([]) == INITIAL
  {
  }
}
