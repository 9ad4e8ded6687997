/** Where all that a call and its relay hold comes from, when messages are handled one at a time: told by the INVITE
    and the responses themselves. */
module CallOrigins {
  import opened Wrappers
  import opened Srtp
  import opened SrtpContext
  import opened RelayPorts
  import opened Calls
  import opened CallHandlers
  import SdesLines
  import Sdp

  // ----- the INVITE -----

  /** Master keys from fresh random octets: AES-CM takes 14 octets of salt, GCM 12. */
  function Made(suite: SrtpSuite, d: Drawn): MasterKeys {
    MasterKeys(suite, d.key, if suite == AesCm128HmacSha180 then d.salt else d.salt[..12] + [0, 0])
  }

  lemma WithSuiteMade(suite: SrtpSuite, d: Drawn)
    ensures WithSuite(suite, d) == Made(suite, d)
  {
    assert ZERO_SALT[12..] == [0, 0] && d.salt[..14] + ZERO_SALT[14..] == d.salt;
  }

  /** The call is as this INVITE asks, over this relay session: the key and the tag of the caller are those read from
      its description, the three keys of the server are fresh. */
  ghost predicate Asked(c: Primitives, call: Call, v: Invite, session: RelaySession) {
    && call.callerExt == v.callerExt && call.calleeExt == v.calleeExt && call.callerTag == v.callerTag
    && call.callerMedia == v.media && call.callerPort == session.callerPort && call.calleePort == session.calleePort
    && v.body.Some? && call.callerRemote.Some?
    && SdesLines.Extract(c, v.body.value) == Some((call.callerRemoteTag, call.callerRemote.value))
    && call.callerLocal == Some(Made(call.callerRemote.value.suite, v.toCaller))
    && call.calleeLocal == Some(Made(AesCm128HmacSha180, v.toCallee))
    && call.calleeLocalGcm == Some(Made(AeadAes128Gcm, v.toCalleeGcm))
  }

  /** The caller is who it says: registered, and speaking over its own connection, or over UDP from its own address. */
  predicate Vouched(v: Invite) {
    && !v.origin.blocked && v.callerExt != "" && v.origin.callerRegistered
    && (v.origin.connectionExt == Some(v.callerExt)
         || (v.origin.connectionExt == None && v.origin.udp && v.origin.sameAddress))
  }

  predicate InviteFor(m: Message, id: string) { m.InviteMessage? && m.invite.id == id && Vouched(m.invite) }

  lemma AdmittedIsVouched(v: Invite)
    ensures v.Admitted() <==> Vouched(v)
  {
  }

  /** An INVITE gets the first of these replies that applies, and a call is in place afterwards exactly with a 100: then
      it is as asked, over a session of its own. Only a refused caller whose address is not blocked counts as a
      failure. */
  lemma InviteExactly(c: Primitives, s: State, v: Invite, ports: Option<RelaySession>)
    requires Agree(s)
    ensures InviteReply(c, s, v, ports) ==
      if !Vouched(v) then 403
      else if !v.calleeOnline then 404
      else if !v.calleeReachable then 480
      else if v.body.None? || SdesLines.Extract(c, v.body.value).None? then 488
      else if ports.None? then 503
      else if !v.forwarded then 500
      else 100
    ensures v.CountsAsFailure() <==> InviteReply(c, s, v, ports) == 403 && !v.origin.blocked
    ensures var t := Handle(c, s, InviteMessage(v, ports));
      && (Vouched(v) ==> (v.id in t.calls <==> InviteReply(c, s, v, ports) == 100))
      && (InviteReply(c, s, v, ports) == 100 ==>
            && NewCall(t.calls[v.id]) && Asked(c, t.calls[v.id], v, ports.value)
            && v.id in t.sessions && t.sessions[v.id] == ports.value)
      && (!Vouched(v) ==> t == s) && t.relays == s.relays
  {
    InviteOutcome(c, s, v, ports);
    AdmittedIsVouched(v);
    hide Handle, Apply, CleanFirst, SdesLines.Extract, Vouched, Invite.Admitted;
    CleanedAgrees(s, v.id);
    if Passes(c, v) && ports.Some? {
      CallIsAsked(c, v, ports.value);
    }
    hide KeyedCall, CallFor, NewCall, Asked;
  }

  lemma CallIsAsked(c: Primitives, v: Invite, session: RelaySession)
    requires OfferOf(c, v.body).Some?
    ensures Asked(c, CallFor(v, OfferOf(c, v.body).value, session), v, session)
    ensures NewCall(CallFor(v, OfferOf(c, v.body).value, session))
  {
    var offer := OfferOf(c, v.body).value;
    WithSuiteMade(offer.1.suite, v.toCaller);
    WithSuiteMade(AesCm128HmacSha180, v.toCallee);
    WithSuiteMade(AeadAes128Gcm, v.toCalleeGcm);
    hide SdesLines.Extract, WithSuite, Made;
  }

  // ----- until the call ends -----

  /** The same call, whatever responses it got. */
  predicate SameCall(a: Call, b: Call) {
    && SameKeys(a, b) && a.callerExt == b.callerExt && a.calleeExt == b.calleeExt && a.callerTag == b.callerTag
  }

  /** A response of one of these kinds with a To tag. */
  predicate GivesTag(m: Message, id: string) {
    m.Response? && m.id == id && m.status in {180, 183, 200} && m.d.toTag.Some?
  }

  /** A message other than an admitted INVITE under the same Call-ID ends a call or leaves it what it is. */
  lemma HandleKeepsCall(c: Primitives, s: State, m: Message, id: string)
    requires id in Handle(c, s, m).calls && !InviteFor(m, id)
    ensures id in s.calls && SameCall(s.calls[id], Handle(c, s, m).calls[id])
    ensures id in s.sessions ==> id in Handle(c, s, m).sessions && Handle(c, s, m).sessions[id] == s.sessions[id]
    ensures Handle(c, s, m).calls[id].calleeTag ==
      if s.calls[id].calleeTag.None? && GivesTag(m, id) then m.d.toTag else s.calls[id].calleeTag
  {
    hide Handle, SdesLines.Extract, MayHangUp, MayCancel, SameCall, OfferOf, Vouched, Responded, Started, Marked,
      Cleaned;
    match m
    case InviteMessage(v, ports) =>
      InviteElsewhere(c, s, v, ports, id);
      Unchanged(s.calls[id]);
    case Response(x, status, d, body) =>
      ResponseOutcome(c, s, x, status, d, body);
      var s1 := Responded(s, x, status, d, OfferOf(c, body));
      RespondedKeeps(s, x, status, d, OfferOf(c, body), id);
      EndingKeeps(s1, x, id);
      SameCallChain(s.calls[id], s1.calls[id], Handle(c, s, m).calls[id]);
    case Bye(x, fromTag, connectionExt) =>
      HangUpOutcome(c, s, x, fromTag, connectionExt);
      EndingKeeps(s, x, id);
    case CancelMessage(x, fromTag) =>
      HangUpOutcome(c, s, x, fromTag, "");
      CancelKeeps(s, x, fromTag, id);
      var s1 := Cancelled(s, x, fromTag);
      EndingKeeps(s1, x, id);
      hide Cancelled;
      SameCallChain(s.calls[id], s1.calls[id], Handle(c, s, m).calls[id]);
  }

  lemma Unchanged(call: Call)
    ensures SameCall(call, call)
  {
  }

  lemma SameCallChain(a: Call, b: Call, c: Call)
    requires SameCall(a, b) && SameCall(b, c)
    ensures SameCall(a, c)
  {
  }

  /** A step that ends a call or leaves it what it is, with its session and the callee's tag. */
  ghost predicate Keeps(s: State, t: State, id: string) {
    id in t.calls ==>
      && id in s.calls && SameCall(s.calls[id], t.calls[id]) && t.calls[id].calleeTag == s.calls[id].calleeTag
      && (id in s.sessions ==> id in t.sessions && t.sessions[id] == s.sessions[id])
  }

  lemma EndingKeeps(s: State, x: string, id: string)
    ensures Keeps(s, s, id) && Keeps(s, Cleaned(s, x), id) && Keeps(s, Started(Marked(s, x), x), id)
  {
  }

  lemma CancelKeeps(s: State, x: string, fromTag: string, id: string)
    ensures Keeps(s, Cancelled(s, x, fromTag), id)
  {
  }

  lemma AnswerKeepsCall(call: Call, status: nat, d: Details, answer: Option<(nat, MasterKeys)>)
    ensures SameCall(call, Answer(call, status, d, answer))
    ensures Answer(call, status, d, answer).calleeTag ==
      if call.calleeTag.None? && status in {180, 183, 200} then d.toTag else call.calleeTag
  {
  }

  lemma RespondedKeeps(
    s: State, x: string, status: nat, d: Details, answer: Option<(nat, MasterKeys)>, id: string)
    ensures var t := Responded(s, x, status, d, answer);
      && t.calls.Keys == s.calls.Keys && t.sessions == s.sessions && (x !in s.calls ==> t == s)
      && (id in s.calls ==>
            && SameCall(s.calls[id], t.calls[id])
            && t.calls[id].calleeTag ==
                 if x == id && s.calls[id].calleeTag.None? && status in {180, 183, 200} then d.toTag
                 else s.calls[id].calleeTag)
  {
    if x in s.calls {
      AnswerKeepsCall(s.calls[x], status, d, answer);
    }
    if id in s.calls {
      Unchanged(s.calls[id]);
    }
    hide Answer, SameCall;
  }

  /** An INVITE leaves the calls of other Call-IDs alone, and all calls if it is not admitted. */
  lemma InviteElsewhere(c: Primitives, s: State, v: Invite, ports: Option<RelaySession>, id: string)
    requires v.id != id || !Vouched(v)
    ensures var t := Handle(c, s, InviteMessage(v, ports));
      && (id in t.calls <==> id in s.calls) && (id in t.calls ==> t.calls[id] == s.calls[id])
      && (id in s.sessions ==> id in t.sessions && t.sessions[id] == s.sessions[id])
  {
    InviteOutcome(c, s, v, ports);
    AdmittedIsVouched(v);
    hide Handle, SdesLines.Extract, CallFor, Vouched, Invite.Admitted, Apply, CleanFirst;
  }

  // ----- over all messages -----

  /** The tables before the n-th message. */
  function At(c: Primitives, messages: seq<Message>, n: nat): State
    requires n <= |messages|
  {
    HandleAll(c, messages[..n])
  }

  lemma OneMore(c: Primitives, messages: seq<Message>, n: nat)
    requires n < |messages|
    ensures At(c, messages, n + 1) == Handle(c, At(c, messages, n), messages[n])
    ensures Agree(At(c, messages, n))
  {
    assert messages[..n + 1][..n] == messages[..n];
    OneAtATimeAgrees(c, messages[..n]);
  }

  /** The i-th message is the INVITE that made this call, and no other has come under its Call-ID since. */
  ghost predicate MadeBy(c: Primitives, messages: seq<Message>, n: nat, id: string, i: nat) {
    && i < n <= |messages| && InviteFor(messages[i], id) && messages[i].ports.Some?
    && InviteReply(c, At(c, messages, i), messages[i].invite, messages[i].ports) == 100
    && forall k :: i < k < n ==> !InviteFor(messages[k], id)
  }

  lemma InviteMakes(c: Primitives, s: State, m: Message, id: string)
    requires Agree(s) && InviteFor(m, id) && id in Handle(c, s, m).calls
    ensures m.ports.Some? && InviteReply(c, s, m.invite, m.ports) == 100
    ensures var t := Handle(c, s, m);
      && Asked(c, t.calls[id], m.invite, m.ports.value) && t.calls[id].calleeTag == None
      && id in t.sessions && t.sessions[id] == m.ports.value
  {
    hide Handle, Agree, Asked, InviteReply, SdesLines.Extract;
    InviteExactly(c, s, m.invite, m.ports);
  }

  lemma MadeByLonger(c: Primitives, messages: seq<Message>, n: nat, id: string, i: nat)
    requires i < n < |messages| && MadeBy(c, messages, n, id, i) && !InviteFor(messages[n], id)
    ensures MadeBy(c, messages, n + 1, id, i)
  {
    hide At, InviteReply, Vouched;
  }

  lemma MadeJustNow(c: Primitives, messages: seq<Message>, n: nat, id: string)
    requires n < |messages| && InviteFor(messages[n], id) && messages[n].ports.Some?
    requires InviteReply(c, At(c, messages, n), messages[n].invite, messages[n].ports) == 100
    ensures MadeBy(c, messages, n + 1, id, n)
  {
  }

  /** A call is as its INVITE asked, over the session that the allocator had for it. */
  lemma {:induction false} CallWasAskedFor(c: Primitives, messages: seq<Message>, n: nat, id: string) returns (i: nat)
    requires n <= |messages| && id in At(c, messages, n).calls
    ensures MadeBy(c, messages, n, id, i) && i < n
    ensures messages[i].InviteMessage? && messages[i].ports.Some?
    ensures var s := At(c, messages, n);
      && Asked(c, s.calls[id], messages[i].invite, messages[i].ports.value)
      && id in s.sessions && s.sessions[id] == messages[i].ports.value
    decreases n
  {
    NothingBefore(c, messages, id);
    hide *;
    var k := n - 1;
    OneMore(c, messages, k);
    var s, t := At(c, messages, k), At(c, messages, n);
    if InviteFor(messages[k], id) {
      i := k;
      IsAnInvite(messages[k], id);
      InviteMakes(c, s, messages[k], id);
      MadeJustNow(c, messages, k, id);
    } else {
      HandleKeepsCall(c, s, messages[k], id);
      i := CallWasAskedFor(c, messages, k, id);
      SameIsAsked(c, s.calls[id], t.calls[id], messages[i].invite, messages[i].ports.value);
      MadeByLonger(c, messages, k, id, i);
    }
  }

  lemma IsAnInvite(m: Message, id: string)
    requires InviteFor(m, id)
    ensures m.InviteMessage?
  {
  }

  lemma NothingBefore(c: Primitives, messages: seq<Message>, id: string)
    ensures id !in At(c, messages, 0).calls
  {
    assert messages[..0] == [];
  }

  lemma SameIsAsked(c: Primitives, a: Call, b: Call, v: Invite, session: RelaySession)
    requires SameCall(a, b) && Asked(c, a, v, session)
    ensures Asked(c, b, v, session)
  {
    hide Made;
  }

  /** The first tag given between two messages, if any. */
  ghost predicate FirstTag(messages: seq<Message>, i: nat, n: nat, id: string, tag: Option<string>)
    requires n <= |messages|
  {
    && ((forall k :: i < k < n ==> !GivesTag(messages[k], id)) ==> tag == None)
    && forall j :: i < j < n && GivesTag(messages[j], id) && (forall k :: i < k < j ==> !GivesTag(messages[k], id))
         ==> tag == messages[j].d.toTag
  }

  lemma FirstTagSoFar(messages: seq<Message>, i: nat, n: nat, id: string, tag: Option<string>, tag': Option<string>)
    requires i < n < |messages| && FirstTag(messages, i, n, id, tag)
    requires tag' == if tag.None? && GivesTag(messages[n], id) then messages[n].d.toTag else tag
    ensures FirstTag(messages, i, n + 1, id, tag')
  {
    hide GivesTag;
    if exists j :: i < j < n && GivesTag(messages[j], id) {
      var j :| i < j < n && GivesTag(messages[j], id);
      var f := FirstOfThem(messages, i, j, id);
      assert messages[f].d.toTag.Some? by { TagGiven(messages[f], id); }
    }
  }

  lemma TagGiven(m: Message, id: string)
    requires GivesTag(m, id)
    ensures m.Response? && m.d.toTag.Some?
  {
  }

  lemma {:induction false} FirstOfThem(messages: seq<Message>, i: nat, j: nat, id: string) returns (f: nat)
    requires i < j < |messages| && GivesTag(messages[j], id)
    ensures i < f <= j && GivesTag(messages[f], id) && forall k :: i < k < f ==> !GivesTag(messages[k], id)
    decreases j
  {
    f := j;
    if k :| i < k < j && GivesTag(messages[k], id) {
      f := FirstOfThem(messages, i, k, id);
    }
  }

  lemma NoTagYet(messages: seq<Message>, i: nat, id: string)
    requires i < |messages|
    ensures FirstTag(messages, i, i + 1, id, None)
  {
  }

  /** The callee's tag is the one in its first provisional or successful response that had one. */
  lemma {:induction false} CalleeTagIsItsFirst(c: Primitives, messages: seq<Message>, n: nat, id: string, i: nat)
    requires MadeBy(c, messages, n, id, i) && i < n <= |messages| && id in At(c, messages, n).calls
    ensures FirstTag(messages, i, n, id, At(c, messages, n).calls[id].calleeTag)
    decreases n
  {
    hide *;
    var k := n - 1;
    MadeByBefore(c, messages, n, id, i);
    OneMore(c, messages, k);
    var s, t := At(c, messages, k), At(c, messages, n);
    if k == i {
      InviteMakes(c, s, messages[k], id);
      NoTagYet(messages, i, id);
    } else {
      HandleKeepsCall(c, s, messages[k], id);
      var before, after := s.calls[id].calleeTag, t.calls[id].calleeTag;
      CalleeTagIsItsFirst(c, messages, k, id, i);
      FirstTagSoFar(messages, i, k, id, before, after);
    }
  }

  lemma MadeByBefore(c: Primitives, messages: seq<Message>, n: nat, id: string, i: nat)
    requires MadeBy(c, messages, n, id, i) && i < n <= |messages|
    ensures InviteFor(messages[i], id) && (i < n - 1 ==> MadeBy(c, messages, n - 1, id, i))
    ensures i < n - 1 ==> !InviteFor(messages[n - 1], id)
  {
    hide At, InviteReply, Vouched;
  }

  /** What a response changes in its call: how far the call is, by its status; the callee's contact, by the first 200
      that gives one; and, with an accepted answer, the callee's key and media address. All else stays. */
  lemma ProgressExactly(call: Call, status: nat, d: Details, answer: Option<(nat, MasterKeys)>)
    ensures var after, accepted := Answer(call, status, d, answer), status == 200 && WellAnswered(answer);
      && SameCall(call, after) && after.relayStarted == call.relayStarted
      && after.state ==
           (if status in {180, 183} then Ringing
            else if accepted then Established
            else if status == 200 || status >= 400 then Terminated
            else call.state)
      && after.calleeContact == (if status == 200 && call.calleeContact == None then d.contact else call.calleeContact)
      && after.calleeRemote == (if accepted then Some(answer.value.1) else call.calleeRemote)
      && after.calleeMedia == (if accepted then d.media else call.calleeMedia)
  {
  }

  // ----- who may end a call -----

  /** Someone speaks for the caller: by the From tag of the INVITE, or over a connection of the caller's extension. */
  predicate ForCaller(v: Invite, fromTag: string, connectionExt: string) {
    (fromTag != "" && fromTag == v.callerTag) || (connectionExt != "" && connectionExt == v.callerExt)
  }

  /** Or for the callee: by the tag that it gave first, or over a connection of the extension that was called. */
  predicate ForCallee(v: Invite, tag: Option<string>, fromTag: string, connectionExt: string) {
    (fromTag != "" && tag == Some(fromTag)) || (connectionExt != "" && connectionExt == v.calleeExt)
  }

  /** A BYE is accepted exactly from someone who speaks for one of the two parties, and goes to the other one, or to the
      caller if it could be from either; a CANCEL is accepted exactly with the From tag of the INVITE. */
  lemma WhoMayEndACall(
    c: Primitives, messages: seq<Message>, n: nat, id: string, fromTag: string, connectionExt: string)
    returns (i: nat, tag: Option<string>)
    requires n <= |messages| && id in At(c, messages, n).calls
    ensures MadeBy(c, messages, n, id, i) && messages[i].InviteMessage? && FirstTag(messages, i, n, id, tag)
    ensures var s, v := At(c, messages, n), messages[i].invite;
      var caller, callee := ForCaller(v, fromTag, connectionExt), ForCallee(v, tag, fromTag, connectionExt);
      && (MayHangUp(s, id, fromTag, connectionExt) <==> caller || callee)
      && ByeGoesTo(s, id, fromTag, connectionExt) ==
           (if callee then Some(CallerSide) else if caller then Some(CalleeSide) else None)
      && (MayCancel(s, id, fromTag) <==> fromTag != "" && fromTag == v.callerTag)
  {
    i := CallWasAskedFor(c, messages, n, id);
    CalleeTagIsItsFirst(c, messages, n, id, i);
    tag := At(c, messages, n).calls[id].calleeTag;
    hide At, MadeBy, FirstTag, Made, SdesLines.Extract;
  }

  // ----- the relay -----

  /** A call has the callee's key exactly if its relay has started. */
  ghost predicate StartsAtOnce(s: State) {
    forall id :: id in s.calls ==> (s.calls[id].calleeRemote.Some? <==> s.calls[id].relayStarted)
  }

  /** The description has a usable key under a tag that was offered with its suite: 1 for AES-CM, 2 for GCM. */
  predicate Accepts(c: Primitives, body: Option<string>) {
    && body.Some? && SdesLines.Extract(c, body.value).Some?
    && var (tag, keys) := SdesLines.Extract(c, body.value).value;
       (tag == 1 && keys.suite == AesCm128HmacSha180) || (tag == 2 && keys.suite == AeadAes128Gcm)
  }

  /** This message starts the relay of its call. */
  predicate Starts(c: Primitives, s: State, m: Message) {
    m.Response? && m.status == 200 && m.id in s.calls && !s.calls[m.id].relayStarted && Accepts(c, m.body)
  }

  lemma AcceptsIsWellAnswered(c: Primitives, body: Option<string>)
    ensures Accepts(c, body) <==> WellAnswered(OfferOf(c, body))
  {
    hide SdesLines.Extract;
  }

  lemma AnswerTakesKey(call: Call, status: nat, d: Details, answer: Option<(nat, MasterKeys)>)
    ensures var after := Answer(call, status, d, answer);
      && after.relayStarted == call.relayStarted
      && after.calleeRemote ==
           (if status == 200 && WellAnswered(answer) then Some(answer.value.1) else call.calleeRemote)
      && after.calleeMedia == if status == 200 && WellAnswered(answer) then d.media else call.calleeMedia
  {
  }

  lemma AnswerKeepsCaller(call: Call, status: nat, d: Details, answer: Option<(nat, MasterKeys)>)
    requires KeyedCall(call)
    ensures Answer(call, status, d, answer).callerLocal.Some?
  {
  }

  lemma MarkedIsSame(a: Call, b: Call)
    requires SameCall(a, b)
    ensures SameCall(a, b.(relayStarted := true))
  {
  }

  lemma StartedRelay(s: State, id: string)
    requires id in s.calls && !s.calls[id].relayStarted && s.calls[id].calleeRemote.Some?
    ensures var t, call := Started(Marked(s, id), id), s.calls[id].(relayStarted := true);
      t.calls == s.calls[id := call] && t.relays == s.relays + [RelayOf(id, call)]
  {
    hide RelayOf;
  }

  /** Only a 200 with an acceptable answer starts a relay, and only the first one; what the relay gets from the callee
      is then in this very message. */
  lemma ResponseStarts(c: Primitives, s: State, id: string, status: nat, d: Details, body: Option<string>)
    returns (call: Call)
    requires Agree(s) && StartsAtOnce(s)
    ensures var m := Response(id, status, d, body); var t := Handle(c, s, m);
      && StartsAtOnce(t)
      && (!Starts(c, s, m) ==> t.relays == s.relays)
      && (Starts(c, s, m) ==>
            && SameCall(s.calls[id], call) && call.calleeMedia == d.media
            && call.calleeRemote == Some(SdesLines.Extract(c, body.value).value.1)
            && t.relays == s.relays + [RelayOf(id, call)])
  {
    call := *;
    ResponseOutcome(c, s, id, status, d, body);
    if id in s.calls {
      var answer := OfferOf(c, body);
      AnswerTakesKey(s.calls[id], status, d, answer);
      AnswerKeepsCall(s.calls[id], status, d, answer);
      AnswerKeepsCaller(s.calls[id], status, d, answer);
      AcceptsIsWellAnswered(c, body);
      call := Answer(s.calls[id], status, d, answer).(relayStarted := true);
      MarkedIsSame(s.calls[id], Answer(s.calls[id], status, d, answer));
      var s1 := Responded(s, id, status, d, answer);
      assert s1.calls == s.calls[id := Answer(s.calls[id], status, d, answer)] && s1.relays == s.relays;
      hide Handle, Answer, Accepts, WellAnswered, SdesLines.Extract, RelayOf, SameCall, KeyedCall, Responded, Agree;
      if Starts(c, s, Response(id, status, d, body)) {
        StartedRelay(s1, id);
      }
      CleanedParts(s1, id);
      hide Started, Marked, Cleaned;
    }
  }

  lemma InviteStartsNothing(c: Primitives, s: State, v: Invite, ports: Option<RelaySession>)
    requires StartsAtOnce(s)
    ensures var t := Handle(c, s, InviteMessage(v, ports)); StartsAtOnce(t) && t.relays == s.relays
  {
    InviteOutcome(c, s, v, ports);
    hide Handle, SdesLines.Extract, WithSuite, Invite.Admitted, Apply, CleanFirst;
  }

  lemma HandleStarts(c: Primitives, s: State, m: Message) returns (call: Call)
    requires Agree(s) && StartsAtOnce(s)
    ensures StartsAtOnce(Handle(c, s, m))
    ensures !Starts(c, s, m) ==> Handle(c, s, m).relays == s.relays
    ensures Starts(c, s, m) ==>
      && SameCall(s.calls[m.id], call) && call.calleeMedia == m.d.media
      && call.calleeRemote == Some(SdesLines.Extract(c, m.body.value).value.1)
      && Handle(c, s, m).relays == s.relays + [RelayOf(m.id, call)]
  {
    hide Agree, Handle, SdesLines.Extract, RelayOf, SameCall, MayHangUp, Accepts;
    call := *;
    match m
    case InviteMessage(v, ports) =>
      InviteStartsNothing(c, s, v, ports);
    case Response(id, status, d, body) =>
      call := ResponseStarts(c, s, id, status, d, body);
    case Bye(id, fromTag, connectionExt) =>
      HangUpOutcome(c, s, id, fromTag, connectionExt);
    case CancelMessage(id, fromTag) =>
      HangUpOutcome(c, s, id, fromTag, "");
  }

  lemma {:induction false} RelaysStartAtOnce(c: Primitives, messages: seq<Message>, n: nat)
    requires n <= |messages|
    ensures StartsAtOnce(At(c, messages, n))
    decreases n
  {
    if n == 0 {
      assert messages[..0] == [];
    } else {
      OneMore(c, messages, n - 1);
      RelaysStartAtOnce(c, messages, n - 1);
      hide *;
      var _ := HandleStarts(c, At(c, messages, n - 1), messages[n - 1]);
    }
  }

  /** The relay is what INVITE and answer make it: it runs on the ports of the session, sends to the media address that
      each party gave, decrypts with the key that this party sent, and encrypts with the key drawn for this party in the
      suite of that key. */
  predicate AsAgreed(c: Primitives, r: Relay, v: Invite, session: RelaySession, d: Details, body: Option<string>) {
    && v.body.Some? && SdesLines.Extract(c, v.body.value).Some?
    && body.Some? && SdesLines.Extract(c, body.value).Some?
    && var callerKey, calleeKey := SdesLines.Extract(c, v.body.value).value.1, SdesLines.Extract(c, body.value).value.1;
    && var forCallee := if calleeKey.suite == AeadAes128Gcm then v.toCalleeGcm else v.toCallee;
    r == Relay(v.id, session.callerPort, session.calleePort,
               Some(callerKey), Some(Made(calleeKey.suite, forCallee)),
               Some(calleeKey), Some(Made(callerKey.suite, v.toCaller)), v.media, d.media)
  }

  /** What the server offers to the callee: a fresh key of each suite. */
  function OfferedTo(c: Primitives, v: Invite): seq<Sdp.SdpCrypto> {
    [SdesLines.Advertised(c, 1, Made(AesCm128HmacSha180, v.toCallee)),
     SdesLines.Advertised(c, 2, Made(AeadAes128Gcm, v.toCalleeGcm))]
  }

  /** Each party is told the port that the relay serves it on, and the keys that the relay encrypts with towards it:
      the callee one of each suite, the caller the one in the suite and under the tag of its offer. */
  predicate ToldAsRelayed(c: Primitives, addr: string, r: Relay, v: Invite, body: string, toCallee: string,
      toCaller: string)
    requires v.body.Some? && SdesLines.Extract(c, v.body.value).Some? && r.callerEncrypt.Some?
  {
    var tag := SdesLines.Extract(c, v.body.value).value.0;
    var answered := [SdesLines.Advertised(c, tag, r.callerEncrypt.value)];
    && toCallee == Sdp.Rewrite(Sdp.Target(addr, r.calleePort, OfferedTo(c, v)), v.body.value)
    && toCaller == Sdp.Rewrite(Sdp.Target(addr, r.callerPort, answered), body)
  }

  lemma RelayOfAsked(c: Primitives, old': Call, call: Call, v: Invite, session: RelaySession, m: Message)
    requires Asked(c, old', v, session) && SameCall(old', call) && m.Response? && Accepts(c, m.body)
    requires call.calleeRemote == Some(SdesLines.Extract(c, m.body.value).value.1) && call.calleeMedia == m.d.media
    ensures AsAgreed(c, RelayOf(v.id, call), v, session, m.d, m.body)
  {
    hide Made, SdesLines.Extract;
  }

  lemma CalleeIsTold(c: Primitives, addr: string, s: State, v: Invite, ports: Option<RelaySession>)
    requires Agree(s) && InviteReply(c, s, v, ports) == 100
    ensures ports.Some? && v.body.Some?
    ensures SeenByCallee(c, addr, s, v, ports)
         == Some(Sdp.Rewrite(Sdp.Target(addr, ports.value.calleePort, OfferedTo(c, v)), v.body.value))
  {
    InviteOutcome(c, s, v, ports);
    CleanedAgrees(s, v.id);
    WithSuiteMade(AesCm128HmacSha180, v.toCallee);
    WithSuiteMade(AeadAes128Gcm, v.toCalleeGcm);
    hide Handle, Apply, CleanFirst, SdesLines.Extract, SdesLines.Advertised, Sdp.Rewrite, Invite.Admitted, WithSuite,
      Made, Stored, KeyedCall;
  }

  lemma CallerIsTold(c: Primitives, addr: string, s: State, m: Message, v: Invite, session: RelaySession)
    requires Agree(s) && Starts(c, s, m) && Asked(c, s.calls[m.id], v, session)
    ensures var offer := SdesLines.Extract(c, v.body.value).value;
      var crypto := SdesLines.Advertised(c, offer.0, Made(offer.1.suite, v.toCaller));
      SeenByCaller(c, addr, s, m.id, 200, m.d, m.body)
        == Forwarded(200, Some(Sdp.Rewrite(Sdp.Target(addr, session.callerPort, [crypto]), m.body.value)))
  {
    AcceptsIsWellAnswered(c, m.body);
    AnswersMatchOffers(c, addr, s, m.id, 200, m.d, m.body);
    hide Accepts, WellAnswered, OfferOf, SeenByCaller, SdesLines.Extract, SdesLines.Advertised, Sdp.Rewrite, Made,
      Agree;
  }

  lemma MadeByFacts(c: Primitives, messages: seq<Message>, n: nat, id: string, i: nat)
    requires MadeBy(c, messages, n, id, i)
    ensures i < n <= |messages| && messages[i].InviteMessage? && messages[i].invite.id == id && messages[i].ports.Some?
    ensures Agree(At(c, messages, i))
    ensures InviteReply(c, At(c, messages, i), messages[i].invite, messages[i].ports) == 100
  {
    OneMore(c, messages, i);
    hide At, Agree, InviteReply, Vouched;
  }

  lemma ToldOfAgreed(c: Primitives, addr: string, r: Relay, v: Invite, session: RelaySession, m: Message)
    requires m.Response? && AsAgreed(c, r, v, session, m.d, m.body)
    ensures r.callerEncrypt.Some?
    ensures var offer := SdesLines.Extract(c, v.body.value).value;
      var crypto := SdesLines.Advertised(c, offer.0, Made(offer.1.suite, v.toCaller));
      ToldAsRelayed(c, addr, r, v, m.body.value,
                    Sdp.Rewrite(Sdp.Target(addr, session.calleePort, OfferedTo(c, v)), v.body.value),
                    Sdp.Rewrite(Sdp.Target(addr, session.callerPort, [crypto]), m.body.value))
  {
    hide Made, SdesLines.Extract, SdesLines.Advertised, Sdp.Rewrite, OfferedTo;
  }

  /** A relay made as agreed, and both parties told so: the callee in state s0, the caller in state s. */
  ghost predicate AgreedAndTold(
    c: Primitives, addr: string, s0: State, s: State, r: Relay, v: Invite, ports: Option<RelaySession>, m: Message)
  {
    && m.Response? && ports.Some? && AsAgreed(c, r, v, ports.value, m.d, m.body)
    && var toCallee, toCaller := SeenByCallee(c, addr, s0, v, ports), SeenByCaller(c, addr, s, m.id, 200, m.d, m.body);
    && toCallee.Some? && toCaller.Forwarded? && toCaller.status == 200 && toCaller.description.Some?
    && ToldAsRelayed(c, addr, r, v, m.body.value, toCallee.value, toCaller.description.value)
  }

  lemma StartedAsTold(c: Primitives, addr: string, s0: State, s: State, call: Call, v: Invite,
      ports: Option<RelaySession>, m: Message)
    requires Agree(s0) && Agree(s) && Starts(c, s, m) && m.id == v.id && InviteReply(c, s0, v, ports) == 100
    requires ports.Some? && Asked(c, s.calls[v.id], v, ports.value) && SameCall(s.calls[v.id], call)
    requires call.calleeRemote == Some(SdesLines.Extract(c, m.body.value).value.1) && call.calleeMedia == m.d.media
    ensures AgreedAndTold(c, addr, s0, s, RelayOf(v.id, call), v, ports, m)
  {
    RelayOfAsked(c, s.calls[v.id], call, v, ports.value, m);
    CalleeIsTold(c, addr, s0, v, ports);
    CallerIsTold(c, addr, s, m, v, ports.value);
    ToldOfAgreed(c, addr, RelayOf(v.id, call), v, ports.value, m);
    hide SeenByCallee, SeenByCaller, AsAgreed, ToldAsRelayed, SdesLines.Extract, SdesLines.Advertised, Sdp.Rewrite,
      OfferedTo, Made, RelayOf, Agree, Asked, SameCall, Accepts, InviteReply;
  }

  /** With messages handled one at a time, a relay starts exactly with the first 200 of a call that has an acceptable
      answer, and is then what the INVITE that made the call and this answer make it; and what the server had told the
      callee, and now tells the caller, is true of it. */
  lemma RelayIsAsAgreed(c: Primitives, addr: string, messages: seq<Message>, n: nat) returns (i: nat)
    requires n < |messages|
    ensures var s, t, m := At(c, messages, n), At(c, messages, n + 1), messages[n];
      && (!Starts(c, s, m) ==> t.relays == s.relays)
      && (Starts(c, s, m) ==>
            && t.relays != [] && t.relays[..|t.relays| - 1] == s.relays
            && i < n && MadeBy(c, messages, n, m.id, i) && messages[i].InviteMessage?
            && AgreedAndTold(c, addr, At(c, messages, i), s, t.relays[|t.relays| - 1], messages[i].invite,
                             messages[i].ports, m))
  {
    hide *;
    var s, m := At(c, messages, n), messages[n];
    OneMore(c, messages, n);
    RelaysStartAtOnce(c, messages, n);
    var call := HandleStarts(c, s, m);
    i := 0;
    if Starts(c, s, m) {
      StartsOfCall(c, s, m);
      i := CallWasAskedFor(c, messages, n, m.id);
      MadeByFacts(c, messages, n, m.id, i);
      StartedAsTold(c, addr, At(c, messages, i), s, call, messages[i].invite, messages[i].ports, m);
    }
  }

  lemma StartsOfCall(c: Primitives, s: State, m: Message)
    requires Starts(c, s, m)
    ensures m.Response? && m.id in s.calls
  {
  }
}
