/** Calls, relay sessions, stop senders and keys: every interleaving of the regions that the
    handlers run under a lock. */
module Calls {
  import opened Wrappers
  import opened Srtp
  import opened SrtpContext
  import opened RelayPorts
  import SdesLines
  import SdesOffers
  import Sdp

  datatype CallState = Trying | Ringing | Established | Terminated

  /** A call as the router stores it: who takes part, how far it is, and the keys, media addresses and
      relay ports of both legs. */
  datatype Call = Call(
    callerExt: string, calleeExt: string, callerTag: string, calleeTag: Option<string>, state: CallState,
    calleeContact: Option<string>, callerMedia: Option<string>, calleeMedia: Option<string>,
    callerRemote: Option<MasterKeys>, callerRemoteTag: nat, callerLocal: Option<MasterKeys>,
    calleeRemote: Option<MasterKeys>, calleeLocal: Option<MasterKeys>, calleeLocalGcm: Option<MasterKeys>,
    callerPort: nat, calleePort: nat, relayStarted: bool)

  /** What a response carries besides its description's key: its To tag, its Contact and its media address. */
  datatype Details = Details(toTag: Option<string>, contact: Option<string>, media: Option<string>)

  const NO_DETAILS := Details(None, None, None)

  /** What a relay task is started with. */
  datatype Relay = Relay(
    id: string, callerPort: nat, calleePort: nat,
    callerDecrypt: Option<MasterKeys>, calleeEncrypt: Option<MasterKeys>,
    calleeDecrypt: Option<MasterKeys>, callerEncrypt: Option<MasterKeys>,
    callerMedia: Option<string>, calleeMedia: Option<string>)
  {
    predicate FullyKeyed() { callerDecrypt.Some? && calleeEncrypt.Some? && calleeDecrypt.Some? && callerEncrypt.Some? }
  }

  /** The shared tables, the responses that have claimed a relay start and not yet made it, and the relays started. */
  datatype State = State(
    calls: map<string, Call>, sessions: map<string, RelaySession>, senders: set<string>,
    starting: multiset<string>, relays: seq<Relay>)

  const INITIAL := State(map[], map[], {}, multiset{}, [])

  /** `callee_answer_crypto_is_offered`. */
  predicate AnswerIsOffered(tag: nat, suite: SrtpSuite) {
    (tag == 1 && suite == AesCm128HmacSha180) || (tag == 2 && suite == AeadAes128Gcm)
  }

  // ----- the regions -----

  function FirstOf(known: Option<string>, next: Option<string>): Option<string> { if known.None? then next else known }

  /** What a response from the callee changes in its call. */
  function Answer(call: Call, status: nat, d: Details, answer: Option<(nat, MasterKeys)>): Call {
    if status == 180 || status == 183 then call.(state := Ringing, calleeTag := FirstOf(call.calleeTag, d.toTag))
    else if status == 200 then
      var tagged := call.(calleeTag := FirstOf(call.calleeTag, d.toTag),
          calleeContact := FirstOf(call.calleeContact, d.contact));
      if answer.Some? && AnswerIsOffered(answer.value.0, answer.value.1.suite) then
        tagged.(calleeRemote := Some(answer.value.1), calleeMedia := d.media, state := Established)
      else tagged.(state := Terminated)
    else if status >= 400 then call.(state := Terminated)
    else call
  }

  /** `cleanup_call`: the session and the stop sender go only if the call was there. */
  function Cleaned(s: State, id: string): State {
    if id in s.calls then s.(calls := s.calls - {id}, sessions := s.sessions - {id}, senders := s.senders - {id}) else s
  }

  function Responded(s: State, id: string, status: nat, d: Details, answer: Option<(nat, MasterKeys)>): State {
    if id in s.calls then s.(calls := s.calls[id := Answer(s.calls[id], status, d, answer)]) else s
  }

  /** The region that claims the start of the relay. */
  function Marked(s: State, id: string): State {
    if id in s.calls && !s.calls[id].relayStarted && s.calls[id].calleeRemote.Some? then
      s.(calls := s.calls[id := s.calls[id].(relayStarted := true)], starting := s.starting + multiset{id})
    else s
  }

  /** The contexts taken from a call; the key towards the callee follows the suite that it answered with. */
  function RelayOf(id: string, call: Call): Relay {
    var gcm := call.calleeRemote.Some? && call.calleeRemote.value.suite == AeadAes128Gcm;
    var encrypt := if gcm && call.calleeLocalGcm.Some? then call.calleeLocalGcm else call.calleeLocal;
    Relay(id, call.callerPort, call.calleePort, call.callerRemote, encrypt, call.calleeRemote, call.callerLocal,
          call.callerMedia, call.calleeMedia)
  }

  /** `start_media_relay`. */
  function Started(s: State, id: string): State {
    var s' := s.(starting := s.starting - multiset{id});
    if id in s.calls then s'.(senders := s.senders + {id}, relays := s.relays + [RelayOf(id, s.calls[id])]) else s'
  }

  /** The region of `handle_cancel` that looks at the caller's tag. */
  predicate MayCancel(s: State, id: string, fromTag: string) {
    id in s.calls && fromTag != "" && fromTag == s.calls[id].callerTag
  }

  function Cancelled(s: State, id: string, fromTag: string): State {
    if MayCancel(s, id, fromTag) then s.(calls := s.calls[id := s.calls[id].(state := Terminated)]) else s
  }

  datatype Event =
    | InsertSession(id: string, session: RelaySession)
    | InsertCall(id: string, call: Call)
    | Cleanup(id: string)
    | Respond(id: string, status: nat, d: Details, answer: Option<(nat, MasterKeys)>)
    | Cancel(id: string, fromTag: string)
    | MarkStarted(id: string)
    | StartRelay(id: string)

  function Step(s: State, e: Event): State {
    match e
    case InsertSession(id, session) => s.(sessions := s.sessions[id := session])
    case InsertCall(id, call) => s.(calls := s.calls[id := call])
    case Cleanup(id) => Cleaned(s, id)
    case Respond(id, status, d, answer) => Responded(s, id, status, d, answer)
    case Cancel(id, fromTag) => Cancelled(s, id, fromTag)
    case MarkStarted(id) => Marked(s, id)
    case StartRelay(id) => Started(s, id)
  }

  function After(events: seq<Event>): State
    decreases |events|
  {
    if events == [] then INITIAL else Step(After(events[..|events| - 1]), events[|events| - 1])
  }

  /** A call as `handle_invite` stores it: keys for the caller in the suite it offered, and for the
      callee one of each suite. */
  predicate NewCall(call: Call) {
    && call.state == Trying && call.calleeTag.None? && call.calleeContact.None? && call.calleeMedia.None?
         && !call.relayStarted && call.calleeRemote.None?
    && call.callerRemote.Some? && call.callerLocal.Some?
         && call.callerLocal.value.suite == call.callerRemote.value.suite
    && call.calleeLocal.Some? && call.calleeLocal.value.suite == AesCm128HmacSha180
    && call.calleeLocalGcm.Some? && call.calleeLocalGcm.value.suite == AeadAes128Gcm
  }

  /** Calls are inserted new, and relays are only started by responses that claimed to. */
  ghost predicate Run(events: seq<Event>) {
    forall k :: 0 <= k < |events| ==>
      && (events[k].InsertCall? ==> NewCall(events[k].call))
      && (events[k].StartRelay? ==> events[k].id in After(events[..k]).starting)
  }

  /** This event inserts a call under this Call-ID. */
  predicate Inserts(e: Event, id: string) { e.InsertCall? && e.id == id }

  /** No call is inserted while a start that was claimed under its Call-ID is still to be made. */
  ghost predicate StartsMadeFirst(events: seq<Event>) {
    forall k :: 0 <= k < |events| && events[k].InsertCall? ==> events[k].id !in After(events[..k]).starting
  }

  lemma AfterOneMore(events: seq<Event>, n: nat)
    requires n < |events|
    ensures After(events[..n + 1]) == Step(After(events[..n]), events[n])
  {
    assert events[..n + 1][..n] == events[..n];
  }

  // ----- stop senders -----

  /** In every interleaving, each stop sender belongs to an active call. */
  lemma {:induction false} SendersBelongToCalls(events: seq<Event>)
    ensures After(events).senders <= After(events).calls.Keys
    decreases |events|
  {
    if events != [] {
      SendersBelongToCalls(events[..|events| - 1]);
      hide After;
      StepKeepsSenders(After(events[..|events| - 1]), events[|events| - 1]);
    }
  }

  lemma StepKeepsSenders(s: State, e: Event)
    requires s.senders <= s.calls.Keys
    ensures Step(s, e).senders <= Step(s, e).calls.Keys
  {
    hide Answer, RelayOf;
  }

  // ----- where a call's keys come from -----

  /** The same call, apart from its progress. */
  predicate SameKeys(a: Call, b: Call) {
    && a.callerRemote == b.callerRemote && a.callerRemoteTag == b.callerRemoteTag && a.callerLocal == b.callerLocal
    && a.calleeLocal == b.calleeLocal && a.calleeLocalGcm == b.calleeLocalGcm
    && a.callerPort == b.callerPort && a.calleePort == b.calleePort && a.callerMedia == b.callerMedia
  }

  /** This event is an answer from the callee that is taken over. */
  predicate TakenOver(e: Event, id: string) {
    && e.Respond? && e.id == id && e.status == 200 && e.answer.Some?
    && AnswerIsOffered(e.answer.value.0, e.answer.value.1.suite)
  }

  /** A call in the table is the one last inserted under its Call-ID. */
  lemma {:induction false} CallWasInserted(events: seq<Event>, n: nat, id: string) returns (i: nat)
    requires n <= |events| && id in After(events[..n]).calls
    ensures i < n && events[i].InsertCall? && events[i].id == id
        && SameKeys(After(events[..n]).calls[id], events[i].call)
    ensures forall k :: i < k < n ==> !(events[k].InsertCall? && events[k].id == id)
    decreases n
  {
    var k := n - 1;
    AfterOneMore(events, k);
    hide After;
    if events[k].InsertCall? && events[k].id == id {
      i := k;
    } else {
      StepKeepsKeys(After(events[..k]), events[k], id);
      hide Step, TakenOver, SameKeys;
      i := CallWasInserted(events, k, id);
      SameKeysChain(After(events[..n]).calls[id], After(events[..k]).calls[id], events[i].call);
    }
  }

  lemma SameKeysChain(a: Call, b: Call, c: Call)
    requires SameKeys(b, a) && SameKeys(b, c)
    ensures SameKeys(a, c)
  {
  }

  lemma StepKeepsKeys(s: State, e: Event, id: string)
    requires id in Step(s, e).calls && !(e.InsertCall? && e.id == id)
    ensures id in s.calls && SameKeys(s.calls[id], Step(s, e).calls[id])
    ensures Step(s, e).calls[id].calleeRemote == if TakenOver(e, id) then Some(e.answer.value.1)
        else s.calls[id].calleeRemote
    ensures Step(s, e).calls[id].calleeMedia == if TakenOver(e, id) then e.d.media else s.calls[id].calleeMedia
    ensures s.calls[id].relayStarted ==> Step(s, e).calls[id].relayStarted
    ensures Step(s, e).calls[id].relayStarted && !s.calls[id].relayStarted ==> e == MarkStarted(id)
  {
    hide RelayOf, AnswerIsOffered;
  }

  /** The key and the media address of the callee that a call holds are those in its last answer that was taken over. */
  lemma {:induction false} CalleeKeyWasAnswered(events: seq<Event>, n: nat, id: string) returns (j: nat)
    requires n <= |events| && Run(events) && id in After(events[..n]).calls
        && After(events[..n]).calls[id].calleeRemote.Some?
    ensures j < n && TakenOver(events[j], id)
        && After(events[..n]).calls[id].calleeRemote == Some(events[j].answer.value.1)
        && After(events[..n]).calls[id].calleeMedia == events[j].d.media
    ensures forall k :: j < k < n ==> !TakenOver(events[k], id) && !(events[k].InsertCall? && events[k].id == id)
    decreases n
  {
    var k := n - 1;
    AfterOneMore(events, k);
    hide After, AnswerIsOffered;
    assert !(events[k].InsertCall? && events[k].id == id);
    StepKeepsKeys(After(events[..k]), events[k], id);
    if TakenOver(events[k], id) {
      j := k;
    } else {
      j := CalleeKeyWasAnswered(events, k, id);
    }
  }

  // ----- key agreement -----

  /** The crypto lines that the forwarded INVITE advertises to the callee. */
  function CalleeOffer(c: Primitives, call: Call): seq<Sdp.SdpCrypto>
    requires call.calleeLocal.Some? && call.calleeLocalGcm.Some?
  {
    [SdesLines.Advertised(c, 1, call.calleeLocal.value), SdesLines.Advertised(c, 2, call.calleeLocalGcm.value)]
  }

  /** The j-th event is the callee's answer to the call inserted at i, the last one before n that was taken over. */
  ghost predicate Answers(events: seq<Event>, id: string, i: nat, j: nat, n: nat) {
    && i < j < n <= |events| && events[i].InsertCall? && events[i].id == id && TakenOver(events[j], id)
    && forall k :: i < k < n ==> !(events[k].InsertCall? && events[k].id == id) && (j < k ==> !TakenOver(events[k], id))
  }

  /** The relay is the one negotiated: it sends to the media addresses that the two parties gave, on the ports of the
      call; towards each party it encrypts with the key advertised to it, and decrypts with the key that this party
      sent, in one suite. */
  ghost predicate KeyedAsNegotiated(c: Primitives, r: Relay, call: Call, d: Details, tag: nat, answer: MasterKeys) {
    && NewCall(call) && r.FullyKeyed() && r.callerPort == call.callerPort && r.calleePort == call.calleePort
    && r.callerMedia == call.callerMedia && r.calleeMedia == d.media
    && r.callerDecrypt == call.callerRemote && r.callerEncrypt == call.callerLocal
    && r.callerDecrypt.value.suite == r.callerEncrypt.value.suite
    && r.calleeDecrypt == Some(answer) && r.calleeEncrypt.value.suite == answer.suite
    && SdesLines.Advertised(c, tag, r.calleeEncrypt.value) in CalleeOffer(c, call)
    && (forall other :: 0 <= other < 2 && CalleeOffer(c, call)[other].tag == tag ==>
          CalleeOffer(c, call)[other] == SdesLines.Advertised(c, tag, r.calleeEncrypt.value))
  }

  /** The contexts taken from a call all exist exactly when it has taken over an answer. */
  lemma ContextsExist(events: seq<Event>, n: nat, id: string)
    requires n <= |events| && Run(events) && id in After(events[..n]).calls
    ensures RelayOf(id, After(events[..n]).calls[id]).FullyKeyed() <==> After(events[..n]).calls[id].calleeRemote.Some?
  {
    var i := CallWasInserted(events, n, id);
    assert NewCall(events[i].call);
    hide After, Run;
  }

  lemma RelayIsKeyed(c: Primitives, id: string, call: Call, original: Call, d: Details, tag: nat, answer: MasterKeys)
    requires NewCall(original) && SameKeys(call, original)
    requires call.calleeRemote == Some(answer) && call.calleeMedia == d.media && AnswerIsOffered(tag, answer.suite)
    ensures KeyedAsNegotiated(c, RelayOf(id, call), original, d, tag, answer)
  {
    hide SdesLines.Advertised;
    AdvertisedTag(c, 1, original.calleeLocal.value);
    AdvertisedTag(c, 2, original.calleeLocalGcm.value);
    var offer := CalleeOffer(c, original);
    assert offer[0] in offer && offer[1] in offer;
  }

  lemma AdvertisedTag(c: Primitives, tag: nat, keys: MasterKeys)
    ensures SdesLines.Advertised(c, tag, keys).tag == tag
  {
  }

  /** A relay has all four contexts exactly when the call it finds has taken over an answer, and then both legs are
      keyed as negotiated for that call. */
  lemma KeyAgreement(c: Primitives, events: seq<Event>, n: nat) returns (i: nat, j: nat)
    requires n < |events| && Run(events) && events[n].StartRelay? && events[n].id in After(events[..n]).calls
    ensures var s, id := After(events[..n]), events[n].id; var r := RelayOf(id, s.calls[id]);
      && After(events[..n + 1]).relays == s.relays + [r]
      && r.id == id && (r.FullyKeyed() <==> s.calls[id].calleeRemote.Some?)
      && (r.FullyKeyed() ==>
            && Answers(events, id, i, j, n)
            && KeyedAsNegotiated(c, r, events[i].call, events[j].d, events[j].answer.value.0, events[j].answer.value.1))
  {
    hide Run, NewCall, RelayOf, KeyedAsNegotiated, AnswerIsOffered, SameKeys, Relay.FullyKeyed;
    i, j := 0, 0;
    var s, id := After(events[..n]), events[n].id;
    AfterOneMore(events, n);
    assert RelayOf(id, s.calls[id]).id == id by { RelayNamesCall(id, s.calls[id]); }
    hide After;
    ContextsExist(events, n, id);
    if s.calls[id].calleeRemote.Some? {
      i, j := CallWasAnswered(events, n, id);
      RelayIsKeyed(c, id, s.calls[id], events[i].call, events[j].d, events[j].answer.value.0, events[j].answer.value.1);
    }
  }

  lemma RelayNamesCall(id: string, call: Call)
    ensures RelayOf(id, call).id == id
  {
  }

  lemma CallWasAnswered(events: seq<Event>, n: nat, id: string) returns (i: nat, j: nat)
    requires n <= |events| && Run(events) && id in After(events[..n]).calls
        && After(events[..n]).calls[id].calleeRemote.Some?
    ensures Answers(events, id, i, j, n) && NewCall(events[i].call)
    ensures AnswerIsOffered(events[j].answer.value.0, events[j].answer.value.1.suite)
    ensures var call := After(events[..n]).calls[id];
      && SameKeys(call, events[i].call) && call.calleeRemote == Some(events[j].answer.value.1)
      && call.calleeMedia == events[j].d.media
  {
    i := CallWasInserted(events, n, id);
    j := CalleeKeyWasAnswered(events, n, id);
    assert NewCall(events[i].call);
    hide After, Run, SameKeys, AnswerIsOffered;
  }

  /** A callee that reads the forwarded description with this server's own reader, and answers with AES-CM, decrypts
      with exactly the key that its relay encrypts with if and only if no stray crypto line wins and the lines come. */
  lemma CalleeReadsRelayKeyExactly(c: Primitives, id: string, call: Call, t: Sdp.Target, body: string)
    requires LawfulBase64(c) && SdesLines.PlainBase64(c) && t.Valid()
    requires call.calleeLocal.Some? && call.calleeLocalGcm.Some? && t.cryptos == CalleeOffer(c, call)
    requires call.calleeLocal.value.suite == AesCm128HmacSha180
        && SaltFits(AesCm128HmacSha180, call.calleeLocal.value.salt)
    requires call.calleeRemote.Some? && call.calleeRemote.value.suite == AesCm128HmacSha180
    ensures var got, key := SdesLines.Extract(c, Sdp.Rewrite(t, body)), RelayOf(id, call).calleeEncrypt;
      key.Some? && (got == Some((1, key.value)) <==> SdesOffers.AdvertisedComesFirst(c, t, body, 1, key.value))
  {
    var key := RelayOf(id, call).calleeEncrypt;
    assert key == call.calleeLocal && t.HasCrypto();
    assert CalleeOffer(c, call)[0] == SdesLines.Advertised(c, 1, call.calleeLocal.value);
    hide *;
    SdesOffers.OfferReadsBackExactly(c, t, body, 1, call.calleeLocal.value);
  }

  // ----- one relay per call -----

  function RelaysOf(relays: seq<Relay>, id: string): nat {
    if relays == [] then 0 else RelaysOf(relays[..|relays| - 1], id) + if relays[|relays| - 1].id == id then 1 else 0
  }

  /** How many calls were inserted under a Call-ID. */
  function InsertionsOf(events: seq<Event>, id: string): nat {
    if events == [] then 0
    else InsertionsOf(events[..|events| - 1], id) + if Inserts(events[|events| - 1], id) then 1 else 0
  }

  /** Relays started and starts claimed under a Call-ID are covered by the calls inserted, but for one not marked. */
  predicate Covered(s: State, id: string, insertions: nat) {
    var unmarked := if id in s.calls && !s.calls[id].relayStarted then 1 else 0;
    RelaysOf(s.relays, id) + s.starting[id] + unmarked <= insertions
  }

  lemma StepKeepsCovered(s: State, e: Event, id: string, insertions: nat)
    requires Covered(s, id, insertions) && (e.InsertCall? ==> NewCall(e.call)) && (e.StartRelay? ==> e.id in s.starting)
    ensures Covered(Step(s, e), id, insertions + if Inserts(e, id) then 1 else 0)
  {
    if e.StartRelay? && e.id in s.calls {
      RelaysOfOneMore(s.relays, RelayOf(e.id, s.calls[e.id]), id);
    }
    hide RelaysOf, RelayOf;
  }

  /** In every interleaving, a Call-ID never has more relays started than calls inserted under it. */
  lemma {:induction false} NoMoreRelaysThanCalls(events: seq<Event>, id: string)
    requires Run(events)
    ensures RelaysOf(After(events).relays, id) <= InsertionsOf(events, id)
    ensures Covered(After(events), id, InsertionsOf(events, id))
    decreases |events|
  {
    if events != [] {
      var n := |events| - 1;
      var before := events[..n];
      assert forall k :: 0 <= k < n ==> before[..k] == events[..k];
      NoMoreRelaysThanCalls(before, id);
      assert events[n].StartRelay? ==> events[n].id in After(before).starting;
      hide After, Covered, RelaysOf;
      StepKeepsCovered(After(before), events[n], id, InsertionsOf(before, id));
      assert After(events) == Step(After(before), events[n]) by { AfterLast(events); }
      hide Step;
      CoversRelays(After(events), id, InsertionsOf(events, id));
    }
  }

  lemma CoversRelays(s: State, id: string, insertions: nat)
    requires Covered(s, id, insertions)
    ensures RelaysOf(s.relays, id) <= insertions
  {
  }

  lemma AfterLast(events: seq<Event>)
    requires events != []
    ensures After(events) == Step(After(events[..|events| - 1]), events[|events| - 1])
  {
  }

  /** The relays started under a Call-ID when a call was last inserted under it. */
  function RelaysBefore(events: seq<Event>, n: nat, id: string): nat
    requires n <= |events|
  {
    if n == 0 then 0
    else if Inserts(events[n - 1], id) then RelaysOf(After(events[..n]).relays, id)
    else RelaysBefore(events, n - 1, id)
  }

  /** Since then, starts made and starts claimed come to at most one, and a claim is marked in the call and made only
      with the callee's key present. */
  predicate StartsOk(s: State, id: string, relaysBefore: nat) {
    var starts := RelaysOf(s.relays, id) + s.starting[id] - relaysBefore;
    && relaysBefore <= RelaysOf(s.relays, id) && starts <= 1
    && (id in s.calls ==> (starts == 1 <==> s.calls[id].relayStarted))
    && (id in s.calls && s.calls[id].relayStarted ==> s.calls[id].calleeRemote.Some?)
  }

  lemma RelaysOfOneMore(relays: seq<Relay>, r: Relay, id: string)
    ensures RelaysOf(relays + [r], id) == RelaysOf(relays, id) + if r.id == id then 1 else 0
  {
    assert (relays + [r])[..|relays|] == relays;
  }

  lemma StepKeepsStarts(s: State, e: Event, id: string, relaysBefore: nat)
    requires StartsOk(s, id, relaysBefore)
    requires e.InsertCall? ==> NewCall(e.call) && e.id !in s.starting
    requires e.StartRelay? ==> e.id in s.starting
    ensures var t := Step(s, e); StartsOk(t, id, if Inserts(e, id) then RelaysOf(t.relays, id) else relaysBefore)
  {
    if e.StartRelay? && e.id in s.calls {
      RelaysOfOneMore(s.relays, RelayOf(e.id, s.calls[e.id]), id);
    }
    hide RelaysOf, RelayOf, Answer, AnswerIsOffered, NewCall;
    match e
    case Respond(x, status, d, answer) =>
      if x in s.calls { AnswerKeepsStart(s.calls[x], status, d, answer); }
    case InsertCall(_, call) => NewCallsAreUnmarked(call);
    case _ =>
  }

  lemma AnswerKeepsStart(call: Call, status: nat, d: Details, answer: Option<(nat, MasterKeys)>)
    ensures var after := Answer(call, status, d, answer);
      after.relayStarted == call.relayStarted && (call.calleeRemote.Some? ==> after.calleeRemote.Some?)
  {
  }

  lemma NewCallsAreUnmarked(call: Call)
    requires NewCall(call)
    ensures !call.relayStarted
  {
  }

  lemma {:induction false} StartsStayOk(events: seq<Event>, n: nat, id: string)
    requires n <= |events| && Run(events) && StartsMadeFirst(events)
    ensures StartsOk(After(events[..n]), id, RelaysBefore(events, n, id))
    decreases n
  {
    if n > 0 {
      var k := n - 1;
      StartsStayOk(events, k, id);
      AfterOneMore(events, k);
      assert events[k].StartRelay? ==> events[k].id in After(events[..k]).starting;
      hide After, StartsOk, NewCall;
      StepKeepsStarts(After(events[..k]), events[k], id, RelaysBefore(events, k, id));
    }
  }

  /** As long as no call is inserted while a start claimed under its Call-ID is pending, the relay of each inserted call
      starts at most once, however many responses arrive and however their regions interleave with everything else,
      and every relay that starts has all four contexts. */
  lemma RelayStartsOnceFullyKeyed(events: seq<Event>, i: nat, n: nat)
    requires Run(events) && StartsMadeFirst(events) && i < n <= |events| && events[i].InsertCall?
    requires forall k :: i < k < n ==> !Inserts(events[k], events[i].id)
    ensures var id := events[i].id;
      RelaysOf(After(events[..n]).relays, id) <= RelaysOf(After(events[..i + 1]).relays, id) + 1
    ensures forall r :: r in After(events[..n]).relays ==> r.FullyKeyed()
  {
    hide After, RelaysOf;
    StartsStayOk(events, n, events[i].id);
    RelaysBeforeAt(events, i, n);
    RelaysAreKeyed(events, n);
  }

  lemma {:induction false} RelaysBeforeAt(events: seq<Event>, i: nat, n: nat)
    requires i < n <= |events| && events[i].InsertCall?
    requires forall k :: i < k < n ==> !Inserts(events[k], events[i].id)
    ensures RelaysBefore(events, n, events[i].id) == RelaysOf(After(events[..i + 1]).relays, events[i].id)
    decreases n
  {
    if i < n - 1 {
      RelaysBeforeAt(events, i, n - 1);
    }
  }

  lemma {:induction false} RelaysAreKeyed(events: seq<Event>, n: nat)
    requires n <= |events| && Run(events) && StartsMadeFirst(events)
    ensures forall r :: r in After(events[..n]).relays ==> r.FullyKeyed()
    decreases n
  {
    if n > 0 {
      var k := n - 1;
      var s, e := After(events[..k]), events[k];
      RelaysAreKeyed(events, k);
      AfterOneMore(events, k);
      if e.StartRelay? && e.id in s.calls {
        StartsStayOk(events, k, e.id);
        ContextsExist(events, k, e.id);
      }
      hide After, RelayOf, Answer, RelaysBefore;
    }
  }

  /** One more start after some of the events. */
  function StartAfter(events: seq<Event>, k: nat, id: string): seq<Event>
    requires k <= |events|
  {
    events[..k] + [StartRelay(id)]
  }

  lemma StartAfterPrefix(events: seq<Event>, k: nat, id: string)
    requires k <= |events|
    ensures forall m :: 0 <= m <= k ==> StartAfter(events, k, id)[..m] == events[..m]
    ensures After(StartAfter(events, k, id)) == Step(After(events[..k]), StartRelay(id))
    ensures Run(events) ==> (Run(StartAfter(events, k, id)) <==> id in After(events[..k]).starting)
    ensures StartsMadeFirst(events) ==> StartsMadeFirst(StartAfter(events, k, id))
  {
    var more := StartAfter(events, k, id);
    assert forall m :: 0 <= m <= k ==> more[..m] == events[..m];
    assert more[k] == StartRelay(id) && |more| == k + 1;
    hide After, Step, NewCall;
    AfterLast(more);
  }

  /** And that condition is needed: along a run no start that can be made lacks a key if and only if no call was
      inserted while a start claimed under its Call-ID was pending. */
  lemma StartsAreKeyedExactly(events: seq<Event>)
    requires Run(events)
    ensures StartsMadeFirst(events) <==>
      forall k: nat, id, r | k <= |events| && Run(StartAfter(events, k, id))
                             && r in After(StartAfter(events, k, id)).relays :: r.FullyKeyed()
  {
    if StartsMadeFirst(events) {
      forall k: nat, id, r | k <= |events| && Run(StartAfter(events, k, id))
                             && r in After(StartAfter(events, k, id)).relays
        ensures r.FullyKeyed()
      {
        var more := StartAfter(events, k, id);
        StartAfterPrefix(events, k, id);
        RelaysAreKeyed(more, |more|);
        assert more[..|more|] == more;
      }
    } else {
      var k :| 0 <= k < |events| && events[k].InsertCall? && events[k].id in After(events[..k]).starting;
      var r := PendingStartGoesUnkeyed(events, k);
    }
    hide *;
  }

  /** A call inserted while a start is pending gets that start, before it has the callee's key. */
  lemma PendingStartGoesUnkeyed(events: seq<Event>, k: nat) returns (r: Relay)
    requires Run(events) && k < |events| && events[k].InsertCall? && events[k].id in After(events[..k]).starting
    ensures var more := StartAfter(events, k + 1, events[k].id);
      Run(more) && r in After(more).relays && !r.FullyKeyed()
  {
    hide After, StartAfter, Answer, Cleaned, Responded, Marked;
    var id, s := events[k].id, After(events[..k + 1]);
    AfterOneMore(events, k);
    StartAfterPrefix(events, k + 1, id);
    assert NewCall(events[k].call);
    hide Run;
    r := RelayOf(id, events[k].call);
    assert s.calls[id] == events[k].call && id in s.starting;
    assert Step(s, StartRelay(id)).relays == s.relays + [r];
  }

  // ----- the answer that the caller gets -----

  /** The crypto line of a forwarded answer: the key is read in one region and the tag in a later one, when
      the call may be gone. */
  function AnswerCrypto(c: Primitives, atKey: State, atTag: State, id: string): Option<Sdp.SdpCrypto> {
    if id !in atKey.calls || atKey.calls[id].callerLocal.None? then None
    else
      var tag := if id in atTag.calls then atTag.calls[id].callerRemoteTag else 1;
      Some(SdesLines.Advertised(c, tag, atKey.calls[id].callerLocal.value))
  }

  /** Every answer carries the server's key for the caller of the call inserted at i, which the first read finds, in the
      suite that it offered; and the tag that the caller of the call inserted at j offered, which the second read finds,
      or 1 if it finds none. The two are one call unless another was inserted between the reads. */
  lemma AnswerMatchesOffer(c: Primitives, events: seq<Event>, m: nat, n: nat, id: string) returns (i: nat, j: nat)
    requires m <= n <= |events| && Run(events) && id in After(events[..m]).calls
    ensures i < m && Inserts(events[i], id) && NewCall(events[i].call)
    ensures i <= j < |events| && Inserts(events[j], id)
    ensures (forall k :: m <= k < n ==> !Inserts(events[k], id)) ==> i == j
    ensures var call, s, t := events[i].call, After(events[..m]), After(events[..n]);
      var tag := if id in t.calls then events[j].call.callerRemoteTag else 1;
      && AnswerCrypto(c, s, t, id) == Some(SdesLines.Advertised(c, tag, call.callerLocal.value))
      && call.callerLocal.value.suite == call.callerRemote.value.suite
  {
    i := CallWasInserted(events, m, id);
    j := i;
    var call, s, t := events[i].call, After(events[..m]), After(events[..n]);
    assert NewCall(call);
    hide Run;
    if id in t.calls {
      j := CallWasInserted(events, n, id);
    }
    hide After, SdesLines.Advertised;
  }

  // ----- what goes wrong otherwise -----

  /** A call ends between a claimed start and the start, and its Call-ID is used again. */
  predicate Reuse(id: string, session: RelaySession, call: Call, answer: MasterKeys, events: seq<Event>) {
    && |events| == 11 && events[0] == events[5] == InsertSession(id, session)
         && events[1] == events[6] == InsertCall(id, call)
    && events[2] == events[8] == Respond(id, 200, NO_DETAILS, Some((1, answer)))
    && events[3] == events[9] == MarkStarted(id)
    && events[4] == Cleanup(id) && events[7] == events[10] == StartRelay(id)
  }

  /** For instance, a start that was claimed for a call that has ended meanwhile goes to the next call with this
      Call-ID. That relay lacks the callee's key, and the call's own answer later starts a second one. */
  lemma ReusedCallIdStartsTwice(id: string, session: RelaySession, call: Call, answer: MasterKeys, events: seq<Event>)
    requires NewCall(call) && AnswerIsOffered(1, answer.suite) && Reuse(id, session, call, answer, events)
    ensures Run(events) && RelaysOf(After(events).relays, id) == 2 && !After(events).relays[0].FullyKeyed()
  {
    hide NewCall, AnswerIsOffered, RelaysOf, RelayOf, After, Step;
    UntilFirstStart(id, session, call, answer, events);
    UntilSecondStart(id, session, call, answer, events);
    forall k | 0 <= k < |events|
      ensures (events[k].InsertCall? ==> NewCall(events[k].call))
           && (events[k].StartRelay? ==> events[k].id in After(events[..k]).starting)
    {
      assert k in {0, 1, 2, 3, 4, 5, 6, 7, 8, 9, 10};
    }
    assert events[..11] == events;
  }

  lemma UntilSecondStart(id: string, session: RelaySession, call: Call, answer: MasterKeys, events: seq<Event>)
    requires NewCall(call) && AnswerIsOffered(1, answer.suite) && Reuse(id, session, call, answer, events)
    requires After(events[..8]).calls == map[id := call] && After(events[..8]).relays == [RelayOf(id, call)]
    ensures id in After(events[..10]).starting
    ensures RelaysOf(After(events[..11]).relays, id) == 2 && !After(events[..11]).relays[0].FullyKeyed()
  {
    hide NewCall, AnswerIsOffered, RelaysOf, Step, After;
    AfterOneMore(events, 8);
    AfterOneMore(events, 9);
    AfterOneMore(events, 10);
    SecondStart(After(events[..8]), id, call, answer);
  }

  lemma SecondStart(s: State, id: string, call: Call, answer: MasterKeys)
    requires NewCall(call) && AnswerIsOffered(1, answer.suite) && s.calls == map[id := call]
    requires s.relays == [RelayOf(id, call)]
    ensures var s' := Step(Step(s, Respond(id, 200, NO_DETAILS, Some((1, answer)))), MarkStarted(id));
      && id in s'.starting
      && RelaysOf(Step(s', StartRelay(id)).relays, id) == 2 && !Step(s', StartRelay(id)).relays[0].FullyKeyed()
  {
    AnsweredThenMarked(s, id, call, answer);
    var marked := call.(calleeRemote := Some(answer), state := Established, relayStarted := true);
    TwoRelays(id, RelayOf(id, call), RelayOf(id, marked), call);
    hide RelaysOf, Answer;
  }

  lemma AnsweredThenMarked(s: State, id: string, call: Call, answer: MasterKeys)
    requires s.calls == map[id := call] && NewCall(call) && AnswerIsOffered(1, answer.suite)
    ensures var marked := call.(calleeRemote := Some(answer), state := Established, relayStarted := true);
      Step(Step(s, Respond(id, 200, NO_DETAILS, Some((1, answer)))), MarkStarted(id))
      == s.(calls := map[id := marked], starting := s.starting + multiset{id})
  {
  }

  lemma UntilFirstStart(id: string, session: RelaySession, call: Call, answer: MasterKeys, events: seq<Event>)
    requires NewCall(call) && AnswerIsOffered(1, answer.suite) && Reuse(id, session, call, answer, events)
    ensures id in After(events[..7]).starting
    ensures After(events[..8]).calls == map[id := call] && After(events[..8]).relays == [RelayOf(id, call)]
  {
    hide Step, NewCall, AnswerIsOffered;
    assert events[..0] == [] && After([]) == INITIAL;
    hide After;
    AfterOneMore(events, 0);
    AfterOneMore(events, 1);
    AfterOneMore(events, 2);
    AfterOneMore(events, 3);
    AfterOneMore(events, 4);
    AfterOneMore(events, 5);
    AfterOneMore(events, 6);
    AfterOneMore(events, 7);
    FirstCallEndsWithItsStartClaimed(id, session, call, answer);
  }

  lemma FirstCallEndsWithItsStartClaimed(id: string, session: RelaySession, call: Call, answer: MasterKeys)
    requires NewCall(call) && AnswerIsOffered(1, answer.suite)
    ensures var s2 := Step(Step(INITIAL, InsertSession(id, session)), InsertCall(id, call));
      var s4 := Step(Step(s2, Respond(id, 200, NO_DETAILS, Some((1, answer)))), MarkStarted(id));
      var s7 := Step(Step(Step(s4, Cleanup(id)), InsertSession(id, session)), InsertCall(id, call));
      && id in s7.starting
      && Step(s7, StartRelay(id)).calls == map[id := call] && Step(s7, StartRelay(id)).relays == [RelayOf(id, call)]
  {
    var s2 := Step(Step(INITIAL, InsertSession(id, session)), InsertCall(id, call));
    AnsweredThenMarked(s2, id, call, answer);
    hide Answer, RelayOf, NewCall;
  }

  lemma TwoRelays(id: string, first: Relay, second: Relay, call: Call)
    requires first == RelayOf(id, call) && second.id == id && call.calleeRemote.None?
    ensures RelaysOf([first, second], id) == 2 && !first.FullyKeyed()
  {
    RelaysOfOneMore([], first, id);
    RelaysOfOneMore([first], second, id);
    assert [] + [first] == [first] && [first] + [second] == [first, second];
  }

  /** Why sessions follow calls only when messages are handled one at a time: of two INVITEs with one Call-ID, the
      second finds the first one's session, the first cannot be forwarded and cleans up, and the second is left with a
      call whose relay session is gone. */
  lemma InterleavedInvitesLoseASession(id: string, session: RelaySession, first: Call, second: Call)
    requires NewCall(first) && NewCall(second)
    ensures var events := [InsertSession(id, session), InsertCall(id, first), Cleanup(id), InsertCall(id, second)];
      Run(events) && id in After(events).calls && id !in After(events).sessions
  {
    var events := [InsertSession(id, session), InsertCall(id, first), Cleanup(id), InsertCall(id, second)];
    assert events[..0] == [];
    AfterOneMore(events, 0);
    AfterOneMore(events, 1);
    AfterOneMore(events, 2);
    AfterOneMore(events, 3);
    assert events[..4] == events;
  }
}
