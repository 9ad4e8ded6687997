/** Forwarding through the server: the answer sent back to the caller, and how the INVITE sent on to the callee is
    built. */
module SipForwarding {
  import opened Seqs
  import opened SipText
  import opened Wrappers
  import opened Framing
  import opened SipPrinting
  import opened SipResponses

  // ----- the answer sent back to the caller -----

  /** The To header of a forwarded answer: the callee's, else the caller's own, else one made from the contact. */
  function AnswerTo(invite: string, answer: string, contactUri: string): string {
    var fromCallee, fromCaller := OfKind(To, RequestHeaders(answer)), OfKind(To, RequestHeaders(invite));
    if fromCallee != [] then fromCallee[0] else if fromCaller != [] then fromCaller[0] else "To: <" + contactUri + ">"
  }

  function First(lines: seq<string>): seq<string> { if lines == [] then [] else [lines[0]] }

  function ForwardedLines(invite: string, answer: string, status: nat, reason: string, contactUri: string, body: string)
    : seq<string>
  {
    var headers := RequestHeaders(invite);
    [StatusLine(status, reason)] + OfKind(Via, headers) + First(OfKind(From, headers))
    + [AnswerTo(invite, answer, contactUri)] + First(OfKind(CallId, headers)) + First(OfKind(CSeq, headers))
    + (if 200 <= status < 300 then ["Contact: <" + contactUri + ">"] else []) + Trailer([], body)
  }

  /** `build_forwarded_invite_response`. */
  function ForwardedResponse(invite: string, answer: string, status: nat, reason: string, contactUri: string,
      body: string)
    : string
  {
    PrintMessage(ForwardedLines(invite, answer, status, reason, contactUri, body) + [LengthLine(|body|)], body)
  }

  lemma LengthlessConcat(a: seq<string>, b: seq<string>)
    requires Lengthless(a) && Lengthless(b)
    ensures Lengthless(a + b)
  {
  }

  lemma KindIsLengthless(kind: Kind, text: string)
    requires IsAscii(text) && kind != Other
    ensures Lengthless(OfKind(kind, RequestHeaders(text))) && Lengthless(First(OfKind(kind, RequestHeaders(text))))
  {
    hide LengthField, KindOf, OfKind;
    CopiedIsText(kind, text);
    var lines := OfKind(kind, RequestHeaders(text));
    forall i | 0 <= i < |lines| ensures Solid(lines[i]) && LengthField(lines[i]).None? {
      assert lines[i] in lines;
      KindNoLength(lines[i]);
    }
  }

  lemma BracketedIsLengthless(name: string, uri: string)
    requires name in {"To", "Contact"} && PlainText(uri)
    ensures var line := name + ": <" + uri + ">"; Solid(line) && LengthField(line).None? && Trimmed(line)
  {
    hide LengthField;
    var line := name + ": <" + uri + ">";
    assert PlainText(name) && PlainText(": <") && PlainText(">");
    PlainConcat(name, ": <");
    PlainConcat(name + ": <", uri);
    PlainConcat(name + ": <" + uri, ">");
    assert line[0] == name[0] && line[|line| - 1] == '>';
    if name == "To" {
      OtherInitialNoLength(line);
    } else {
      assert line[4] == name[4] == 'a';
      OtherNameNoLength(line, 4);
    }
  }

  /** A forwarded answer always frames as exactly itself, whatever headers are missing. */
  lemma ForwardedResponseFrames(invite: string, answer: string, status: nat, reason: string, contactUri: string,
      body: string)
    requires IsAscii(invite) && IsAscii(answer) && SafeInputs(reason, [], "") && PlainText(contactUri)
    requires |ForwardedResponse(invite, answer, status, reason, contactUri, body)| < USIZE_MOD
    ensures var response := ForwardedResponse(invite, answer, status, reason, contactUri, body);
      && Frame(response) == Complete(|response|)
      && ExtractBody(response) == if body == "" then None else Some(body)
  {
    ForwardedLinesAreLengthless(invite, answer, status, reason, contactUri, body);
    LengthlessThenLength(ForwardedLines(invite, answer, status, reason, contactUri, body), body);
  }

  lemma ForwardedLinesAreLengthless(
      invite: string, answer: string, status: nat, reason: string, contactUri: string, body: string)
    requires IsAscii(invite) && IsAscii(answer) && SafeInputs(reason, [], "") && PlainText(contactUri)
    ensures Lengthless(ForwardedLines(invite, answer, status, reason, contactUri, body))
  {
    hide LengthField, Solid, OfKind, Trailer, StatusLine, PlainText;
    StatusLineFacts(status, reason);
    KindIsLengthless(Via, invite);
    KindIsLengthless(From, invite);
    KindIsLengthless(To, invite);
    KindIsLengthless(To, answer);
    KindIsLengthless(CallId, invite);
    KindIsLengthless(CSeq, invite);
    BracketedIsLengthless("To", contactUri);
    BracketedIsLengthless("Contact", contactUri);
    assert "To" + ": <" == "To: <" && "Contact" + ": <" == "Contact: <";
    TrailerIsLengthless([], body);
    var headers := RequestHeaders(invite);
    var l1 := [StatusLine(status, reason)] + OfKind(Via, headers);
    var l2 := l1 + First(OfKind(From, headers));
    var l3 := l2 + [AnswerTo(invite, answer, contactUri)];
    var l4 := l3 + First(OfKind(CallId, headers)) + First(OfKind(CSeq, headers));
    LengthlessConcat([StatusLine(status, reason)], OfKind(Via, headers));
    LengthlessConcat(l1, First(OfKind(From, headers)));
    LengthlessConcat(l2, [AnswerTo(invite, answer, contactUri)]);
    LengthlessConcat(l3, First(OfKind(CallId, headers)));
    LengthlessConcat(l3 + First(OfKind(CallId, headers)), First(OfKind(CSeq, headers)));
    var contact := if 200 <= status < 300 then ["Contact: <" + contactUri + ">"] else [];
    LengthlessConcat(l4, contact);
    LengthlessConcat(l4 + contact, Trailer([], body));
  }

  // ----- the INVITE sent on to the callee -----

  /** The test that finds the length headers to replace; the line is not trimmed first. */
  predicate NamesLength(line: string) { "content-length:" <= Lower(line) || "l:" <= Lower(line) }

  function ReplaceLength(lines: seq<string>, n: nat): (r: seq<string>)
    ensures |r| == |lines|
    ensures forall i :: 0 <= i < |lines| ==> r[i] == if NamesLength(lines[i]) then LengthLine(n) else lines[i]
  {
    seq(|lines|, i requires 0 <= i < |lines| => if NamesLength(lines[i]) then LengthLine(n) else lines[i])
  }

  predicate SomeStarts(lines: seq<string>, name: string) {
    exists i :: 0 <= i < |lines| && name <= Lower(lines[i])
  }

  /** The header lines of the request, up to its first blank line. */
  function HeaderText0(request: string): string {
    match HeaderEnd(request) case None => request case Some(end) => request[..end]
  }

  function RebuiltLines(request: string, n: nat): seq<string> {
    var replaced := ReplaceLength(Lines(HeaderText0(request)), n);
    var typed := replaced + if SomeStarts(replaced, "content-type:") then [] else ["Content-Type: application/sdp"];
    typed + if SomeStarts(typed, "content-length:") then [] else [LengthLine(n)]
  }

  /** `rebuild_request_with_sdp`. */
  function Rebuilt(request: string, sdp: string): string {
    PrintMessage(RebuiltLines(request, |sdp|), sdp)
  }

  function FindColon(s: string): (n: nat)
    ensures n <= |s| && (n < |s| ==> s[n] == ':')
  {
    if s == "" || s[0] == ':' then 0 else 1 + FindColon(s[1..])
  }

  /** Rust's `split` on commas. */
  function SplitCommas(s: string): (parts: seq<string>)
    ensures parts != []
  {
    if s == "" then [""]
    else
      var rest := SplitCommas(s[1..]);
      if s[0] == ',' then [""] + rest else [[s[0]] + rest[0]] + rest[1..]
  }

  /** The option tags kept in a negotiation header: neither empty, nor session
      timers, nor reliable provisional answers. */
  function KeptTags(parts: seq<string>): seq<string> {
    if parts == [] then []
    else
      (if Lower(Trim(parts[0])) in {"", "timer", "100rel"} then [] else [Trim(parts[0])]) + KeptTags(parts[1..])
  }

  function JoinTags(tags: seq<string>): string {
    if tags == [] then "" else if |tags| == 1 then tags[0] else tags[0] + ", " + JoinTags(tags[1..])
  }

  predicate IsTimerHeader(name: string) { name in {"session-expires", "x", "min-se"} }

  predicate ListsOptionTags(name: string) { name in {"supported", "k", "require", "proxy-require"} }

  /** `strip_unsupported_negotiation_header`, on a trimmed line. */
  function StripNegotiation(line: string): seq<string> {
    var colon := FindColon(line);
    if colon == |line| then [line]
    else
      var name := Trim(line[..colon]);
      if IsTimerHeader(Lower(name)) then []
      else if ListsOptionTags(Lower(name)) then
        var tags := KeptTags(SplitCommas(line[colon + 1..]));
        if tags == [] then [] else [name + ": " + JoinTags(tags)]
      else [line]
  }

  predicate IsContact(trimmed: string) { "contact:" <= Lower(trimmed) || "m:" <= Lower(trimmed) }

  predicate IsRouting(trimmed: string) {
    KindOf(trimmed) == Via || "route:" <= Lower(trimmed) || "record-route:" <= Lower(trimmed)
  }

  /** What one header line of the request becomes in the outbound request, when the From header is not rewritten. */
  function OutboundLine(line: string, contactUri: string): seq<string> {
    var trimmed := Trim(line);
    if IsRouting(trimmed) then []
    else if IsContact(trimmed) then if contactUri == "" then [] else ["Contact: <" + contactUri + ">"]
    else if KindOf(trimmed) == From then [line]
    else StripNegotiation(trimmed)
  }

  function OutboundLines(lines: seq<string>, contactUri: string): seq<string> {
    if lines == [] || Trim(lines[0]) == "" then []
    else OutboundLine(lines[0], contactUri) + OutboundLines(lines[1..], contactUri)
  }

  predicate SawContact(lines: seq<string>) {
    lines != [] && Trim(lines[0]) != ""
        && ((!IsRouting(Trim(lines[0])) && IsContact(Trim(lines[0]))) || SawContact(lines[1..]))
  }

  /** What the server writes into an outbound request: target, its own Via with a fresh branch, and its contact. */
  datatype Hop = Hop(target: string, via: string, contact: string)

  /** `build_outbound_request`; the Via line is "Via: SIP/2.0/<transport> <domain>;branch=<branch>". */
  function Outbound(request: string, hop: Hop): string {
    var lines := Lines(request);
    if lines == [] then request
    else
      var parts := Words(lines[0]);
      if |parts| != 3 || "SIP/2.0" <= parts[0] then request
      else
        var body := ExtractBody(request);
        PrintMessage(
          [parts[0] + " " + hop.target + " " + parts[2], "Via: " + hop.via] + OutboundLines(lines[1..], hop.contact)
          + (if hop.contact != "" && !SawContact(lines[1..]) then ["Contact: <" + hop.contact + ">"] else []),
          if body.Some? then body.value else "")
  }

  method RebuildRequestWithSdp(request: string, sdp: string) returns (r: string)
    ensures r == Rebuilt(request, sdp)
  {
    hide Lines, HeaderText0, NamesLength, LengthLine, SomeStarts, Print;
    var lines := Lines(HeaderText0(request));
    var newHeaders: seq<string> := [];
    for i := 0 to |lines|
      invariant newHeaders == ReplaceLength(lines, |sdp|)[..i]
    {
      newHeaders := newHeaders + [if NamesLength(lines[i]) then LengthLine(|sdp|) else lines[i]];
    }
    assert newHeaders == ReplaceLength(lines, |sdp|);
    EmptyConcat(newHeaders);
    if !SomeStarts(newHeaders, "content-type:") {
      newHeaders := newHeaders + ["Content-Type: application/sdp"];
    }
    EmptyConcat(newHeaders);
    if !SomeStarts(newHeaders, "content-length:") {
      newHeaders := newHeaders + [LengthLine(|sdp|)];
    }
    r := PushLines("", newHeaders);
    EmptyConcat(Print(newHeaders));
    r := r + (CRLF + sdp);
  }

  /** The header loop: stops at the first blank line, and remembers whether the contact has been written. */
  method ForwardHeaders(lines: seq<string>, contactUri: string) returns (rewritten: seq<string>, sawContact: bool)
    ensures rewritten == OutboundLines(lines, contactUri)
    ensures sawContact <==> contactUri != "" && SawContact(lines)
  {
    hide OutboundLine, IsRouting, IsContact;
    rewritten, sawContact := [], false;
    var i := 0;
    EmptyConcat(OutboundLines(lines, contactUri));
    while i < |lines| && Trim(lines[i]) != ""
      invariant i <= |lines|
      invariant rewritten + OutboundLines(lines[i..], contactUri) == OutboundLines(lines, contactUri)
      invariant contactUri != "" && SawContact(lines) <==> sawContact || (contactUri != "" && SawContact(lines[i..]))
    {
      DropDrop(lines, i, 1);
      Assoc(rewritten, OutboundLine(lines[i], contactUri), OutboundLines(lines[i + 1..], contactUri));
      var trimmed := Trim(lines[i]);
      if !IsRouting(trimmed) && IsContact(trimmed) && contactUri != "" {
        sawContact := true;
      }
      rewritten := rewritten + OutboundLine(lines[i], contactUri);
      i := i + 1;
    }
    EmptyConcat(rewritten);
  }

  method BuildOutboundRequest(request: string, hop: Hop) returns (r: string)
    ensures r == Outbound(request, hop)
  {
    hide OutboundLines, SawContact, Words, ExtractBody, Lines;
    var lines := Lines(request);
    if lines == [] {
      return request;
    }
    var parts := Words(lines[0]);
    if |parts| != 3 || "SIP/2.0" <= parts[0] {
      return request;
    }
    var kept, sawContact := ForwardHeaders(lines[1..], hop.contact);
    var rewritten := [parts[0] + " " + hop.target + " " + parts[2], "Via: " + hop.via] + kept;
    EmptyConcat(rewritten);
    if hop.contact != "" && !sawContact {
      rewritten := rewritten + ["Contact: <" + hop.contact + ">"];
    }
    var body := ExtractBody(request);
    r := PushLines("", rewritten);
    EmptyConcat(Print(rewritten));
    r := r + (CRLF + if body.Some? then body.value else "");
  }
}
