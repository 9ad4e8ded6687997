/** The response builders: headers copied from the request, printed so that the framer and
    the extractors read them back. */
module SipResponses {
  import opened Seqs
  import opened SipText
  import opened Wrappers
  import opened Framing
  import opened SipPrinting

  // ----- header lines of a request -----

  datatype Kind = Via | From | To | CallId | CSeq | Other

  /** Which header a trimmed line carries, in the order the builders test. */
  function KindOf(line: string): Kind {
    var lower := Lower(line);
    if "via:" <= lower || "v:" <= lower then Via
    else if "from:" <= lower || "f:" <= lower then From
    else if "to:" <= lower || "t:" <= lower then To
    else if "call-id:" <= lower || "i:" <= lower then CallId
    else if "cseq:" <= lower then CSeq
    else Other
  }

  /** The trimmed lines before the first blank one. */
  function HeaderLines(lines: seq<string>): seq<string> {
    if lines == [] || Trim(lines[0]) == "" then [] else [Trim(lines[0])] + HeaderLines(lines[1..])
  }

  function OfKind(kind: Kind, lines: seq<string>): seq<string> {
    if lines == [] then [] else (if KindOf(lines[0]) == kind then [lines[0]] else []) + OfKind(kind, lines[1..])
  }

  function LastOr(lines: seq<string>, default: string): string {
    if lines == [] then default else lines[|lines| - 1]
  }

  function RequestHeaders(request: string): seq<string> { HeaderLines(Lines(request)) }

  /** The header a builder copies: the last one of its kind, or nothing. */
  function Copied(kind: Kind, request: string): string {
    LastOr(OfKind(kind, RequestHeaders(request)), "")
  }

  /** Rust's `contains`. */
  predicate Contains(s: string, part: string) {
    part <= s || (s != "" && Contains(s[1..], part))
  }

  /** The To header of the response: a tag is added to it unless the status is 100 or it already has one. */
  function TaggedTo(toHeader: string, status: nat, tag: string): string {
    if status > 100 && !Contains(Lower(toHeader), "tag=") then toHeader + ";tag=" + tag else toHeader
  }

  // ----- the builders -----

  datatype Header = Header(name: string, value: string)

  function StatusLine(status: nat, reason: string): string { "SIP/2.0 " + Decimal(status) + " " + reason }

  function ExtraLines(extra: seq<Header>): seq<string> {
    if extra == [] then [] else [extra[0].name + ": " + extra[0].value] + ExtraLines(extra[1..])
  }

  /** The four headers every response copies besides Via. */
  function CopiedLines(request: string, status: nat, tag: string): (ls: seq<string>)
    ensures |ls| == 4
  {
    [Copied(From, request), TaggedTo(Copied(To, request), status, tag), Copied(CallId, request), Copied(CSeq, request)]
  }

  /** The header lines of a response, without the length. */
  function LinesBeforeLength(request: string, status: nat, reason: string, extra: seq<Header>, body: string,
      tag: string)
    : seq<string>
  {
    [StatusLine(status, reason)] + OfKind(Via, RequestHeaders(request)) + CopiedLines(request, status, tag)
    + ExtraLines(extra) + (if body == "" then [] else ["Content-Type: application/sdp"])
  }

  /** `build_response_with_body`; `tag` is the random tag it draws. The other two builders are its cases without a
      body, and without extra headers either. */
  function Response(request: string, status: nat, reason: string, extra: seq<Header>, body: string,
      tag: string): string {
    PrintMessage(LinesBeforeLength(request, status, reason, extra, body, tag) + [LengthLine(|body|)], body)
  }

  datatype Headers = Headers(via: seq<string>, from: string, to: string, callId: string, cseq: string)

  /** The scanning loop that the three builders share. */
  method CollectHeaders(request: string) returns (h: Headers)
    ensures h == Headers(OfKind(Via, RequestHeaders(request)), Copied(From, request), Copied(To, request),
                         Copied(CallId, request), Copied(CSeq, request))
  {
    hide KindOf, Trim, OfKind, Lines;
    h := Headers([], "", "", "", "");
    assert forall kind :: OfKind(kind, []) == [] by { NoneOfKind(); }
    var lines := Lines(request);
    ghost var seen: seq<string> := [];
    for i := 0 to |lines|
      invariant RequestHeaders(request) == seen + HeaderLines(lines[i..])
      invariant h == Headers(OfKind(Via, seen), LastOr(OfKind(From, seen), ""), LastOr(OfKind(To, seen), ""),
                             LastOr(OfKind(CallId, seen), ""), LastOr(OfKind(CSeq, seen), ""))
    {
      var line := Trim(lines[i]);
      if line == "" {
        EmptyConcat(seen);
        return;
      }
      match KindOf(line) {
        case Via => h := h.(via := h.via + [line]);
        case From => h := h.(from := line);
        case To => h := h.(to := line);
        case CallId => h := h.(callId := line);
        case CSeq => h := h.(cseq := line);
        case Other =>
      }
      CollectOne(seen, line);
      DropDrop(lines, i, 1);
      Assoc(seen, [line], HeaderLines(lines[i + 1..]));
      seen := seen + [line];
    }
    EmptyConcat(seen);
  }

  lemma NoneOfKind()
    ensures forall kind :: OfKind(kind, []) == []
  {
  }

  lemma CollectOne(seen: seq<string>, line: string)
    ensures forall kind :: OfKind(kind, seen + [line]) == OfKind(kind, seen) + if KindOf(line) == kind then [line]
        else []
  {
    forall kind ensures OfKind(kind, seen + [line]) == OfKind(kind, seen) + if KindOf(line) == kind then [line]
        else [] {
      OfKindOfConcat(kind, seen, [line]);
      EmptyConcat(if KindOf(line) == kind then [line] else []);
    }
  }

  lemma {:induction false} OfKindOfConcat(kind: Kind, a: seq<string>, b: seq<string>)
    ensures OfKind(kind, a + b) == OfKind(kind, a) + OfKind(kind, b)
  {
    if a == [] {
      EmptyConcat(b);
      EmptyConcat(OfKind(kind, b));
    } else {
      TailOfConcat(a, b);
      OfKindOfConcat(kind, a[1..], b);
      Assoc(if KindOf(a[0]) == kind then [a[0]] else [], OfKind(kind, a[1..]), OfKind(kind, b));
    }
  }

  /** Appends a list of lines, each with its CRLF. */
  method PushLines(text: string, lines: seq<string>) returns (r: string)
    ensures r == text + Print(lines)
  {
    r := text;
    EmptyConcat(text);
    for i := 0 to |lines|
      invariant r + Print(lines[i..]) == text + Print(lines)
    {
      DropDrop(lines, i, 1);
      Assoc(r, lines[i] + CRLF, Print(lines[i + 1..]));
      Assoc(lines[i], CRLF, Print(lines[i + 1..]));
      r := r + (lines[i] + CRLF);
    }
    EmptyConcat(r);
  }

  method BuildResponseWithBody(request: string, status: nat, reason: string, extra: seq<Header>, body: string,
      tag: string)
    returns (response: string)
    ensures response == Response(request, status, reason, extra, body, tag)
  {
    var h := CollectHeaders(request);
    var toHeader := h.to;
    if status > 100 && !Contains(Lower(toHeader), "tag=") {
      toHeader := toHeader + ";tag=" + tag;
    }
    var lines := [StatusLine(status, reason)] + h.via + [h.from, toHeader, h.callId, h.cseq] + ExtraLines(extra);
    if body != "" {
      lines := lines + ["Content-Type: application/sdp"];
    }
    EmptyConcat(lines);
    lines := lines + [LengthLine(|body|)];
    response := PushLines("", lines);
    EmptyConcat(Print(lines));
    response := response + (CRLF + body);
  }

  // ----- what the copied lines look like -----

  lemma {:induction false} TrimIsAscii(s: string)
    requires IsAscii(s)
    ensures IsAscii(Trim(s))
  {
    TrimEndIsAscii(TrimStart(s)) by { TrimStartIsAscii(s); }
  }

  lemma {:induction false} TrimStartIsAscii(s: string)
    requires IsAscii(s)
    ensures IsAscii(TrimStart(s))
  {
    if s != "" && IsSpace(s[0]) {
      TrimStartIsAscii(s[1..]);
    }
  }

  lemma {:induction false} TrimEndIsAscii(s: string)
    requires IsAscii(s)
    ensures IsAscii(TrimEnd(s))
  {
    if s != "" && IsSpace(s[|s| - 1]) {
      TrimEndIsAscii(s[..|s| - 1]);
    }
  }

  lemma {:induction false} LinesAreAscii(s: string)
    requires IsAscii(s)
    ensures forall i :: 0 <= i < |Lines(s)| ==> IsAscii(Lines(s)[i])
    decreases |s|
  {
    if s != "" {
      var n := FindLf(s);
      if n < |s| {
        LinesAreAscii(s[n + 1..]);
        assert IsAscii(s[..n]) && IsAscii(StripCr(s[..n]));
      }
    }
  }

  /** A header line as the scan keeps it. */
  predicate HeaderText(line: string) { Solid(line) && Trimmed(line) }

  lemma {:induction false} HeaderLinesAreText(lines: seq<string>)
    requires AllOneLine(lines) && forall i :: 0 <= i < |lines| ==> IsAscii(lines[i])
    ensures forall i :: 0 <= i < |HeaderLines(lines)| ==> HeaderText(HeaderLines(lines)[i])
  {
    if lines != [] && Trim(lines[0]) != "" {
      TrimIsTrimmed(lines[0]);
      TrimIsAscii(lines[0]);
      HeaderLinesAreText(lines[1..]);
    }
  }

  ghost predicate AllText(kind: Kind, lines: seq<string>) {
    forall i :: 0 <= i < |lines| ==> HeaderText(lines[i]) && KindOf(lines[i]) == kind
  }

  lemma {:induction false} OfKindAreText(kind: Kind, lines: seq<string>)
    requires forall i :: 0 <= i < |lines| ==> HeaderText(lines[i])
    ensures AllText(kind, OfKind(kind, lines))
  {
    if lines != [] {
      OfKindAreText(kind, lines[1..]);
      var rest := OfKind(kind, lines[1..]);
      EmptyConcat(rest);
      if KindOf(lines[0]) == kind {
        AllTextCons(kind, lines[0], rest);
      }
    }
  }

  lemma AllTextCons(kind: Kind, line: string, rest: seq<string>)
    requires HeaderText(line) && KindOf(line) == kind && AllText(kind, rest)
    ensures AllText(kind, [line] + rest)
  {
    hide KindOf, HeaderText;
    var all := [line] + rest;
    forall i | 0 <= i < |all| ensures HeaderText(all[i]) && KindOf(all[i]) == kind {
      assert i > 0 ==> all[i] == rest[i - 1];
    }
  }

  lemma CopiedIsText(kind: Kind, request: string)
    requires IsAscii(request)
    ensures var line := Copied(kind, request); line != "" ==> HeaderText(line) && KindOf(line) == kind
    ensures forall line :: line in OfKind(kind, RequestHeaders(request)) ==> HeaderText(line) && KindOf(line) == kind
  {
    LinesAreAscii(request);
    HeaderLinesAreText(Lines(request));
    OfKindAreText(kind, RequestHeaders(request));
  }

  /** The first letter of each kind of header. */
  lemma KindInitial(line: string)
    requires line != ""
    ensures KindOf(line) == Via ==> LowerChar(line[0]) == 'v'
    ensures KindOf(line) == From ==> LowerChar(line[0]) == 'f'
    ensures KindOf(line) == To ==> LowerChar(line[0]) == 't'
    ensures KindOf(line) in {CallId, CSeq} ==> LowerChar(line[0]) in {'c', 'i'}
    ensures LowerChar(line[0]) !in {'v', 'f', 't', 'c', 'i'} ==> KindOf(line) == Other
  {
    assert Lower(line)[0] == LowerChar(line[0]);
  }

  /** None of the copied headers carries a content length. */
  lemma KindNoLength(line: string)
    requires HeaderText(line) && KindOf(line) != Other
    ensures LengthField(line).None?
  {
    KindInitial(line);
    var lower := Lower(line);
    if "call-id:" <= lower {
      assert lower[1] == 'a' && lower[0] == 'c';
      OtherNameNoLength(line, 1);
    } else if "cseq:" <= lower {
      assert lower[1] == 's' && lower[0] == 'c';
      OtherNameNoLength(line, 1);
    } else {
      assert lower[0] == LowerChar(line[0]);
      OtherInitialNoLength(line);
    }
  }

  // ----- responses re-frame -----

  /** A header the server adds: one line of text that is not a content length. */
  predicate SafeHeader(h: Header) {
    var line := h.name + ": " + h.value;
    Solid(line) && LengthField(line).None?
  }

  /** The server's own inputs to a builder: reason phrase, tag and extra headers are plain text. */
  ghost predicate SafeInputs(reason: string, extra: seq<Header>, tag: string) {
    && reason != "" && Trimmed(reason) && OneLine(reason) && IsAscii(reason)
    && OneLine(tag) && IsAscii(tag)
    && forall i :: 0 <= i < |extra| ==> SafeHeader(extra[i])
  }

  /** Lines fit for a header block that do not carry a length. */
  ghost predicate Lengthless(lines: seq<string>) {
    forall i :: 0 <= i < |lines| ==> Solid(lines[i]) && LengthField(lines[i]).None?
  }

  lemma StatusLineFacts(status: nat, reason: string)
    requires reason != "" && Trimmed(reason) && OneLine(reason) && IsAscii(reason)
    ensures var line := StatusLine(status, reason);
      && Solid(line) && Trimmed(line) && LengthField(line).None? && KindOf(line) == Other && line[..7] == "SIP/2.0"
  {
    var digits, line := Decimal(status), StatusLine(status, reason);
    assert line == "SIP/2.0 " + digits + " " + reason;
    assert line[0] == 'S' && line[|line| - 1] == reason[|reason| - 1];
    forall i | 0 <= i < |line| ensures line[i] != '\n' && line[i] as int < 0x80 {
      if 8 <= i < 8 + |digits| {
        assert line[i] == digits[i - 8] && IsDigit(digits[i - 8]);
      } else if i > 8 + |digits| {
        assert line[i] == reason[i - 9 - |digits|];
      }
    }
    OtherInitialNoLength(line);
    KindInitial(line);
  }

  lemma {:induction false} ExtraLinesAreLengthless(extra: seq<Header>)
    requires forall i :: 0 <= i < |extra| ==> SafeHeader(extra[i])
    ensures Lengthless(ExtraLines(extra))
  {
    if extra != [] {
      assert SafeHeader(extra[0]);
      ExtraLinesAreLengthless(extra[1..]);
    }
  }

  /** The extra headers and the content type. */
  function Trailer(extra: seq<Header>, body: string): seq<string> {
    ExtraLines(extra) + if body == "" then [] else ["Content-Type: application/sdp"]
  }

  lemma TrailerIsLengthless(extra: seq<Header>, body: string)
    requires forall i :: 0 <= i < |extra| ==> SafeHeader(extra[i])
    ensures Lengthless(Trailer(extra, body))
  {
    hide LengthField, Solid;
    ExtraLinesAreLengthless(extra);
    ContentTypeFacts();
  }

  predicate PlainText(s: string) { OneLine(s) && IsAscii(s) }

  lemma PlainConcat(a: string, b: string)
    requires PlainText(a) && PlainText(b)
    ensures PlainText(a + b)
  {
  }

  lemma ContentTypeFacts()
    ensures Solid("Content-Type: application/sdp") && LengthField("Content-Type: application/sdp").None?
  {
    var line := "Content-Type: application/sdp";
    hide LengthField, Lower;
    assert line[0] == 'C' && line[8] == 'T' && line[|line| - 1] == 'p';
    OtherNameNoLength(line, 8);
    ContentTypeIsPlain();
    hide PlainText;
  }

  lemma ContentTypeIsPlain()
    ensures PlainText("Content-Type: application/sdp")
  {
    assert PlainText("Content-") && PlainText("Type: ") && PlainText("applica") && PlainText("tion/sdp");
    PlainConcat("Content-", "Type: ");
    PlainConcat("Content-" + "Type: ", "applica");
    PlainConcat("Content-" + "Type: " + "applica", "tion/sdp");
    hide PlainText;
    assert "Content-Type: application/sdp" == "Content-" + "Type: " + "applica" + "tion/sdp";
  }

  /** The tagged To header starts like the one copied, or with a semicolon when there is none. */
  lemma TaggedToFacts(request: string, status: nat, tag: string)
    requires IsAscii(request) && OneLine(tag) && IsAscii(tag)
    ensures var line := TaggedTo(Copied(To, request), status, tag); line != "" ==>
      Solid(line) && !IsSpace(line[0]) && LengthField(line).None? && LowerChar(line[0]) in {'t', ';'}
  {
    CopiedIsText(To, request);
    var copied, line := Copied(To, request), TaggedTo(Copied(To, request), status, tag);
    if copied != "" {
      KindInitial(copied);
      assert line[0] == copied[0];
    }
    if line != "" {
      forall i | 0 <= i < |line| ensures line[i] != '\n' && line[i] as int < 0x80 {
        if i >= |copied| + 5 {
          assert line[i] == tag[i - |copied| - 5];
        } else if i < |copied| {
          assert line[i] == copied[i];
        }
      }
      OtherInitialNoLength(line);
    }
  }

  /** The status line and the Via headers, which come first in every response. */
  function Preamble(request: string, status: nat, reason: string): (ls: seq<string>)
    ensures ls != [] && ls[0] == StatusLine(status, reason)
  {
    [StatusLine(status, reason)] + OfKind(Via, RequestHeaders(request))
  }

  lemma PreambleIsLengthless(request: string, status: nat, reason: string)
    requires IsAscii(request) && reason != "" && Trimmed(reason) && OneLine(reason) && IsAscii(reason)
    ensures Lengthless(Preamble(request, status, reason))
  {
    StatusLineFacts(status, reason);
    CopiedIsText(Via, request);
    var vias := OfKind(Via, RequestHeaders(request));
    forall i | 0 <= i < |vias| ensures Solid(vias[i]) && LengthField(vias[i]).None? {
      assert vias[i] in vias;
      KindNoLength(vias[i]);
    }
  }

  lemma CopiedLinesAreLengthless(request: string, status: nat, tag: string, i: nat)
    requires IsAscii(request) && OneLine(tag) && IsAscii(tag) && i < 4
    ensures var line := CopiedLines(request, status, tag)[i]; line != "" ==> Solid(line) && LengthField(line).None?
  {
    CopiedIsText(From, request);
    CopiedIsText(CallId, request);
    CopiedIsText(CSeq, request);
    TaggedToFacts(request, status, tag);
    var line := CopiedLines(request, status, tag)[i];
    if line != "" && i != 1 {
      KindNoLength(line);
    }
  }

  lemma LinesInParts(request: string, status: nat, reason: string, extra: seq<Header>, body: string, tag: string)
    ensures LinesBeforeLength(request, status, reason, extra, body, tag)
         == Preamble(request, status, reason) + CopiedLines(request, status, tag) + Trailer(extra, body)
  {
    Assoc(Preamble(request, status, reason) + CopiedLines(request, status, tag), ExtraLines(extra),
          if body == "" then [] else ["Content-Type: application/sdp"]);
  }

  /** Printed from lengthless lines and one length line, a message frames as the whole of itself. */
  lemma LengthlessThenLength(lines: seq<string>, body: string)
    requires Lengthless(lines) && |PrintMessage(lines + [LengthLine(|body|)], body)| < USIZE_MOD
    ensures var message := PrintMessage(lines + [LengthLine(|body|)], body);
      Frame(message) == Complete(|message|) && ExtractBody(message) == if body == "" then None else Some(body)
  {
    var all := lines + [LengthLine(|body|)];
    LengthLineFacts(|body|);
    ContentLengthAgrees(all, |body|, None);
    assert LengthField(all[|lines|]).Some?;
    assert AllSolid(all);
    FrameOfPrinted(all, body, Some(|body|));
  }

  /** A blank line among the header lines ends the message early. */
  lemma BlankLineEndsEarly(before: seq<string>, after: seq<string>, body: string)
    requires before != [] && Lengthless(before)
    requires |PrintMessage(before + [""] + after, body)| < USIZE_MOD
    ensures var message := PrintMessage(before + [""] + after, body);
      Frame(message).Complete? && Frame(message).length < |message|
  {
    var rest := PrintMessage(after, body);
    EmptyLineEndsHeader(before, after, body);
    ContentLengthAgrees(before, 0, None);
    FrameOfPrinted(before, rest, None);
  }

  /** Some header line of the request is of this kind. */
  predicate Carries(request: string, kind: Kind) {
    exists i :: 0 <= i < |RequestHeaders(request)| && KindOf(RequestHeaders(request)[i]) == kind
  }

  /** The request carries all that a response has to copy; a missing To is made up for by the tag. */
  predicate Answerable(request: string, status: nat) {
    && Carries(request, From) && Carries(request, CallId) && Carries(request, CSeq)
    && (Carries(request, To) || status > 100)
  }

  lemma {:induction false} OfKindExists(kind: Kind, lines: seq<string>)
    requires kind != Other
    ensures OfKind(kind, lines) != [] <==> exists i :: 0 <= i < |lines| && KindOf(lines[i]) == kind
    ensures "" !in OfKind(kind, lines)
  {
    hide KindOf;
    if lines != [] {
      OfKindExists(kind, lines[1..]);
      EmptyIsOther();
      if exists i :: 0 <= i < |lines| && KindOf(lines[i]) == kind {
        var i :| 0 <= i < |lines| && KindOf(lines[i]) == kind;
        if i > 0 { assert lines[1..][i - 1] == lines[i]; }
      }
      if exists i :: 0 <= i < |lines[1..]| && KindOf(lines[1..][i]) == kind {
        var i :| 0 <= i < |lines[1..]| && KindOf(lines[1..][i]) == kind;
        assert lines[i + 1] == lines[1..][i];
      }
    }
  }

  lemma EmptyIsOther()
    ensures KindOf("") == Other
  {
  }

  lemma CopiedWhenCarried(kind: Kind, request: string)
    requires kind != Other
    ensures Copied(kind, request) != "" <==> Carries(request, kind)
  {
    hide KindOf, RequestHeaders;
    OfKindExists(kind, RequestHeaders(request));
  }

  lemma AnswerableCopies(request: string, status: nat, tag: string)
    ensures "" !in CopiedLines(request, status, tag) <==> Answerable(request, status)
  {
    hide Copied, Carries;
    CopiedWhenCarried(From, request);
    CopiedWhenCarried(To, request);
    CopiedWhenCarried(CallId, request);
    CopiedWhenCarried(CSeq, request);
    TaggedWhen(Copied(To, request), status, tag);
    hide TaggedTo;
  }

  lemma TaggedWhen(toHeader: string, status: nat, tag: string)
    ensures TaggedTo(toHeader, status, tag) != "" <==> toHeader != "" || status > 100
  {
    if toHeader == "" {
      assert Lower("") == "" && !Contains("", "tag=");
    }
  }

  /** Every built response frames as exactly itself if and only if the request has a From, a Call-ID and a CSeq header
      line, and a To header line unless the status is above 100. */
  lemma ResponseFramesExactly(request: string, status: nat, reason: string, extra: seq<Header>, body: string,
      tag: string)
    requires IsAscii(request) && SafeInputs(reason, extra, tag)
    requires |Response(request, status, reason, extra, body, tag)| < USIZE_MOD
    ensures var response := Response(request, status, reason, extra, body, tag);
      && (Frame(response) == Complete(|response|) <==> Answerable(request, status))
      && (Answerable(request, status) ==> ExtractBody(response) == if body == "" then None else Some(body))
  {
    hide Response, Frame, ExtractBody, Answerable, CopiedLines;
    AnswerableCopies(request, status, tag);
    FramesUnlessBlank(request, status, reason, extra, body, tag);
  }

  /** A response to be built. */
  datatype Answer = Answer(request: string, status: nat, reason: string, extra: seq<Header>, body: string, tag: string)
  {
    function Text(): string { Response(request, status, reason, extra, body, tag) }

    ghost predicate Valid() {
      IsAscii(request) && SafeInputs(reason, extra, tag) && |Text()| < USIZE_MOD
    }
  }

  function Texts(answers: seq<Answer>): (r: seq<string>)
    ensures |r| == |answers| && forall i :: 0 <= i < |answers| ==> r[i] == answers[i].Text()
  {
    seq(|answers|, i requires 0 <= i < |answers| => answers[i].Text())
  }

  /** On a connection, a stream of built responses is taken apart into exactly these responses, with nothing left over,
      if and only if each of their requests has those lines. */
  lemma ResponseStreamExactly(answers: seq<Answer>)
    requires forall i :: 0 <= i < |answers| ==> answers[i].Valid()
    ensures Drain(Concat(Texts(answers))) == Drained(Texts(answers), "", false) <==>
      forall i :: 0 <= i < |answers| ==> Answerable(answers[i].request, answers[i].status)
  {
    hide Response, Answerable, Drain;
    StreamDrainsExactly(Texts(answers));
    forall a | a in answers ensures Frame(a.Text()) == Complete(|a.Text()|) <==> Answerable(a.request, a.status) {
      ResponseFramesExactly(a.request, a.status, a.reason, a.extra, a.body, a.tag);
    }
    hide Frame;
  }

  const BARE_REQUEST := "OPTIONS sip:a SIP/2.0"

  lemma BareRequestFacts()
    ensures PlainText(BARE_REQUEST) && BARE_REQUEST != "" && Trimmed(BARE_REQUEST) && BARE_REQUEST[0] == 'O'
  {
    assert PlainText("OPTIONS ") && PlainText("sip:a ") && PlainText("SIP/2.0");
    PlainConcat("OPTIONS ", "sip:a ");
    PlainConcat("OPTIONS " + "sip:a ", "SIP/2.0");
    hide PlainText;
    assert BARE_REQUEST == "OPTIONS " + "sip:a " + "SIP/2.0";
  }

  /** For instance, a request of a request line alone gets a response that does not frame as itself. */
  lemma BareRequestFramesEarly(status: nat, reason: string, extra: seq<Header>, body: string, tag: string)
    requires SafeInputs(reason, extra, tag)
    requires |Response(BARE_REQUEST, status, reason, extra, body, tag)| < USIZE_MOD
    ensures var response := Response(BARE_REQUEST, status, reason, extra, body, tag);
      Frame(response) != Complete(|response|)
  {
    hide Response, Frame, SafeInputs, Trimmed;
    BareRequestFacts();
    NoHeadersFrameEarly(BARE_REQUEST, status, reason, extra, body, tag);
  }

  lemma NoHeadersFrameEarly(request: string, status: nat, reason: string, extra: seq<Header>, body: string, tag: string)
    requires PlainText(request) && SafeInputs(reason, extra, tag)
    requires request != "" && Trimmed(request) && LowerChar(request[0]) !in {'v', 'f', 't', 'c', 'i'}
    requires |Response(request, status, reason, extra, body, tag)| < USIZE_MOD
    ensures var response := Response(request, status, reason, extra, body, tag); Frame(response) != Complete(|response|)
  {
    OneLineAlone(request);
    KindInitial(request);
    hide KindOf, Response, Frame, ExtractBody, SafeInputs;
    assert !Carries(request, From);
    ResponseFramesExactly(request, status, reason, extra, body, tag);
  }

  lemma OneLineAlone(line: string)
    requires line != "" && Trimmed(line) && OneLine(line)
    ensures RequestHeaders(line) == [line]
  {
    TrimOfTrimmed(line);
    hide Trim;
    var n := FindLf(line);
    assert n < |line| ==> '\n' in line;
    assert Lines(line) == [line];
    assert HeaderLines([line][1..]) == [];
  }

  lemma FramesUnlessBlank(request: string, status: nat, reason: string, extra: seq<Header>, body: string, tag: string)
    requires IsAscii(request) && SafeInputs(reason, extra, tag)
    requires |Response(request, status, reason, extra, body, tag)| < USIZE_MOD
    ensures var response := Response(request, status, reason, extra, body, tag);
      && (Frame(response) == Complete(|response|) <==> "" !in CopiedLines(request, status, tag))
      && ("" !in CopiedLines(request, status, tag) ==> ExtractBody(response) == if body == "" then None else Some(body))
  {
    hide Preamble, CopiedLines, Trailer, LinesBeforeLength, LengthField, LengthLine, Frame, PrintMessage,
        ExtractBody, Solid;
    var preamble, copied, trailer :=
      Preamble(request, status, reason), CopiedLines(request, status, tag), Trailer(extra, body);
    PreambleIsLengthless(request, status, reason);
    TrailerIsLengthless(extra, body);
    LinesInParts(request, status, reason, extra, body, tag);
    forall i | 0 <= i < 4 ensures copied[i] != "" ==> Solid(copied[i]) && LengthField(copied[i]).None? {
      CopiedLinesAreLengthless(request, status, tag, i);
    }
    if "" in copied {
      var k := FirstBlank(copied);
      var before, after := preamble + copied[..k], copied[k + 1..] + trailer + [LengthLine(|body|)];
      assert preamble + copied + trailer + [LengthLine(|body|)] == before + [""] + after;
      BlankLineEndsEarly(before, after, body);
    } else {
      assert Lengthless(preamble + copied + trailer);
      LengthlessThenLength(preamble + copied + trailer, body);
    }
  }

  lemma {:induction false} FirstBlank(lines: seq<string>) returns (k: nat)
    requires "" in lines
    ensures k < |lines| && lines[k] == "" && forall i :: 0 <= i < k ==> lines[i] != ""
  {
    if lines[0] == "" {
      k := 0;
    } else {
      k := FirstBlank(lines[1..]);
      k := k + 1;
    }
  }

  // ----- what the extractors read back -----

  /** `extract_status_code`. */
  function ExtractStatusCode(message: string): Option<nat> {
    var lines := Lines(message);
    if lines == [] || !("SIP/2.0" <= Trim(lines[0])) then None
    else
      var parts := Words(Trim(lines[0]));
      if |parts| >= 2 then ParseUnsigned(parts[1], 0x1_0000) else None
  }

  function CallIdValue(trimmed: string): string {
    if "call-id:" <= Lower(trimmed) then Trim(trimmed[8..])
    else if "i:" <= Lower(trimmed) then Trim(trimmed[2..])
    else ""
  }

  /** `extract_call_id`, on lines: the first Call-ID header, wherever it is. */
  function CallIdIn(lines: seq<string>): Option<string> {
    if lines == [] then None
    else if KindOf(Trim(lines[0])) == CallId then Some(CallIdValue(Trim(lines[0])))
    else CallIdIn(lines[1..])
  }

  function ExtractCallId(message: string): Option<string> { CallIdIn(Lines(message)) }

  lemma WordsOfSpaced(w: string, rest: string)
    requires IsWord(w)
    ensures Words(w + (" " + rest)) == [w] + Words(rest)
  {
    WordLenOf(w, " " + rest);
    SplitConcat(w, " " + rest);
    assert (w + (" " + rest))[0] == w[0] && !IsSpace(w[0]);
    assert (" " + rest)[1..] == rest;
  }

  lemma StatusLineInWords(status: nat, reason: string)
    ensures StatusLine(status, reason) == "SIP/2.0" + (" " + (Decimal(status) + (" " + reason)))
  {
    Assoc(Decimal(status), " ", reason);
    Assoc("SIP/2.0 ", Decimal(status), " " + reason);
    Assoc("SIP/2.0", " ", Decimal(status) + (" " + reason));
    assert "SIP/2.0" + " " == "SIP/2.0 ";
    Assoc("SIP/2.0 " + Decimal(status), " ", reason);
  }

  lemma StatusOfLine(status: nat, reason: string)
    requires status < 0x1_0000 && reason != "" && Trimmed(reason) && OneLine(reason) && IsAscii(reason)
    ensures var line := StatusLine(status, reason);
      && "SIP/2.0" <= Trim(line) && |Words(Trim(line))| >= 2
      && ParseUnsigned(Words(Trim(line))[1], 0x1_0000) == Some(status)
  {
    hide LengthField, KindOf, Decimal, ParseUnsigned, StatusLine, Solid, Trim;
    StatusLineFacts(status, reason);
    TrimOfTrimmed(StatusLine(status, reason));
    DecimalIsWord(status);
    assert IsWord("SIP/2.0");
    StatusLineInWords(status, reason);
    WordsOfSpaced("SIP/2.0", Decimal(status) + (" " + reason));
    WordsOfSpaced(Decimal(status), reason);
    ParseOfDecimal(status, 0x1_0000);
  }

  lemma StatusReadsBack(status: nat, reason: string, lines: seq<string>, body: string)
    requires status < 0x1_0000 && reason != "" && Trimmed(reason) && OneLine(reason) && IsAscii(reason)
    requires lines != [] && lines[0] == StatusLine(status, reason) && AllOneLine(lines)
    ensures ExtractStatusCode(PrintMessage(lines, body)) == Some(status)
  {
    hide Lines, Print, Words, Trim, ParseUnsigned, StatusLine;
    LinesOfPrint(lines, CRLF + body);
    StatusOfLine(status, reason);
  }

  lemma {:induction false} CallIdAfter(before: seq<string>, line: string, rest: seq<string>)
    requires forall i :: 0 <= i < |before| ==> KindOf(Trim(before[i])) != CallId
    requires HeaderText(line) && KindOf(line) == CallId
    ensures CallIdIn(before + ([line] + rest)) == Some(CallIdValue(line))
  {
    if before == [] {
      EmptyConcat([line] + rest);
      TrimOfTrimmed(line);
    } else {
      TailOfConcat(before, [line] + rest);
      CallIdAfter(before[1..], line, rest);
    }
  }

  lemma {:induction false} CallIdOfHeaders(lines: seq<string>)
    requires OfKind(CallId, HeaderLines(lines)) != []
    ensures CallIdIn(lines) == Some(CallIdValue(OfKind(CallId, HeaderLines(lines))[0]))
  {
    if KindOf(Trim(lines[0])) != CallId {
      CallIdOfHeaders(lines[1..]);
    }
  }

  lemma NotCallIdByInitial(line: string)
    requires line != "" && !IsSpace(line[0]) && LowerChar(line[0]) !in {'c', 'i'}
    ensures KindOf(Trim(line)) != CallId
  {
    TrimIsTrimmed(line);
    KindInitial(Trim(line));
  }

  /** A response to a request with exactly one Call-ID reads back with the given status and the request's Call-ID. */
  lemma ResponseReadsBack(request: string, status: nat, reason: string, extra: seq<Header>, body: string, tag: string)
    requires IsAscii(request) && SafeInputs(reason, extra, tag) && status < 0x1_0000
    requires |OfKind(CallId, RequestHeaders(request))| == 1 && Answerable(request, status)
    ensures var response := Response(request, status, reason, extra, body, tag);
      && ExtractStatusCode(response) == Some(status)
      && ExtractCallId(response) == ExtractCallId(request) != None
  {
    hide Preamble, Trailer, LinesBeforeLength, LengthField, LengthLine, KindOf, ExtractStatusCode, Print, Lines,
        CallIdIn,
      HeaderText, TaggedTo, Decimal, StatusLine, OfKind, HeaderLines;
    var preamble, copied := Preamble(request, status, reason), CopiedLines(request, status, tag);
    var tail := Trailer(extra, body) + [LengthLine(|body|)];
    var lines := LinesBeforeLength(request, status, reason, extra, body, tag) + [LengthLine(|body|)];
    LinesInParts(request, status, reason, extra, body, tag);
    AnswerableCopies(request, status, tag);
    ResponseLinesAreOneLine(request, status, reason, extra, body, tag);
    StatusReadsBack(status, reason, lines, body);
    LinesOfPrint(lines, CRLF + body);
    CallIdOfHeaders(Lines(request));
    CopiedIsText(CallId, request);
    var before := preamble + copied[..2];
    forall i | 0 <= i < |before| ensures KindOf(Trim(before[i])) != CallId {
      NotCallIdBefore(request, status, reason, tag, i);
    }
    assert lines + Lines(CRLF + body) == before + ([copied[2]] + ([copied[3]] + tail + Lines(CRLF + body)));
    CallIdAfter(before, copied[2], [copied[3]] + tail + Lines(CRLF + body));
  }

  lemma ResponseLinesAreOneLine(request: string, status: nat, reason: string, extra: seq<Header>, body: string,
      tag: string)
    requires IsAscii(request) && SafeInputs(reason, extra, tag) && "" !in CopiedLines(request, status, tag)
    ensures AllOneLine(LinesBeforeLength(request, status, reason, extra, body, tag) + [LengthLine(|body|)])
  {
    PreambleIsLengthless(request, status, reason);
    TrailerIsLengthless(extra, body);
    LinesInParts(request, status, reason, extra, body, tag);
    var copied := CopiedLines(request, status, tag);
    forall i | 0 <= i < 4 ensures OneLine(copied[i]) {
      CopiedLinesAreLengthless(request, status, tag, i);
      assert copied[i] in copied;
    }
    LengthLineIsOneLine(|body|);
  }

  lemma LengthLineIsOneLine(n: nat)
    ensures OneLine(LengthLine(n))
  {
    var digits, line := Decimal(n), LengthLine(n);
    forall i | 0 <= i < |line| ensures line[i] != '\n' {
      if i >= 16 { assert line[i] == digits[i - 16] && IsDigit(digits[i - 16]); }
    }
  }

  lemma NotCallIdBefore(request: string, status: nat, reason: string, tag: string, i: nat)
    requires IsAscii(request) && SafeInputs(reason, [], tag) && "" !in CopiedLines(request, status, tag)
    requires var before := Preamble(request, status, reason) + CopiedLines(request, status, tag)[..2]; i < |before|
    ensures var before := Preamble(request, status, reason) + CopiedLines(request, status, tag)[..2];
      KindOf(Trim(before[i])) != CallId
  {
    hide KindOf, LengthField, StatusLine, TaggedTo, OfKind, Copied;
    var copied := CopiedLines(request, status, tag);
    var before, vias := Preamble(request, status, reason) + copied[..2], OfKind(Via, RequestHeaders(request));
    StatusLineFacts(status, reason);
    CopiedIsText(Via, request);
    CopiedIsText(From, request);
    TaggedToFacts(request, status, tag);
    assert copied[0] in copied && copied[1] in copied;
    if 1 <= i <= |vias| {
      assert before[i] == vias[i - 1] && vias[i - 1] in vias;
    } else {
      assert before[i] in {StatusLine(status, reason), copied[0], copied[1]};
    }
    KindInitial(before[i]);
    NotCallIdByInitial(before[i]);
  }
}
