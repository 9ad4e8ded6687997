/** What the messages that the server builds say, read back line by line: which lines of the request a response
    repeats. */
module SipEchoes {
  import opened Seqs
  import opened SipText
  import opened Wrappers
  import opened Framing
  import opened SipPrinting
  import opened SipResponses
  import opened SipReading
  import opened SipForwarding

  // ----- reading header lines -----

  /** The header lines are the trimmed lines up to the first blank one. */
  lemma {:induction false} HeaderLinesExactly(lines: seq<string>)
    ensures |HeaderLines(lines)| <= |lines|
    ensures forall i :: 0 <= i < |HeaderLines(lines)| ==> HeaderLines(lines)[i] == Trim(lines[i]) != ""
    ensures |HeaderLines(lines)| < |lines| ==> Trim(lines[|HeaderLines(lines)|]) == ""
  {
    hide Trim;
    if lines != [] && Trim(lines[0]) != "" {
      HeaderLinesExactly(lines[1..]);
      assert forall i :: 0 < i < |HeaderLines(lines)| ==> HeaderLines(lines)[i] == HeaderLines(lines[1..])[i - 1];
    }
  }

  /** These positions are those of the lines of one kind, in order. */
  ghost predicate Picks(picked: seq<string>, places: seq<nat>, kind: Kind, lines: seq<string>) {
    && |places| == |picked|
    && (forall j :: 0 <= j < |places| ==> places[j] < |lines| && picked[j] == lines[places[j]])
    && (forall j, k :: 0 <= j < k < |places| ==> places[j] < places[k])
    && (forall i :: 0 <= i < |lines| ==> (i in places <==> KindOf(lines[i]) == kind))
  }

  lemma PicksOneMore(picked: seq<string>, places: seq<nat>, kind: Kind, lines: seq<string>, line: string)
    requires Picks(picked, places, kind, lines)
    ensures KindOf(line) == kind ==> Picks(picked + [line], places + [|lines|], kind, lines + [line])
    ensures KindOf(line) != kind ==> Picks(picked, places, kind, lines + [line])
  {
    hide KindOf;
    assert |lines| !in places;
    assert forall i :: 0 <= i < |lines| ==> (lines + [line])[i] == lines[i];
  }

  /** The lines of one kind are all of these and no others, in the order they come. */
  lemma {:induction false} OfKindExactly(kind: Kind, lines: seq<string>) returns (places: seq<nat>)
    ensures Picks(OfKind(kind, lines), places, kind, lines)
  {
    hide KindOf;
    places := [];
    if lines != [] {
      var n := |lines| - 1;
      assert lines[..n] + [lines[n]] == lines;
      CollectOne(lines[..n], lines[n]);
      EmptyConcat(OfKind(kind, lines[..n]));
      places := OfKindExactly(kind, lines[..n]);
      hide Picks, OfKind;
      PicksOneMore(OfKind(kind, lines[..n]), places, kind, lines[..n], lines[n]);
      if KindOf(lines[n]) == kind {
        places := places + [n];
      }
    }
  }

  // ----- responses -----

  function Trims(lines: seq<string>): (r: seq<string>)
    ensures |r| == |lines| && forall i :: 0 <= i < |lines| ==> r[i] == Trim(lines[i])
  {
    seq(|lines|, i requires 0 <= i < |lines| => Trim(lines[i]))
  }

  ghost predicate NoneBlank(lines: seq<string>) { forall i :: 0 <= i < |lines| ==> Trim(lines[i]) != "" }

  lemma TrimsConcat(a: seq<string>, b: seq<string>)
    ensures Trims(a + b) == Trims(a) + Trims(b)
    ensures NoneBlank(a) && NoneBlank(b) ==> NoneBlank(a + b)
  {
    hide Trim;
  }

  lemma {:induction false} HeaderLinesUntilBlank(lines: seq<string>, rest: seq<string>)
    requires forall i :: 0 <= i < |lines| ==> Trim(lines[i]) != ""
    ensures HeaderLines(lines + ([""] + rest)) == Trims(lines)
  {
    if lines == [] {
      EmptyConcat([""] + rest);
      assert Trim("") == "";
    } else {
      hide Trim;
      TailOfConcat(lines, [""] + rest);
      HeaderLinesUntilBlank(lines[1..], rest);
      assert Trims(lines) == [Trim(lines[0])] + Trims(lines[1..]);
    }
  }

  /** The header lines of a printed message are its lines, trimmed. */
  lemma PrintedHeaders(lines: seq<string>, body: string)
    requires AllOneLine(lines) && NoneBlank(lines)
    ensures RequestHeaders(PrintMessage(lines, body)) == Trims(lines)
  {
    hide Trim, Print;
    LinesOfPrint(lines, CRLF + body);
    LinesExactly("\r", body);
    assert Lines(CRLF + body) == [""] + Lines(body) by {
      Assoc("\r", "\n", body);
      assert "\r" + "\n" == CRLF;
    }
    hide Lines;
    HeaderLinesUntilBlank(lines, Lines(body));
  }

  /** The last line of one kind. */
  ghost predicate IsLast(kind: Kind, lines: seq<string>, line: string) {
    exists i ::
      && 0 <= i < |lines| && lines[i] == line && KindOf(line) == kind
      && forall k :: i < k < |lines| ==> KindOf(lines[k]) != kind
  }

  lemma CopiedIsLast(kind: Kind, request: string)
    requires kind != Other && Carries(request, kind)
    ensures IsLast(kind, RequestHeaders(request), Copied(kind, request))
  {
    hide KindOf, RequestHeaders, OfKind;
    var lines := RequestHeaders(request);
    OfKindExists(kind, lines);
    var places := OfKindExactly(kind, lines);
    var i := places[|places| - 1];
    assert i in places && lines[i] == Copied(kind, request);
    assert forall j :: 0 <= j < |places| ==> places[j] <= i;
    forall k | i < k < |lines| ensures KindOf(lines[k]) != kind {
      assert k !in places;
    }
  }

  /** The To header of a response: the request's last one, with a tag added unless there is one, in any case, or the
      status is 100. */
  ghost predicate IsToOf(request: string, status: nat, tag: string, line: string) {
    exists to: string ::
      && (if Carries(request, To) then IsLast(To, RequestHeaders(request), to) else to == "")
      && (if status <= 100 || (exists i: nat :: PartAt(Lower(to), "tag=", i)) then line == to
          else line == to + ";tag=" + tag)
  }

  lemma TaggedToIsTo(request: string, status: nat, tag: string)
    ensures IsToOf(request, status, tag, TaggedTo(Copied(To, request), status, tag))
  {
    var to := Copied(To, request);
    if Carries(request, To) {
      CopiedIsLast(To, request);
    } else {
      CopiedWhenCarried(To, request);
    }
    ContainsExactly(Lower(to), "tag=");
    hide Carries, IsLast, Copied, Lower, Contains, RequestHeaders;
  }

  lemma ColonIsNotBlank(line: string, i: nat)
    requires i < |line| && line[i] == ':'
    ensures Trim(line) != ""
  {
    var before, after := TrimmedExactly(line);
    var n := |line| - |after|;
    assert forall j :: 0 <= j < |before| ==> line[j] == before[j];
    forall j | n <= j < |line| ensures line[j] as int in {9, 10, 11, 12, 13, 32} { assert line[j] == after[j - n]; }
    assert |before| <= i < n;
  }

  lemma {:induction false} ExtraLinesAre(extra: seq<Header>)
    ensures |ExtraLines(extra)| == |extra|
    ensures forall i :: 0 <= i < |extra| ==> ExtraLines(extra)[i] == extra[i].name + ": " + extra[i].value
  {
    if extra != [] {
      ExtraLinesAre(extra[1..]);
      assert forall i :: 0 < i < |extra| ==> extra[i] == extra[1..][i - 1];
    }
  }

  lemma ExtraIsNotBlank(h: Header)
    ensures Trim(h.name + ": " + h.value) != ""
  {
    var line := h.name + ": " + h.value;
    assert line[|h.name|] == ':';
    ColonIsNotBlank(line, |h.name|);
  }

  lemma HeaderTextIsKept(line: string)
    requires HeaderText(line)
    ensures Trim(line) == line != ""
  {
    TrimOfTrimmed(line);
  }

  lemma PreambleRead(a: Answer)
    requires a.Valid()
    ensures var p, vias := Preamble(a.request, a.status, a.reason), OfKind(Via, RequestHeaders(a.request));
      && NoneBlank(p) && |p| == |vias| + 1
      && Trims(p)[0] == "SIP/2.0 " + Decimal(a.status) + " " + a.reason && Trims(p)[1..] == vias
  {
    hide Response, Frame, Answerable, KindOf, LengthField;
    var vias := OfKind(Via, RequestHeaders(a.request));
    StatusLineFacts(a.status, a.reason);
    HeaderTextIsKept(StatusLine(a.status, a.reason));
    CopiedIsText(Via, a.request);
    hide OfKind, RequestHeaders, Trim, HeaderText;
    forall i | 0 <= i < |vias| ensures Trim(vias[i]) == vias[i] != "" {
      assert vias[i] in vias;
      HeaderTextIsKept(vias[i]);
    }
  }

  lemma CopiedRead(a: Answer)
    requires a.Valid() && Answerable(a.request, a.status)
    ensures var q, copied := RequestHeaders(a.request), CopiedLines(a.request, a.status, a.tag);
      && NoneBlank(copied)
      && IsLast(From, q, Trims(copied)[0]) && IsLast(CallId, q, Trims(copied)[2]) && IsLast(CSeq, q, Trims(copied)[3])
      && IsToOf(a.request, a.status, a.tag, copied[1])
  {
    AnswerableCopies(a.request, a.status, a.tag);
    hide Response, Frame, KindOf, LengthField, IsLast, OfKind, RequestHeaders, Trim, TaggedTo, HeaderText, Carries,
      IsToOf;
    var copied := CopiedLines(a.request, a.status, a.tag);
    CopiedIsText(From, a.request);
    CopiedIsText(CallId, a.request);
    CopiedIsText(CSeq, a.request);
    TaggedToFacts(a.request, a.status, a.tag);
    TaggedToIsTo(a.request, a.status, a.tag);
    CopiedIsLast(From, a.request);
    CopiedIsLast(CallId, a.request);
    CopiedIsLast(CSeq, a.request);
    assert copied[0] in copied && copied[1] in copied && copied[2] in copied && copied[3] in copied;
    hide Copied;
    HeaderTextIsKept(copied[0]);
    HeaderTextIsKept(copied[2]);
    HeaderTextIsKept(copied[3]);
    TrimIsTrimmed(copied[1]);
  }

  lemma AddedRead(a: Answer)
    ensures var added := Trailer(a.extra, a.body) + [LengthLine(|a.body|)];
      && NoneBlank(added) && |added| == |a.extra| + (if a.body == "" then 1 else 2)
      && (forall i :: 0 <= i < |a.extra| ==> Trims(added)[i] == Trim(a.extra[i].name + ": " + a.extra[i].value))
      && Trims(added)[|added| - 1] == "Content-Length: " + Decimal(|a.body|)
      && (a.body != "" ==> Trims(added)[|added| - 2] == "Content-Type: application/sdp")
  {
    var added := Trailer(a.extra, a.body) + [LengthLine(|a.body|)];
    ExtraLinesAre(a.extra);
    LengthLineIsTrimmed(|a.body|);
    ContentTypeIsTrimmed();
    forall i | 0 <= i < |a.extra| ensures Trim(added[i]) != "" {
      ExtraIsNotBlank(a.extra[i]);
    }
    hide Trim, LengthLine, ExtraLines;
  }

  lemma LengthLineIsTrimmed(n: nat)
    ensures Trim(LengthLine(n)) == LengthLine(n) != ""
  {
    var line, digits := LengthLine(n), Decimal(n);
    assert line[0] == 'C' && line[|line| - 1] == digits[|digits| - 1];
    assert IsDigit(digits[|digits| - 1]);
    hide Trim;
    TrimOfTrimmed(line);
  }

  lemma ContentTypeIsTrimmed()
    ensures Trim("Content-Type: application/sdp") == "Content-Type: application/sdp" != ""
  {
    var line := "Content-Type: application/sdp";
    assert line[0] == 'C' && line[|line| - 1] == 'p';
    hide Trim;
    TrimOfTrimmed(line);
  }

  lemma TextOf(a: Answer)
    requires a.Valid() && Answerable(a.request, a.status)
    ensures var lines := Preamble(a.request, a.status, a.reason) + CopiedLines(a.request, a.status, a.tag)
                         + (Trailer(a.extra, a.body) + [LengthLine(|a.body|)]);
      a.Text() == PrintMessage(lines, a.body) && AllOneLine(lines)
    ensures ExtractBody(a.Text()) == if a.body == "" then None else Some(a.body)
  {
    AnswerableCopies(a.request, a.status, a.tag);
    LinesInParts(a.request, a.status, a.reason, a.extra, a.body, a.tag);
    ResponseLinesAreOneLine(a.request, a.status, a.reason, a.extra, a.body, a.tag);
    ResponseFramesExactly(a.request, a.status, a.reason, a.extra, a.body, a.tag);
    Assoc(Preamble(a.request, a.status, a.reason) + CopiedLines(a.request, a.status, a.tag),
          Trailer(a.extra, a.body), [LengthLine(|a.body|)]);
    hide LinesBeforeLength, Preamble, CopiedLines, Trailer, LengthLine, PrintMessage, ExtractBody, Frame, OneLine,
      Answerable;
  }

  lemma ResponseHeaders(a: Answer)
    requires a.Valid() && Answerable(a.request, a.status)
    ensures RequestHeaders(a.Text())
         == Trims(Preamble(a.request, a.status, a.reason)) + Trims(CopiedLines(a.request, a.status, a.tag))
            + Trims(Trailer(a.extra, a.body) + [LengthLine(|a.body|)])
  {
    hide *;
    TextOf(a);
    PreambleRead(a);
    CopiedRead(a);
    AddedRead(a);
    var preamble, copied := Preamble(a.request, a.status, a.reason), CopiedLines(a.request, a.status, a.tag);
    var added := Trailer(a.extra, a.body) + [LengthLine(|a.body|)];
    TrimsConcat(preamble, copied);
    TrimsConcat(preamble + copied, added);
    PrintedHeaders(preamble + copied + added, a.body);
  }

  /** A response whose request has what must be copied says exactly this: the status line; all Via headers of the
      request; its last From header, its last To header with a tag, its last Call-ID and CSeq headers; the extra
      headers; and the length of the body. */
  lemma ResponseEchoes(a: Answer)
    requires a.Valid() && Answerable(a.request, a.status)
    ensures var q, r := RequestHeaders(a.request), RequestHeaders(a.Text());
      var vias := OfKind(Via, q);
      var n := |vias| + 1;
      && |r| == n + 4 + |a.extra| + (if a.body == "" then 1 else 2)
      && r[0] == "SIP/2.0 " + Decimal(a.status) + " " + a.reason && r[1..n] == vias
      && IsLast(From, q, r[n]) && IsLast(CallId, q, r[n + 2]) && IsLast(CSeq, q, r[n + 3])
      && (exists to :: IsToOf(a.request, a.status, a.tag, to) && r[n + 1] == Trim(to))
      && (forall i :: 0 <= i < |a.extra| ==> r[n + 4 + i] == Trim(a.extra[i].name + ": " + a.extra[i].value))
      && r[|r| - 1] == "Content-Length: " + Decimal(|a.body|)
      && (a.body != "" ==> r[|r| - 2] == "Content-Type: application/sdp")
      && ExtractBody(a.Text()) == if a.body == "" then None else Some(a.body)
  {
    hide *;
    TextOf(a);
    ResponseHeaders(a);
    PreambleRead(a);
    CopiedRead(a);
    AddedRead(a);
    var preamble, copied := Preamble(a.request, a.status, a.reason), CopiedLines(a.request, a.status, a.tag);
    var p, c, d := Trims(preamble), Trims(copied), Trims(Trailer(a.extra, a.body) + [LengthLine(|a.body|)]);
    var r := RequestHeaders(a.Text());
    assert r == p + c + d && |c| == 4;
    assert r[1..|p|] == p[1..];
    assert c[1] == Trim(copied[1]);
  }

  // ----- forwarded responses -----

  /** The first line of one kind. */
  ghost predicate IsFirst(kind: Kind, lines: seq<string>, line: string) {
    exists i ::
      && 0 <= i < |lines| && lines[i] == line && KindOf(line) == kind
      && forall k :: 0 <= k < i ==> KindOf(lines[k]) != kind
  }

  /** At most one line: the first one of its kind, if there is any. */
  ghost predicate FirstIfAny(kind: Kind, request: string, found: seq<string>) {
    if Carries(request, kind) then |found| == 1 && IsFirst(kind, RequestHeaders(request), found[0]) else found == []
  }

  lemma FirstIsFirst(kind: Kind, request: string)
    requires kind != Other
    ensures FirstIfAny(kind, request, First(OfKind(kind, RequestHeaders(request))))
  {
    hide KindOf, RequestHeaders, OfKind;
    var lines := RequestHeaders(request);
    OfKindExists(kind, lines);
    var places := OfKindExactly(kind, lines);
    if places != [] {
      var i := places[0];
      assert i in places && lines[i] == OfKind(kind, lines)[0];
      assert forall j :: 0 <= j < |places| ==> i <= places[j];
      forall k | 0 <= k < i ensures KindOf(lines[k]) != kind {
        assert k !in places;
      }
    }
  }

  /** Lines of one kind alone. */
  ghost predicate AllOf(kind: Kind, lines: seq<string>) {
    forall i :: 0 <= i < |lines| ==> KindOf(lines[i]) == kind && Trim(lines[i]) == lines[i] != ""
  }

  /** What reading makes of such lines. */
  ghost predicate IsPart(k: Kind, kind: Kind, lines: seq<string>) {
    OfKind(k, lines) == (if k == kind then lines else []) && Trims(lines) == lines && NoneBlank(lines)
  }

  lemma {:induction false} OfKindOfAll(k: Kind, kind: Kind, lines: seq<string>)
    requires AllOf(kind, lines)
    ensures IsPart(k, kind, lines)
  {
    hide KindOf, Trim;
    if lines != [] {
      OfKindOfAll(k, kind, lines[1..]);
      assert lines == [lines[0]] + lines[1..];
    }
  }

  lemma CopiesAreOfKind(kind: Kind, text: string)
    requires IsAscii(text) && kind != Other
    ensures AllOf(kind, OfKind(kind, RequestHeaders(text))) && AllOf(kind, First(OfKind(kind, RequestHeaders(text))))
  {
    hide KindOf, OfKind, RequestHeaders, HeaderText, Trim;
    CopiedIsText(kind, text);
    var lines := OfKind(kind, RequestHeaders(text));
    forall i | 0 <= i < |lines| ensures KindOf(lines[i]) == kind && Trim(lines[i]) == lines[i] != "" {
      assert lines[i] in lines;
      HeaderTextIsKept(lines[i]);
    }
  }

  lemma OtherByLetters(line: string)
    requires |line| >= 2 && line[0] == 'C' && line[1] == 'o' && Trimmed(line)
    ensures AllOf(Other, [line])
  {
    assert Lower(line)[0] == 'c' && Lower(line)[1] == 'o';
    assert "call-id:"[1] == 'a' && "cseq:"[1] == 's';
    TrimOfTrimmed(line);
  }

  lemma MadeToIsTo(uri: string)
    requires PlainText(uri)
    ensures AllOf(To, ["To: <" + uri + ">"]) && OneLine("To: <" + uri + ">")
  {
    var line := "To: <" + uri + ">";
    assert "To" + ": <" == "To: <";
    BracketedIsLengthless("To", uri);
    assert line == Field("To", " <" + uri + ">");
    assert Lower("To") == "to";
    KindByName("To", " <" + uri + ">");
    TrimOfTrimmed(line);
  }

  lemma AnswerToIs(invite: string, answer: string, uri: string)
    requires IsAscii(invite) && IsAscii(answer) && PlainText(uri)
    ensures AllOf(To, [AnswerTo(invite, answer, uri)])
    ensures var to := AnswerTo(invite, answer, uri);
      if Carries(answer, To) then IsFirst(To, RequestHeaders(answer), to)
      else if Carries(invite, To) then IsFirst(To, RequestHeaders(invite), to)
      else to == "To: <" + uri + ">"
  {
    FirstIsFirst(To, answer);
    FirstIsFirst(To, invite);
    CopiesAreOfKind(To, answer);
    CopiesAreOfKind(To, invite);
    MadeToIsTo(uri);
    hide OfKind, RequestHeaders, KindOf, IsFirst, Carries, PlainText, Trim;
  }

  /** What the server writes into a forwarded response besides the copies. */
  function ContactPart(status: nat, uri: string): seq<string> {
    if 200 <= status < 300 then ["Contact: <" + uri + ">"] else []
  }

  lemma StatusIsOther(status: nat, reason: string)
    requires SafeInputs(reason, [], "")
    ensures AllOf(Other, [StatusLine(status, reason)])
  {
    StatusLineFacts(status, reason);
    TrimOfTrimmed(StatusLine(status, reason));
    hide KindOf, Trim, LengthField, StatusLine;
  }

  lemma ContactIsOther(uri: string)
    requires PlainText(uri)
    ensures AllOf(Other, ["Contact: <" + uri + ">"]) && OneLine("Contact: <" + uri + ">")
  {
    var contact := "Contact: <" + uri + ">";
    assert "Contact" + ": <" == "Contact: <";
    assert contact[0] == 'C' && contact[1] == 'o';
    BracketedIsLengthless("Contact", uri);
    hide KindOf, Trim, LengthField;
    OtherByLetters(contact);
  }

  lemma LengthIsOther(n: nat)
    ensures AllOf(Other, [LengthLine(n)])
  {
    LengthLineIsTrimmed(n);
    assert LengthLine(n)[0] == 'C' && LengthLine(n)[1] == 'o';
    hide Trim, LengthLine;
    TrimIsTrimmed(LengthLine(n));
    OtherByLetters(LengthLine(n));
  }

  lemma ContentIsOther()
    ensures AllOf(Other, ["Content-Type: application/sdp"])
  {
    var line := "Content-Type: application/sdp";
    assert line[0] == 'C' && line[1] == 'o' && line[|line| - 1] == 'p';
    hide KindOf;
    OtherByLetters(line);
  }

  lemma OwnLinesAreOther(status: nat, reason: string, uri: string, body: string)
    requires SafeInputs(reason, [], "") && PlainText(uri)
    ensures AllOf(Other, [StatusLine(status, reason)]) && AllOf(Other, ContactPart(status, uri))
    ensures AllOf(Other, Trailer([], body)) && AllOf(Other, [LengthLine(|body|)])
  {
    StatusIsOther(status, reason);
    ContactIsOther(uri);
    LengthIsOther(|body|);
    ContentIsOther();
    hide KindOf, Trim, LengthLine, StatusLine, PlainText;
  }

  lemma FourParts(k: Kind, a: seq<string>, b: seq<string>, c: seq<string>, d: seq<string>)
    ensures OfKind(k, a + b + c + d) == OfKind(k, a) + OfKind(k, b) + OfKind(k, c) + OfKind(k, d)
  {
    OfKindOfConcat(k, a + b + c, d);
    OfKindOfConcat(k, a + b, c);
    OfKindOfConcat(k, a, b);
  }

  lemma NoneBlankFour(a: seq<string>, b: seq<string>, c: seq<string>, d: seq<string>)
    requires Trims(a) == a && Trims(b) == b && Trims(c) == c && Trims(d) == d
    requires NoneBlank(a) && NoneBlank(b) && NoneBlank(c) && NoneBlank(d)
    ensures Trims(a + b + c + d) == a + b + c + d && NoneBlank(a + b + c + d)
  {
    TrimsConcat(a, b);
    TrimsConcat(a + b, c);
    TrimsConcat(a + b + c, d);
    hide *;
  }

  lemma ForwardedInParts(invite: string, answer: string, status: nat, reason: string, uri: string, body: string)
    ensures var q := RequestHeaders(invite);
      var front := [StatusLine(status, reason)] + OfKind(Via, q) + First(OfKind(From, q))
                   + [AnswerTo(invite, answer, uri)];
      var back := First(OfKind(CallId, q)) + First(OfKind(CSeq, q)) + ContactPart(status, uri) + Trailer([], body);
      ForwardedLines(invite, answer, status, reason, uri, body) == front + back
  {
    hide RequestHeaders, AnswerTo, First, OfKind, Trailer;
  }

  lemma ForwardedHeaders(invite: string, answer: string, status: nat, reason: string, uri: string, body: string)
    requires IsAscii(invite) && IsAscii(answer) && SafeInputs(reason, [], "") && PlainText(uri)
    ensures RequestHeaders(ForwardedResponse(invite, answer, status, reason, uri, body))
         == ForwardedLines(invite, answer, status, reason, uri, body) + [LengthLine(|body|)]
  {
    var q, lines := RequestHeaders(invite), ForwardedLines(invite, answer, status, reason, uri, body);
    ForwardedLinesAreLengthless(invite, answer, status, reason, uri, body);
    LengthLineIsOneLine(|body|);
    assert AllOneLine(lines + [LengthLine(|body|)]);
    hide *;
    ForwardedInParts(invite, answer, status, reason, uri, body);
    PartsAreHeaders(invite, answer, status, reason, uri, body, Other);
    var front := [StatusLine(status, reason)] + OfKind(Via, q) + First(OfKind(From, q))
                 + [AnswerTo(invite, answer, uri)];
    var back := First(OfKind(CallId, q)) + First(OfKind(CSeq, q)) + ContactPart(status, uri) + Trailer([], body);
    NoneBlankFour([StatusLine(status, reason)], OfKind(Via, q), First(OfKind(From, q)),
                  [AnswerTo(invite, answer, uri)]);
    NoneBlankFour(First(OfKind(CallId, q)), First(OfKind(CSeq, q)), ContactPart(status, uri), Trailer([], body));
    TrimsConcat(front, back);
    TrimsConcat(front + back, [LengthLine(|body|)]);
    PrintedHeaders(lines + [LengthLine(|body|)], body);
    IsPrinted(invite, answer, status, reason, uri, body);
  }

  lemma IsPrinted(invite: string, answer: string, status: nat, reason: string, uri: string, body: string)
    ensures ForwardedResponse(invite, answer, status, reason, uri, body)
         == PrintMessage(ForwardedLines(invite, answer, status, reason, uri, body) + [LengthLine(|body|)], body)
  {
    hide ForwardedLines, PrintMessage, LengthLine;
  }

  /** Each part of a forwarded response is of one kind. */
  lemma PartsAreHeaders(
      invite: string, answer: string, status: nat, reason: string, uri: string, body: string, k: Kind)
    requires IsAscii(invite) && IsAscii(answer) && SafeInputs(reason, [], "") && PlainText(uri)
    ensures var q := RequestHeaders(invite);
      && IsPart(k, Other, [StatusLine(status, reason)]) && IsPart(k, Via, OfKind(Via, q))
      && IsPart(k, From, First(OfKind(From, q))) && IsPart(k, To, [AnswerTo(invite, answer, uri)])
      && IsPart(k, CallId, First(OfKind(CallId, q))) && IsPart(k, CSeq, First(OfKind(CSeq, q)))
      && IsPart(k, Other, ContactPart(status, uri)) && IsPart(k, Other, Trailer([], body))
      && IsPart(k, Other, [LengthLine(|body|)])
  {
    hide *;
    var q := RequestHeaders(invite);
    OwnLinesAreOther(status, reason, uri, body);
    CopiesAreOfKind(Via, invite);
    CopiesAreOfKind(From, invite);
    CopiesAreOfKind(CallId, invite);
    CopiesAreOfKind(CSeq, invite);
    AnswerToIs(invite, answer, uri);
    OfKindOfAll(k, Other, [StatusLine(status, reason)]);
    OfKindOfAll(k, Via, OfKind(Via, q));
    OfKindOfAll(k, From, First(OfKind(From, q)));
    OfKindOfAll(k, To, [AnswerTo(invite, answer, uri)]);
    OfKindOfAll(k, CallId, First(OfKind(CallId, q)));
    OfKindOfAll(k, CSeq, First(OfKind(CSeq, q)));
    OfKindOfAll(k, Other, ContactPart(status, uri));
    OfKindOfAll(k, Other, Trailer([], body));
    OfKindOfAll(k, Other, [LengthLine(|body|)]);
  }

  lemma NineParts(k: Kind, status: seq<string>, vias: seq<string>, from: seq<string>, to: seq<string>,
      callId: seq<string>, cseq: seq<string>, contact: seq<string>, content: seq<string>, length: seq<string>)
    requires IsPart(k, Other, status) && IsPart(k, Via, vias) && IsPart(k, From, from) && IsPart(k, To, to)
    requires IsPart(k, CallId, callId) && IsPart(k, CSeq, cseq)
    requires IsPart(k, Other, contact) && IsPart(k, Other, content) && IsPart(k, Other, length)
    ensures OfKind(k, status + vias + from + to + (callId + cseq + contact + content) + length) ==
      match k
      case Via => vias
      case From => from
      case To => to
      case CallId => callId
      case CSeq => cseq
      case Other => status + contact + content + length
  {
    hide OfKind, Trims, NoneBlank;
    var front, back := status + vias + from + to, callId + cseq + contact + content;
    OfKindOfConcat(k, front + back, length);
    OfKindOfConcat(k, front, back);
    FourParts(k, status, vias, from, to);
    FourParts(k, callId, cseq, contact, content);
  }

  lemma PartsOfKind(
      invite: string, answer: string, status: nat, reason: string, uri: string, body: string, k: Kind)
    requires IsAscii(invite) && IsAscii(answer) && SafeInputs(reason, [], "") && PlainText(uri)
    ensures var q, r := RequestHeaders(invite),
                        RequestHeaders(ForwardedResponse(invite, answer, status, reason, uri, body));
      OfKind(k, r) ==
        match k
        case Via => OfKind(Via, q)
        case From => First(OfKind(From, q))
        case To => [AnswerTo(invite, answer, uri)]
        case CallId => First(OfKind(CallId, q))
        case CSeq => First(OfKind(CSeq, q))
        case Other =>
          [StatusLine(status, reason)] + ContactPart(status, uri) + Trailer([], body) + [LengthLine(|body|)]
  {
    hide *;
    var q := RequestHeaders(invite);
    ForwardedHeaders(invite, answer, status, reason, uri, body);
    ForwardedInParts(invite, answer, status, reason, uri, body);
    PartsAreHeaders(invite, answer, status, reason, uri, body, k);
    NineParts(k, [StatusLine(status, reason)], OfKind(Via, q), First(OfKind(From, q)),
              [AnswerTo(invite, answer, uri)], First(OfKind(CallId, q)), First(OfKind(CSeq, q)),
              ContactPart(status, uri), Trailer([], body), [LengthLine(|body|)]);
  }

  lemma ForwardedStart(invite: string, answer: string, status: nat, reason: string, uri: string, body: string)
    requires IsAscii(invite) && IsAscii(answer) && SafeInputs(reason, [], "") && PlainText(uri)
    ensures var r := RequestHeaders(ForwardedResponse(invite, answer, status, reason, uri, body));
      r != [] && r[0] == StatusLine(status, reason)
  {
    ForwardedHeaders(invite, answer, status, reason, uri, body);
    ForwardedInParts(invite, answer, status, reason, uri, body);
    hide *;
  }

  /** A forwarded answer says exactly this: the status line; all Via headers of the INVITE; its first From, Call-ID and
      CSeq headers, as far as it has any; the first To header of the answer, or else of the INVITE, or else one made
      from the contact; the contact exactly for a success; and the length of the body. */
  lemma ForwardedEchoes(invite: string, answer: string, status: nat, reason: string, uri: string, body: string)
    requires IsAscii(invite) && IsAscii(answer) && SafeInputs(reason, [], "") && PlainText(uri)
    ensures var q, r := RequestHeaders(invite),
                        RequestHeaders(ForwardedResponse(invite, answer, status, reason, uri, body));
      && r != [] && r[0] == "SIP/2.0 " + Decimal(status) + " " + reason
      && OfKind(Via, r) == OfKind(Via, q)
      && FirstIfAny(From, invite, OfKind(From, r)) && FirstIfAny(CallId, invite, OfKind(CallId, r))
      && FirstIfAny(CSeq, invite, OfKind(CSeq, r))
      && |OfKind(To, r)| == 1
      && (if Carries(answer, To) then IsFirst(To, RequestHeaders(answer), OfKind(To, r)[0])
          else if Carries(invite, To) then IsFirst(To, q, OfKind(To, r)[0])
          else OfKind(To, r)[0] == "To: <" + uri + ">")
      && OfKind(Other, r) == [r[0]] + (if 200 <= status < 300 then ["Contact: <" + uri + ">"] else [])
                             + (if body == "" then [] else ["Content-Type: application/sdp"])
                             + ["Content-Length: " + Decimal(|body|)]
  {
    ForwardedStart(invite, answer, status, reason, uri, body);
    AnswerToIs(invite, answer, uri);
    FirstIsFirst(From, invite);
    FirstIsFirst(CallId, invite);
    FirstIsFirst(CSeq, invite);
    PartsOfKind(invite, answer, status, reason, uri, body, Via);
    PartsOfKind(invite, answer, status, reason, uri, body, From);
    PartsOfKind(invite, answer, status, reason, uri, body, To);
    PartsOfKind(invite, answer, status, reason, uri, body, CallId);
    PartsOfKind(invite, answer, status, reason, uri, body, CSeq);
    PartsOfKind(invite, answer, status, reason, uri, body, Other);
    OwnParts(status, reason, uri, body);
    hide *;
  }

  lemma OwnParts(status: nat, reason: string, uri: string, body: string)
    ensures StatusLine(status, reason) == "SIP/2.0 " + Decimal(status) + " " + reason
    ensures ContactPart(status, uri) == if 200 <= status < 300 then ["Contact: <" + uri + ">"] else []
    ensures Trailer([], body) == if body == "" then [] else ["Content-Type: application/sdp"]
    ensures LengthLine(|body|) == "Content-Length: " + Decimal(|body|)
  {
    EmptyConcat(if body == "" then [] else ["Content-Type: application/sdp"]);
  }
}
