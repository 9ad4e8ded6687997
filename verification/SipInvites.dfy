/** The INVITE sent on to the callee: exactly when it arrives as one message with the rewritten description. */
module SipInvites {
  import opened Seqs
  import opened SipText
  import opened Wrappers
  import opened Framing
  import opened SipPrinting
  import opened SipResponses
  import opened SipForwarding

  // ----- lengths among lines -----

  ghost predicate AllAgree(lines: seq<string>, n: nat) { forall i :: 0 <= i < |lines| ==> Agrees(lines[i], n) }

  predicate SomeLength(lines: seq<string>) { exists i :: 0 <= i < |lines| && LengthField(lines[i]).Some? }

  lemma LengthsOfConcat(a: seq<string>, b: seq<string>, n: nat)
    ensures AllAgree(a + b, n) <==> AllAgree(a, n) && AllAgree(b, n)
    ensures SomeLength(a + b) <==> SomeLength(a) || SomeLength(b)
    ensures AllSolid(a + b) <==> AllSolid(a) && AllSolid(b)
  {
    hide Agrees, LengthField, Solid;
    assert forall i :: 0 <= i < |a| ==> (a + b)[i] == a[i];
    assert forall i :: 0 <= i < |b| ==> (a + b)[|a| + i] == b[i];
  }

  lemma LengthsOfOne(line: string, n: nat)
    ensures AllAgree([line], n) <==> Agrees(line, n)
    ensures SomeLength([line]) <==> LengthField(line).Some?
    ensures AllSolid([line]) <==> Solid(line)
  {
    hide Agrees, LengthField, Solid;
    assert [line][0] == line;
  }

  /** Lines without a length say nothing. */
  lemma NoLengths(lines: seq<string>, n: nat)
    requires Lengthless(lines)
    ensures AllSolid(lines) && AllAgree(lines, n) && !SomeLength(lines)
  {
  }

  // ----- one header line on its way out -----

  lemma {:induction false} SplitIsPlain(s: string)
    requires PlainText(s)
    ensures forall i :: 0 <= i < |SplitCommas(s)| ==> PlainText(SplitCommas(s)[i])
  {
    if s != "" {
      var rest := SplitCommas(s[1..]);
      SplitIsPlain(s[1..]);
      PlainConcat([s[0]], rest[0]);
    }
  }

  lemma {:induction false} KeptTagsArePlain(parts: seq<string>)
    requires forall i :: 0 <= i < |parts| ==> PlainText(parts[i])
    ensures forall i :: 0 <= i < |KeptTags(parts)| ==> PlainText(KeptTags(parts)[i])
  {
    if parts != [] {
      TrimIsTrimmed(parts[0]);
      TrimIsAscii(parts[0]);
      KeptTagsArePlain(parts[1..]);
    }
  }

  lemma {:induction false} JoinTagsIsPlain(tags: seq<string>)
    requires forall i :: 0 <= i < |tags| ==> PlainText(tags[i])
    ensures PlainText(JoinTags(tags))
  {
    if |tags| > 1 {
      JoinTagsIsPlain(tags[1..]);
      PlainConcat(tags[0], ", ");
      PlainConcat(tags[0] + ", ", JoinTags(tags[1..]));
    }
  }

  /** A negotiation header starts with none of the letters of Content-Length and its compact form. */
  lemma NegotiationInitial(name: string)
    requires Lower(name) in {"session-expires", "x", "min-se", "supported", "k", "require", "proxy-require"}
    ensures name != "" && LowerChar(name[0]) in {'s', 'x', 'm', 'k', 'r', 'p'}
  {
    assert Lower(name)[0] == LowerChar(name[0]);
  }

  lemma TrimKeepsLength(line: string)
    requires OneLine(line) && IsAscii(line)
    ensures LengthField(Trim(line)) == LengthField(line) && (Trim(line) != "" ==> Solid(Trim(line)))
  {
    TrimIsTrimmed(line);
    TrimIsAscii(line);
    TrimOfTrimmed(Trim(line));
  }

  /** A trimmed line with a length is forwarded as it is. */
  lemma LengthIsForwarded(t: string)
    requires Trimmed(t) && LengthField(t).Some?
    ensures !IsRouting(t) && !IsContact(t) && KindOf(t) != From && StripNegotiation(t) == [t]
  {
    TrimOfTrimmed(t);
    var lower := Lower(t);
    assert lower[0] == LowerChar(t[0]) && lower[0] in {'c', 'l'};
    if lower[0] == 'c' {
      assert lower[4] == 'e';
      PrefixChar("contact:", lower, 4);
    }
    var name := Trim(t[..FindColon(t)]);
    if Lower(name) in {"session-expires", "x", "min-se", "supported", "k", "require", "proxy-require"} {
      NegotiationInitial(name);
      TrimIsTrimmed(t[..FindColon(t)]);
      assert false;
    }
  }

  /** And one without a length gets none. */
  lemma NegotiationIsLengthless(t: string)
    requires Solid(t) && Trimmed(t) && LengthField(t).None?
    ensures Lengthless(StripNegotiation(t))
  {
    hide LengthField;
    var colon := FindColon(t);
    if colon < |t| {
      var name, value := Trim(t[..colon]), t[colon + 1..];
      if Lower(name) in {"supported", "k", "require", "proxy-require"} {
        NegotiationInitial(name);
        TrimIsTrimmed(t[..colon]);
        TrimIsAscii(t[..colon]);
        SplitIsPlain(value);
        KeptTagsArePlain(SplitCommas(value));
        var tags := JoinTags(KeptTags(SplitCommas(value)));
        JoinTagsIsPlain(KeptTags(SplitCommas(value)));
        PlainConcat(name, ": ");
        PlainConcat(name + ": ", tags);
        var out := name + ": " + tags;
        assert out[0] == name[0];
        OtherInitialNoLength(out);
      }
    }
  }

  lemma ContactIsLengthless(uri: string)
    requires PlainText(uri)
    ensures Lengthless(["Contact: <" + uri + ">"])
  {
    BracketedIsLengthless("Contact", uri);
    assert "Contact" + ": <" == "Contact: <";
  }

  /** What a header line says about the length, its outbound form says too. */
  lemma OutboundLineKeepsLength(line: string, uri: string, n: nat)
    requires Solid(line) && Trim(line) != "" && PlainText(uri)
    ensures var out := OutboundLine(line, uri);
      AllSolid(out) && (AllAgree(out, n) <==> Agrees(line, n)) && (SomeLength(out) <==> LengthField(line).Some?)
  {
    hide LengthField, ParseUsize, KindOf, StripNegotiation, IsContact, IsRouting;
    var t, out := Trim(line), OutboundLine(line, uri);
    TrimIsTrimmed(line);
    TrimKeepsLength(line);
    if LengthField(line).Some? {
      LengthIsForwarded(t);
      assert out == [t];
      LengthsOfOne(t, n);
    } else {
      NegotiationIsLengthless(t);
      ContactIsLengthless(uri);
      assert Lengthless(out);
      NoLengths(out, n);
    }
  }

  // ----- all header lines on their way out -----

  /** The lines before the first one that is blank when trimmed. */
  function Upto(lines: seq<string>): (r: seq<string>)
    ensures |r| <= |lines| && r == lines[..|r|] && (|r| < |lines| ==> Trim(lines[|r|]) == "")
    ensures forall i :: 0 <= i < |r| ==> Trim(lines[i]) != ""
  {
    if lines == [] || Trim(lines[0]) == "" then [] else [lines[0]] + Upto(lines[1..])
  }

  lemma {:induction false} OutboundKeepsLengths(lines: seq<string>, uri: string, n: nat)
    requires AllSolid(lines) && PlainText(uri)
    ensures var out := OutboundLines(lines, uri);
      && AllSolid(out) && (AllAgree(out, n) <==> AllAgree(Upto(lines), n))
      && (SomeLength(out) <==> SomeLength(Upto(lines)))
  {
    hide Agrees, Solid, OutboundLine, LengthField, PlainText;
    if lines != [] && Trim(lines[0]) != "" {
      var line, rest := lines[0], lines[1..];
      OutboundLineKeepsLength(line, uri, n);
      OutboundKeepsLengths(rest, uri, n);
      LengthsOfConcat(OutboundLine(line, uri), OutboundLines(rest, uri), n);
      LengthsOfConcat([line], Upto(rest), n);
      LengthsOfOne(line, n);
    }
  }

  /** The outbound lines stop at a blank line. */
  lemma {:induction false} OutboundStopsAtBlank(lines: seq<string>, rest: seq<string>, uri: string)
    requires rest != [] && Trim(rest[0]) == ""
    ensures OutboundLines(lines + rest, uri) == OutboundLines(lines, uri)
    ensures SawContact(lines + rest) == SawContact(lines)
  {
    hide OutboundLine, IsRouting, IsContact;
    if lines == [] {
      EmptyConcat(rest);
    } else {
      TailOfConcat(lines, rest);
      OutboundStopsAtBlank(lines[1..], rest, uri);
    }
  }

  // ----- the outbound INVITE -----

  /** The server's own text in an outbound request. */
  predicate SafeHop(hop: Hop) { PlainText(hop.target) && PlainText(hop.via) && PlainText(hop.contact) }

  /** The request line of an INVITE: unindented, starting with the method in any case. */
  predicate IsInvite(line: string) {
    Solid(line) && !IsSpace(line[0]) && Words(line) != [] && Lower(Words(line)[0]) == "invite"
  }

  lemma {:induction false} WordsArePlain(s: string)
    requires PlainText(s)
    ensures forall i :: 0 <= i < |Words(s)| ==> PlainText(Words(s)[i])
    decreases |s|
  {
    if s != "" {
      if IsSpace(s[0]) {
        WordsArePlain(s[1..]);
      } else {
        WordsArePlain(s[WordLen(s)..]);
      }
    }
  }

  lemma InviteLineFacts(line: string, target: string)
    requires IsInvite(line) && PlainText(target)
    ensures line != "" && Trim(line) != "" && !NamesLength(line) && !("SIP/2.0" <= Words(line)[0]) && Lengthless([line])
    ensures var parts := Words(line); |parts| == 3 ==> Lengthless([parts[0] + " " + target + " " + parts[2]])
  {
    hide LengthField;
    var parts := Words(line);
    TrimIsTrimmed(line);
    assert Lower(parts[0])[0] == LowerChar(parts[0][0]) == 'i';
    assert parts[0] == line[..WordLen(line)] && line[0] == parts[0][0];
    assert Lower(line)[0] == 'i';
    OtherInitialNoLength(line);
    if |parts| == 3 {
      WordsArePlain(line);
      PlainConcat(parts[0], " ");
      PlainConcat(parts[0] + " ", target);
      PlainConcat(parts[0] + " " + target, " ");
      PlainConcat(parts[0] + " " + target + " ", parts[2]);
      var first := parts[0] + " " + target + " " + parts[2];
      assert first[0] == parts[0][0];
      OtherInitialNoLength(first);
    }
  }

  lemma ViaIsLengthless(via: string)
    requires PlainText(via)
    ensures Lengthless(["Via: " + via])
  {
    hide LengthField;
    var line := "Via: " + via;
    assert PlainText("Via: ");
    PlainConcat("Via: ", via);
    assert line[0] == 'V';
    OtherInitialNoLength(line);
  }

  /** The lines of the outbound INVITE. */
  function InviteLines(lines: seq<string>, hop: Hop): seq<string>
    requires lines != [] && |Words(lines[0])| == 3
  {
    var parts := Words(lines[0]);
    [parts[0] + " " + hop.target + " " + parts[2], "Via: " + hop.via] + OutboundLines(lines[1..], hop.contact)
    + (if hop.contact != "" && !SawContact(lines[1..]) then ["Contact: <" + hop.contact + ">"] else [])
  }

  lemma InviteKeepsLengths(lines: seq<string>, hop: Hop, n: nat)
    requires lines != [] && AllSolid(lines) && IsInvite(lines[0]) && |Words(lines[0])| == 3 && SafeHop(hop)
    ensures var out := InviteLines(lines, hop);
      && out != [] && AllSolid(out) && (AllAgree(out, n) <==> AllAgree(Upto(lines), n))
      && (SomeLength(out) <==> SomeLength(Upto(lines)))
  {
    hide Agrees, LengthField, Solid, OutboundLines, SawContact, Words, PlainText, IsInvite;
    var parts := Words(lines[0]);
    var first, via := parts[0] + " " + hop.target + " " + parts[2], "Via: " + hop.via;
    var kept := OutboundLines(lines[1..], hop.contact);
    var last := if hop.contact != "" && !SawContact(lines[1..]) then ["Contact: <" + hop.contact + ">"] else [];
    InviteLineFacts(lines[0], hop.target);
    ViaIsLengthless(hop.via);
    ContactIsLengthless(hop.contact);
    LengthlessConcat([first], [via]);
    assert [first] + [via] == [first, via];
    NoLengths([first, via], n);
    NoLengths([lines[0]], n);
    NoLengths([], n);
    if last != [] { NoLengths(last, n); }
    OutboundKeepsLengths(lines[1..], hop.contact, n);
    LengthsOfConcat([first, via], kept, n);
    LengthsOfConcat([first, via] + kept, last, n);
    LengthsOfConcat([lines[0]], Upto(lines[1..]), n);
  }

  /** The header lines that decide the length of the outbound INVITE: with a request line of three words those before
      the first blank-looking one, and otherwise, as it is sent on unchanged, all. */
  function Deciding(lines: seq<string>): seq<string>
    requires lines != []
  {
    if |Words(lines[0])| == 3 then Upto(lines) else lines
  }

  lemma OutboundOfPrinted(lines: seq<string>, body: string, hop: Hop)
    requires lines != [] && AllSolid(lines) && IsInvite(lines[0])
    ensures Outbound(PrintMessage(lines, body), hop)
         == PrintMessage(if |Words(lines[0])| == 3 then InviteLines(lines, hop) else lines, body)
  {
    hide OutboundLines, SawContact, Words, ExtractBody, Print;
    var text, after := PrintMessage(lines, body), Lines(CRLF + body);
    BodyReadsBack(lines, body);
    LinesOfPrint(lines, CRLF + body);
    assert after != [] && Trim(after[0]) == "" by {
      LinesOfLine("", body);
      EmptyConcat(CRLF + body);
      assert Trim("") == "";
    }
    TailOfConcat(lines, after);
    OutboundStopsAtBlank(lines[1..], after, hop.contact);
    InviteLineFacts(lines[0], "");
  }

  /** Printed header lines and a body arrive as that body, and as one whole message if and only if the deciding lines
      declare its length. */
  lemma OutboundFramesExactly(lines: seq<string>, body: string, hop: Hop)
    requires lines != [] && AllSolid(lines) && IsInvite(lines[0]) && SafeHop(hop)
    requires |Outbound(PrintMessage(lines, body), hop)| < USIZE_MOD
    ensures var out := Outbound(PrintMessage(lines, body), hop);
      && ExtractBody(out) == (if body == "" then None else Some(body))
      && (Frame(out) == Complete(|out|) <==> Declares(Deciding(lines), |body|))
  {
    hide Agrees, LengthField, Words, ExtractBody, Print, Frame, Outbound, InviteLines, Declares, AllAgree, SomeLength;
    var sent := if |Words(lines[0])| == 3 then InviteLines(lines, hop) else lines;
    OutboundOfPrinted(lines, body, hop);
    if |Words(lines[0])| == 3 {
      InviteKeepsLengths(lines, hop, |body|);
    }
    BodyReadsBack(sent, body);
    FramesExactly(sent, body);
    DeclaresByLengths(sent, |body|);
    DeclaresByLengths(Deciding(lines), |body|);
  }

  lemma DeclaresByLengths(lines: seq<string>, n: nat)
    ensures Declares(lines, n) <==> AllAgree(lines, n) && (n == 0 || SomeLength(lines))
  {
    DeclaresExactly(lines, n);
  }

  // ----- the rebuilt INVITE -----

  /** The header lines of the request, up to its first blank line. */
  function HeaderOf(request: string): seq<string> { Lines(HeaderText0(request)) }

  /** What the header lines need for the INVITE to arrive whole: none is empty; of those that decide the length none
      carries another one out of sight of the test that replaces lengths, and one carries a length, which the line
      added at the end does unless a blank-looking line comes before it. */
  predicate Intact(header: seq<string>, n: nat)
    requires header != []
  {
    var deciding := Deciding(header);
    && "" !in header
    && NoneHides(deciding, n)
    && (n == 0 || deciding == header || OneCarries(deciding))
  }

  /** Every line is one that is replaced, or agrees. */
  predicate NoneHides(lines: seq<string>, n: nat) {
    forall i :: 0 <= i < |lines| ==> NamesLength(lines[i]) || Agrees(lines[i], n)
  }

  predicate OneCarries(lines: seq<string>) {
    exists i :: 0 <= i < |lines| && (NamesLength(lines[i]) || LengthField(lines[i]).Some?)
  }

  lemma HeaderIsAscii(request: string)
    requires IsAscii(HeaderText0(request))
    ensures forall i :: 0 <= i < |HeaderOf(request)| ==>
      OneLine(HeaderOf(request)[i]) && IsAscii(HeaderOf(request)[i])
  {
    LinesAreAscii(HeaderText0(request));
  }

  /** A line that is replaced, or kept. */
  lemma ReplacedLine(line: string, n: nat)
    requires OneLine(line) && IsAscii(line) && n < USIZE_MOD
    ensures var r := if NamesLength(line) then LengthLine(n) else line;
      && (r == "" <==> line == "") && (line != "" ==> Solid(r)) && (Trim(r) == "" <==> Trim(line) == "")
      && (Agrees(r, n) <==> NamesLength(line) || Agrees(line, n))
      && (LengthField(r).Some? <==> NamesLength(line) || LengthField(line).Some?)
  {
    LengthLineFacts(n);
    LengthLineInParts(n);
    TrimOfTrimmed(LengthLine(n));
    if NamesLength(line) {
      assert line != "" && !IsSpace(line[0]) by { assert Lower(line)[0] == LowerChar(line[0]); }
      TrimIsTrimmed(line);
    }
    hide LengthLine, Agrees, LengthField, NamesLength;
  }

  /** The rebuilt lines are the replaced ones, and then lines without blanks. */
  lemma RebuiltParts(request: string, n: nat) returns (added: seq<string>)
    requires n < USIZE_MOD
    ensures var replaced := ReplaceLength(HeaderOf(request), n);
      && RebuiltLines(request, n) == replaced + added && AllSolid(added) && AllAgree(added, n)
      && (forall i :: 0 <= i < |added| ==> Trim(added[i]) != "")
      && LengthLine(n) in replaced + added
  {
    hide LengthLine, Agrees, NamesLength, SomeStarts, Solid, Trim, Lines, LengthField;
    var replaced := ReplaceLength(HeaderOf(request), n);
    var typed := if SomeStarts(replaced, "content-type:") then [] else ["Content-Type: application/sdp"];
    added := typed + if SomeStarts(replaced + typed, "content-length:") then [] else [LengthLine(n)];
    Assoc(replaced, typed, if SomeStarts(replaced + typed, "content-length:") then [] else [LengthLine(n)]);
    AddedLines(n);
    LengthIsPresent(HeaderOf(request), n);
  }

  lemma AddedLines(n: nat)
    requires n < USIZE_MOD
    ensures var l, t := LengthLine(n), "Content-Type: application/sdp";
      && Solid(l) && Agrees(l, n) && Trim(l) != "" && Solid(t) && Agrees(t, n) && Trim(t) != ""
  {
    LengthLineFacts(n);
    LengthLineInParts(n);
    TrimOfTrimmed(LengthLine(n));
    ContentTypeFacts();
    TrimIsTrimmed("Content-Type: application/sdp");
    hide LengthLine;
  }

  lemma ContentTypeNamesNoLength()
    ensures !("content-length:" <= Lower("Content-Type: application/sdp"))
  {
    var lower := Lower("Content-Type: application/sdp");
    assert lower[8] == 't';
    PrefixChar("content-length:", lower, 8);
  }

  /** The rebuilt header always holds the new length line. */
  lemma LengthIsPresent(original: seq<string>, n: nat)
    ensures var replaced := ReplaceLength(original, n);
            var typed := replaced + if SomeStarts(replaced, "content-type:") then []
                else ["Content-Type: application/sdp"];
      SomeStarts(typed, "content-length:") ==> LengthLine(n) in typed
  {
    hide LengthLine;
    var replaced := ReplaceLength(original, n);
    var typed := replaced + if SomeStarts(replaced, "content-type:") then [] else ["Content-Type: application/sdp"];
    ContentTypeNamesNoLength();
    if i :| 0 <= i < |typed| && "content-length:" <= Lower(typed[i]) {
      assert i < |replaced| && typed[i] == replaced[i];
      assert typed[i] in typed;
    }
  }

  /** Where lines first look blank. */
  lemma UptoIs(lines: seq<string>, k: nat)
    requires k <= |lines| && (forall i :: 0 <= i < k ==> Trim(lines[i]) != "")
    requires k < |lines| ==> Trim(lines[k]) == ""
    ensures Upto(lines) == lines[..k]
  {
    hide Trim;
    var r := Upto(lines);
  }

  /** The deciding lines after replacing: all, or the replaced ones of those before. */
  lemma DecidingReplaced(header: seq<string>, replaced: seq<string>, added: seq<string>, n: nat)
    requires header != [] && IsInvite(header[0]) && replaced == ReplaceLength(header, n) && n < USIZE_MOD
    requires forall i :: 0 <= i < |header| ==> OneLine(header[i]) && IsAscii(header[i])
    requires forall i :: 0 <= i < |added| ==> Trim(added[i]) != ""
    ensures replaced[0] == header[0]
    ensures Deciding(replaced + added)
         == if Deciding(header) == header then replaced + added else replaced[..|Deciding(header)|]
  {
    hide Trim, Words, LengthLine, NamesLength, Lines;
    forall i | 0 <= i < |header| ensures Trim(replaced[i]) == "" <==> Trim(header[i]) == "" {
      ReplacedLine(header[i], n);
    }
    InviteLineFacts(header[0], "");
    var k, lines := |Upto(header)|, replaced + added;
    if k == |header| {
      UptoIs(lines, |lines|);
    } else {
      UptoIs(lines, k);
      assert lines[..k] == replaced[..k];
    }
  }

  lemma IntactDeclares(header: seq<string>, added: seq<string>, n: nat)
    requires header != [] && IsInvite(header[0]) && n < USIZE_MOD && "" !in header
    requires forall i :: 0 <= i < |header| ==> OneLine(header[i]) && IsAscii(header[i])
    requires AllAgree(added, n) && (forall i :: 0 <= i < |added| ==> Trim(added[i]) != "")
    requires LengthLine(n) in ReplaceLength(header, n) + added
    ensures Declares(Deciding(ReplaceLength(header, n) + added), n) <==> Intact(header, n)
  {
    hide Trim, Words, LengthLine, Lines, Agrees, LengthField, Declares, IsInvite, AllAgree, SomeLength, NoneHides,
        OneCarries, ReplaceLength;
    var replaced, d := ReplaceLength(header, n), Deciding(header);
    DecidingReplaced(header, replaced, added, n);
    DecidingIsPrefix(header);
    DeclaresByLengths(Deciding(replaced + added), n);
    ReplacedLengths(header, |d|, n);
    hide Deciding;
    if d == header {
      LengthsOfConcat(replaced, added, n);
      LengthIsThere(replaced + added, n);
      assert replaced[..|d|] == replaced;
    }
  }

  lemma DecidingIsPrefix(header: seq<string>)
    requires header != []
    ensures |Deciding(header)| <= |header| && Deciding(header) == header[..|Deciding(header)|]
  {
    hide Words, Trim;
  }

  lemma LengthIsThere(lines: seq<string>, n: nat)
    requires LengthLine(n) in lines && n < USIZE_MOD
    ensures SomeLength(lines)
  {
    LengthLineFacts(n);
    hide LengthLine, LengthField;
  }

  lemma ReplacedLengths(header: seq<string>, k: nat, n: nat)
    requires k <= |header| && n < USIZE_MOD
    requires forall i :: 0 <= i < |header| ==> OneLine(header[i]) && IsAscii(header[i])
    ensures AllAgree(ReplaceLength(header, n)[..k], n) <==> NoneHides(header[..k], n)
    ensures SomeLength(ReplaceLength(header, n)[..k]) <==> OneCarries(header[..k])
  {
    hide LengthLine, NamesLength, Agrees, LengthField, Trim, Solid;
    var replaced := ReplaceLength(header, n);
    forall i | 0 <= i < k
      ensures replaced[..k][i] == replaced[i] && header[..k][i] == header[i]
      ensures Agrees(replaced[i], n) <==> NamesLength(header[i]) || Agrees(header[i], n)
      ensures LengthField(replaced[i]).Some? <==> NamesLength(header[i]) || LengthField(header[i]).Some?
    {
      ReplacedLine(header[i], n);
    }
  }

  lemma ReplacedIsSolid(header: seq<string>, n: nat)
    requires n < USIZE_MOD && forall i :: 0 <= i < |header| ==> OneLine(header[i]) && IsAscii(header[i])
    ensures var replaced := ReplaceLength(header, n);
      forall i :: 0 <= i < |header| ==>
        if header[i] == "" then replaced[i] == "" else Solid(replaced[i])
  {
    hide LengthLine, Agrees, NamesLength, LengthField, Trim, Solid;
    forall i | 0 <= i < |header|
      ensures var r := ReplaceLength(header, n)[i]; if header[i] == "" then r == "" else Solid(r)
    {
      ReplacedLine(header[i], n);
    }
  }

  // ----- the forwarded INVITE -----

  /** With an empty header line, what follows it arrives as the body. */
  lemma EmptyLineCutsBody(lines: seq<string>, sdp: string, hop: Hop, k: nat)
    requires k < |lines| && lines[k] == "" && 0 < k && AllSolid(lines[..k]) && IsInvite(lines[0]) && SafeHop(hop)
    requires |Outbound(PrintMessage(lines, sdp), hop)| < USIZE_MOD
    ensures ExtractBody(Outbound(PrintMessage(lines, sdp), hop)) != if sdp == "" then None else Some(sdp)
  {
    hide Words, ExtractBody, Print, Frame, Outbound, IsInvite, Deciding, Declares;
    var before, after := lines[..k], lines[k + 1..];
    assert lines == before + [""] + after;
    EmptyLineEndsHeader(before, after, sdp);
    OutboundFramesExactly(before, PrintMessage(after, sdp), hop);
    assert |PrintMessage(after, sdp)| > |sdp|;
  }

  lemma EmptyIsNotIntact(header: seq<string>, n: nat)
    requires header != [] && "" in header
    ensures !Intact(header, n)
  {
    hide Deciding;
  }

  lemma FirstEmpty(lines: seq<string>) returns (k: nat)
    requires "" in lines
    ensures k < |lines| && lines[k] == "" && forall i :: 0 <= i < k ==> lines[i] != ""
  {
    k := 0;
    while lines[k] != ""
      decreases |lines| - k
      invariant k < |lines| && "" in lines[k..] && forall i :: 0 <= i < k ==> lines[i] != ""
    {
      assert lines[k..] == [lines[k]] + lines[k + 1..];
      k := k + 1;
    }
  }

  /** The INVITE as it is sent on. */
  function Forwarded(request: string, sdp: string, hop: Hop): string { Outbound(Rebuilt(request, sdp), hop) }

  /** A forwarded INVITE arrives as one message whose body is the rewritten description if and only if the header lines
      of the request are intact. */
  lemma ForwardedInviteExactly(request: string, sdp: string, hop: Hop)
    requires IsAscii(HeaderText0(request)) && HeaderOf(request) != [] && IsInvite(HeaderOf(request)[0]) && SafeHop(hop)
    requires |Rebuilt(request, sdp)| < USIZE_MOD && |Forwarded(request, sdp, hop)| < USIZE_MOD
    ensures var out := Forwarded(request, sdp, hop);
      Frame(out) == Complete(|out|) && ExtractBody(out) == (if sdp == "" then None else Some(sdp))
      <==> Intact(HeaderOf(request), |sdp|)
  {
    var header, n := HeaderOf(request), |sdp|;
    assert Forwarded(request, sdp, hop) == Outbound(PrintMessage(RebuiltLines(request, n), sdp), hop);
    assert n < USIZE_MOD;
    hide *;
    var added := RebuiltParts(request, n);
    HeaderIsAscii(request);
    LinesArriveExactly(header, added, sdp, hop);
  }

  lemma LinesArriveExactly(header: seq<string>, added: seq<string>, sdp: string, hop: Hop)
    requires header != [] && IsInvite(header[0]) && SafeHop(hop)
    requires forall i :: 0 <= i < |header| ==> OneLine(header[i]) && IsAscii(header[i])
    requires AllSolid(added) && AllAgree(added, |sdp|) && forall i :: 0 <= i < |added| ==> Trim(added[i]) != ""
    requires LengthLine(|sdp|) in ReplaceLength(header, |sdp|) + added && |sdp| < USIZE_MOD
    requires |Outbound(PrintMessage(ReplaceLength(header, |sdp|) + added, sdp), hop)| < USIZE_MOD
    ensures var out := Outbound(PrintMessage(ReplaceLength(header, |sdp|) + added, sdp), hop);
      Frame(out) == Complete(|out|) && ExtractBody(out) == (if sdp == "" then None else Some(sdp))
      <==> Intact(header, |sdp|)
  {
    hide LengthLine, Words, ExtractBody, Frame, Outbound, Intact, Declares, IsInvite, Trim, Solid, AllAgree,
        PrintMessage, SafeHop, Deciding, ReplaceLength;
    var n, replaced := |sdp|, ReplaceLength(header, |sdp|);
    InviteLineFacts(header[0], "");
    ReplacedIsSolid(header, n);
    DecidingReplaced(header, replaced, added, n);
    if "" in header {
      var k := FirstEmpty(header);
      assert (replaced + added)[..k] == replaced[..k];
      EmptyLineCutsBody(replaced + added, sdp, hop, k);
      EmptyIsNotIntact(header, n);
    } else {
      assert AllSolid(replaced + added);
      OutboundFramesExactly(replaced + added, sdp, hop);
      IntactDeclares(header, added, n);
    }
  }

  lemma LowerPrefix(a: string, b: string, p: string)
    requires a <= b && p <= Lower(a)
    ensures p <= Lower(b)
  {
    assert Lower(a) == Lower(b)[..|a|];
  }

  /** An unindented line carries a length only if the untrimmed test finds it. */
  lemma LengthIsNamed(line: string)
    requires line != "" && !IsSpace(line[0])
    ensures LengthField(line).Some? ==> NamesLength(line)
    ensures Trim(line) != ""
  {
    TrimEndOfSolid(line);
    if "content-length:" <= Lower(Trim(line)) {
      LowerPrefix(Trim(line), line, "content-length:");
    } else if "l:" <= Lower(Trim(line)) {
      LowerPrefix(Trim(line), line, "l:");
    }
  }

  lemma PlainIsIntact(header: seq<string>, n: nat)
    requires header != [] && forall line :: line in header ==> line != "" && !IsSpace(line[0])
    ensures Intact(header, n)
  {
    hide NamesLength, LengthField, ParseUsize, Trim, Words;
    forall i | 0 <= i < |header| ensures Trim(header[i]) != "" && (NamesLength(header[i]) || Agrees(header[i], n)) {
      assert header[i] in header;
      LengthIsNamed(header[i]);
    }
    UptoIs(header, |header|);
  }

  /** In particular when no header line is empty or indented, whatever lengths it carries. */
  lemma ForwardedInviteFrames(request: string, sdp: string, hop: Hop)
    requires IsAscii(HeaderText0(request)) && HeaderOf(request) != [] && IsInvite(HeaderOf(request)[0]) && SafeHop(hop)
    requires forall line :: line in HeaderOf(request) ==> line != "" && !IsSpace(line[0])
    requires |Rebuilt(request, sdp)| < USIZE_MOD && |Forwarded(request, sdp, hop)| < USIZE_MOD
    ensures var out := Forwarded(request, sdp, hop);
      Frame(out) == Complete(|out|) && ExtractBody(out) == if sdp == "" then None else Some(sdp)
  {
    hide *;
    ForwardedInviteExactly(request, sdp, hop);
    PlainIsIntact(HeaderOf(request), |sdp|);
  }

  /** But not when an indented line that decides carries another length, which the replacing overlooks. */
  lemma IndentedLengthBreaks(request: string, sdp: string, hop: Hop, i: nat, n: nat)
    requires IsAscii(HeaderText0(request)) && HeaderOf(request) != [] && IsInvite(HeaderOf(request)[0]) && SafeHop(hop)
    requires |Rebuilt(request, sdp)| < USIZE_MOD && |Forwarded(request, sdp, hop)| < USIZE_MOD
    requires i < |Deciding(HeaderOf(request))| && Deciding(HeaderOf(request))[i] == " " + LengthLine(n)
    requires n != |sdp| && n < USIZE_MOD
    ensures var out := Forwarded(request, sdp, hop);
      !(Frame(out) == Complete(|out|) && ExtractBody(out) == if sdp == "" then None else Some(sdp))
  {
    ForwardedInviteExactly(request, sdp, hop);
    hide HeaderOf, Forwarded, Rebuilt, Deciding, Words;
    IndentedLength(n, |sdp|);
  }

  lemma IndentedLength(n: nat, m: nat)
    requires n < USIZE_MOD && n != m
    ensures var line := " " + LengthLine(n); !NamesLength(line) && !Agrees(line, m)
  {
    var line := " " + LengthLine(n);
    assert Lower(line)[0] == ' ';
    LengthLineFacts(n);
    LengthLineInParts(n);
    TrimOfSpaced(LengthLine(n));
    TrimOfTrimmed(LengthLine(n));
    hide LengthLine, Trim, Lower, ParseUsize;
  }
}
