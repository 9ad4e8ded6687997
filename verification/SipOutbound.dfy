/** What the server makes of a request that it sends on, header by header: which are dropped, which replaced, which
    option tags go, and that all others stay. */
module SipOutbound {
  import opened Seqs
  import opened SipText
  import opened Wrappers
  import opened Framing
  import opened SipPrinting
  import opened SipResponses
  import opened SipForwarding
  import opened SipReading
  import opened SipEchoes
  import SipInvites

  // ----- header lines by name -----

  /** The name of a header line, as far as white space around it matters not. */
  function NameOf(line: string): string { Trim(line[..FindColon(line)]) }

  datatype Class = Routing | ContactLine | Negotiation | Kept

  predicate RoutingName(name: string) { name in {"via", "v", "route", "record-route"} }

  predicate ContactName(name: string) { name in {"contact", "m"} }

  predicate TimerName(name: string) { name in {"session-expires", "x", "min-se"} }

  predicate TagsName(name: string) { name in {"supported", "k", "require", "proxy-require"} }

  /** What happens to a header line is decided by its name, in any case: what stands before its first colon. */
  function ClassOf(line: string): Class {
    var colon := FindColon(line);
    if colon == |line| then Kept
    else if RoutingName(Lower(line[..colon])) then Routing
    else if ContactName(Lower(line[..colon])) then ContactLine
    else if TimerName(Lower(NameOf(line))) || TagsName(Lower(NameOf(line))) then Negotiation
    else Kept
  }

  lemma NamesApart(name: string)
    requires TimerName(name) || TagsName(name)
    ensures name != "" && !RoutingName(name) && !ContactName(name)
  {
  }

  lemma {:induction false} ColonIsFirst(line: string)
    ensures ':' !in line[..FindColon(line)]
  {
    if line != "" && line[0] != ':' {
      ColonIsFirst(line[1..]);
      assert line[..FindColon(line)] == [line[0]] + line[1..][..FindColon(line) - 1];
    }
  }

  lemma NoColonNoName(line: string, p: string)
    requires FindColon(line) == |line|
    ensures !(p + ":" <= Lower(line))
  {
    var lower := Lower(line);
    assert p + ":" <= lower ==> |p| < |lower| && lower[|p|] == (p + ":")[|p|] == ':';
    ColonIsFirst(line);
    assert line[..|line|] == line;
    forall i | 0 <= i < |lower| ensures lower[i] != ':' { assert line[i] in line; }
  }

  /** A test for a name with its colon. */
  lemma NameTest(line: string, p: string)
    requires ':' !in p
    ensures p + ":" <= Lower(line) <==> FindColon(line) < |line| && Lower(line[..FindColon(line)]) == p
  {
    hide *;
    var colon := FindColon(line);
    if colon == |line| {
      NoColonNoName(line, p);
    } else {
      ColonIsFirst(line);
      AtColon(line, colon);
      PrefixByName(line[..colon], line[colon + 1..], p);
    }
  }

  lemma AtColon(line: string, colon: nat)
    requires colon < |line| && line[colon] == ':'
    ensures line == Field(line[..colon], line[colon + 1..])
  {
  }

  lemma TestsByName(line: string)
    ensures ClassOf(line) == Routing <==> IsRouting(line)
    ensures ClassOf(line) == ContactLine <==> !IsRouting(line) && IsContact(line)
  {
    hide Lower, FindColon, Trim;
    NameTest(line, "via");
    NameTest(line, "v");
    NameTest(line, "route");
    NameTest(line, "record-route");
    NameTest(line, "contact");
    NameTest(line, "m");
    assert "via" + ":" == "via:" && "v" + ":" == "v:" && "route" + ":" == "route:";
    assert "record-route" + ":" == "record-route:" && "contact" + ":" == "contact:" && "m" + ":" == "m:";
    ViaOnly(line);
  }

  lemma ViaOnly(line: string)
    ensures KindOf(line) == Via <==> "via:" <= Lower(line) || "v:" <= Lower(line)
  {
  }

  // ----- option tags -----

  /** Splitting at commas. */
  lemma {:induction false} SplitCommasExactly(a: string, b: string)
    requires ',' !in a
    ensures SplitCommas(a) == [a] && SplitCommas(a + "," + b) == [a] + SplitCommas(b)
  {
    if a == "" {
      assert a + "," + b == "," + b && ("," + b)[1..] == b;
    } else {
      assert a == [a[0]] + a[1..] && a + "," + b == [a[0]] + (a[1..] + "," + b);
      SplitCommasExactly(a[1..], b);
    }
  }

  /** A tag that the server does not pass on: nothing, session timers, or reliable provisional responses. */
  predicate Dropped(part: string) { Lower(Trim(part)) == "" || Lower(Trim(part)) in {"timer", "100rel"} }

  /** All other option tags are kept, trimmed, in order. */
  lemma {:induction false} KeptTagsExactly(parts: seq<string>, part: string)
    ensures KeptTags([]) == []
    ensures KeptTags(parts + [part]) == KeptTags(parts) + if Dropped(part) then [] else [Trim(part)]
  {
    hide Trim, Lower;
    if parts == [] {
      assert [] + [part] == [part] && [part][1..] == [];
    } else {
      assert (parts + [part])[1..] == parts[1..] + [part];
      KeptTagsExactly(parts[1..], part);
    }
  }

  predicate IsTag(tag: string) { tag != "" && Trimmed(tag) && ',' !in tag && !Dropped(tag) }

  lemma {:induction false} SplitHasNoComma(s: string)
    ensures forall i :: 0 <= i < |SplitCommas(s)| ==> ',' !in SplitCommas(s)[i]
  {
    if s != "" {
      SplitHasNoComma(s[1..]);
    }
  }

  lemma TrimIsPart(s: string, c: char)
    requires c !in s
    ensures c !in Trim(s)
  {
    var before, after := TrimmedExactly(s);
    forall i | 0 <= i < |Trim(s)| ensures Trim(s)[i] != c {
      assert s[|before| + i] == Trim(s)[i] && s[|before| + i] in s;
    }
  }

  lemma {:induction false} KeptAreTags(parts: seq<string>)
    requires forall i :: 0 <= i < |parts| ==> ',' !in parts[i]
    ensures forall i :: 0 <= i < |KeptTags(parts)| ==> IsTag(KeptTags(parts)[i])
  {
    if parts != [] {
      KeptAreTags(parts[1..]);
      TrimIsPart(parts[0], ',');
      TrimIsTrimmed(parts[0]);
      TrimOfTrimmed(Trim(parts[0]));
      hide Trim, Lower;
    }
  }

  lemma SpacedTrim(space: string, s: string)
    requires space in {"", " "} && Trimmed(s)
    ensures Trim(space + s) == s
  {
    TrimOfTrimmed(s);
    if space == " " {
      assert (" " + s)[1..] == s;
    } else {
      assert space + s == s;
    }
  }

  // ----- what becomes of a header line -----

  /** The lines of one class, in order. */
  function Among(class': Class, lines: seq<string>): seq<string> {
    if lines == [] then []
    else (if ClassOf(lines[0]) == class' then [lines[0]] else []) + Among(class', lines[1..])
  }

  lemma {:induction false} AmongConcat(class': Class, a: seq<string>, b: seq<string>)
    ensures Among(class', a + b) == Among(class', a) + Among(class', b)
  {
    hide ClassOf;
    if a == [] {
      EmptyConcat(b);
      EmptyConcat(Among(class', b));
    } else {
      TailOfConcat(a, b);
      AmongConcat(class', a[1..], b);
      Assoc(if ClassOf(a[0]) == class' then [a[0]] else [], Among(class', a[1..]), Among(class', b));
    }
  }

  /** The option tags of a line that lists them. */
  function TagsOf(line: string): seq<string> {
    if FindColon(line) == |line| then [] else SplitCommas(line[FindColon(line) + 1..])
  }

  /** A line with option tags stays, under its name, with those tags that are not dropped, if there are any; the
      headers of session timers go altogether. */
  ghost predicate Renegotiated(line: string, after: seq<string>) {
    var tags := KeptTags(TagsOf(line));
    if TimerName(Lower(NameOf(line))) || tags == [] then after == []
    else
      && |after| == 1 && NameOf(after[0]) == NameOf(line)
      && ClassOf(after[0]) == Negotiation && Trims(TagsOf(after[0])) == tags
  }

  lemma FirstTag(space: string, tag: string)
    requires space in {"", " "} && IsTag(tag)
    ensures Trim(space + tag) == tag && ',' !in space + tag
  {
    SpacedTrim(space, tag);
  }

  lemma SplitFirst(space: string, tag: string, rest: string)
    requires space in {"", " "} && IsTag(tag)
    ensures Trims(SplitCommas(space + tag)) == [tag]
    ensures Trims(SplitCommas(space + tag + "," + rest)) == [tag] + Trims(SplitCommas(rest))
  {
    FirstTag(space, tag);
    SplitCommasExactly(space + tag, rest);
    hide Trim, SplitCommas, IsTag;
    TrimsConcat([space + tag], SplitCommas(rest));
  }

  /** Tags written out with commas between them read back as themselves. */
  lemma {:induction false} TagsReadTrimmed(space: string, tags: seq<string>)
    requires space in {"", " "} && tags != [] && forall i :: 0 <= i < |tags| ==> IsTag(tags[i])
    ensures Trims(SplitCommas(space + JoinTags(tags))) == tags
    decreases tags
  {
    hide Trim, Lower, IsTag, SplitCommas, Trims;
    if |tags| == 1 {
      SplitFirst(space, tags[0], "");
    } else {
      var rest := " " + JoinTags(tags[1..]);
      assert space + JoinTags(tags) == space + tags[0] + "," + rest;
      SplitFirst(space, tags[0], rest);
      TagsReadTrimmed(" ", tags[1..]);
    }
  }

  lemma {:induction false} JoinedEnds(tags: seq<string>)
    requires tags != [] && forall i :: 0 <= i < |tags| ==> IsTag(tags[i])
    ensures var s := JoinTags(tags); s != "" && !IsSpace(s[|s| - 1])
  {
    assert IsTag(tags[0]);
    hide Lower, Trim;
    if |tags| > 1 {
      JoinedEnds(tags[1..]);
      var s, t := JoinTags(tags), JoinTags(tags[1..]);
      assert s[|s| - 1] == t[|t| - 1];
    }
  }

  lemma {:induction false} FirstColonAt(name: string, value: string)
    requires ':' !in name
    ensures FindColon(name + ":" + value) == |name|
  {
    var s := name + ":" + value;
    if name != "" {
      assert s[0] == name[0] && s[1..] == name[1..] + ":" + value;
      FirstColonAt(name[1..], value);
    }
  }

  /** A line written from a name and a value. */
  lemma WrittenLine(name: string, value: string)
    requires ':' !in name && Trimmed(name) && name != "" && value != "" && !IsSpace(value[|value| - 1])
    ensures var line := name + ": " + value;
      && Trim(line) == line != "" && FindColon(line) == |name| < |line| && line[..|name|] == name
      && NameOf(line) == name && line[|name| + 1..] == " " + value
  {
    var line := name + ": " + value;
    assert line[0] == name[0] && line[|line| - 1] == value[|value| - 1];
    TrimOfTrimmed(line);
    TrimOfTrimmed(name);
    assert line == name + ":" + (" " + value);
    FirstColonAt(name, " " + value);
    hide Trim, FindColon;
    assert line[..|name|] == name;
  }

  lemma WrittenTags(name: string, tags: seq<string>)
    requires ':' !in name && Trimmed(name) && name != "" && tags != []
    requires forall i :: 0 <= i < |tags| ==> IsTag(tags[i])
    ensures var line := name + ": " + JoinTags(tags);
      && Trim(line) == line != "" && NameOf(line) == name && FindColon(line) == |name| < |line|
      && line[..|name|] == name && Trims(TagsOf(line)) == tags
  {
    JoinedEnds(tags);
    WrittenLine(name, JoinTags(tags));
    TagsReadTrimmed(" ", tags);
    hide Trim, Lower, IsTag, FindColon, SplitCommas, Trims, NameOf;
  }

  // ----- one line -----

  lemma NegotiatesByName(line: string)
    requires ClassOf(line) == Negotiation
    ensures FindColon(line) < |line| && NegotiationName(NameOf(line))
  {
    hide Trim, FindColon, RoutingName, ContactName, TimerName, TagsName, Lower;
    var name := NameOf(line);
    NamesApart(Lower(name));
    NameOfFacts(line);
  }

  lemma NameOfFacts(line: string)
    ensures ':' !in NameOf(line) && Trimmed(NameOf(line))
  {
    var colon := FindColon(line);
    ColonIsFirst(line);
    TrimIsPart(line[..colon], ':');
    TrimIsTrimmed(line[..colon]);
    hide Trim, FindColon;
  }

  predicate NegotiationName(name: string) {
    ':' !in name && Trimmed(name) && name != "" && (TimerName(Lower(name)) || TagsName(Lower(name)))
  }

  lemma NegotiationClass(line: string, name: string)
    requires FindColon(line) == |name| < |line| && line[..|name|] == name && NegotiationName(name)
    ensures ClassOf(line) == Negotiation
  {
    NamesApart(Lower(name));
    TrimOfTrimmed(name);
    hide Trim, FindColon, Lower, RoutingName, ContactName, TimerName, TagsName;
  }

  lemma StripByName(t: string, name: string, tags: seq<string>)
    requires FindColon(t) < |t| && name == NameOf(t) && tags == KeptTags(SplitCommas(t[FindColon(t) + 1..]))
    ensures TimerName(Lower(name)) ==> StripNegotiation(t) == []
    ensures !TimerName(Lower(name)) && !TagsName(Lower(name)) ==> StripNegotiation(t) == [t]
    ensures !TimerName(Lower(name)) && TagsName(Lower(name)) && tags == [] ==> StripNegotiation(t) == []
    ensures !TimerName(Lower(name)) && TagsName(Lower(name)) && tags != [] ==>
      StripNegotiation(t) == [name + ": " + JoinTags(tags)]
  {
    SameNames(Lower(name));
    hide Trim, FindColon, Lower, KeptTags, SplitCommas, JoinTags, TimerName, TagsName, IsTimerHeader, ListsOptionTags;
  }

  lemma SameNames(name: string)
    ensures TimerName(name) <==> IsTimerHeader(name)
    ensures TagsName(name) <==> ListsOptionTags(name)
  {
  }

  lemma NegotiationLine(t: string)
    requires ClassOf(t) == Negotiation
    ensures Renegotiated(t, StripNegotiation(t)) && AsRead(StripNegotiation(t))
  {
    hide Trim, FindColon, Lower, KeptTags, SplitCommas, JoinTags, IsTag, Trims, StripNegotiation, NameOf, ClassOf,
      RoutingName, ContactName, TimerName, TagsName;
    NegotiatesByName(t);
    var colon := FindColon(t);
    var name, tags := NameOf(t), KeptTags(SplitCommas(t[colon + 1..]));
    StripByName(t, name, tags);
    SplitHasNoComma(t[colon + 1..]);
    KeptAreTags(SplitCommas(t[colon + 1..]));
    if tags != [] {
      WrittenTags(name, tags);
      NegotiationClass(name + ": " + JoinTags(tags), name);
    }
  }

  /** Lines that are neither blank nor change by trimming. */
  ghost predicate AsRead(lines: seq<string>) {
    forall i :: 0 <= i < |lines| ==> Trim(lines[i]) == lines[i] != ""
  }

  lemma FromIsKept(t: string)
    requires KindOf(t) == From
    ensures ClassOf(t) == Kept && !IsRouting(t) && !IsContact(t)
  {
    var name := t[..FindColon(t)];
    NameTest(t, "from");
    NameTest(t, "f");
    FromOnly(t);
    assert "from" + ":" == "from:" && "f" + ":" == "f:";
    FromIsSolid(name);
    TestsByName(t);
    hide Lower, Trim, FindColon, IsRouting, IsContact;
  }

  lemma FromOnly(line: string)
    requires KindOf(line) == From
    ensures "from:" <= Lower(line) || "f:" <= Lower(line)
  {
  }

  lemma FromIsSolid(name: string)
    requires Lower(name) in {"from", "f"}
    ensures Trim(name) == name
  {
    var l := Lower(name);
    assert l[0] == 'f' && l[|l| - 1] in {'f', 'm'};
    assert !IsSpace(name[0]) && !IsSpace(name[|name| - 1]);
    TrimOfTrimmed(name);
  }

  /** What a trimmed header line may become. */
  ghost predicate Becomes(t: string, uri: string, after: seq<string>) {
    match ClassOf(t)
    case Routing => after == []
    case ContactLine => after == if uri == "" then [] else ["Contact: <" + uri + ">"]
    case Negotiation => Renegotiated(t, after)
    case Kept => after == [t]
  }

  lemma LineBecomes(line: string, uri: string)
    requires Trim(line) != ""
    ensures Becomes(Trim(line), uri, Trims(OutboundLine(line, uri))) && NoneBlank(OutboundLine(line, uri))
  {
    hide Trim, FindColon, Lower, KeptTags, SplitCommas, JoinTags, Trims, StripNegotiation, NameOf, ClassOf, KindOf,
      IsRouting, IsContact, Renegotiated, TimerName, TagsName;
    var t := Trim(line);
    TestsByName(t);
    match ClassOf(t)
    case Routing =>
    case ContactLine =>
      ContactReads(uri);
    case Negotiation =>
      NotFrom(t);
      NegotiationLine(t);
      ReadAsIs(StripNegotiation(t));
    case Kept =>
      KeptStays(t);
      TrimTwice(line);
      OneTrim(line);
      OneTrim(t);
  }

  lemma OneTrim(line: string)
    ensures Trims([line]) == [Trim(line)]
  {
    hide Trim;
  }

  lemma TrimTwice(line: string)
    ensures Trim(Trim(line)) == Trim(line)
  {
    TrimIsTrimmed(line);
    TrimOfTrimmed(Trim(line));
  }

  lemma ReadAsIs(lines: seq<string>)
    requires AsRead(lines)
    ensures Trims(lines) == lines && NoneBlank(lines)
  {
    hide Trim;
  }

  lemma ContactReads(uri: string)
    ensures Trim("Contact: <" + uri + ">") == "Contact: <" + uri + ">" != ""
  {
    var line := "Contact: <" + uri + ">";
    assert line[0] == 'C' && line[|line| - 1] == '>';
    TrimOfTrimmed(line);
  }

  lemma NotFrom(t: string)
    requires ClassOf(t) == Negotiation
    ensures KindOf(t) != From
  {
    if KindOf(t) == From {
      FromIsKept(t);
    }
  }

  lemma KeptStays(t: string)
    requires ClassOf(t) == Kept
    ensures StripNegotiation(t) == [t]
  {
    hide Trim, Lower, KeptTags, SplitCommas, JoinTags, TimerName, TagsName, RoutingName, ContactName, FindColon;
    if FindColon(t) == |t| {
    } else {
      StripByName(t, NameOf(t), KeptTags(SplitCommas(t[FindColon(t) + 1..])));
    }
  }

  // ----- the whole header -----

  /** Line by line, what the header lines become. */
  ghost predicate AllBecome(lines: seq<string>, uri: string, after: seq<string>) {
    if lines == [] then after == []
    else exists n :: 0 <= n <= |after| && Becomes(lines[0], uri, after[..n]) && AllBecome(lines[1..], uri, after[n..])
  }

  lemma {:induction false} LinesBecome(lines: seq<string>, uri: string)
    ensures AllBecome(HeaderLines(lines), uri, Trims(OutboundLines(lines, uri)))
    ensures NoneBlank(OutboundLines(lines, uri))
  {
    hide Trim, OutboundLine, Becomes;
    if lines != [] && Trim(lines[0]) != "" {
      var first, rest := OutboundLine(lines[0], uri), OutboundLines(lines[1..], uri);
      LineBecomes(lines[0], uri);
      LinesBecome(lines[1..], uri);
      TrimsConcat(first, rest);
      var t, n := Trims(OutboundLines(lines, uri)), |first|;
      assert t[..n] == Trims(first) && t[n..] == Trims(rest);
      assert HeaderLines(lines)[1..] == HeaderLines(lines[1..]);
    }
  }

  lemma ContactClass(uri: string)
    ensures ClassOf("Contact: <" + uri + ">") == ContactLine
  {
    var line := "Contact: <" + uri + ">";
    var value := " <" + uri + ">";
    assert line == "Contact" + ":" + value;
    FirstColonAt("Contact", value);
    assert line[..7] == "Contact" && Lower("Contact") == "contact";
  }

  lemma AmongOne(class': Class, line: string)
    ensures Among(class', [line]) == if ClassOf(line) == class' then [line] else []
  {
    hide ClassOf;
    assert [line][1..] == [];
  }

  /** Line by line, so for the whole header: the headers that are kept are the same in the same order; none says where
      the request came from or is to go; and each contact is the server's. */
  lemma {:induction false} KeptAreTheSame(lines: seq<string>, uri: string, after: seq<string>)
    requires AllBecome(lines, uri, after)
    ensures Among(Kept, after) == Among(Kept, lines) && Among(Routing, after) == []
    ensures |Among(ContactLine, after)| == if uri == "" then 0 else |Among(ContactLine, lines)|
    ensures forall line :: line in Among(ContactLine, after) ==> line == "Contact: <" + uri + ">"
    decreases lines
  {
    hide Renegotiated, ClassOf, Among;
    if lines == [] {
      AmongNone();
      assert after == [] && Among(ContactLine, []) == [];
    } else {
      var n :| 0 <= n <= |after| && Becomes(lines[0], uri, after[..n]) && AllBecome(lines[1..], uri, after[n..]);
      KeptAreTheSame(lines[1..], uri, after[n..]);
      OneKept(lines[0], uri, after[..n]);
      hide Becomes;
      assert lines[..1] == [lines[0]];
      AmongParts(Kept, lines, 1);
      AmongParts(ContactLine, lines, 1);
      AmongParts(Kept, after, n);
      AmongParts(Routing, after, n);
      AmongParts(ContactLine, after, n);
    }
  }

  lemma AmongNone()
    ensures forall class' :: Among(class', []) == []
  {
  }

  lemma AmongParts(class': Class, lines: seq<string>, n: nat)
    requires n <= |lines|
    ensures Among(class', lines) == Among(class', lines[..n]) + Among(class', lines[n..])
  {
    AmongConcat(class', lines[..n], lines[n..]);
    assert lines[..n] + lines[n..] == lines;
  }

  lemma OneKept(t: string, uri: string, after: seq<string>)
    requires Becomes(t, uri, after)
    ensures Among(Kept, after) == Among(Kept, [t]) && Among(Routing, after) == []
    ensures |Among(ContactLine, after)| == if uri == "" then 0 else |Among(ContactLine, [t])|
    ensures forall line :: line in Among(ContactLine, after) ==> line == "Contact: <" + uri + ">"
  {
    ContactClass(uri);
    RenegotiatedClass(t, after);
    hide ClassOf, Renegotiated, Among;
    AmongNone();
    AmongOne(Kept, t);
    AmongOne(ContactLine, t);
    if after != [] {
      assert after == [after[0]];
      AmongOne(Kept, after[0]);
      AmongOne(Routing, after[0]);
      AmongOne(ContactLine, after[0]);
    } else {
      assert after == [] && Among(ContactLine, []) == [] && Among(Kept, []) == [] && Among(Routing, []) == [];
    }
  }

  lemma RenegotiatedClass(t: string, after: seq<string>)
    ensures Renegotiated(t, after) ==> |after| <= 1 && (after != [] ==> ClassOf(after[0]) == Negotiation)
  {
  }

  // ----- the outbound request -----

  lemma StripIsPlain(t: string)
    requires PlainText(t)
    ensures forall i :: 0 <= i < |StripNegotiation(t)| ==> PlainText(StripNegotiation(t)[i])
  {
    hide Lower, KeptTags, SplitCommas, JoinTags, IsTimerHeader, ListsOptionTags, FindColon, Trim;
    var colon := FindColon(t);
    if colon < |t| {
      var name, value := Trim(t[..colon]), t[colon + 1..];
      TrimIsTrimmed(t[..colon]);
      TrimIsAscii(t[..colon]);
      SipInvites.SplitIsPlain(value);
      SipInvites.KeptTagsArePlain(SplitCommas(value));
      SipInvites.JoinTagsIsPlain(KeptTags(SplitCommas(value)));
      PlainConcat(name, ": ");
      PlainConcat(name + ": ", JoinTags(KeptTags(SplitCommas(value))));
    }
  }

  lemma LineIsPlain(line: string, uri: string)
    requires PlainText(line) && PlainText(uri)
    ensures forall i :: 0 <= i < |OutboundLine(line, uri)| ==> PlainText(OutboundLine(line, uri)[i])
  {
    TrimIsTrimmed(line);
    TrimIsAscii(line);
    StripIsPlain(Trim(line));
    ContactIsOther(uri);
    ContactIsPlain(uri);
    hide Trim, StripNegotiation, IsRouting, IsContact, KindOf, PlainText;
  }

  lemma ContactIsPlain(uri: string)
    requires PlainText(uri)
    ensures PlainText("Contact: <" + uri + ">")
  {
    assert PlainText("Contact: <") && PlainText(">");
    PlainConcat("Contact: <", uri);
    PlainConcat("Contact: <" + uri, ">");
  }

  lemma {:induction false} LinesArePlain(lines: seq<string>, uri: string)
    requires PlainText(uri) && forall i :: 0 <= i < |lines| ==> PlainText(lines[i])
    ensures AllOneLine(OutboundLines(lines, uri))
  {
    hide Trim, OutboundLine;
    if lines != [] && Trim(lines[0]) != "" {
      LineIsPlain(lines[0], uri);
      LinesArePlain(lines[1..], uri);
    }
  }

  lemma {:induction false} SawContactExactly(lines: seq<string>)
    ensures SawContact(lines) <==> Among(ContactLine, HeaderLines(lines)) != []
  {
    hide Trim, ClassOf, IsRouting, IsContact;
    if lines != [] && Trim(lines[0]) != "" {
      TestsByName(Trim(lines[0]));
      SawContactExactly(lines[1..]);
      assert HeaderLines(lines)[1..] == HeaderLines(lines[1..]);
    }
  }

  lemma RequestLineReads(parts: seq<string>, target: string)
    requires |parts| == 3 && IsWord(parts[0]) && IsWord(parts[2])
    ensures var line := parts[0] + " " + target + " " + parts[2]; Trim(line) == line != ""
  {
    var line := parts[0] + " " + target + " " + parts[2];
    assert line[0] == parts[0][0] && line[|line| - 1] == parts[2][|parts[2]| - 1];
    TrimOfTrimmed(line);
  }

  lemma ViaReads(via: string)
    ensures Trim("Via: " + via) != ""
  {
    var line := "Via: " + via;
    assert line[3] == ':';
    ColonIsNotBlank(line, 3);
  }

  /** The request is one that is rewritten: it starts with a request line of three words. */
  predicate IsRequest(request: string) {
    var lines := Lines(request);
    lines != [] && |Words(lines[0])| == 3 && !("SIP/2.0" <= Words(lines[0])[0])
  }

  /** The contact that is added at the end. */
  function LastContact(q: seq<string>, uri: string): seq<string> {
    if uri != "" && Among(ContactLine, q) == [] then ["Contact: <" + uri + ">"] else []
  }

  lemma OutboundParts(request: string, hop: Hop) returns (body: string)
    requires IsRequest(request)
    ensures Lines(request) != [] && |Words(Lines(request)[0])| == 3
    ensures var lines := Lines(request); var parts := Words(lines[0]);
      Outbound(request, hop) == PrintMessage(
        [parts[0] + " " + hop.target + " " + parts[2], "Via: " + hop.via]
        + OutboundLines(lines[1..], hop.contact) + LastContact(HeaderLines(lines[1..]), hop.contact), body)
  {
    var lines := Lines(request);
    body := match ExtractBody(request) case None => "" case Some(b) => b;
    SawContactExactly(lines[1..]);
    hide Words, OutboundLines, SawContact, ExtractBody, Lines, Among, PrintMessage, HeaderLines;
  }

  lemma OneLineConcat(a: seq<string>, b: seq<string>)
    requires AllOneLine(a) && AllOneLine(b)
    ensures AllOneLine(a + b)
  {
  }

  lemma SpacedIsPlain(a: string, b: string, c: string)
    requires PlainText(a) && PlainText(b) && PlainText(c)
    ensures PlainText(a + " " + b + " " + c)
  {
    assert PlainText(" ");
    hide PlainText;
    PlainConcat(a, " ");
    PlainConcat(a + " ", b);
    PlainConcat(a + " " + b, " ");
    PlainConcat(a + " " + b + " ", c);
  }

  lemma ViaIsPlain(via: string)
    requires PlainText(via)
    ensures PlainText("Via: " + via)
  {
    assert PlainText("Via: ");
    hide PlainText;
    PlainConcat("Via: ", via);
  }

  lemma HeadIsPlain(line: string, hop: Hop)
    requires PlainText(line) && |Words(line)| == 3 && SipInvites.SafeHop(hop)
    ensures var parts := Words(line);
      && IsWord(parts[0]) && IsWord(parts[2])
      && AllOneLine([parts[0] + " " + hop.target + " " + parts[2], "Via: " + hop.via])
  {
    var parts := Words(line);
    SipInvites.WordsArePlain(line);
    SpacedIsPlain(parts[0], hop.target, parts[2]);
    ViaIsPlain(hop.via);
    hide Words, IsAscii, IsWord;
  }

  lemma LastIsPlain(q: seq<string>, uri: string)
    requires PlainText(uri)
    ensures AllOneLine(LastContact(q, uri))
  {
    ContactIsPlain(uri);
    hide Among;
  }

  lemma PlainLines(text: string)
    requires IsAscii(text)
    ensures forall i :: 0 <= i < |Lines(text)| ==> PlainText(Lines(text)[i])
  {
    LinesAreAscii(text);
    hide Lines;
  }

  lemma PartsArePlain(request: string, hop: Hop)
    requires IsRequest(request) && IsAscii(request) && SipInvites.SafeHop(hop)
    ensures var lines := Lines(request); lines != [] && |Words(lines[0])| == 3
    ensures var lines := Lines(request); var parts := Words(lines[0]);
      && IsWord(parts[0]) && IsWord(parts[2])
      && AllOneLine([parts[0] + " " + hop.target + " " + parts[2], "Via: " + hop.via])
      && AllOneLine(OutboundLines(lines[1..], hop.contact))
      && AllOneLine(LastContact(HeaderLines(lines[1..]), hop.contact))
  {
    hide Words, OutboundLines, Among, HeaderLines, Lines, PlainText, IsWord, OneLine, LastContact;
    var lines := Lines(request);
    PlainLines(request);
    HeadIsPlain(lines[0], hop);
    LinesArePlain(lines[1..], hop.contact);
    LastIsPlain(HeaderLines(lines[1..]), hop.contact);
  }

  lemma HeadReads(parts: seq<string>, hop: Hop)
    requires |parts| == 3 && IsWord(parts[0]) && IsWord(parts[2])
    ensures var head := [parts[0] + " " + hop.target + " " + parts[2], "Via: " + hop.via];
      && NoneBlank(head) && |Trims(head)| == 2
      && Trims(head)[0] == head[0] && Trims(head)[1] == Trim("Via: " + hop.via)
  {
    RequestLineReads(parts, hop.target);
    ViaReads(hop.via);
    hide Trim;
  }

  lemma LastReads(q: seq<string>, uri: string)
    ensures var last := LastContact(q, uri);
      && Trims(last) == last && NoneBlank(last) && Among(Kept, last) == [] && Among(Routing, last) == []
      && |Among(ContactLine, last)| == (if uri != "" && Among(ContactLine, q) == [] then 1 else 0)
      && forall line :: line in Among(ContactLine, last) ==> line == "Contact: <" + uri + ">"
  {
    var contact := "Contact: <" + uri + ">";
    ContactReads(uri);
    OneTrim(contact);
    ContactClass(uri);
    AmongOne(Kept, contact);
    AmongOne(Routing, contact);
    AmongOne(ContactLine, contact);
    AmongNone();
    hide Trim, ClassOf;
    assert LastContact(q, uri) in {[], [contact]};
  }

  lemma OutboundReads(request: string, hop: Hop) returns (after: seq<string>)
    requires IsRequest(request) && IsAscii(request) && SipInvites.SafeHop(hop)
    ensures Lines(request) != [] && |Words(Lines(request)[0])| == 3
    ensures
      var q, parts := HeaderLines(Lines(request)[1..]), Words(Lines(request)[0]);
      && AllBecome(q, hop.contact, after)
      && RequestHeaders(Outbound(request, hop))
         == [parts[0] + " " + hop.target + " " + parts[2], Trim("Via: " + hop.via)] + after
            + LastContact(q, hop.contact)
  {
    hide *;
    PartsArePlain(request, hop);
    var body := OutboundParts(request, hop);
    var lines, uri := Lines(request), hop.contact;
    var parts, q := Words(lines[0]), HeaderLines(lines[1..]);
    var first := [parts[0] + " " + hop.target + " " + parts[2], "Via: " + hop.via];
    var middle, last := OutboundLines(lines[1..], uri), LastContact(q, uri);
    LinesBecome(lines[1..], uri);
    HeadReads(parts, hop);
    LastReads(q, uri);
    TrimsConcat(first, middle);
    TrimsConcat(first + middle, last);
    OneLineConcat(first, middle);
    OneLineConcat(first + middle, last);
    PrintedHeaders(first + middle + last, body);
    after := Trims(middle);
  }

  lemma ContactsAlone(q: seq<string>, uri: string, after: seq<string>)
    requires AllBecome(q, uri, after)
    ensures var rest, contacts := after + LastContact(q, uri), Among(ContactLine, q);
      && Among(Kept, rest) == Among(Kept, q) && Among(Routing, rest) == []
      && |Among(ContactLine, rest)| == (if uri == "" then 0 else if contacts == [] then 1 else |contacts|)
      && forall line :: line in Among(ContactLine, rest) ==> line == "Contact: <" + uri + ">"
  {
    hide *;
    var last := LastContact(q, uri);
    LastReads(q, uri);
    KeptAreTheSame(q, uri, after);
    AmongConcat(Kept, after, last);
    AmongConcat(Routing, after, last);
    AmongConcat(ContactLine, after, last);
  }

  lemma RequestSays(request: string, hop: Hop) returns (m: nat)
    requires IsRequest(request) && IsAscii(request) && SipInvites.SafeHop(hop)
    ensures Lines(request) != [] && |Words(Lines(request)[0])| == 3
    ensures
      var q, r := HeaderLines(Lines(request)[1..]), RequestHeaders(Outbound(request, hop));
      var parts, contacts := Words(Lines(request)[0]), Among(ContactLine, q);
      && 2 <= m <= |r| && r[0] == parts[0] + " " + hop.target + " " + parts[2] && r[1] == Trim("Via: " + hop.via)
      && AllBecome(q, hop.contact, r[2..m])
      && r[m..] == (if hop.contact != "" && contacts == [] then ["Contact: <" + hop.contact + ">"] else [])
      && Among(Kept, r[2..]) == Among(Kept, q) && Among(Routing, r[2..]) == []
      && |Among(ContactLine, r[2..])| == (if hop.contact == "" then 0 else if contacts == [] then 1 else |contacts|)
      && forall line :: line in Among(ContactLine, r[2..]) ==> line == "Contact: <" + hop.contact + ">"
  {
    var after := OutboundReads(request, hop);
    var q, r := HeaderLines(Lines(request)[1..]), RequestHeaders(Outbound(request, hop));
    ContactsAlone(q, hop.contact, after);
    m := 2 + |after|;
    var last := LastContact(q, hop.contact);
    hide *;
    assert r[2..] == after + last && r[2..m] == after && r[m..] == last;
  }

  /** What the outbound request says, read back: the request line with the new target; the server's Via; then what the
      header lines become one by one; then a contact, if there was none. So every header that the server has no say in
      is kept, From, To, Call-ID and CSeq among them; no Via of the sender and no route is left; and all contacts, and
      at least one, are the server's, if it has one to give. Anything that is not a request is left alone. */
  lemma OutboundSays(request: string, hop: Hop) returns (m: nat)
    requires IsAscii(request) && SipInvites.SafeHop(hop)
    ensures !IsRequest(request) ==> Outbound(request, hop) == request
    ensures IsRequest(request) ==>
      Lines(request) != [] && |Words(Lines(request)[0])| == 3 &&
      var q, r := HeaderLines(Lines(request)[1..]), RequestHeaders(Outbound(request, hop));
      var parts, contacts := Words(Lines(request)[0]), Among(ContactLine, q);
      && 2 <= m <= |r| && r[0] == parts[0] + " " + hop.target + " " + parts[2] && r[1] == Trim("Via: " + hop.via)
      && AllBecome(q, hop.contact, r[2..m])
      && r[m..] == (if hop.contact != "" && contacts == [] then ["Contact: <" + hop.contact + ">"] else [])
      && Among(Kept, r[2..]) == Among(Kept, q) && Among(Routing, r[2..]) == []
      && |Among(ContactLine, r[2..])| == (if hop.contact == "" then 0 else if contacts == [] then 1 else |contacts|)
      && forall line :: line in Among(ContactLine, r[2..]) ==> line == "Contact: <" + hop.contact + ">"
  {
    m := 2;
    if IsRequest(request) {
      m := RequestSays(request, hop);
    }
    hide *;
  }

  // ----- the rebuilt request -----

  /** A line has this name, in any case and right before its first colon. */
  predicate Named(line: string, name: string) {
    FindColon(line) < |line| && Lower(line[..FindColon(line)]) == name
  }

  predicate NamedLength(line: string) { Named(line, "content-length") || Named(line, "l") }

  lemma LengthByItsName(line: string)
    ensures NamesLength(line) <==> NamedLength(line)
  {
    NameTest(line, "content-length");
    NameTest(line, "l");
    assert "content-length" + ":" == "content-length:" && "l" + ":" == "l:";
    hide Lower, FindColon;
  }

  lemma TypeByItsName(line: string)
    ensures "content-type:" <= Lower(line) <==> Named(line, "content-type")
  {
    NameTest(line, "content-type");
    assert "content-type" + ":" == "content-type:";
    hide Lower, FindColon;
  }

  /** A new length line starts as the search for one expects, and not as a content type. */
  lemma LengthLineIsFound(n: nat)
    ensures "content-length:" <= Lower(LengthLine(n)) && !("content-type:" <= Lower(LengthLine(n)))
  {
    var line := LengthLine(n);
    assert Lower(line)[..15] == Lower("Content-Length:") by { assert line[..15] == "Content-Length:"; }
    assert Lower("Content-Length:") == "content-length:";
    assert Lower(line)[8] == 'l' && "content-type:"[8] == 't';
  }

  lemma TypeLineIsNoLength()
    ensures !("content-length:" <= Lower("Content-Type: application/sdp"))
  {
    assert Lower("Content-Type: application/sdp")[8] == 't' && "content-length:"[8] == 'l';
  }

  /** A request with a new description says this: its header lines in their order, each that gives a length giving the
      new one; a content type if it had none; a length if it had none; and the new description. */
  lemma RebuiltSays(request: string, sdp: string) returns (lines: seq<string>)
    ensures var header, length := Lines(HeaderText0(request)), "Content-Length: " + Decimal(|sdp|);
      && |lines| == |header|
      && (forall i :: 0 <= i < |lines| ==> lines[i] == if NamedLength(header[i]) then length else header[i])
      && Rebuilt(request, sdp) == PrintMessage(
           lines
           + (if exists i :: 0 <= i < |header| && Named(header[i], "content-type") then []
              else ["Content-Type: application/sdp"])
           + (if exists i :: 0 <= i < |header| && NamedLength(header[i]) then [] else [length]), sdp)
  {
    var header, n := Lines(HeaderText0(request)), |sdp|;
    lines := ReplaceLength(header, n);
    forall i | 0 <= i < |header|
      ensures lines[i] == (if NamedLength(header[i]) then LengthLine(n) else header[i])
      ensures "content-type:" <= Lower(lines[i]) <==> Named(header[i], "content-type")
      ensures "content-length:" <= Lower(lines[i]) <==> NamedLength(header[i])
    {
      ReplacedOne(header[i], n);
    }
    hide NamesLength, Named, NamedLength, Lower, HeaderText0, Lines, Print, Decimal, SomeStarts, ReplaceLength;
    SomeType(header, lines);
    var content := ["Content-Type: application/sdp"];
    SomeLengthLine(header, lines, []);
    SomeLengthLine(header, lines, content);
    EmptyConcat(lines);
    EmptyConcat(lines + content);
  }

  lemma SomeType(header: seq<string>, lines: seq<string>)
    requires |lines| == |header|
    requires forall i :: 0 <= i < |header| ==>
      ("content-type:" <= Lower(lines[i]) <==> Named(header[i], "content-type"))
    ensures SomeStarts(lines, "content-type:") <==> exists i :: 0 <= i < |header| && Named(header[i], "content-type")
  {
    hide Named, Lower;
  }

  lemma SomeLengthLine(header: seq<string>, lines: seq<string>, added: seq<string>)
    requires |lines| == |header| && added in {[], ["Content-Type: application/sdp"]}
    requires forall i :: 0 <= i < |header| ==> ("content-length:" <= Lower(lines[i]) <==> NamedLength(header[i]))
    ensures SomeStarts(lines + added, "content-length:") <==> exists i :: 0 <= i < |header| && NamedLength(header[i])
  {
    TypeLineIsNoLength();
    hide NamedLength, Lower;
    var all := lines + added;
    assert forall i :: 0 <= i < |lines| ==> all[i] == lines[i];
    assert forall i :: |lines| <= i < |all| ==> all[i] == "Content-Type: application/sdp";
    if i :| 0 <= i < |header| && NamedLength(header[i]) {
      assert "content-length:" <= Lower(all[i]);
    }
    if i :| 0 <= i < |all| && "content-length:" <= Lower(all[i]) {
      assert i < |lines|;
    }
  }

  lemma ReplacedOne(line: string, n: nat)
    ensures NamesLength(line) <==> NamedLength(line)
    ensures var after := if NamesLength(line) then LengthLine(n) else line;
      && ("content-type:" <= Lower(after) <==> Named(line, "content-type"))
      && ("content-length:" <= Lower(after) <==> NamedLength(line))
  {
    LengthByItsName(line);
    TypeByItsName(line);
    LengthLineIsFound(n);
    OneNameOnly(line);
    NameTest(line, "content-length");
    assert "content-length" + ":" == "content-length:";
    hide Lower, FindColon, LengthLine;
  }

  lemma OneNameOnly(line: string)
    ensures !(NamedLength(line) && Named(line, "content-type"))
  {
    assert |"content-length"| == 14 && |"content-type"| == 12 && |"l"| == 1;
    hide Lower;
  }
}
