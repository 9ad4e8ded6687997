/** What rewriting does to each media section: whose crypto lines it ends up with, and which other lines it keeps. */
module SdpSections {
  import opened Seqs
  import opened SipText
  import opened Sdp

  /** A section as far as crypto lines go: an audio section or not, whether its m= line has a port, a protocol and a
      format, and whether it carries a crypto attribute. */
  datatype Shape = Shape(audio: bool, full: bool, attribute: bool)

  /** Whether a crypto attribute precedes the first m= line, and the shape of the section each m= line starts. */
  function Shapes(ls: seq<string>): (bool, seq<Shape>) {
    if ls == [] then (false, [])
    else
      var (attribute, later) := Shapes(ls[1..]);
      if IsMedia(ls[0]) then (false, [Shape(IsAudio(ls[0]), IsFullAudio(ls[0]), attribute)] + later)
      else ("a=crypto" <= ls[0] || attribute, later)
  }

  /** The crypto lines before the first m= line, then those of the section each m= line starts. */
  function SectionCryptos(ls: seq<string>): (r: seq<seq<string>>)
    ensures r != []
  {
    if ls == [] then [[]]
    else
      var r := SectionCryptos(ls[1..]);
      var head := (if IsCrypto(ls[0]) then [ls[0]] else []) + r[0];
      if IsMedia(ls[0]) then [[], head] + r[1..] else [head] + r[1..]
  }

  /** The crypto lines each section should end up with. An audio section gets the given ones, except that a last audio
      section without any crypto attribute gets none when no m=audio line of the description is full. */
  function Expected(block: seq<string>, found: bool, sections: seq<Shape>): (r: seq<seq<string>>)
    ensures |r| == |sections|
    decreases |sections|
  {
    if sections == [] then []
    else
      var first := sections[0];
      var found' := found || first.full;
      [if first.audio && (found' || |sections| > 1 || first.attribute) then block else []]
      + Expected(block, found', sections[1..])
  }

  /** c= and m=audio lines are rewritten, crypto, DTLS, ICE and RTCP attributes dropped, the rest kept. */
  function KeptLine(t: Target, audio: bool, line: string): seq<string> {
    if "c=" <= line then ["c=IN IP4 " + t.addr]
    else if IsAudio(line) then [RewriteAudio(t, line)]
    else if (audio && "a=crypto" <= line) || ShouldStrip(line) then []
    else [line]
  }

  /** The lines other than crypto attributes that a description should keep. */
  function Kept(t: Target, inAudio: bool, ls: seq<string>): seq<string>
    decreases |ls|
  {
    if ls == [] then []
    else
      var audio := if IsMedia(ls[0]) then IsAudio(ls[0]) else inAudio;
      KeptLine(t, audio, ls[0]) + Kept(t, audio, ls[1..])
  }

  /** The lines that are not crypto attributes, in order. */
  function Others(ls: seq<string>): seq<string> {
    if ls == [] then [] else (if IsCrypto(ls[0]) then [] else [ls[0]]) + Others(ls[1..])
  }

  // ----- what a single line turns into -----

  /** Outside the crypto branch, a line turns into at most one line, which is no crypto attribute. */
  lemma PlainLineEmits(t: Target, s: Scan, line: string)
    requires t.HasCrypto() && !("a=crypto" <= line && s.inAudio)
    ensures var emitted := EmitLine(t, s, line).0;
      && |emitted| <= 1
      && (emitted != [] ==> !IsCrypto(emitted[0]) && IsMedia(emitted[0]) == IsMedia(line))
      && emitted == KeptLine(t, s.inAudio, line)
  {
    var emitted := EmitLine(t, s, line).0;
    if emitted != [] {
      KeptLineIsFixed(t, s, line);
      if "c=" <= line || IsAudio(line) {
        assert emitted[0][0] == line[0] && line[0] in {'c', 'm'};
        OtherLinesNotStripped(emitted[0]);
      } else if IsCrypto(line) {
        CryptoIsStripped(line);
        assert false;
      }
    }
  }

  lemma MediaLineEmits(t: Target, s: Scan, line: string)
    requires t.HasCrypto() && IsMedia(line)
    ensures var (emitted, s2) := EmitLine(t, EnterSection(s, line), line);
      && s2 == Scan(IsAudio(line), s.foundAudio || IsFullAudio(line), false)
      && |emitted| == 1 && IsMedia(emitted[0]) && !IsCrypto(emitted[0])
  {
    MediaLineIsKept(t, EnterSection(s, line), line);
    PlainLineEmits(t, EnterSection(s, line), line);
  }

  lemma InsideLineEmits(t: Target, s: Scan, line: string)
    requires t.HasCrypto() && !IsMedia(line)
    ensures var (emitted, s2) := EmitLine(t, s, line);
      if "a=crypto" <= line && s.inAudio then emitted == Owed(t, s) && s2 == s.(inserted := true)
      else s2 == s && |emitted| <= 1 && (emitted != [] ==> !IsCrypto(emitted[0]) && !IsMedia(emitted[0]))
  {
    if "a=crypto" <= line && s.inAudio {
      assert line[0] == 'a';
    } else {
      PlainLineEmits(t, s, line);
    }
  }

  // ----- crypto lines, section by section -----

  lemma CryptosOfPlainLine(line: string, rest: seq<string>)
    requires !IsCrypto(line)
    ensures SectionCryptos([line] + rest) == (if IsMedia(line) then [[]] else []) + SectionCryptos(rest)
  {
    TailOfConcat([line], rest);
    EmptyConcat(rest);
    var r := SectionCryptos(rest);
    EmptyConcat(r[0]);
    assert [r[0]] + r[1..] == r;
    assert [[], r[0]] + r[1..] == [[]] + r;
    EmptyConcat(r);
  }

  lemma {:induction false} CryptosOfBlock(cryptos: seq<SdpCrypto>, rest: seq<string>)
    ensures var r := SectionCryptos(rest);
      SectionCryptos(CryptoLines(cryptos) + rest) == [CryptoLines(cryptos) + r[0]] + r[1..]
  {
    var r := SectionCryptos(rest);
    if cryptos == [] {
      EmptyConcat(rest);
      EmptyConcat(r[0]);
      assert CryptoLines(cryptos) == [] && [r[0]] + r[1..] == r;
    } else {
      var line, later := cryptos[0].ToLine(), CryptoLines(cryptos[1..]);
      CryptoLineFacts(cryptos[0]);
      assert CryptoLines(cryptos) == [line] + later;
      Assoc([line], later, rest);
      TailOfConcat([line], later + rest);
      EmptyConcat(later + rest);
      CryptosOfBlock(cryptos[1..], rest);
      Assoc([line], later, r[0]);
    }
  }

  /** What is owed to the section being scanned, given whether a crypto attribute or an m= line is still to come. */
  function OwedToHead(block: seq<string>, s: Scan, attribute: bool, later: seq<Shape>): seq<string> {
    if s.inAudio && !s.inserted && (s.foundAudio || later != [] || attribute) then block else []
  }

  /** What rewriting from a state should give, section by section. */
  function ExpectedFrom(block: seq<string>, s: Scan, shapes: (bool, seq<Shape>)): seq<seq<string>> {
    [OwedToHead(block, s, shapes.0, shapes.1)] + Expected(block, s.foundAudio, shapes.1)
  }

  /** The bookkeeping at an m= line: the section before it is settled, and its own begins. */
  lemma MediaBookkeeping(block: seq<string>, s: Scan, audio: bool, full: bool, shapes: (bool, seq<Shape>))
    ensures var next := Scan(audio, s.foundAudio || full, false);
      ExpectedFrom(block, s, (false, [Shape(audio, full, shapes.0)] + shapes.1))
      == [if s.inAudio && !s.inserted then block else []] + ExpectedFrom(block, next, shapes)
  {
    var sections := [Shape(audio, full, shapes.0)] + shapes.1;
    assert sections[1..] == shapes.1;
  }

  lemma OwedThenPlain(t: Target, s: Scan, line: string, tail: seq<string>)
    requires t.HasCrypto() && IsMedia(line) && !IsCrypto(line)
    ensures SectionCryptos(Owed(t, s) + ([line] + tail)) == [Owed(t, s)] + SectionCryptos(tail)
  {
    CryptosOfPlainLine(line, tail);
    var r := [[]] + SectionCryptos(tail);
    assert r[1..] == SectionCryptos(tail);
    CryptosOfBlock(t.cryptos, [line] + tail);
    EmptyConcat(t.Block());
    EmptyConcat([line] + tail);
  }

  lemma StepAtMediaLine(t: Target, s: Scan, line: string, rest: seq<string>)
    requires t.HasCrypto() && IsMedia(line)
    requires var s2 := EmitLine(t, EnterSection(s, line), line).1;
      SectionCryptos(RewriteLines(t, s2, rest)) == ExpectedFrom(t.Block(), s2, Shapes(rest))
    ensures SectionCryptos(RewriteLines(t, s, [line] + rest)) == ExpectedFrom(t.Block(), s, Shapes([line] + rest))
  {
    var (emitted, s2) := EmitLine(t, EnterSection(s, line), line);
    var tail := RewriteLines(t, s2, rest);
    MediaLineEmits(t, s, line);
    TailOfConcat([line], rest);
    EmptyConcat(rest);
    assert emitted == [emitted[0]];
    Assoc(Owed(t, s), emitted, tail);
    OwedThenPlain(t, s, emitted[0], tail);
    MediaBookkeeping(t.Block(), s, IsAudio(line), IsFullAudio(line), Shapes(rest));
  }

  lemma StepInsideSection(t: Target, s: Scan, line: string, rest: seq<string>)
    requires t.HasCrypto() && !IsMedia(line)
    requires var s2 := EmitLine(t, s, line).1;
      SectionCryptos(RewriteLines(t, s2, rest)) == ExpectedFrom(t.Block(), s2, Shapes(rest))
    ensures SectionCryptos(RewriteLines(t, s, [line] + rest)) == ExpectedFrom(t.Block(), s, Shapes([line] + rest))
  {
    var (emitted, s2) := EmitLine(t, s, line);
    var tail := RewriteLines(t, s2, rest);
    InsideLineEmits(t, s, line);
    TailOfConcat([line], rest);
    EmptyConcat(rest);
    EmptyConcat(emitted);
    EmptyConcat(tail);
    assert RewriteLines(t, s, [line] + rest) == emitted + tail;
    if "a=crypto" <= line && s.inAudio {
      if !s.inserted {
        CryptosOfBlock(t.cryptos, tail);
        EmptyConcat(t.Block());
        assert ExpectedFrom(t.Block(), s2, Shapes(rest))[1..] == Expected(t.Block(), s.foundAudio, Shapes(rest).1);
      }
    } else if emitted != [] {
      assert emitted == [emitted[0]];
      CryptosOfPlainLine(emitted[0], tail);
      EmptyConcat(SectionCryptos(tail));
    }
  }

  lemma {:induction false} EverySectionAsExpected(t: Target, s: Scan, ls: seq<string>)
    requires t.HasCrypto()
    ensures SectionCryptos(RewriteLines(t, s, ls)) == ExpectedFrom(t.Block(), s, Shapes(ls))
    decreases |ls|
  {
    if ls == [] {
      CryptosOfBlock(t.cryptos, []);
      EmptyConcat(t.Block());
    } else {
      assert ls == [ls[0]] + ls[1..];
      EverySectionAsExpected(t, EmitLine(t, EnterSection(s, ls[0]), ls[0]).1, ls[1..]);
      if IsMedia(ls[0]) {
        StepAtMediaLine(t, s, ls[0], ls[1..]);
      } else {
        StepInsideSection(t, s, ls[0], ls[1..]);
      }
    }
  }

  // ----- the other lines -----

  lemma {:induction false} OthersOfConcat(a: seq<string>, b: seq<string>)
    ensures Others(a + b) == Others(a) + Others(b)
  {
    if a == [] {
      EmptyConcat(b);
      EmptyConcat(Others(b));
    } else {
      TailOfConcat(a, b);
      OthersOfConcat(a[1..], b);
      Assoc(if IsCrypto(a[0]) then [] else [a[0]], Others(a[1..]), Others(b));
    }
  }

  lemma {:induction false} OthersOfBlock(cryptos: seq<SdpCrypto>)
    ensures Others(CryptoLines(cryptos)) == []
  {
    if cryptos != [] {
      CryptoLineFacts(cryptos[0]);
      assert CryptoLines(cryptos)[1..] == CryptoLines(cryptos[1..]);
      OthersOfBlock(cryptos[1..]);
    }
  }

  lemma EmittedOthers(t: Target, s: Scan, line: string)
    requires t.HasCrypto()
    ensures Others(EmitLine(t, s, line).0) == KeptLine(t, s.inAudio, line)
    ensures EmitLine(t, s, line).1.inAudio == s.inAudio
  {
    if "a=crypto" <= line && s.inAudio {
      assert line[0] == 'a';
      OthersOfBlock(t.cryptos);
    } else {
      PlainLineEmits(t, s, line);
    }
  }

  lemma {:induction false} KeptLinesInOrder(t: Target, s: Scan, ls: seq<string>)
    requires t.HasCrypto()
    ensures Others(RewriteLines(t, s, ls)) == Kept(t, s.inAudio, ls)
    decreases |ls|
  {
    OthersOfBlock(t.cryptos);
    if ls != [] {
      var owed := if IsMedia(ls[0]) then Owed(t, s) else [];
      var s1 := EnterSection(s, ls[0]);
      var (emitted, s2) := EmitLine(t, s1, ls[0]);
      EmittedOthers(t, s1, ls[0]);
      KeptLinesInOrder(t, s2, ls[1..]);
      OthersOfConcat(owed + emitted, RewriteLines(t, s2, ls[1..]));
      OthersOfConcat(owed, emitted);
      EmptyConcat(Others(emitted));
    }
  }

  /** Crypto lines are only ever written after an audio line that is kept. */
  lemma {:induction false} NotOnlyCryptos(t: Target, s: Scan, ls: seq<string>)
    requires t.HasCrypto() && !s.inAudio && RewriteLines(t, s, ls) != []
    ensures Kept(t, false, ls) != []
    decreases |ls|
  {
    if IsMedia(ls[0]) {
      assert ls[0][0] == 'm';
      OtherLinesNotStripped(ls[0]);
    } else if !("c=" <= ls[0]) && ShouldStrip(ls[0]) {
      NotOnlyCryptos(t, s, ls[1..]);
    }
  }

  // ----- whole descriptions -----

  /** The lines that a rewritten description reads back as. */
  lemma LinesOfRewrite(t: Target, sdp: string)
    requires t.Valid()
    ensures var ls := RewriteLines(t, START, Lines(sdp)); Lines(Rewrite(t, sdp)) == if ls == [] then [""] else ls
  {
    var ls := RewriteLines(t, START, Lines(sdp));
    RewrittenLinesAreLines(t, START, Lines(sdp));
    var printed := if ls == [] then [""] else ls;
    LinesOfPrint(printed, "");
    assert Print([""]) == CRLF;
    EmptyConcat(Print(printed));
    EmptyConcat(printed);
  }

  lemma EmptyLineHasNoCryptos()
    ensures SectionCryptos([""]) == SectionCryptos([]) && Others([""]) == [""]
  {
    assert Trim("") == "";
    CryptosOfPlainLine("", []);
    EmptyConcat([""]);
  }

  /** With crypto lines to insert, each section of the rewritten description carries exactly the expected crypto lines,
      once and in order, and no other one survives anywhere. */
  lemma RewriteSections(t: Target, sdp: string)
    requires t.Valid() && t.HasCrypto()
    ensures SectionCryptos(Lines(Rewrite(t, sdp))) == [[]] + Expected(t.Block(), false, Shapes(Lines(sdp)).1)
  {
    LinesOfRewrite(t, sdp);
    EverySectionAsExpected(t, START, Lines(sdp));
    EmptyLineHasNoCryptos();
  }

  /** The lines that are not crypto attributes are the kept ones, in their order. */
  lemma RewriteKeepsOrder(t: Target, sdp: string)
    requires t.Valid() && t.HasCrypto()
    ensures var kept := Kept(t, false, Lines(sdp));
      Others(Lines(Rewrite(t, sdp))) == if kept == [] then [""] else kept
  {
    LinesOfRewrite(t, sdp);
    KeptLinesInOrder(t, START, Lines(sdp));
    EmptyLineHasNoCryptos();
    if RewriteLines(t, START, Lines(sdp)) != [] {
      NotOnlyCryptos(t, START, Lines(sdp));
    }
  }

  /** Without crypto lines to insert, only c= and m=audio lines change, and only the crypto attributes of audio sections
      go. */
  function PlainlyKept(t: Target, inAudio: bool, ls: seq<string>): seq<string>
    decreases |ls|
  {
    if ls == [] then []
    else
      var audio := if "m=" <= ls[0] then "m=audio" <= ls[0] else inAudio;
      PlainLine(t, audio, ls[0]) + PlainlyKept(t, audio, ls[1..])
  }

  function PlainLine(t: Target, audio: bool, line: string): seq<string> {
    if "c=" <= line then ["c=IN IP4 " + t.addr]
    else if "m=audio" <= line then [RewriteAudio(t, line)]
    else if audio && "a=crypto" <= line then []
    else [line]
  }

  lemma StepPlainly(t: Target, s: Scan, line: string)
    requires !t.HasCrypto()
    ensures Step(t, s, line).0 == PlainLine(t, EnterSection(s, line).inAudio, line)
    ensures Step(t, s, line).1.inAudio == if "m=" <= line then "m=audio" <= line else s.inAudio
  {
    hide RewriteAudio;
    assert t.Block() == [];
    var emitted := EmitLine(t, EnterSection(s, line), line).0;
    EmptyConcat(emitted);
  }

  lemma {:induction false} PlainLinesInOrder(t: Target, s: Scan, ls: seq<string>)
    requires !t.HasCrypto()
    ensures RewriteLines(t, s, ls) == PlainlyKept(t, s.inAudio, ls)
    decreases |ls|
  {
    if ls == [] {
      assert t.Block() == [];
    } else {
      StepPlainly(t, s, ls[0]);
      hide Step, PlainLine;
      PlainLinesInOrder(t, Step(t, s, ls[0]).1, ls[1..]);
    }
  }

  lemma RewriteWithoutCryptos(t: Target, sdp: string)
    requires t.Valid() && !t.HasCrypto()
    ensures var kept := PlainlyKept(t, false, Lines(sdp)); Lines(Rewrite(t, sdp)) == if kept == [] then [""] else kept
  {
    LinesOfRewrite(t, sdp);
    PlainLinesInOrder(t, START, Lines(sdp));
  }

  /** In particular, an audio section with a port, a protocol and a format ends up with exactly the given crypto
      lines, and a section that is not audio with none. */
  lemma FullAudioSectionsCarryGivenCryptos(t: Target, sdp: string, i: nat)
    requires t.Valid() && t.HasCrypto() && i < |Shapes(Lines(sdp)).1|
    ensures var cryptos, shape := SectionCryptos(Lines(Rewrite(t, sdp))), Shapes(Lines(sdp)).1[i];
      && |cryptos| == |Shapes(Lines(sdp)).1| + 1
      && (shape.audio && shape.full ==> cryptos[i + 1] == t.Block())
      && (!shape.audio ==> cryptos[i + 1] == [])
  {
    RewriteSections(t, sdp);
    ExpectedForSection(t.Block(), false, Shapes(Lines(sdp)).1, i);
  }

  lemma {:induction false} ExpectedForSection(block: seq<string>, found: bool, sections: seq<Shape>, i: nat)
    requires i < |sections|
    ensures sections[i].audio && sections[i].full ==> Expected(block, found, sections)[i] == block
    ensures !sections[i].audio ==> Expected(block, found, sections)[i] == []
    decreases i
  {
    if i > 0 {
      ExpectedForSection(block, found || sections[0].full, sections[1..], i - 1);
    }
  }

  // ----- audio lines, word by word -----

  function AudioLines(ls: seq<string>): seq<string> {
    if ls == [] then [] else (if IsAudio(ls[0]) then [ls[0]] else []) + AudioLines(ls[1..])
  }

  /** An audio line with a port, a protocol and a format gets the relay's port, the secure protocol if crypto lines are
      given, and keeps its formats; any other stays as it is. */
  predicate AudioRewritten(t: Target, before: string, after: string) {
    var was := Words(before);
    if |was| >= 4 then
      && "m=audio" <= after
      && Words(after) == ["m=audio", Decimal(t.port), if t.cryptos != [] then "RTP/SAVP" else was[2]] + was[3..]
    else after == before
  }

  lemma AudioLineRewritten(t: Target, line: string)
    requires IsAudio(line)
    ensures AudioRewritten(t, line, RewriteAudio(t, line)) && IsAudio(RewriteAudio(t, line))
  {
    RewriteAudioFacts(t, line);
    var was := Words(line);
    if |was| >= 4 {
      DecimalIsWord(t.port);
      WordsOfJoin(["m=audio", Decimal(t.port), if t.HasCrypto() then "RTP/SAVP" else was[2]] + was[3..]);
    }
  }

  lemma {:induction false} AudioLinesOfConcat(a: seq<string>, b: seq<string>)
    ensures AudioLines(a + b) == AudioLines(a) + AudioLines(b)
  {
    if a == [] {
      EmptyConcat(b);
      EmptyConcat(AudioLines(b));
    } else {
      TailOfConcat(a, b);
      AudioLinesOfConcat(a[1..], b);
      Assoc(if IsAudio(a[0]) then [a[0]] else [], AudioLines(a[1..]), AudioLines(b));
    }
  }

  lemma AudioIsMedia(line: string)
    ensures IsAudio(line) ==> IsMedia(line)
  {
    if IsAudio(line) {
      assert line[0] == 'm' && line[1] == '=';
    }
  }

  lemma {:induction false} BlockHasNoAudio(cryptos: seq<SdpCrypto>)
    ensures AudioLines(CryptoLines(cryptos)) == []
  {
    if cryptos != [] {
      CryptoLineFacts(cryptos[0]);
      AudioIsMedia(cryptos[0].ToLine());
      assert CryptoLines(cryptos)[1..] == CryptoLines(cryptos[1..]);
      BlockHasNoAudio(cryptos[1..]);
    }
  }

  lemma EmittedAudio(t: Target, s: Scan, line: string)
    ensures AudioLines(EmitLine(t, s, line).0) == if IsAudio(line) then [RewriteAudio(t, line)] else []
  {
    BlockHasNoAudio(t.cryptos);
    if IsAudio(line) {
      AudioLineRewritten(t, line);
      assert line[0] == 'm';
    } else {
      NotAudio(t.addr);
    }
    hide RewriteAudio, ShouldStrip;
  }

  lemma NotAudio(addr: string)
    ensures !IsAudio("c=IN IP4 " + addr)
  {
    var line := "c=IN IP4 " + addr;
    assert line[0] == 'c' && "m=audio"[0] == 'm';
  }

  /** Line for line, the audio lines come out rewritten. */
  lemma {:induction false} AudioLinesInOrder(t: Target, s: Scan, ls: seq<string>)
    ensures var was, out := AudioLines(ls), AudioLines(RewriteLines(t, s, ls));
      |out| == |was| && forall k :: 0 <= k < |was| ==> AudioRewritten(t, was[k], out[k])
    decreases |ls|
  {
    hide AudioRewritten, RewriteAudio, EmitLine;
    if ls == [] {
      BlockHasNoAudio(t.cryptos);
    } else {
      var line := ls[0];
      var (emitted, s2) := Step(t, s, line);
      StepAudio(t, s, line);
      AudioLinesInOrder(t, s2, ls[1..]);
      AudioLinesOfConcat(emitted, RewriteLines(t, s2, ls[1..]));
      if IsAudio(line) { AudioLineRewritten(t, line); }
      hide Step;
    }
  }

  lemma StepAudio(t: Target, s: Scan, line: string)
    ensures AudioLines(Step(t, s, line).0) == if IsAudio(line) then [RewriteAudio(t, line)] else []
  {
    var owed, s1 := if IsMedia(line) then Owed(t, s) else [], EnterSection(s, line);
    BlockHasNoAudio(t.cryptos);
    EmittedAudio(t, s1, line);
    AudioLinesOfConcat(owed, EmitLine(t, s1, line).0);
    EmptyConcat(AudioLines(EmitLine(t, s1, line).0));
    hide EmitLine, RewriteAudio;
  }

  /** What the k-th m=audio line of a rewritten description says, for every description and with or without crypto
      lines. */
  lemma RewrittenAudioLines(t: Target, sdp: string)
    requires t.Valid()
    ensures var was, out := AudioLines(Lines(sdp)), AudioLines(Lines(Rewrite(t, sdp)));
      |out| == |was| && forall k :: 0 <= k < |was| ==> AudioRewritten(t, was[k], out[k])
  {
    LinesOfRewrite(t, sdp);
    AudioLinesInOrder(t, START, Lines(sdp));
    hide AudioRewritten;
  }

  /** The attributes that are dropped are those of keys, DTLS, ICE and RTCP, in any case and however indented. */
  lemma StrippedExactly(line: string)
    ensures var l := Lower(Trim(line));
      ShouldStrip(line) <==>
        || "a=crypto:" <= l || "a=fingerprint:" <= l || "a=setup:" <= l || "a=connection:" <= l || "a=key-mgmt:" <= l
        || "a=ice-ufrag:" <= l || "a=ice-pwd:" <= l || "a=ice-options:" <= l || "a=candidate:" <= l
        || "a=end-of-candidates" <= l || "a=remote-candidates:" <= l
        || "a=rtcp:" <= l || "a=rtcp-mux" <= l || "a=rtcp-rsize" <= l
  {
    hide Lower, Trim;
    var p := STRIPPED_PREFIXES;
    assert p[0] == "a=crypto:" && p[1] == "a=fingerprint:" && p[2] == "a=setup:" && p[3] == "a=connection:";
    assert p[4] == "a=key-mgmt:" && p[5] == "a=ice-ufrag:" && p[6] == "a=ice-pwd:" && p[7] == "a=ice-options:";
    assert p[8] == "a=candidate:" && p[9] == "a=end-of-candidates" && p[10] == "a=remote-candidates:";
    assert p[11] == "a=rtcp:" && p[12] == "a=rtcp-mux" && p[13] == "a=rtcp-rsize" && |p| == 14;
  }
}
