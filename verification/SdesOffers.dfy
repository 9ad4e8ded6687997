/** Which key a rewritten description carries for whoever reads it with this server's own reader. */
module SdesOffers {
  import opened Seqs
  import opened Wrappers
  import opened SipText
  import opened Srtp
  import opened SrtpContext
  import opened SdesLines
  import opened Sdp
  import opened SdpSections

  /** The tag and keys of the first line usable with a suite. */
  function Pick(c: Primitives, lines: seq<string>, suite: SrtpSuite): Option<(nat, MasterKeys)> {
    if lines == [] then None
    else if UsableAs(c, lines[0], suite) then Usable(c, lines[0])
    else Pick(c, lines[1..], suite)
  }

  function OrElse<T>(first: Option<T>, second: Option<T>): Option<T> { if first.Some? then first else second }

  lemma {:induction false} PickIsFirst(c: Primitives, lines: seq<string>, suite: SrtpSuite)
    ensures var i := FirstUsable(c, lines, suite);
      Pick(c, lines, suite) == if i < |lines| then Usable(c, lines[i]) else None
    ensures Pick(c, lines, suite).Some? ==> Pick(c, lines, suite).value.1.suite == suite
  {
    hide Usable;
    if lines != [] {
      PickIsFirst(c, lines[1..], suite);
    }
  }

  lemma ExtractPicks(c: Primitives, sdp: string)
    ensures Extract(c, sdp) == OrElse(Pick(c, Lines(sdp), AesCm128HmacSha180), Pick(c, Lines(sdp), AeadAes128Gcm))
  {
    hide Usable, Pick;
    PickIsFirst(c, Lines(sdp), AesCm128HmacSha180);
    PickIsFirst(c, Lines(sdp), AeadAes128Gcm);
  }

  lemma PickOfOne(c: Primitives, line: string, suite: SrtpSuite)
    ensures Pick(c, [line], suite) == if UsableAs(c, line, suite) then Usable(c, line) else None
    ensures Pick(c, [], suite) == None
  {
    hide Usable;
    assert [line][1..] == [];
  }

  lemma {:induction false} PickOfConcat(c: Primitives, a: seq<string>, b: seq<string>, suite: SrtpSuite)
    ensures Pick(c, a + b, suite) == OrElse(Pick(c, a, suite), Pick(c, b, suite))
  {
    hide Usable;
    if a == [] {
      EmptyConcat(b);
    } else {
      TailOfConcat(a, b);
      PickOfConcat(c, a[1..], b, suite);
    }
  }

  // ----- lines that get through -----

  /** A usable crypto line without the `a=` in front, which rewriting overlooks and the reader accepts. */
  function Stray(c: Primitives, line: string, suite: SrtpSuite): Option<(nat, MasterKeys)> {
    if "crypto:" <= Trim(line) && UsableAs(c, line, suite) then Usable(c, line) else None
  }

  function FirstStray(c: Primitives, lines: seq<string>, suite: SrtpSuite): Option<(nat, MasterKeys)> {
    if lines == [] then None else OrElse(Stray(c, lines[0], suite), FirstStray(c, lines[1..], suite))
  }

  /** A usable line starts with the attribute, with or without `a=`. */
  lemma UsableStarts(c: Primitives, line: string)
    requires Usable(c, line).Some?
    ensures "crypto:" <= Trim(line) || IsCrypto(line)
  {
    var t := Trim(line);
    TrimIsTrimmed(line);
    TrimOfTrimmed(t);
    hide Trim, ParseFields, FromSdes, SuiteOf, Lower;
    assert ParseCrypto(t).Some?;
    if "a=" <= t {
      AttributeIsCrypto(t);
    }
  }

  lemma AttributeIsCrypto(t: string)
    requires "a=" <= t && "crypto:" <= t[2..]
    ensures "a=crypto:" <= Lower(t)
  {
    assert t[..9] == "a=crypto:";
    assert Lower(t)[..9] == "a=crypto:";
  }

  /** A line that starts otherwise is not usable. */
  lemma OtherStartIsUnusable(c: Primitives, line: string)
    requires ("c=" <= line || "m=" <= line)
    ensures Usable(c, line).None? && !("crypto:" <= Trim(line))
  {
    OtherStart(line);
    OtherLinesNotStripped(line);
    hide Usable, IsCrypto, Trim;
    if Usable(c, line).Some? {
      UsableStarts(c, line);
    }
  }

  lemma OtherStart(line: string)
    requires ("c=" <= line || "m=" <= line)
    ensures !("crypto:" <= Trim(line))
  {
    TrimEndOfSolid(line);
    var t := Trim(line);
    assert t == line[..|t|];
    if |t| > 1 {
      assert t[1] == line[1] == '=' && "crypto:"[1] == 'r';
    }
  }

  lemma StrayIsKept(line: string)
    requires "crypto:" <= Trim(line)
    ensures !ShouldStrip(line) && !("c=" <= line) && !IsAudio(line) && !IsMedia(line) && !("a=crypto" <= line)
  {
    var t := Trim(line);
    assert Lower(t)[0] == 'c' && t[0] == 'c' && t[1] == 'r';
    assert forall i :: 0 <= i < |STRIPPED_PREFIXES| ==> STRIPPED_PREFIXES[i][0] == 'a';
    if line != "" && !IsSpace(line[0]) {
      TrimEndOfSolid(line);
      assert t[0] == line[0] && t == line[..|t|];
    }
  }

  /** Inside its section a line turns into what it strays in, unless crypto lines are written for it. */
  lemma EmittedPick(c: Primitives, t: Target, s: Scan, line: string, suite: SrtpSuite)
    requires t.HasCrypto()
    ensures Pick(c, EmitLine(t, s, line).0, suite)
         == if s.inAudio && "a=crypto" <= line then Pick(c, Owed(t, s), suite)
            else Stray(c, line, suite)
    ensures s.inAudio && "a=crypto" <= line ==> Stray(c, line, suite) == None
  {
    hide Usable, Pick, ShouldStrip, RewriteAudio, IsCrypto, Trim;
    if EmitLine(t, s, line).0 != [] {
      PickOfOne(c, EmitLine(t, s, line).0[0], suite);
    } else {
      PickOfOne(c, line, suite);
    }
    if "crypto:" <= Trim(line) {
      StrayIsKept(line);
    } else if "c=" <= line {
      assert line[0] == 'c';
      OtherStartIsUnusable(c, "c=IN IP4 " + t.addr);
    } else if IsAudio(line) {
      assert line[0] == 'm';
      RewriteAudioFacts(t, line);
      OtherStartIsUnusable(c, RewriteAudio(t, line));
    } else if UsableAs(c, line, suite) {
      UsableStarts(c, line);
      CryptoIsStripped(line);
    }
  }

  // ----- the first crypto lines written -----

  /** Crypto lines are written before this line, or in its place. */
  predicate Writes(s: Scan, line: string) { s.inAudio && !s.inserted && (IsMedia(line) || "a=crypto" <= line) }

  /** The lines before which no crypto lines are written. */
  function BeforeCryptos(t: Target, s: Scan, ls: seq<string>): seq<string>
    decreases |ls|
  {
    if ls == [] || Writes(s, ls[0]) then [] else [ls[0]] + BeforeCryptos(t, Step(t, s, ls[0]).1, ls[1..])
  }

  /** Crypto lines are written at some point. */
  predicate CryptosCome(t: Target, s: Scan, ls: seq<string>)
    decreases |ls|
  {
    if ls == [] then s.foundAudio && s.inAudio && !s.inserted
    else Writes(s, ls[0]) || CryptosCome(t, Step(t, s, ls[0]).1, ls[1..])
  }

  lemma StepBeforeCryptos(c: Primitives, t: Target, s: Scan, line: string, suite: SrtpSuite)
    requires t.HasCrypto() && !s.inserted
    ensures Writes(s, line) ==> t.Block() <= Step(t, s, line).0
    ensures !Writes(s, line) ==>
      Pick(c, Step(t, s, line).0, suite) == Stray(c, line, suite) && !Step(t, s, line).1.inserted
  {
    hide Usable, Pick, ShouldStrip, RewriteAudio;
    EmittedPick(c, t, EnterSection(s, line), line, suite);
    EmptyConcat(EmitLine(t, EnterSection(s, line), line).0);
    if IsMedia(line) {
      assert line[0] == 'm';
    }
  }

  lemma StrayOfOne(c: Primitives, line: string, rest: seq<string>, suite: SrtpSuite)
    ensures FirstStray(c, [line] + rest, suite) == OrElse(Stray(c, line, suite), FirstStray(c, rest, suite))
  {
    hide Stray;
    TailOfConcat([line], rest);
    EmptyConcat(rest);
  }

  /** What is picked from the rewritten lines: a stray one from before the first crypto lines, or else from those. */
  lemma {:induction false} PickOfRewrite(c: Primitives, t: Target, s: Scan, ls: seq<string>, suite: SrtpSuite)
    requires t.HasCrypto() && !s.inserted && Pick(c, t.Block(), suite).Some?
    ensures Pick(c, RewriteLines(t, s, ls), suite)
         == OrElse(FirstStray(c, BeforeCryptos(t, s, ls), suite),
                   if CryptosCome(t, s, ls) then Pick(c, t.Block(), suite) else None)
    decreases |ls|
  {
    hide Usable, Pick, Stray, Step, Writes;
    if ls != [] {
      var line, rest := ls[0], ls[1..];
      var (emitted, s') := Step(t, s, line);
      StepBeforeCryptos(c, t, s, line, suite);
      PickOfConcat(c, emitted, RewriteLines(t, s', rest), suite);
      if Writes(s, line) {
        assert emitted == t.Block() + emitted[|t.Block()|..];
        PickOfConcat(c, t.Block(), emitted[|t.Block()|..], suite);
      } else {
        PickOfRewrite(c, t, s', rest, suite);
        StrayOfOne(c, line, BeforeCryptos(t, s', rest), suite);
      }
    } else {
      PickOfNothing(c, suite);
    }
  }

  lemma PickOfNothing(c: Primitives, suite: SrtpSuite)
    ensures Pick(c, [], suite) == None && Pick(c, [""], suite) == None
  {
    assert Trim("") == "";
    if Usable(c, "").Some? {
      UsableStarts(c, "");
    }
  }

  /** With a suite that the crypto lines do not serve, what is picked is a stray line from anywhere. */
  lemma {:induction false} PickWithoutCryptos(c: Primitives, t: Target, s: Scan, ls: seq<string>, suite: SrtpSuite)
    requires t.HasCrypto() && Pick(c, t.Block(), suite).None?
    ensures Pick(c, RewriteLines(t, s, ls), suite) == FirstStray(c, ls, suite)
    decreases |ls|
  {
    hide Usable, Pick, Stray, ShouldStrip, RewriteAudio;
    PickOfNothing(c, suite);
    if ls != [] {
      var line, rest := ls[0], ls[1..];
      var (emitted, s') := Step(t, s, line);
      EmittedPick(c, t, EnterSection(s, line), line, suite);
      PickOfConcat(c, if IsMedia(line) then Owed(t, s) else [], EmitLine(t, EnterSection(s, line), line).0, suite);
      PickOfConcat(c, emitted, RewriteLines(t, s', rest), suite);
      PickWithoutCryptos(c, t, s', rest, suite);
    }
  }

  /** Crypto lines come in particular when some m=audio line has a port, a protocol and a format. */
  lemma {:induction false} FullAudioGetsCryptos(t: Target, s: Scan, ls: seq<string>)
    requires t.HasCrypto() && !s.inserted
    requires (s.inAudio && s.foundAudio) || exists i :: 0 <= i < |ls| && IsFullAudio(ls[i])
    ensures CryptosCome(t, s, ls)
    decreases |ls|
  {
    hide ShouldStrip, RewriteAudio;
    if ls != [] && !Writes(s, ls[0]) {
      var line := ls[0];
      if IsMedia(line) { assert line[0] == 'm'; }
      assert forall i :: 0 < i < |ls| ==> ls[i] == ls[1..][i - 1];
      FullAudioGetsCryptos(t, Step(t, s, line).1, ls[1..]);
    }
  }

  /** Where rewritten text and rewritten lines pick the same. */
  lemma PickOfText(c: Primitives, t: Target, sdp: string, suite: SrtpSuite)
    requires t.Valid()
    ensures Pick(c, Lines(Rewrite(t, sdp)), suite) == Pick(c, RewriteLines(t, START, Lines(sdp)), suite)
  {
    LinesOfRewrite(t, sdp);
    PickOfNothing(c, suite);
  }

  lemma PickOfBlock(c: Primitives, t: Target, tag: nat, keys: MasterKeys)
    requires LawfulBase64(c) && PlainBase64(c) && tag < U32_MOD && SaltFits(keys.suite, keys.salt)
    requires t.HasCrypto() && t.cryptos[0] == Advertised(c, tag, keys)
    ensures Pick(c, t.Block(), keys.suite) == Some((tag, keys))
    ensures |t.cryptos| == 1 ==> forall suite :: suite != keys.suite ==> Pick(c, t.Block(), suite) == None
  {
    hide Usable, Advertised;
    AdvertisedReadsBack(c, tag, keys);
    assert t.Block()[0] == t.cryptos[0].ToLine();
    assert |t.cryptos| == 1 ==> t.Block()[1..] == [];
  }

  /** No stray AES-CM key gets through before the server's own lines, or it is the same, and these lines come. */
  predicate AdvertisedComesFirst(c: Primitives, t: Target, sdp: string, tag: nat, keys: MasterKeys) {
    var stray := FirstStray(c, BeforeCryptos(t, START, Lines(sdp)), AesCm128HmacSha180);
    if stray.Some? then stray == Some((tag, keys)) else CryptosCome(t, START, Lines(sdp))
  }

  /** Reading a rewritten offer whose first crypto line is for AES-CM yields the stray AES-CM key that gets through
      before the server's own lines, if there is one; otherwise the key advertised there, if the lines come at all. */
  lemma OfferReadsBackExactly(c: Primitives, t: Target, sdp: string, tag: nat, keys: MasterKeys)
    requires LawfulBase64(c) && PlainBase64(c) && tag < U32_MOD && SaltFits(keys.suite, keys.salt)
    requires t.Valid() && t.HasCrypto() && t.cryptos[0] == Advertised(c, tag, keys) && keys.suite == AesCm128HmacSha180
    ensures var got := Extract(c, Rewrite(t, sdp));
      var stray := FirstStray(c, BeforeCryptos(t, START, Lines(sdp)), AesCm128HmacSha180);
      (stray.Some? ==> got == stray) && (got == Some((tag, keys)) <==> AdvertisedComesFirst(c, t, sdp, tag, keys))
  {
    hide Usable, Pick, FirstStray, BeforeCryptos, CryptosCome, Rewrite, Advertised, Lines;
    var out := Lines(Rewrite(t, sdp));
    ExtractPicks(c, Rewrite(t, sdp));
    PickIsFirst(c, out, AeadAes128Gcm);
    PickOfText(c, t, sdp, AesCm128HmacSha180);
    PickOfBlock(c, t, tag, keys);
    PickOfRewrite(c, t, START, Lines(sdp), AesCm128HmacSha180);
  }

  /** Reading a rewritten answer that advertises one GCM key: besides the same for GCM, a stray AES-CM key anywhere in
      the description comes first. */
  lemma GcmAnswerReadsBackExactly(c: Primitives, t: Target, sdp: string, tag: nat, keys: MasterKeys)
    requires LawfulBase64(c) && PlainBase64(c) && tag < U32_MOD && SaltFits(keys.suite, keys.salt)
    requires t.Valid() && t.cryptos == [Advertised(c, tag, keys)] && keys.suite == AeadAes128Gcm
    ensures var ls, got := Lines(sdp), Extract(c, Rewrite(t, sdp));
      var stray := OrElse(FirstStray(c, ls, AesCm128HmacSha180),
                          FirstStray(c, BeforeCryptos(t, START, ls), AeadAes128Gcm));
      && (stray.Some? ==> got == stray)
      && (got == Some((tag, keys)) <==> if stray.Some? then stray == Some((tag, keys)) else CryptosCome(t, START, ls))
  {
    hide Usable, Pick, FirstStray, BeforeCryptos, CryptosCome, Rewrite, Advertised, Lines;
    ExtractPicks(c, Rewrite(t, sdp));
    PickOfText(c, t, sdp, AesCm128HmacSha180);
    PickOfText(c, t, sdp, AeadAes128Gcm);
    PickOfBlock(c, t, tag, keys);
    PickWithoutCryptos(c, t, START, Lines(sdp), AesCm128HmacSha180);
    PickOfRewrite(c, t, START, Lines(sdp), AeadAes128Gcm);
  }

  lemma {:induction false} NoStrays(c: Primitives, lines: seq<string>, suite: SrtpSuite)
    requires forall line :: line in lines ==> !("crypto:" <= Trim(line))
    ensures FirstStray(c, lines, suite) == None
  {
    hide UsableAs, Usable, Trim;
    if lines != [] {
      assert lines[0] in lines;
      NoStrays(c, lines[1..], suite);
    }
  }

  lemma {:induction false} BeforeIsPrefix(t: Target, s: Scan, ls: seq<string>)
    ensures BeforeCryptos(t, s, ls) <= ls
    decreases |ls|
  {
    hide Step;
    if ls != [] && !Writes(s, ls[0]) {
      BeforeIsPrefix(t, Step(t, s, ls[0]).1, ls[1..]);
    }
  }

  /** In particular the advertised key is read when no line carries a crypto attribute without `a=` and some m=audio
      line is full. */
  lemma PlainOfferReadsBack(c: Primitives, t: Target, sdp: string, tag: nat, keys: MasterKeys)
    requires LawfulBase64(c) && PlainBase64(c) && tag < U32_MOD && SaltFits(keys.suite, keys.salt)
    requires t.Valid() && t.HasCrypto() && t.cryptos[0] == Advertised(c, tag, keys) && keys.suite == AesCm128HmacSha180
    requires forall line :: line in Lines(sdp) ==> !("crypto:" <= Trim(line))
    requires exists i :: 0 <= i < |Lines(sdp)| && IsFullAudio(Lines(sdp)[i])
    ensures Extract(c, Rewrite(t, sdp)) == Some((tag, keys))
  {
    hide Trim, Lines, IsFullAudio, Advertised, Rewrite, Extract;
    OfferReadsBackExactly(c, t, sdp, tag, keys);
    FullAudioGetsCryptos(t, START, Lines(sdp));
    BeforeIsPrefix(t, START, Lines(sdp));
    NoStrays(c, BeforeCryptos(t, START, Lines(sdp)), AesCm128HmacSha180);
  }

  /** A line that advertises master keys under a tag, but for the `a=`. */
  function StrayLine(c: Primitives, tag: nat, keys: MasterKeys): string {
    "crypto:" + Fields(tag, SuiteName(keys.suite), c.encode64(SdesOctets(keys)))
  }

  lemma StrayLineIsTrimmed(tag: nat, name: string, key: string)
    requires PlainKey(key)
    ensures Trimmed("crypto:" + Fields(tag, name, key))
  {
    var line, fields := "crypto:" + Fields(tag, name, key), Fields(tag, name, key);
    AdvertisedIsTrimmed(tag, name, key);
    LastChar("a=crypto:", fields);
    LastChar("crypto:", fields);
    hide Fields;
    assert line[0] == 'c';
  }

  lemma StrayParses(fields: string)
    requires Trimmed("crypto:" + fields)
    ensures var line := "crypto:" + fields;
      && Trim(line) == line && "crypto:" <= line && "crypto:" <= Lower(line) && ParseCrypto(line) == ParseFields(fields)
  {
    var line := "crypto:" + fields;
    TrimOfTrimmed(line);
    hide ParseFields, Trim;
    assert line[..7] == "crypto:" && line[7..] == fields && line[0] == 'c';
    assert Lower(line)[..7] == "crypto:";
  }

  lemma StrayLineParses(tag: nat, name: string, key: string)
    requires tag < U32_MOD && ' ' !in name && PlainKey(key)
    ensures var line := "crypto:" + Fields(tag, name, key);
      && ParseCrypto(line) == Some(Attribute(tag, name, key))
      && Trim(line) == line && "crypto:" <= line && "crypto:" <= Lower(line)
  {
    FieldsParse(tag, name, key);
    StrayLineIsTrimmed(tag, name, key);
    hide *;
    StrayParses(Fields(tag, name, key));
  }

  lemma UsableByImport(c: Primitives, line: string, attribute: Attribute)
    requires ParseCrypto(line) == Some(attribute) && Trim(line) == line && "crypto:" <= Lower(line)
    ensures Usable(c, line) == Import(c, Some(attribute))
  {
    hide ParseCrypto, Trim, Lower, Import;
  }

  lemma KeysImport(c: Primitives, tag: nat, keys: MasterKeys)
    requires LawfulBase64(c) && SaltFits(keys.suite, keys.salt)
    ensures Import(c, Some(Attribute(tag, SuiteName(keys.suite), c.encode64(SdesOctets(keys))))) == Some((tag, keys))
  {
    SuiteNamesRead(keys.suite);
    SdesRoundTrip(c, keys);
    hide SuiteName, SuiteOf, FromSdes;
  }

  lemma StrayLineIsUsable(c: Primitives, tag: nat, keys: MasterKeys)
    requires LawfulBase64(c) && PlainBase64(c) && tag < U32_MOD && SaltFits(keys.suite, keys.salt)
    ensures Stray(c, StrayLine(c, tag, keys), keys.suite) == Some((tag, keys))
  {
    var key, name := c.encode64(SdesOctets(keys)), SuiteName(keys.suite);
    assert PlainKey(key);
    SuiteNamesRead(keys.suite);
    StrayLineParses(tag, name, key);
    KeysImport(c, tag, keys);
    hide ParseCrypto, Trim, Lower, SuiteName, PlainKey, Fields, Import, Usable;
    UsableByImport(c, StrayLine(c, tag, keys), Attribute(tag, name, key));
  }

  /** For instance such a line in front wins over the server's own key. */
  lemma StrayKeyWins(c: Primitives, t: Target, sdp: string, tag: nat, keys: MasterKeys, strayTag: nat,
      stray: MasterKeys)
    requires LawfulBase64(c) && PlainBase64(c) && tag < U32_MOD && SaltFits(keys.suite, keys.salt)
    requires t.Valid() && t.HasCrypto() && t.cryptos[0] == Advertised(c, tag, keys) && keys.suite == AesCm128HmacSha180
    requires strayTag < U32_MOD && SaltFits(stray.suite, stray.salt) && stray.suite == AesCm128HmacSha180
    requires Lines(sdp) != [] && Lines(sdp)[0] == StrayLine(c, strayTag, stray)
    ensures Extract(c, Rewrite(t, sdp)) == Some((strayTag, stray))
  {
    hide Lines, Advertised, Rewrite, Extract, Stray, StrayLine;
    OfferReadsBackExactly(c, t, sdp, tag, keys);
    StrayLineIsUsable(c, strayTag, stray);
  }
}
