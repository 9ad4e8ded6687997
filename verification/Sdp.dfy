/** Rewriting of a session description: relay address and port, and the server's own SDES crypto lines. */
module Sdp {
  import opened Seqs
  import opened SipText

  datatype SdpCrypto = SdpCrypto(tag: nat, suite: string, keyB64: string)
  {
    function ToLine(): string {
      "a=crypto:" + Decimal(tag) + " " + suite + " inline:" + keyB64
    }
  }

  /** The crypto lines, in the order given. */
  function CryptoLines(cryptos: seq<SdpCrypto>): (ls: seq<string>)
    ensures |ls| == |cryptos|
  {
    seq(|cryptos|, i requires 0 <= i < |cryptos| => cryptos[i].ToLine())
  }

  /** What one call of `rewrite_sdp_with_cryptos` writes into the description. */
  datatype Target = Target(addr: string, port: nat, cryptos: seq<SdpCrypto>)
  {
    predicate HasCrypto() { cryptos != [] }

    function Block(): seq<string> { CryptoLines(cryptos) }

    /** Nothing that is written in spans lines. */
    ghost predicate Valid() {
      OneLine(addr) && AllOneLine(Block())
    }
  }

  const STRIPPED_PREFIXES := [
    "a=crypto:", "a=fingerprint:", "a=setup:", "a=connection:", "a=key-mgmt:", "a=ice-ufrag:", "a=ice-pwd:",
    "a=ice-options:", "a=candidate:", "a=end-of-candidates", "a=remote-candidates:", "a=rtcp:", "a=rtcp-mux",
    "a=rtcp-rsize"]

  predicate ShouldStrip(line: string) {
    exists i :: 0 <= i < |STRIPPED_PREFIXES| && STRIPPED_PREFIXES[i] <= Lower(Trim(line))
  }

  /** A crypto attribute, by the test that strips it outside audio sections. */
  predicate IsCrypto(line: string) { "a=crypto:" <= Lower(Trim(line)) }

  predicate IsMedia(line: string) { "m=" <= line }

  predicate IsAudio(line: string) { "m=audio" <= line }

  /** An audio line with a port, a protocol and at least one format. */
  predicate IsFullAudio(line: string) { IsAudio(line) && |Words(line)| >= 4 }

  function RewriteAudio(t: Target, line: string): string {
    var parts := Words(line);
    if |parts| < 4 then line
    else JoinWords(["m=audio", Decimal(t.port), if t.HasCrypto() then "RTP/SAVP" else parts[2]] + parts[3..])
  }

  /** The section state of the line loop. */
  datatype Scan = Scan(inAudio: bool, foundAudio: bool, inserted: bool)

  const START := Scan(false, false, false)

  /** The crypto lines owed to an audio section that is about to end at an m= line. */
  function Owed(t: Target, s: Scan): seq<string> {
    if s.inAudio && !s.inserted then t.Block() else []
  }

  /** The section state once an m= line, if this is one, has been seen. */
  function EnterSection(s: Scan, line: string): Scan {
    if IsMedia(line) then Scan(IsAudio(line), s.foundAudio, false) else s
  }

  /** The lines emitted for one line inside its section, and the state after it. */
  function EmitLine(t: Target, s: Scan, line: string): (seq<string>, Scan) {
    if "c=" <= line then (["c=IN IP4 " + t.addr], s)
    else if IsAudio(line) then ([RewriteAudio(t, line)], s.(foundAudio := s.foundAudio || |Words(line)| >= 4))
    else if s.inAudio && "a=crypto" <= line then (Owed(t, s), s.(inserted := true))
    else if t.HasCrypto() && ShouldStrip(line) then ([], s)
    else ([line], s)
  }

  /** One turn of the line loop. */
  function Step(t: Target, s: Scan, line: string): (seq<string>, Scan) {
    var (emitted, s') := EmitLine(t, EnterSection(s, line), line);
    ((if IsMedia(line) then Owed(t, s) else []) + emitted, s')
  }

  function RewriteLines(t: Target, s: Scan, ls: seq<string>): seq<string>
    decreases |ls|
  {
    if ls == [] then
      if s.foundAudio then Owed(t, s) else []
    else
      var (emitted, s') := Step(t, s, ls[0]);
      emitted + RewriteLines(t, s', ls[1..])
  }

  /** `rewrite_sdp_with_cryptos`: the lines joined by CRLF, with one more CRLF at the end. */
  function Rewrite(t: Target, sdp: string): string {
    var ls := RewriteLines(t, START, Lines(sdp));
    if ls == [] then CRLF else Print(ls)
  }

  /** The part of the line loop after the section switch: appends what one line becomes. */
  method RewriteLine(t: Target, line: string, result: seq<string>, inAudio: bool, foundAudio: bool, inserted: bool)
    returns (r: seq<string>, foundAudio': bool, inserted': bool)
    ensures r == result + EmitLine(t, Scan(inAudio, foundAudio, inserted), line).0
    ensures Scan(inAudio, foundAudio', inserted') == EmitLine(t, Scan(inAudio, foundAudio, inserted), line).1
  {
    r, foundAudio', inserted' := result, foundAudio, inserted;
    if "c=" <= line {
      r := r + ["c=IN IP4 " + t.addr];
    } else if "m=audio" <= line {
      var parts := Words(line);
      if |parts| >= 4 {
        var proto := if t.HasCrypto() then "RTP/SAVP" else parts[2];
        r := r + [JoinWords(["m=audio", Decimal(t.port), proto] + parts[3..])];
        foundAudio' := true;
      } else {
        r := r + [line];
      }
    } else if inAudio && "a=crypto" <= line {
      if !inserted {
        r := PushCryptoLines(r, t.cryptos);
        inserted' := true;
      }
    } else if !(t.HasCrypto() && ShouldStrip(line)) {
      r := r + [line];
    }
  }

  method RewriteSdpWithCryptos(sdp: string, relayAddr: string, relayPort: nat, cryptos: seq<SdpCrypto>)
    returns (out: string)
    ensures out == Rewrite(Target(relayAddr, relayPort, cryptos), sdp)
  {
    var t := Target(relayAddr, relayPort, cryptos);
    var lines := Lines(sdp);
    var result: seq<string> := [];
    var inAudio, foundAudio, cryptoInserted := false, false, false;
    for i := 0 to |lines|
      invariant RewriteLines(t, START, lines)
             == result + RewriteLines(t, Scan(inAudio, foundAudio, cryptoInserted), lines[i..])
    {
      var line := lines[i];
      ghost var before, s, rest := result, Scan(inAudio, foundAudio, cryptoInserted), lines[i..];
      assert rest[1..] == lines[i + 1..];
      if IsMedia(line) {
        if inAudio && !cryptoInserted && t.HasCrypto() {
          result := PushCryptoLines(result, cryptos);
        }
        inAudio := IsAudio(line);
        cryptoInserted := false;
      }
      result, foundAudio, cryptoInserted := RewriteLine(t, line, result, inAudio, foundAudio, cryptoInserted);
      EmptyConcat(before);
      Assoc(before, if IsMedia(line) then Owed(t, s) else [], EmitLine(t, EnterSection(s, line), line).0);
      StepMovesLines(t, s, before, rest);
    }
    assert lines[|lines|..] == [];
    EmptyConcat(result);
    if inAudio && foundAudio && !cryptoInserted && t.HasCrypto() {
      result := PushCryptoLines(result, cryptos);
    }
    out := if result == [] then CRLF else Print(result);
  }

  lemma StepMovesLines(t: Target, s: Scan, before: seq<string>, rest: seq<string>)
    requires rest != []
    ensures before + RewriteLines(t, s, rest)
         == (before + Step(t, s, rest[0]).0) + RewriteLines(t, Step(t, s, rest[0]).1, rest[1..])
  {
    Assoc(before, Step(t, s, rest[0]).0, RewriteLines(t, Step(t, s, rest[0]).1, rest[1..]));
  }

  method PushCryptoLines(result: seq<string>, cryptos: seq<SdpCrypto>) returns (r: seq<string>)
    ensures r == result + CryptoLines(cryptos)
  {
    r := result;
    for i := 0 to |cryptos|
      invariant r == result + CryptoLines(cryptos)[..i]
    {
      r := r + [cryptos[i].ToLine()];
    }
  }

  // ----- facts about single lines -----

  lemma CryptoLineFacts(c: SdpCrypto)
    ensures "a=crypto" <= c.ToLine() && IsCrypto(c.ToLine())
    ensures !IsMedia(c.ToLine()) && !("c=" <= c.ToLine())
  {
    var line := c.ToLine();
    assert line[..9] == "a=crypto:";
    TrimEndKeepsPrefix(line, "a=crypto:");
    var trimmed := Trim(line);
    assert trimmed == TrimEnd(line);
    assert Lower(trimmed)[..9] == "a=crypto:";
  }

  lemma {:induction false} TrimEndKeepsPrefix(s: string, p: string)
    requires p <= s && p != "" && !IsSpace(p[|p| - 1])
    ensures p <= TrimEnd(s)
  {
    if IsSpace(s[|s| - 1]) {
      assert p <= s[..|s| - 1];
      TrimEndKeepsPrefix(s[..|s| - 1], p);
    }
  }

  /** A line that starts with a lower-case letter other than `a` is not a stripped attribute. */
  lemma OtherLinesNotStripped(line: string)
    requires line != "" && !IsSpace(line[0]) && LowerChar(line[0]) != 'a'
    ensures !ShouldStrip(line) && !IsCrypto(line)
  {
    TrimIsTrimmed(line);
    var low := Lower(Trim(line));
    assert low[0] == LowerChar(line[0]);
    forall i | 0 <= i < |STRIPPED_PREFIXES| ensures !(STRIPPED_PREFIXES[i] <= low) {
      assert STRIPPED_PREFIXES[i][0] == 'a';
    }
  }

  lemma CryptoIsStripped(line: string)
    requires IsCrypto(line)
    ensures ShouldStrip(line)
  {
    assert STRIPPED_PREFIXES[0] <= Lower(Trim(line));
  }

  lemma RewriteAudioFacts(t: Target, line: string)
    requires IsAudio(line)
    ensures var r := RewriteAudio(t, line);
      && IsAudio(r) && RewriteAudio(t, r) == r && (|Words(r)| >= 4 <==> |Words(line)| >= 4)
      && (OneLine(line) ==> OneLine(r))
  {
    var parts := Words(line);
    if |parts| >= 4 {
      DecimalIsWord(t.port);
      var fields := ["m=audio", Decimal(t.port), if t.HasCrypto() then "RTP/SAVP" else parts[2]] + parts[3..];
      assert AllWords(fields);
      WordsOfJoin(fields);
      JoinOfWordsIsOneLine(fields);
      assert fields[1..] != [] && JoinWords(fields)[..7] == "m=audio";
    }
  }

  lemma {:induction false} JoinOfWordsIsOneLine(ws: seq<string>)
    requires AllWords(ws)
    ensures OneLine(JoinWords(ws))
  {
    if ws != [] {
      assert IsWord(ws[0]);
      JoinOfWordsIsOneLine(ws[1..]);
    }
  }

  // ----- idempotence -----

  /** Crypto lines met in an audio section are replaced, all together, by the given ones. */
  lemma {:induction false} RewriteBlock(t: Target, s: Scan, block: seq<string>, rest: seq<string>)
    requires s.inAudio
    requires forall i :: 0 <= i < |block| ==> "a=crypto" <= block[i] && !IsMedia(block[i]) && !("c=" <= block[i])
    ensures RewriteLines(t, s, block + rest)
         == if block == [] then RewriteLines(t, s, rest)
            else Owed(t, s) + RewriteLines(t, s.(inserted := true), rest)
    decreases |block|
  {
    if block == [] {
      assert block + rest == rest;
    } else {
      assert (block + rest)[1..] == block[1..] + rest;
      RewriteBlock(t, s.(inserted := true), block[1..], rest);
    }
  }

  /** Rewriting a block of the target's own lines in an audio section keeps exactly one copy. */
  lemma RewriteOwnBlock(t: Target, s: Scan, rest: seq<string>)
    requires s.inAudio && !s.inserted
    ensures RewriteLines(t, s, t.Block() + rest)
         == t.Block() + RewriteLines(t, if t.HasCrypto() then s.(inserted := true) else s, rest)
  {
    var block := t.Block();
    forall i | 0 <= i < |block|
      ensures "a=crypto" <= block[i] && !IsMedia(block[i]) && !("c=" <= block[i])
    {
      CryptoLineFacts(t.cryptos[i]);
    }
    RewriteBlock(t, s, block, rest);
    assert block == [] ==> block + rest == rest;
  }

  /** A line that was kept is kept again, and moves the section state the same way. */
  lemma KeptLineIsFixed(t: Target, s: Scan, line: string)
    requires EmitLine(t, s, line).0 != [] && !(s.inAudio && "a=crypto" <= line)
    ensures var (emitted, s') := EmitLine(t, s, line);
      && |emitted| == 1
      && EmitLine(t, s, emitted[0]) == (emitted, s')
      && IsMedia(emitted[0]) == IsMedia(line) && IsAudio(emitted[0]) == IsAudio(line)
  {
    if IsAudio(line) {
      assert !("c=" <= line) by { assert line[0] == 'm'; }
      RewriteAudioFacts(t, line);
      var r := RewriteAudio(t, line);
      assert r[0] == 'm' && r[1] == '=';
    } else if "c=" <= line {
      var r := "c=IN IP4 " + t.addr;
      assert r[..2] == "c=" && r[0] == 'c' && line[0] == 'c';
    }
  }

  lemma MediaLineIsKept(t: Target, s: Scan, line: string)
    requires IsMedia(line)
    ensures EmitLine(t, s, line).0 != [] && !("a=crypto" <= line) && !("c=" <= line)
  {
    assert line[0] == 'm';
    OtherLinesNotStripped(line);
  }

  lemma TwiceAtMediaLine(t: Target, s: Scan, line: string, rest: seq<string>)
    requires IsMedia(line)
    requires RewriteLines(t, EmitLine(t, EnterSection(s, line), line).1, rest) == rest
    ensures var out := Owed(t, s) + EmitLine(t, EnterSection(s, line), line).0 + rest; RewriteLines(t, s, out) == out
  {
    var s1 := EnterSection(s, line);
    var (emitted, s2) := EmitLine(t, s1, line);
    var owed := Owed(t, s);
    var s0 := if owed == [] then s else s.(inserted := true);
    MediaLineIsKept(t, s1, line);
    KeptLineIsFixed(t, s1, line);
    assert RewriteLines(t, s0, emitted + rest) == emitted + rest by {
      assert Owed(t, s0) == [] && [] + emitted == emitted;
      assert EnterSection(s0, emitted[0]) == s1 && Step(t, s0, emitted[0]) == (emitted, s2);
      assert (emitted + rest)[1..] == rest;
    }
    Assoc(owed, emitted, rest);
    if owed == [] {
      EmptyConcat(emitted + rest);
    } else {
      RewriteOwnBlock(t, s, emitted + rest);
    }
  }

  lemma TwiceInsideSection(t: Target, s: Scan, line: string, rest: seq<string>)
    requires !IsMedia(line) && RewriteLines(t, EmitLine(t, s, line).1, rest) == rest
    ensures var out := EmitLine(t, s, line).0 + rest; RewriteLines(t, s, out) == out
  {
    var emitted := EmitLine(t, s, line).0;
    if emitted == [] {
      assert emitted + rest == rest;
      if s.inAudio && "a=crypto" <= line && !s.inserted {
        WithoutCryptosInsertedIsIdle(t, s, rest);
      }
    } else if s.inAudio && "a=crypto" <= line {
      assert line[0] == 'a';
      RewriteOwnBlock(t, s, rest);
    } else {
      KeptLineIsFixed(t, s, line);
      assert (emitted + rest)[1..] == rest;
    }
  }

  lemma {:induction false} RewriteLinesTwice(t: Target, s: Scan, ls: seq<string>)
    ensures RewriteLines(t, s, RewriteLines(t, s, ls)) == RewriteLines(t, s, ls)
    decreases |ls|
  {
    if ls == [] {
      if s.foundAudio && s.inAudio && !s.inserted {
        RewriteOwnBlock(t, s, []);
        assert t.Block() + [] == t.Block();
      }
    } else {
      var s2 := EmitLine(t, EnterSection(s, ls[0]), ls[0]).1;
      RewriteLinesTwice(t, s2, ls[1..]);
      if IsMedia(ls[0]) {
        TwiceAtMediaLine(t, s, ls[0], RewriteLines(t, s2, ls[1..]));
      } else {
        TwiceInsideSection(t, s, ls[0], RewriteLines(t, s2, ls[1..]));
        assert [] + EmitLine(t, s, ls[0]).0 == EmitLine(t, s, ls[0]).0;
      }
    }
  }

  /** With no crypto lines to insert, whether some were inserted makes no difference. */
  lemma {:induction false} WithoutCryptosInsertedIsIdle(t: Target, s: Scan, ls: seq<string>)
    requires !t.HasCrypto()
    ensures RewriteLines(t, s, ls) == RewriteLines(t, s.(inserted := true), ls)
    decreases |ls|
  {
    if ls != [] {
      var s1 := EmitLine(t, EnterSection(s, ls[0]), ls[0]).1;
      WithoutCryptosInsertedIsIdle(t, s1, ls[1..]);
    }
  }

  lemma {:induction false} RewrittenLinesAreLines(t: Target, s: Scan, ls: seq<string>)
    requires t.Valid() && AllOneLine(ls)
    ensures AllOneLine(RewriteLines(t, s, ls))
    decreases |ls|
  {
    if ls != [] {
      var s1 := EnterSection(s, ls[0]);
      var (emitted, s2) := EmitLine(t, s1, ls[0]);
      RewrittenLinesAreLines(t, s2, ls[1..]);
      if IsAudio(ls[0]) {
        RewriteAudioFacts(t, ls[0]);
      }
    }
  }

  /** Rewriting is idempotent on every description. */
  lemma RewriteTwice(t: Target, sdp: string)
    requires t.Valid()
    ensures Rewrite(t, Rewrite(t, sdp)) == Rewrite(t, sdp)
  {
    var ls := RewriteLines(t, START, Lines(sdp));
    RewrittenLinesAreLines(t, START, Lines(sdp));
    if ls == [] {
      LinesOfPrint([""], "");
      assert Print([""]) + "" == CRLF;
      assert Lines(CRLF) == [""];
      EmptyLineIsKept(t);
    } else {
      LinesOfPrint(ls, "");
      assert Print(ls) + "" == Print(ls) && ls + Lines("") == ls;
      RewriteLinesTwice(t, START, Lines(sdp));
    }
  }

  lemma EmptyLineIsKept(t: Target)
    ensures RewriteLines(t, START, [""]) == [""]
  {
    assert Trim("") == "" && Lower("") == "";
    assert !ShouldStrip("");
  }
}
