/** SDES crypto attributes in a session description: which one is picked, and how an advertised one reads back. */
module SdesLines {
  import opened Seqs
  import opened Wrappers
  import opened SipText
  import opened Srtp
  import opened SrtpContext
  import Sdp
  import Framing

  const U32_MOD := 0x1_0000_0000

  const AES_CM_NAME := "AES_CM_128_HMAC_SHA1_80"
  const GCM_NAME := "AEAD_AES_128_GCM"

  function SuiteName(suite: SrtpSuite): string { if suite.AesCm128HmacSha180? then AES_CM_NAME else GCM_NAME }

  /** Suite names compare without regard to case. */
  function SuiteOf(name: string): Option<SrtpSuite> {
    if Lower(name) == Lower(AES_CM_NAME) then Some(AesCm128HmacSha180)
    else if Lower(name) == Lower(GCM_NAME) then Some(AeadAes128Gcm)
    else None
  }

  /** Position of the first such character, or the length. */
  function Find(s: string, c: char): (n: nat)
    ensures n <= |s| && c !in s[..n] && (n < |s| ==> s[n] == c)
  {
    if s == "" || s[0] == c then 0
    else
      var n := 1 + Find(s[1..], c);
      assert s[..n] == [s[0]] + s[1..][..n - 1];
      n
  }

  /** An attribute's tag, suite name and key text. */
  datatype Attribute = Attribute(tag: nat, suite: string, key: string)

  /** The part of `parse_crypto_attribute` after the crypto prefix. */
  function ParseFields(rest: string): Option<Attribute> {
    var i := Find(rest, ' ');
    if i == |rest| then None
    else
      var rest1 := rest[i + 1..];
      var j := Find(rest1, ' ');
      if j == |rest1| then None
      else
        var tag, key := Framing.ParseUnsigned(rest[..i], U32_MOD), rest1[j + 1..];
        if tag.None? || !("inline:" <= key) then None
        else
          var text := key[7..][..Find(key[7..], '|')];
          if text == "" then None else Some(Attribute(tag.value, rest1[..j], text))
  }

  /** `parse_crypto_attribute`. */
  function ParseCrypto(text: string): Option<Attribute> {
    var line := Trim(text);
    var content := if "a=" <= line then line[2..] else line;
    if "crypto:" <= content then ParseFields(content[7..]) else None
  }

  /** The tag and master keys of a line that carries a usable crypto attribute. */
  function Usable(c: Primitives, line: string): Option<(nat, MasterKeys)> {
    var trimmed := Trim(line);
    if !("a=crypto" <= Lower(trimmed)) && !("crypto:" <= Lower(trimmed)) then None else Import(c, ParseCrypto(trimmed))
  }

  function Import(c: Primitives, parsed: Option<Attribute>): Option<(nat, MasterKeys)> {
    if parsed.None? || SuiteOf(parsed.value.suite).None? then None
    else
      match FromSdes(c, SuiteOf(parsed.value.suite).value, parsed.value.key)
      case Err(_) => None
      case Ok(keys) => Some((parsed.value.tag, keys))
  }

  predicate UsableAs(c: Primitives, line: string, suite: SrtpSuite) {
    Usable(c, line).Some? && Usable(c, line).value.1.suite == suite
  }

  /** The position of the first line usable with a suite, or the number of lines. */
  function FirstUsable(c: Primitives, lines: seq<string>, suite: SrtpSuite): (n: nat)
    ensures n <= |lines| && (n < |lines| ==> UsableAs(c, lines[n], suite))
    ensures forall i :: 0 <= i < n ==> !UsableAs(c, lines[i], suite)
    decreases |lines|
  {
    if lines == [] || UsableAs(c, lines[0], suite) then 0 else 1 + FirstUsable(c, lines[1..], suite)
  }

  /** What a description offers: its first usable AES-CM attribute, or else its first usable GCM attribute. */
  function Extract(c: Primitives, sdp: string): Option<(nat, MasterKeys)> {
    var lines := Lines(sdp);
    var i, j := FirstUsable(c, lines, AesCm128HmacSha180), FirstUsable(c, lines, AeadAes128Gcm);
    if i < |lines| then Usable(c, lines[i])
    else if j < |lines| then Usable(c, lines[j])
    else None
  }

  lemma FirstUsableIs(c: Primitives, lines: seq<string>, suite: SrtpSuite, n: nat)
    requires n <= |lines| && (n < |lines| ==> UsableAs(c, lines[n], suite))
    requires forall i :: 0 <= i < n ==> !UsableAs(c, lines[i], suite)
    ensures FirstUsable(c, lines, suite) == n
  {
  }

  /** `extract_srtp_crypto_from_sdp`. */
  method ExtractSrtpCrypto(c: Primitives, sdp: string) returns (r: Option<(nat, MasterKeys)>)
    ensures r == Extract(c, sdp)
  {
    hide Usable;
    var gcmFallback: Option<(nat, MasterKeys)> := None;
    ghost var gcmAt := 0;
    var lines := Lines(sdp);
    for i := 0 to |lines|
      invariant forall k :: 0 <= k < i ==> !UsableAs(c, lines[k], AesCm128HmacSha180)
      invariant gcmFallback.None? ==> forall k :: 0 <= k < i ==> !UsableAs(c, lines[k], AeadAes128Gcm)
      invariant gcmFallback.Some? ==> gcmAt < i && FirstUsable(c, lines, AeadAes128Gcm) == gcmAt
      invariant gcmFallback.Some? ==> gcmFallback == Usable(c, lines[gcmAt])
    {
      var usable := Usable(c, lines[i]);
      if usable.Some? {
        if usable.value.1.suite == AesCm128HmacSha180 {
          FirstUsableIs(c, lines, AesCm128HmacSha180, i);
          return usable;
        }
        if gcmFallback.None? {
          gcmFallback := usable;
          gcmAt := i;
          FirstUsableIs(c, lines, AeadAes128Gcm, i);
        }
      }
    }
    FirstUsableIs(c, lines, AesCm128HmacSha180, |lines|);
    if gcmFallback.None? { FirstUsableIs(c, lines, AeadAes128Gcm, |lines|); }
    return gcmFallback;
  }

  // ----- reading back what was advertised -----

  /** The line that advertises master keys under a tag. */
  function Advertised(c: Primitives, tag: nat, keys: MasterKeys): Sdp.SdpCrypto {
    Sdp.SdpCrypto(tag, SuiteName(keys.suite), c.encode64(SdesOctets(keys)))
  }

  /** Base64 text is not empty for a non-empty input and holds no bar and no white space. */
  ghost predicate PlainBase64(c: Primitives) {
    forall b :: PlainKey(c.encode64(b)) || |b| == 0
  }

  predicate PlainKey(key: string) { key != "" && '|' !in key && forall i :: 0 <= i < |key| ==> !IsSpace(key[i]) }

  lemma {:induction false} FindAfter(a: string, c: char, b: string)
    requires c !in a
    ensures Find(a + ([c] + b), c) == |a|
    decreases |a|
  {
    if a == "" {
      EmptyConcat([c] + b);
    } else {
      TailOfConcat(a, [c] + b);
      FindAfter(a[1..], c, b);
    }
  }

  lemma {:induction false} FindNowhere(a: string, c: char)
    requires c !in a
    ensures Find(a, c) == |a|
    decreases |a|
  {
    if a != "" {
      FindNowhere(a[1..], c);
    }
  }

  lemma FindSplits(a: string, c: char, b: string)
    requires c !in a
    ensures var s := a + ([c] + b); Find(s, c) == |a| < |s| && s[..|a|] == a && s[|a| + 1..] == b
  {
    FindAfter(a, c, b);
  }

  lemma DecimalParses(tag: nat)
    requires tag < U32_MOD
    ensures Framing.ParseUnsigned(Decimal(tag), U32_MOD) == Some(tag) && ' ' !in Decimal(tag)
  {
    DigitsValueOfDecimal(tag);
    var s := Decimal(tag);
    assert IsDigit(s[0]);
    assert !IsDigit(' ');
  }

  function Fields(tag: nat, name: string, key: string): string {
    Decimal(tag) + ([' '] + (name + ([' '] + ("inline:" + key))))
  }

  lemma FieldsParse(tag: nat, name: string, key: string)
    requires tag < U32_MOD && ' ' !in name && key != "" && '|' !in key
    ensures ParseFields(Fields(tag, name, key)) == Some(Attribute(tag, name, key))
  {
    var inline, rest1 := "inline:" + key, name + ([' '] + ("inline:" + key));
    DecimalParses(tag);
    hide Find, Framing.ParseUnsigned, Decimal;
    FindSplits(Decimal(tag), ' ', rest1);
    FindSplits(name, ' ', inline);
    assert inline[7..] == key && "inline:" <= inline;
    FindNowhere(key, '|');
    assert key[..|key|] == key;
  }

  lemma LineOfFields(tag: nat, name: string, key: string)
    ensures Sdp.SdpCrypto(tag, name, key).ToLine() == "a=crypto:" + Fields(tag, name, key)
  {
    hide Decimal;
    var d, k := Decimal(tag), "inline:" + key;
    Assoc("a=crypto:", d, [' '] + (name + ([' '] + k)));
    Assoc("a=crypto:" + d, [' '], name + ([' '] + k));
    Assoc("a=crypto:" + d + " ", name, [' '] + k);
    Assoc("a=crypto:" + d + " " + name, [' '], k);
    assert " inline:" == [' '] + "inline:";
    Assoc("a=crypto:" + d + " " + name, " inline:", key);
    Assoc([' '], "inline:", key);
  }

  lemma LastChar(a: string, b: string)
    requires b != ""
    ensures (a + b)[|a + b| - 1] == b[|b| - 1]
  {
  }

  lemma AdvertisedIsTrimmed(tag: nat, name: string, key: string)
    requires PlainKey(key)
    ensures Trimmed("a=crypto:" + Fields(tag, name, key))
  {
    hide Decimal;
    var rest := name + ([' '] + ("inline:" + key));
    LastChar("inline:", key);
    LastChar([' '], "inline:" + key);
    LastChar(name, [' '] + ("inline:" + key));
    LastChar([' '], rest);
    LastChar(Decimal(tag), [' '] + rest);
    LastChar("a=crypto:", Fields(tag, name, key));
    TailOfConcat("a=crypto:", Fields(tag, name, key));
  }

  lemma AdvertisedLineParses(tag: nat, name: string, key: string)
    requires tag < U32_MOD && ' ' !in name && PlainKey(key)
    ensures ParseCrypto(Sdp.SdpCrypto(tag, name, key).ToLine()) == Some(Attribute(tag, name, key))
    ensures var line := Sdp.SdpCrypto(tag, name, key).ToLine(); Trim(line) == line && "a=crypto:" <= line
  {
    FieldsParse(tag, name, key);
    LineOfFields(tag, name, key);
    AdvertisedIsTrimmed(tag, name, key);
    hide ParseFields, Fields, Trimmed;
    var fields := Fields(tag, name, key);
    TrimOfTrimmed("a=crypto:" + fields);
    PrefixesOf(fields);
    hide Trim;
  }

  lemma PrefixesOf(fields: string)
    ensures var line := "a=crypto:" + fields;
      && "a=crypto:" <= line && "a=" <= line && "crypto:" <= line[2..] && line[2..][7..] == fields
  {
    var line := "a=crypto:" + fields;
    assert line[2..] == "crypto:" + fields;
  }

  lemma LowerKeepsPrefix(s: string)
    requires "a=crypto:" <= s
    ensures "a=crypto" <= Lower(s)
  {
    assert Lower(s)[..8] == "a=crypto";
  }

  lemma SuiteNamesRead(suite: SrtpSuite)
    ensures SuiteOf(SuiteName(suite)) == Some(suite) && ' ' !in SuiteName(suite)
  {
    assert |Lower(AES_CM_NAME)| != |Lower(GCM_NAME)|;
  }

  /** Whoever reads an advertised line with this code gets exactly the tag and the master keys behind it. */
  lemma AdvertisedReadsBack(c: Primitives, tag: nat, keys: MasterKeys)
    requires LawfulBase64(c) && PlainBase64(c) && tag < U32_MOD && SaltFits(keys.suite, keys.salt)
    ensures Usable(c, Advertised(c, tag, keys).ToLine()) == Some((tag, keys))
  {
    var key, name := c.encode64(SdesOctets(keys)), SuiteName(keys.suite);
    assert PlainKey(key);
    SuiteNamesRead(keys.suite);
    AdvertisedLineParses(tag, name, key);
    LowerKeepsPrefix(Advertised(c, tag, keys).ToLine());
    SdesRoundTrip(c, keys);
    hide ParseCrypto, Trim, Lower, SuiteName, SuiteOf, FromSdes, PlainKey;
  }

  // ----- crypto lines by their text -----

  /** What the server advertises, as text. */
  lemma AdvertisedText(c: Primitives, tag: nat, keys: MasterKeys)
    ensures Advertised(c, tag, keys).ToLine() ==
      var aes := keys.suite == AesCm128HmacSha180;
      "a=crypto:" + Decimal(tag) + " " + (if aes then "AES_CM_128_HMAC_SHA1_80" else "AEAD_AES_128_GCM") + " inline:"
        + c.encode64(keys.key + if aes then keys.salt else keys.salt[..12])
  {
    hide Decimal;
    assert keys.salt[..14] == keys.salt;
  }

  lemma LowerAesCm()
    ensures Lower("AES_CM_128_HMAC_SHA1_80") == "aes_cm_128_hmac_sha1_80"
  {
  }

  lemma LowerGcm()
    ensures Lower("AEAD_AES_128_GCM") == "aead_aes_128_gcm"
  {
  }

  /** The two suites known, by their names in any case. */
  lemma SuiteByName(name: string)
    ensures SuiteOf(name) ==
      if Lower(name) == "aes_cm_128_hmac_sha1_80" then Some(AesCm128HmacSha180)
      else if Lower(name) == "aead_aes_128_gcm" then Some(AeadAes128Gcm)
      else None
  {
    hide Lower;
    LowerAesCm();
    LowerGcm();
  }

  /** The text of a crypto attribute in its parts; session parameters follow a bar. */
  function AttributeText(start: string, tag: string, suite: string, key: string, params: string): string {
    start + FieldsText(tag, suite, key, params)
  }

  function FieldsText(tag: string, suite: string, key: string, params: string): string {
    tag + ([' '] + (suite + ([' '] + ("inline:" + (key + params)))))
  }

  /** The master keys in a key text. */
  function KeysIn(c: Primitives, suite: SrtpSuite, key: string): Option<MasterKeys> {
    match c.decode64(key)
    case None => None
    case Some(octets) =>
      if suite == AesCm128HmacSha180 then
        if |octets| == 30 then Some(MasterKeys(suite, octets[..16], octets[16..])) else None
      else
        if |octets| == 28 then Some(MasterKeys(suite, octets[..16], octets[16..] + [0, 0])) else None
  }

  lemma ImportExactly(c: Primitives, a: Attribute)
    ensures Import(c, Some(a)) ==
      var keys := if SuiteOf(a.suite).None? then None else KeysIn(c, SuiteOf(a.suite).value, a.key);
      if keys.None? then None else Some((a.tag, keys.value))
  {
    if SuiteOf(a.suite).Some? {
      SdesKeysExactly(c, SuiteOf(a.suite).value, a.key);
    }
    hide SuiteOf, FromSdes;
  }

  lemma UsableOnceTrimmed(c: Primitives, line: string)
    requires Trimmed(line) && ("a=crypto" <= Lower(line) || "crypto:" <= Lower(line))
    ensures Usable(c, line) == Import(c, ParseCrypto(line))
  {
    TrimOfTrimmed(line);
    hide Trim, Lower, ParseCrypto, Import;
  }

  /** A crypto line is usable exactly if its tag is a number of 32 bits, its suite one of the two known, and its key
      decodes to 30 or 28 octets; then it carries this tag and these keys, whatever session parameters follow. */
  lemma LineReadExactly(c: Primitives, start: string, tag: string, suite: string, key: string, params: string)
    requires start in {"a=crypto:", "crypto:"} && ' ' !in tag && ' ' !in suite && '|' !in key
    requires params == "" || params[0] == '|'
    requires Trimmed(AttributeText(start, tag, suite, key, params))
    ensures Usable(c, AttributeText(start, tag, suite, key, params)) ==
      var number := Framing.ParseUnsigned(tag, 0x1_0000_0000);
      var keys := if key == "" || SuiteOf(suite).None? then None else KeysIn(c, SuiteOf(suite).value, key);
      if number.None? || keys.None? then None else Some((number.value, keys.value))
  {
    var line, fields := AttributeText(start, tag, suite, key, params), FieldsText(tag, suite, key, params);
    assert line == start + fields;
    hide *;
    AttributeStart(start, fields);
    UsableOnceTrimmed(c, line);
    FieldsReadExactly(tag, suite, key, params);
    var number := Framing.ParseUnsigned(tag, 0x1_0000_0000);
    NothingImported(c);
    if number.Some? {
      ImportExactly(c, Attribute(number.value, suite, key));
    }
  }

  lemma NothingImported(c: Primitives)
    ensures Import(c, None) == None
  {
  }

  lemma AttributeStart(start: string, fields: string)
    requires start in {"a=crypto:", "crypto:"} && Trimmed(start + fields)
    ensures ParseCrypto(start + fields) == ParseFields(fields)
    ensures "a=crypto" <= Lower(start + fields) || "crypto:" <= Lower(start + fields)
  {
    var line := start + fields;
    TrimOfTrimmed(line);
    hide Trim, ParseFields;
    if start == "a=crypto:" {
      PrefixesOf(fields);
      LowerKeepsPrefix(line);
    } else {
      assert line[7..] == fields && line[0] == 'c';
      assert Lower(line)[..7] == "crypto:";
    }
  }

  lemma FieldsReadExactly(tag: string, suite: string, key: string, params: string)
    requires ' ' !in tag && ' ' !in suite && '|' !in key && (params == "" || params[0] == '|')
    ensures ParseFields(FieldsText(tag, suite, key, params)) ==
      var number := Framing.ParseUnsigned(tag, 0x1_0000_0000);
      if number.None? || key == "" then None else Some(Attribute(number.value, suite, key))
  {
    var inline := "inline:" + (key + params);
    var rest1 := suite + ([' '] + inline);
    hide Find, Framing.ParseUnsigned;
    FindSplits(tag, ' ', rest1);
    FindSplits(suite, ' ', inline);
    assert inline[7..] == key + params && "inline:" <= inline;
    if params == "" {
      FindNowhere(key, '|');
      EmptyConcat(key);
      assert key[..|key|] == key;
    } else {
      assert params == ['|'] + params[1..];
      FindSplits(key, '|', params[1..]);
    }
  }
}
