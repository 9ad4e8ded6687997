/** The crypto context object: key derivation, SDES import and export, and in-place protection of packets. */
module SrtpContext {
  import opened Words
  import opened Wrappers
  import opened PacketIndex
  import opened Srtp
  import opened SrtpWire
  import Rtp

  const LABEL_CIPHER_KEY: byte := 0
  const LABEL_AUTH_KEY: byte := 1
  const LABEL_SALT: byte := 2
  const MASTER_KEY_LEN := 16
  const ZERO_SALT: Salt := [0, 0, 0, 0, 0, 0, 0, 0, 0, 0, 0, 0, 0, 0]
  const ZERO_DIGEST: Digest := [0, 0, 0, 0, 0, 0, 0, 0, 0, 0, 0, 0, 0, 0, 0, 0, 0, 0, 0, 0]

  // ----- key derivation -----

  /** The AES-CM input for block `block` of the key material under a label (section 4.3.1 of RFC 3711). */
  function PrfBlock(masterSalt: Salt, purpose: byte, block: nat): Block {
    masterSalt[7 := Xor(masterSalt[7], purpose)] + U16ToBytes(block % SEQ_MOD)
  }

  /** The first n octets of key material under a label. */
  function Prf(c: Primitives, masterKey: Block, masterSalt: Salt, purpose: byte, n: nat): (r: bytes)
    ensures |r| == n
    ensures forall i :: 0 <= i < n ==> r[i] == c.aes(masterKey, PrfBlock(masterSalt, purpose, i / 16))[i % 16]
  {
    seq<byte>(n, i requires 0 <= i < n => c.aes(masterKey, PrfBlock(masterSalt, purpose, i / 16))[i % 16])
  }

  lemma PrfExtends(c: Primitives, masterKey: Block, masterSalt: Salt, purpose: byte, counter: nat, n: nat)
    requires n <= 16
    ensures Prf(c, masterKey, masterSalt, purpose, 16 * counter + n)
         == Prf(c, masterKey, masterSalt, purpose, 16 * counter)
            + c.aes(masterKey, PrfBlock(masterSalt, purpose, counter))[..n]
  {
    assert forall i :: 16 * counter <= i < 16 * counter + n ==> i / 16 == counter && i % 16 == i - 16 * counter;
  }

  function DeriveKeys(c: Primitives, suite: SrtpSuite, masterKey: Block, masterSalt: Salt): SessionKeys {
    SessionKeys(
      suite,
      Prf(c, masterKey, masterSalt, LABEL_CIPHER_KEY, 16),
      Prf(c, masterKey, masterSalt, LABEL_SALT, 16)[..14],
      if suite.AesCm128HmacSha180? then Prf(c, masterKey, masterSalt, LABEL_AUTH_KEY, 20) else ZERO_DIGEST)
  }

  /** Section 4.3.1 of RFC 3711 written out: cipher key, salt and authentication key are the keystreams of the master
      key under the master salt with 0, 2 and 1 folded into its eighth octet, and the block count behind it. */
  lemma DerivedKeysExactly(c: Primitives, suite: SrtpSuite, masterKey: Block, masterSalt: Salt)
    ensures var k := DeriveKeys(c, suite, masterKey, masterSalt);
      && k.suite == suite
      && k.key == c.aes(masterKey, masterSalt + [0, 0])
      && k.salt == c.aes(masterKey, masterSalt[7 := Xor(masterSalt[7], 2)] + [0, 0])[..14]
      && (suite.AesCm128HmacSha180? ==>
            && k.authKey[..16] == c.aes(masterKey, masterSalt[7 := Xor(masterSalt[7], 1)] + [0, 0])
            && k.authKey[16..] == c.aes(masterKey, masterSalt[7 := Xor(masterSalt[7], 1)] + [0, 1])[..4])
  {
    XorFacts(masterSalt[7], 0);
    assert masterSalt[7 := masterSalt[7]] == masterSalt;
    forall i | 0 <= i < 20 ensures U16ToBytes(i / 16 % SEQ_MOD) == [0, i / 16] {}
    hide Xor, U16ToBytes;
  }

  /** The master salt of a context never uses more octets than its suite exports. */
  predicate SaltFits(suite: SrtpSuite, masterSalt: Salt) {
    forall i :: suite.SaltLen() <= i < 14 ==> masterSalt[i] == 0
  }

  function PadSalt(salt: bytes): Salt
    requires |salt| <= 14
  {
    salt + ZERO_SALT[|salt|..]
  }

  // ----- SDES keys -----

  datatype MasterKeys = MasterKeys(suite: SrtpSuite, key: Block, salt: Salt)

  /** The octets that `to_sdes_key` exports: the master key, then as much salt as the suite uses. */
  function SdesOctets(m: MasterKeys): bytes {
    m.key + m.salt[..m.suite.SaltLen()]
  }

  /** `from_sdes_with_suite`; `decode64` stands for decoding the trimmed text. */
  function FromSdes(c: Primitives, suite: SrtpSuite, text: string): Result<MasterKeys, SrtpError> {
    match c.decode64(text)
    case None => Err(Base64DecodeError)
    case Some(octets) =>
      if |octets| != MASTER_KEY_LEN + suite.SaltLen() then Err(InvalidSdesKey)
      else Ok(MasterKeys(suite, octets[..MASTER_KEY_LEN], PadSalt(octets[MASTER_KEY_LEN..])))
  }

  /** Both ends of an SDES exchange hold the same master keys, hence derive the same session keys. */
  lemma SdesRoundTrip(c: Primitives, m: MasterKeys)
    requires LawfulBase64(c) && SaltFits(m.suite, m.salt)
    ensures FromSdes(c, m.suite, c.encode64(SdesOctets(m))) == Ok(m)
  {
    var octets := SdesOctets(m);
    assert c.decode64(c.encode64(octets)) == Some(octets);
    assert octets[..16] == m.key && octets[16..] == m.salt[..m.suite.SaltLen()];
    assert PadSalt(m.salt[..m.suite.SaltLen()]) == m.salt;
  }

  /** Import succeeds exactly for texts that decode to a key and salt of the suite's
      length, and then re-exports them. */
  lemma SdesImportExactly(c: Primitives, suite: SrtpSuite, text: string)
    ensures FromSdes(c, suite, text).Ok?
       <==> c.decode64(text).Some? && |c.decode64(text).value| == 16 + suite.SaltLen()
    ensures FromSdes(c, suite, text).Ok? ==>
      && SdesOctets(FromSdes(c, suite, text).value) == c.decode64(text).value
      && SaltFits(suite, FromSdes(c, suite, text).value.salt)
  {
    if FromSdes(c, suite, text).Ok? {
      var octets := c.decode64(text).value;
      assert octets[..16] + octets[16..] == octets;
      assert FromSdes(c, suite, text).value.salt[..suite.SaltLen()] == octets[16..];
    }
  }

  /** Import and export by octets: 16 of key and 14 of salt for AES-CM, 16 and 12 for GCM, whose salt is then filled up
      with zeros. */
  lemma SdesKeysExactly(c: Primitives, suite: SrtpSuite, text: string)
    ensures FromSdes(c, suite, text) ==
      match c.decode64(text)
      case None => Err(Base64DecodeError)
      case Some(octets) =>
        if suite == AesCm128HmacSha180 then
          if |octets| == 30 then Ok(MasterKeys(suite, octets[..16], octets[16..])) else Err(InvalidSdesKey)
        else
          if |octets| == 28 then Ok(MasterKeys(suite, octets[..16], octets[16..] + [0, 0])) else Err(InvalidSdesKey)
  {
    assert ZERO_SALT[12..] == [0, 0] && ZERO_SALT[14..] == [];
    if c.decode64(text).Some? && |c.decode64(text).value| == 30 {
      var salt := c.decode64(text).value[16..];
      assert salt + [] == salt;
    }
  }

  // ----- the context object -----

  /** `constant_time_eq`: visits every position whatever the data. */
  method ConstantTimeEq(a: bytes, b: bytes) returns (equal: bool)
    ensures equal <==> a == b
  {
    if |a| != |b| {
      return false;
    }
    var diff: byte := 0;
    for i := 0 to |a|
      invariant diff == 0 <==> a[..i] == b[..i]
    {
      XorFacts(a[i], b[i]);
      assert a[..i + 1] == a[..i] + [a[i]] && b[..i + 1] == b[..i] + [b[i]];
      diff := Or(diff, Xor(a[i], b[i]));
    }
    assert a[..|a|] == a && b[..|b|] == b;
    return diff == 0;
  }

  class SrtpCryptoSuite {
    const crypto: Primitives
    const master: MasterKeys
    var keys: SessionKeys
    var streams: Streams

    ghost predicate Valid()
      reads this
    {
      && SaltFits(master.suite, master.salt)
      && keys == DeriveKeys(crypto, master.suite, master.key, master.salt)
    }

    /** A context over given master keys; `new_with_suite` draws them at random, `from_sdes_with_suite` decodes them. */
    constructor (crypto: Primitives, master: MasterKeys)
      requires SaltFits(master.suite, master.salt)
      ensures Valid() && this.crypto == crypto && this.master == master && streams == map[]
    {
      this.crypto, this.master := crypto, master;
      keys := SessionKeys(master.suite, seq(16, _ => 0), ZERO_SALT, ZERO_DIGEST);
      streams := map[];
      new;
      DeriveSessionKeys();
    }

    method ToSdesKey() returns (text: string)
      requires Valid()
      ensures LawfulBase64(crypto) ==> FromSdes(crypto, master.suite, text) == Ok(master)
      ensures master.suite == AesCm128HmacSha180 ==> text == crypto.encode64(master.key + master.salt)
      ensures master.suite == AeadAes128Gcm ==> text == crypto.encode64(master.key + master.salt[..12])
    {
      assert master.salt[..14] == master.salt;
      if LawfulBase64(crypto) { SdesRoundTrip(crypto, master); }
      text := crypto.encode64(SdesOctets(master));
    }

    /** The salt with the label folded into octet 7, and a zero block counter. */
    method PrfIv(purpose: byte) returns (r: bytes)
      ensures |r| == 16 && r[..14] == master.salt[7 := Xor(master.salt[7], purpose)] && r[14..] == [0, 0]
    {
      var iv := new byte[16](_ => 0);
      for i := 0 to 14
        invariant iv[..i] == master.salt[..i] && forall k :: i <= k < 16 ==> iv[k] == 0
      {
        iv[i] := master.salt[i];
        assert iv[..i + 1] == iv[..i] + [iv[i]];
      }
      assert iv[..14] == master.salt;
      iv[7] := Xor(iv[7], purpose);
      return iv[..];
    }

    method PrfDerive(purpose: byte, n: nat) returns (result: bytes)
      requires n <= 16 * SEQ_MOD
      ensures result == Prf(crypto, master.key, master.salt, purpose, n)
    {
      var iv := PrfIv(purpose);
      result := [];
      var counter := 0;
      while |result| < n
        invariant |result| == if 16 * counter < n then 16 * counter else n
        invariant result == Prf(crypto, master.key, master.salt, purpose, |result|)
      {
        var block := iv[14 := Xor(iv[14], counter / 0x100)][15 := Xor(iv[15], counter % 0x100)];
        BlockIsPrfBlock(master.salt, purpose, counter, iv, block);
        var output := crypto.aes(master.key, block);
        var copyLen := if 16 < n - |result| then 16 else n - |result|;
        PrfExtends(crypto, master.key, master.salt, purpose, counter, copyLen);
        result := result + output[..copyLen];
        counter := counter + 1;
      }
    }

    lemma BlockIsPrfBlock(salt: Salt, purpose: byte, counter: u16, initial: bytes, block: bytes)
      requires |initial| == 16 && initial[..14] == salt[7 := Xor(salt[7], purpose)] && initial[14..] == [0, 0]
      requires block == initial[14 := Xor(initial[14], counter / 0x100)][15 := Xor(initial[15], counter % 0x100)]
      ensures block == PrfBlock(salt, purpose, counter)
    {
      var high: byte, low: byte := counter / 0x100, counter % 0x100;
      XorFacts(high, 0);
      XorFacts(low, 0);
      hide Xor, XorBits;
      assert initial[14] == initial[14..][0] && initial[15] == initial[14..][1];
      assert counter % SEQ_MOD == counter;
      LastTwoOctets(initial, high, low);
      CounterOctets(counter);
      hide U16ToBytes;
    }

    lemma LastTwoOctets(initial: bytes, high: byte, low: byte)
      requires |initial| == 16
      ensures initial[14 := high][15 := low] == initial[..14] + [high, low]
    {
    }

    lemma CounterOctets(counter: u16)
      ensures U16ToBytes(counter) == [counter / 0x100, counter % 0x100]
    {
    }

    method DeriveSessionKeys()
      modifies this`keys
      ensures keys == DeriveKeys(crypto, master.suite, master.key, master.salt)
    {
      var key := PrfDerive(LABEL_CIPHER_KEY, 16);
      var saltFull := PrfDerive(LABEL_SALT, 16);
      var authKey := ZERO_DIGEST;
      if master.suite == AesCm128HmacSha180 {
        authKey := PrfDerive(LABEL_AUTH_KEY, 20);
      }
      keys := SessionKeys(master.suite, key, saltFull[..14], authKey);
    }

    /** The counter block in place, its block counter still zero. */
    method CounterStart(ssrc: u32, packetIndex: nat) returns (iv: array<byte>)
      ensures fresh(iv) && iv.Length == 16 && iv[14] == iv[15] == 0
      ensures iv[..14] == XorSeq([0, 0, 0, 0] + U32ToBytes(ssrc) + U48ToBytes(packetIndex), keys.salt)
    {
      var plain := [0, 0, 0, 0] + U32ToBytes(ssrc) + U48ToBytes(packetIndex);
      iv := new byte[16](i requires 0 <= i < 16 => if i < 14 then plain[i] else 0);
      for i := 0 to 14
        invariant forall k :: 0 <= k < i ==> iv[k] == Xor(plain[k], keys.salt[k])
        invariant forall k :: i <= k < 14 ==> iv[k] == plain[k]
        invariant iv[14] == iv[15] == 0
      {
        iv[i] := Xor(iv[i], keys.salt[i]);
      }
    }

    /** Masks the data block by block with the keystream of the counter blocks. */
    method AesCmEncrypt(ssrc: u32, packetIndex: nat, data: bytes) returns (result: bytes)
      ensures result == AesCm(crypto, keys, ssrc, packetIndex, data)
    {
      hide CounterBlock, XorSeq;
      if data == [] {
        return [];
      }
      ghost var want := AesCm(crypto, keys, ssrc, packetIndex, data);
      ghost var plain := [0, 0, 0, 0] + U32ToBytes(ssrc) + U48ToBytes(packetIndex);
      var iv := CounterStart(ssrc, packetIndex);
      result := [];
      var blockCount := (|data| + 15) / 16;
      for blockIdx := 0 to blockCount
        invariant |result| == (if 16 * blockIdx < |data| then 16 * blockIdx else |data|)
        invariant result == want[..|result|]
        invariant iv[..14] == XorSeq(plain, keys.salt) && iv[14] == iv[15] == 0
      {
        var counter := blockIdx % SEQ_MOD;
        XorFacts(counter / 0x100, 0);
        XorFacts(counter % 0x100, 0);
        var block := iv[..][14 := Xor(iv[14], counter / 0x100)][15 := Xor(iv[15], counter % 0x100)];
        BlockIsCounterBlock(keys.salt, ssrc, packetIndex, blockIdx, plain, block);
        var keystream := crypto.aes(keys.key, block);
        var start := blockIdx * 16;
        var end := if start + 16 < |data| then start + 16 else |data|;
        for i := start to end
          invariant |result| == i && result == want[..i]
        {
          assert i / 16 == blockIdx && i % 16 == i - start;
          result := result + [Xor(data[i], keystream[i - start])];
        }
      }
    }

    lemma BlockIsCounterBlock(salt: Salt, ssrc: u32, index: nat, blockIdx: nat, plain: bytes, block: bytes)
      requires plain == [0, 0, 0, 0] + U32ToBytes(ssrc) + U48ToBytes(index)
      requires |block| == 16 && block[..14] == XorSeq(plain, salt)
      requires block[14..] == U16ToBytes(blockIdx % SEQ_MOD)
      ensures block == CounterBlock(salt, ssrc, index, blockIdx)
    {
      var full := plain + U16ToBytes(blockIdx % SEQ_MOD);
      var want := CounterBlock(salt, ssrc, index, blockIdx);
      assert want == XorSeq(full, salt + [0, 0]);
      assert block == block[..14] + block[14..];
      forall i | 0 <= i < 16 ensures block[i] == want[i] {
        if i >= 14 { XorFacts(full[i], 0); }
      }
    }

    method BuildGcmIv(ssrc: u32, roc: u32, sequence: u16) returns (iv: bytes)
      ensures iv == GcmIv(keys.salt, ssrc, roc, sequence)
    {
      var plain := [0, 0] + U32ToBytes(ssrc) + U32ToBytes(roc) + U16ToBytes(sequence);
      iv := plain;
      for i := 0 to 12
        invariant |iv| == 12
        invariant forall k :: 0 <= k < 12 ==> iv[k] == if k < i then Xor(plain[k], keys.salt[k]) else plain[k]
      {
        iv := iv[i := Xor(iv[i], keys.salt[i])];
      }
    }

    /** `stream_state_mut`: reading the entry creates it. */
    method StreamState(ssrc: u32) returns (state: StreamState)
      modifies this`streams
      ensures state == Lookup(old(streams), ssrc)
      ensures streams == old(streams)[ssrc := state]
    {
      if ssrc !in streams {
        streams := streams[ssrc := FRESH];
      }
      state := streams[ssrc];
      assert streams == old(streams)[ssrc := state];
    }

    method UpdateStreamStateAfterSuccess(ssrc: u32, sequence: u16, guessedRoc: u32)
      modifies this`streams
      ensures streams == old(streams)[ssrc := Advance(Lookup(old(streams), ssrc), sequence, guessedRoc)]
    {
      var state := StreamState(ssrc);
      if state.highest.None? {
        streams := streams[ssrc := PacketIndex.StreamState(guessedRoc, Some(sequence))];
        return;
      }
      var currentIndex := state.roc * SEQ_MOD + state.highest.value;
      var guessedIndex := guessedRoc * SEQ_MOD + sequence;
      if guessedIndex > currentIndex {
        streams := streams[ssrc := PacketIndex.StreamState(guessedRoc, Some(sequence))];
      }
    }

    /** The two arms of `protect_rtp` over the suite. */
    method ProtectPacket(header: Rtp.Header, roc: u32, packet: bytes) returns (srtpPacket: bytes)
      requires Rtp.WellFormed(packet) && Rtp.Parse(packet) == Some(header)
      ensures srtpPacket == ProtectAt(crypto, keys, roc, packet)
    {
      var headerLen := header.TotalLen();
      var payload := packet[headerLen..];
      match keys.suite {
        case AesCm128HmacSha180 =>
          var encrypted := AesCmEncrypt(header.ssrc, IndexOf(roc, header.sequence), payload);
          srtpPacket := packet[..headerLen] + encrypted;
          srtpPacket := srtpPacket + AuthTag(crypto, keys, srtpPacket, roc);
        case AeadAes128Gcm =>
          var iv := BuildGcmIv(header.ssrc, roc, header.sequence);
          srtpPacket := packet[..headerLen] + crypto.seal(keys.key, iv, packet[..headerLen], payload);
      }
    }

    /** The two arms of `unprotect_rtp` over the suite; `None` is a failed authentication. */
    method UnprotectPacket(header: Rtp.Header, roc: u32, packet: bytes) returns (rtpPacket: Option<bytes>)
      requires keys.suite.TagLen() <= |packet| && Rtp.WellFormed(packet[..|packet| - keys.suite.TagLen()])
      requires Rtp.Parse(packet[..|packet| - keys.suite.TagLen()]) == Some(header)
      ensures rtpPacket == UnprotectAt(crypto, keys, roc, packet)
    {
      hide Rtp.Parse, IndexOf, AesCm, GcmIv, AuthTag;
      var headerLen := header.TotalLen();
      var authTagStart := |packet| - keys.suite.TagLen();
      var authenticated, receivedTag := packet[..authTagStart], packet[authTagStart..];
      match keys.suite {
        case AesCm128HmacSha180 =>
          var computedTag := AuthTag(crypto, keys, authenticated, roc);
          var equal := ConstantTimeEq(computedTag, receivedTag);
          if !equal {
            return None;
          }
          var decrypted := AesCmEncrypt(header.ssrc, IndexOf(roc, header.sequence), authenticated[headerLen..]);
          assert authenticated[..headerLen] == packet[..headerLen];
          return Some(authenticated[..headerLen] + decrypted);
        case AeadAes128Gcm =>
          var iv := BuildGcmIv(header.ssrc, roc, header.sequence);
          var plaintext := crypto.open(keys.key, iv, packet[..headerLen], packet[headerLen..]);
          if plaintext.None? {
            return None;
          }
          return Some(packet[..headerLen] + plaintext.value);
      }
    }

    method ProtectRtp(packet: bytes) returns (r: Result<bytes, SrtpError>)
      modifies this`streams
      ensures (r, streams) == Protect(crypto, keys, old(streams), packet)
      ensures r == Err(InvalidRtpPacket) <==> !HasHeader(packet)
      ensures HasHeader(packet) && (keys.suite.AeadAes128Gcm? ==> LawfulAead(crypto)) ==>
        var roc := EstimateRoc(Lookup(old(streams), SsrcAt(packet)), SequenceAt(packet));
        r.Ok? && IsProtected(crypto, keys, roc, packet, r.value)
    {
      HeaderReadExactly(packet);
      if keys.suite.AeadAes128Gcm? ==> LawfulAead(crypto) { ProtectExactly(crypto, keys, streams, packet); }
      hide IsProtected, HeaderLen;
      hide ProtectAt, EstimateRoc, Advance;
      if |packet| < Rtp.RTP_HEADER_MIN_LEN {
        return Err(InvalidRtpPacket);
      }
      var parsed := Rtp.Parse(packet);
      if parsed.None? || |packet| < parsed.value.TotalLen() {
        return Err(InvalidRtpPacket);
      }
      var header := parsed.value;
      var state := StreamState(header.ssrc);
      var roc := EstimateRoc(state, header.sequence);
      var srtpPacket := ProtectPacket(header, roc, packet);
      UpdateStreamStateAfterSuccess(header.ssrc, header.sequence, roc);
      assert streams == AcceptInto(old(streams), header);
      return Ok(srtpPacket);
    }

    method UnprotectRtp(packet: bytes) returns (r: Result<bytes, SrtpError>)
      modifies this`streams
      ensures (r, streams) == Unprotect(crypto, keys, old(streams), packet)
      ensures var t := keys.suite.TagLen();
        if |packet| < t || !HasHeader(packet[..|packet| - t]) then r == Err(InvalidRtpPacket)
        else
          var cut := packet[..|packet| - t];
          var roc := EstimateRoc(Lookup(old(streams), SsrcAt(cut)), SequenceAt(cut));
          if Authentic(crypto, keys, roc, packet) then r.Ok? && IsUnprotected(crypto, keys, roc, packet, r.value)
          else r == Err(AuthenticationFailed)
    {
      UnprotectExactly(crypto, keys, streams, packet);
      hide HasHeader, Authentic, IsUnprotected;
      hide UnprotectAt, EstimateRoc, Advance, Rtp.Parse;
      var tagLen := keys.suite.TagLen();
      if |packet| < Rtp.RTP_HEADER_MIN_LEN + tagLen {
        return Err(InvalidRtpPacket);
      }
      var authenticated := packet[..|packet| - tagLen];
      var parsed := Rtp.Parse(authenticated);
      if parsed.None? || |authenticated| < parsed.value.TotalLen() {
        return Err(InvalidRtpPacket);
      }
      var header := parsed.value;
      var state := StreamState(header.ssrc);
      var roc := EstimateRoc(state, header.sequence);
      var rtpPacket := UnprotectPacket(header, roc, packet);
      if rtpPacket.None? {
        return Err(AuthenticationFailed);
      }
      UpdateStreamStateAfterSuccess(header.ssrc, header.sequence, roc);
      assert streams == AcceptInto(old(streams), header);
      return Ok(rtpPacket.value);
    }
  }
}
