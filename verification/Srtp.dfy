/** Protection and unprotection of RTP packets under one set of session keys, and the cipher inputs they use. */
module Srtp {
  import opened Words
  import opened Wrappers
  import opened PacketIndex
  import Rtp

  datatype SrtpSuite = AesCm128HmacSha180 | AeadAes128Gcm
  {
    function TagLen(): nat { if AesCm128HmacSha180? then 10 else 16 }

    function SaltLen(): nat { if AesCm128HmacSha180? then 14 else 12 }
  }

  datatype SrtpError = InvalidSdesKey | InvalidRtpPacket | AuthenticationFailed | Base64DecodeError

  type Block = b: bytes | |b| == 16 witness seq(16, _ => 0)
  type Digest = b: bytes | |b| == 20 witness seq(20, _ => 0)
  type Salt = b: bytes | |b| == 14 witness seq(14, _ => 0)

  /** The library primitives, left uninterpreted: AES-128 on one block, HMAC-SHA1, AES-128-GCM and base64. */
  datatype Primitives = Primitives(
    aes: (Block, Block) -> Block,
    hmac: (Digest, bytes) -> Digest,
    seal: (Block, bytes, bytes, bytes) -> bytes,
    open: (Block, bytes, bytes, bytes) -> Option<bytes>,
    encode64: bytes -> string,
    decode64: string -> Option<bytes>)

  /** AEAD open undoes seal, which adds a 16-octet tag. */
  ghost predicate LawfulAead(c: Primitives) {
    forall key, iv, aad, msg ::
      && |c.seal(key, iv, aad, msg)| == |msg| + 16
      && c.open(key, iv, aad, c.seal(key, iv, aad, msg)) == Some(msg)
  }

  ghost predicate LawfulBase64(c: Primitives) {
    forall b :: c.decode64(c.encode64(b)) == Some(b)
  }

  datatype SessionKeys = SessionKeys(suite: SrtpSuite, key: Block, salt: Salt, authKey: Digest)

  /** Per-SSRC rollover state; an absent entry reads as the default. */
  type Streams = map<u32, StreamState>

  function Lookup(streams: Streams, ssrc: u32): StreamState {
    if ssrc in streams then streams[ssrc] else FRESH
  }

  // ----- cipher inputs -----

  /** Section 4.1.1 of RFC 3711: the AES-CM input for one 16-octet block of a packet. */
  function CounterBlock(salt: Salt, ssrc: u32, index: nat, block: nat): Block {
    XorSeq([0, 0, 0, 0] + U32ToBytes(ssrc) + U48ToBytes(index) + U16ToBytes(block % SEQ_MOD), salt + [0, 0])
  }

  /** Section 8.1 of RFC 7714: the 96-bit GCM initialisation vector of a packet. */
  function GcmIv(salt: Salt, ssrc: u32, roc: u32, sequence: u16): (iv: bytes)
    ensures |iv| == 12
  {
    XorSeq([0, 0] + U32ToBytes(ssrc) + U32ToBytes(roc) + U16ToBytes(sequence), salt[..12])
  }

  lemma FieldsOfBlock(ssrc: u32, index: nat, block: u16)
    ensures var x := [0, 0, 0, 0] + U32ToBytes(ssrc) + U48ToBytes(index) + U16ToBytes(block);
      x[4..8] == U32ToBytes(ssrc) && x[8..14] == U48ToBytes(index) && x[14..] == U16ToBytes(block)
  {
  }

  lemma CounterBlockInjective(salt: Salt, s1: u32, i1: nat, b1: nat, s2: u32, i2: nat, b2: nat)
    requires i1 < INDEX_MOD && i2 < INDEX_MOD && b1 < SEQ_MOD && b2 < SEQ_MOD
    requires CounterBlock(salt, s1, i1, b1) == CounterBlock(salt, s2, i2, b2)
    ensures s1 == s2 && i1 == i2 && b1 == b2
  {
    var x := [0, 0, 0, 0] + U32ToBytes(s1) + U48ToBytes(i1) + U16ToBytes(b1);
    var y := [0, 0, 0, 0] + U32ToBytes(s2) + U48ToBytes(i2) + U16ToBytes(b2);
    assert b1 % SEQ_MOD == b1 && b2 % SEQ_MOD == b2;
    assert x == y by { XorSeqInjective(x, y, salt + [0, 0]); }
    FieldsOfBlock(s1, i1, b1);
    FieldsOfBlock(s2, i2, b2);
    U32ToBytesInjective(s1, s2);
    U48ToBytesInjective(i1, i2);
    U16ToBytesInjective(b1, b2);
  }

  lemma GcmIvInjective(salt: Salt, s1: u32, r1: u32, q1: u16, s2: u32, r2: u32, q2: u16)
    requires GcmIv(salt, s1, r1, q1) == GcmIv(salt, s2, r2, q2)
    ensures s1 == s2 && r1 == r2 && q1 == q2
  {
    var x := [0, 0] + U32ToBytes(s1) + U32ToBytes(r1) + U16ToBytes(q1);
    var y := [0, 0] + U32ToBytes(s2) + U32ToBytes(r2) + U16ToBytes(q2);
    XorSeqInjective(x, y, salt[..12]);
    U32ToBytesInjective(s1, s2) by { assert x[2..6] == U32ToBytes(s1) && y[2..6] == U32ToBytes(s2); }
    U32ToBytesInjective(r1, r2) by { assert x[6..10] == U32ToBytes(r1) && y[6..10] == U32ToBytes(r2); }
    U16ToBytesInjective(q1, q2) by { assert x[10..] == U16ToBytes(q1) && y[10..] == U16ToBytes(q2); }
  }

  // ----- payload transforms -----

  /** Counter-mode encryption and decryption: octet i is masked by octet i % 16 of keystream block i / 16. */
  function AesCm(c: Primitives, k: SessionKeys, ssrc: u32, index: nat, data: bytes): (r: bytes)
    ensures |r| == |data|
    ensures forall i :: 0 <= i < |data| ==>
      r[i] == Xor(data[i], c.aes(k.key, CounterBlock(k.salt, ssrc, index, i / 16))[i % 16])
  {
    seq<byte>(|data|, i requires 0 <= i < |data| =>
      Xor(data[i], c.aes(k.key, CounterBlock(k.salt, ssrc, index, i / 16))[i % 16]))
  }

  lemma AesCmIsItsOwnInverse(c: Primitives, k: SessionKeys, ssrc: u32, index: nat, data: bytes)
    ensures AesCm(c, k, ssrc, index, AesCm(c, k, ssrc, index, data)) == data
  {
    var r := AesCm(c, k, ssrc, index, data);
    forall i | 0 <= i < |data| ensures AesCm(c, k, ssrc, index, r)[i] == data[i] {
      XorCancels(data[i], c.aes(k.key, CounterBlock(k.salt, ssrc, index, i / 16))[i % 16]);
    }
  }

  /** The truncated HMAC over the packet and the rollover counter. */
  function AuthTag(c: Primitives, k: SessionKeys, authenticated: bytes, roc: u32): (tag: bytes)
    ensures |tag| == 10
  {
    c.hmac(k.authKey, authenticated + U32ToBytes(roc))[..10]
  }

  /** The protected packet for a given rollover count. */
  function ProtectAt(c: Primitives, k: SessionKeys, roc: u32, packet: bytes): bytes
    requires Rtp.WellFormed(packet)
  {
    var h := Rtp.Parse(packet).value;
    var header, payload := packet[..h.TotalLen()], packet[h.TotalLen()..];
    match k.suite
    case AesCm128HmacSha180 =>
      var body := header + AesCm(c, k, h.ssrc, IndexOf(roc, h.sequence), payload);
      body + AuthTag(c, k, body, roc)
    case AeadAes128Gcm =>
      header + c.seal(k.key, GcmIv(k.salt, h.ssrc, roc, h.sequence), header, payload)
  }

  /** The packet recovered for a given rollover count, or `None` when authentication fails. */
  function UnprotectAt(c: Primitives, k: SessionKeys, roc: u32, packet: bytes): Option<bytes>
    requires k.suite.TagLen() <= |packet| && Rtp.WellFormed(packet[..|packet| - k.suite.TagLen()])
  {
    var authenticated, tag := packet[..|packet| - k.suite.TagLen()], packet[|packet| - k.suite.TagLen()..];
    var h := Rtp.Parse(authenticated).value;
    var n := h.TotalLen();
    match k.suite
    case AesCm128HmacSha180 =>
      if AuthTag(c, k, authenticated, roc) != tag then None
      else Some(packet[..n] + AesCm(c, k, h.ssrc, IndexOf(roc, h.sequence), authenticated[n..]))
    case AeadAes128Gcm =>
      match c.open(k.key, GcmIv(k.salt, h.ssrc, roc, h.sequence), packet[..n], packet[n..])
      case None => None
      case Some(plain) => Some(packet[..n] + plain)
  }

  function AcceptInto(streams: Streams, h: Rtp.Header): Streams {
    streams[h.ssrc := Accept(Lookup(streams, h.ssrc), h.sequence)]
  }

  /** `protect_rtp` as a function of the stream table. */
  function Protect(c: Primitives, k: SessionKeys, streams: Streams, packet: bytes)
    : (r: (Result<bytes, SrtpError>, Streams))
    ensures r.0.Ok? <==> Rtp.WellFormed(packet)
  {
    if !Rtp.WellFormed(packet) then (Err(InvalidRtpPacket), streams) else
    var h := Rtp.Parse(packet).value;
    var roc := EstimateRoc(Lookup(streams, h.ssrc), h.sequence);
    (Ok(ProtectAt(c, k, roc, packet)), AcceptInto(streams, h))
  }

  /** `unprotect_rtp` as a function of the stream table; a rejected packet leaves at most a default entry behind. */
  function Unprotect(c: Primitives, k: SessionKeys, streams: Streams, packet: bytes)
    : (Result<bytes, SrtpError>, Streams)
  {
    var tagLen := k.suite.TagLen();
    if |packet| < Rtp.RTP_HEADER_MIN_LEN + tagLen || !Rtp.WellFormed(packet[..|packet| - tagLen])
    then (Err(InvalidRtpPacket), streams) else
    var h := Rtp.Parse(packet[..|packet| - tagLen]).value;
    var roc := EstimateRoc(Lookup(streams, h.ssrc), h.sequence);
    match UnprotectAt(c, k, roc, packet)
    case None => (Err(AuthenticationFailed), streams[h.ssrc := Lookup(streams, h.ssrc)])
    case Some(rtp) => (Ok(rtp), AcceptInto(streams, h))
  }

  lemma ProtectedPacketShape(c: Primitives, k: SessionKeys, roc: u32, packet: bytes)
    requires LawfulAead(c) && Rtp.WellFormed(packet)
    ensures var n := Rtp.Parse(packet).value.TotalLen(); var out := ProtectAt(c, k, roc, packet);
      && |out| == |packet| + k.suite.TagLen()
      && out[..n] == packet[..n]
      && Rtp.WellFormed(out[..|packet|])
      && Rtp.Parse(out[..|packet|]) == Rtp.Parse(packet)
  {
    var n := Rtp.Parse(packet).value.TotalLen();
    var out := ProtectAt(c, k, roc, packet);
    assert out[..n] == packet[..n];
    assert out[..|packet|][..n] == out[..n];
    Rtp.ParseDependsOnHeaderBytes(packet, out[..|packet|]);
  }

  lemma UnprotectAtUndoesProtectAt(c: Primitives, k: SessionKeys, roc: u32, packet: bytes)
    requires LawfulAead(c) && Rtp.WellFormed(packet)
    requires var out := ProtectAt(c, k, roc, packet);
      k.suite.TagLen() <= |out| && Rtp.WellFormed(out[..|out| - k.suite.TagLen()])
    ensures UnprotectAt(c, k, roc, ProtectAt(c, k, roc, packet)) == Some(packet)
  {
    ProtectedPacketShape(c, k, roc, packet);
    var out := ProtectAt(c, k, roc, packet);
    var h := Rtp.Parse(packet).value;
    var n := h.TotalLen();
    assert packet[..n] + packet[n..] == packet;
    match k.suite
    case AesCm128HmacSha180 =>
      var cipher := AesCm(c, k, h.ssrc, IndexOf(roc, h.sequence), packet[n..]);
      var body := packet[..n] + cipher;
      assert out[..|packet|] == body && out[|packet|..] == AuthTag(c, k, body, roc);
      assert body[n..] == cipher;
      AesCmIsItsOwnInverse(c, k, h.ssrc, IndexOf(roc, h.sequence), packet[n..]);
    case AeadAes128Gcm =>
      assert out[n..] == c.seal(k.key, GcmIv(k.salt, h.ssrc, roc, h.sequence), packet[..n], packet[n..]);
  }

  /** Round trip: equal keys and equal rollover guesses on both sides give the packet back, and both sides advance. */
  lemma RoundTrip(c: Primitives, k: SessionKeys, sender: Streams, receiver: Streams, packet: bytes)
    requires LawfulAead(c) && Rtp.WellFormed(packet)
    requires var h := Rtp.Parse(packet).value;
      EstimateRoc(Lookup(sender, h.ssrc), h.sequence) == EstimateRoc(Lookup(receiver, h.ssrc), h.sequence)
    ensures var h := Rtp.Parse(packet).value; var (sent, sender') := Protect(c, k, sender, packet);
      && sent.Ok? && |sent.value| == |packet| + k.suite.TagLen()
      && Unprotect(c, k, receiver, sent.value) == (Ok(packet), AcceptInto(receiver, h))
      && sender' == AcceptInto(sender, h)
  {
    var h := Rtp.Parse(packet).value;
    var roc := EstimateRoc(Lookup(sender, h.ssrc), h.sequence);
    ProtectedPacketShape(c, k, roc, packet);
    UnprotectAtUndoesProtectAt(c, k, roc, packet);
  }

  /** Whatever unprotection accepts keeps its header, so it can be protected again. */
  lemma AcceptedPacketKeepsHeader(c: Primitives, k: SessionKeys, streams: Streams, packet: bytes)
    requires Unprotect(c, k, streams, packet).0.Ok?
    ensures var rtp := Unprotect(c, k, streams, packet).0.value; var cut := packet[..|packet| - k.suite.TagLen()];
      && Rtp.WellFormed(cut) && Rtp.WellFormed(rtp) && Rtp.Parse(rtp) == Rtp.Parse(cut)
      && Unprotect(c, k, streams, packet).1 == AcceptInto(streams, Rtp.Parse(rtp).value)
  {
    var rtp := Unprotect(c, k, streams, packet).0.value;
    var cut := packet[..|packet| - k.suite.TagLen()];
    var n := Rtp.Parse(cut).value.TotalLen();
    assert rtp[..n] == packet[..n] == cut[..n];
    Rtp.ParseDependsOnHeaderBytes(cut, rtp);
  }

  // ----- no cipher input is used twice -----

  /** One protected packet as the cipher sees it: its SSRC and the rollover count and sequence
      number it was keyed to. */
  datatype PacketKey = PacketKey(ssrc: u32, roc: u32, sequence: u16)

  datatype IndexedPacket = IndexedPacket(packet: bytes, index: nat)

  predicate AllWellFormed(run: seq<IndexedPacket>) {
    forall i :: 0 <= i < |run| ==> Rtp.WellFormed(run[i].packet)
  }

  function LastIndex(last: map<u32, nat>, ssrc: u32): Option<nat> {
    if ssrc in last then Some(last[ssrc]) else None
  }

  /** Every packet parses, carries the low 16 bits of its index, and follows the earlier indices of its SSRC. */
  ghost predicate Paced(last: map<u32, nat>, run: seq<IndexedPacket>)
    decreases |run|
  {
    run != [] ==>
      && Rtp.WellFormed(run[0].packet)
      && var h := Rtp.Parse(run[0].packet).value;
      && h.sequence == run[0].index % SEQ_MOD
      && Follows(LastIndex(last, h.ssrc), run[0].index)
      && Paced(last[h.ssrc := run[0].index], run[1..])
  }

  ghost predicate TracksAll(streams: Streams, last: map<u32, nat>) {
    forall ssrc: u32 :: Tracks(Lookup(streams, ssrc), LastIndex(last, ssrc))
  }

  lemma TracksAllNext(streams: Streams, last: map<u32, nat>, h: Rtp.Header, index: nat)
    requires TracksAll(streams, last) && Follows(LastIndex(last, h.ssrc), index) && h.sequence == index % SEQ_MOD
    ensures EstimateRoc(Lookup(streams, h.ssrc), h.sequence) == index / SEQ_MOD
    ensures TracksAll(AcceptInto(streams, h), last[h.ssrc := index])
  {
    TracksNext(Lookup(streams, h.ssrc), LastIndex(last, h.ssrc), index);
    forall ssrc: u32 ensures Tracks(Lookup(AcceptInto(streams, h), ssrc), LastIndex(last[h.ssrc := index], ssrc)) {
      if ssrc != h.ssrc {
        assert Tracks(Lookup(streams, ssrc), LastIndex(last, ssrc));
      }
    }
  }

  /** The packet keys used while protecting a run of packets with one context. */
  function PacketKeys(streams: Streams, run: seq<IndexedPacket>): (keys: seq<PacketKey>)
    requires AllWellFormed(run)
    ensures |keys| == |run|
    decreases |run|
  {
    if run == [] then [] else
    var h := Rtp.Parse(run[0].packet).value;
    [PacketKey(h.ssrc, EstimateRoc(Lookup(streams, h.ssrc), h.sequence), h.sequence)]
    + PacketKeys(AcceptInto(streams, h), run[1..])
  }

  lemma {:induction false} PacedIsWellFormed(last: map<u32, nat>, run: seq<IndexedPacket>)
    requires Paced(last, run)
    ensures AllWellFormed(run)
    decreases |run|
  {
    if run != [] {
      PacedIsWellFormed(last[Rtp.Parse(run[0].packet).value.ssrc := run[0].index], run[1..]);
    }
  }

  /** Each packet is keyed to its true index, and every later index of an SSRC lies beyond what was seen before. */
  lemma {:induction false} PacketKeysAreTrueIndices(streams: Streams, last: map<u32, nat>, run: seq<IndexedPacket>)
    requires Paced(last, run) && TracksAll(streams, last)
    requires AllWellFormed(run)
    ensures var keys := PacketKeys(streams, run); forall i :: 0 <= i < |run| ==>
      && keys[i].ssrc == Rtp.Parse(run[i].packet).value.ssrc
      && IndexOf(keys[i].roc, keys[i].sequence) == run[i].index
      && (keys[i].ssrc in last ==> last[keys[i].ssrc] < run[i].index)
    decreases |run|
  {
    if run != [] {
      var h := Rtp.Parse(run[0].packet).value;
      TracksAllNext(streams, last, h, run[0].index);
      var last' := last[h.ssrc := run[0].index];
      PacketKeysAreTrueIndices(AcceptInto(streams, h), last', run[1..]);
      var keys, rest := PacketKeys(streams, run), PacketKeys(AcceptInto(streams, h), run[1..]);
      assert IndexOf(keys[0].roc, keys[0].sequence) == run[0].index;
      forall i | 1 <= i < |run|
        ensures keys[i].ssrc == Rtp.Parse(run[i].packet).value.ssrc
        ensures IndexOf(keys[i].roc, keys[i].sequence) == run[i].index
        ensures keys[i].ssrc in last ==> last[keys[i].ssrc] < run[i].index
      {
        assert keys[i] == rest[i - 1] && run[i] == run[1..][i - 1];
      }
    }
  }

  lemma {:induction false} PacketKeysDistinct(streams: Streams, last: map<u32, nat>, run: seq<IndexedPacket>)
    requires Paced(last, run) && TracksAll(streams, last)
    requires AllWellFormed(run)
    ensures var keys := PacketKeys(streams, run); forall i, j :: 0 <= i < j < |run| ==> keys[i] != keys[j]
    decreases |run|
  {
    if run != [] {
      var h := Rtp.Parse(run[0].packet).value;
      TracksAllNext(streams, last, h, run[0].index);
      var last', streams' := last[h.ssrc := run[0].index], AcceptInto(streams, h);
      PacketKeysDistinct(streams', last', run[1..]);
      PacketKeysAreTrueIndices(streams, last, run);
      PacketKeysAreTrueIndices(streams', last', run[1..]);
      var keys := PacketKeys(streams, run);
      assert keys[1..] == PacketKeys(streams', run[1..]);
      forall j | 1 <= j < |run| ensures keys[0] != keys[j] {
        assert keys[j] == keys[1..][j - 1] && run[j] == run[1..][j - 1];
        assert keys[j].ssrc == h.ssrc ==> run[0].index < run[j].index;
      }
    }
  }

  function KeyedBlock(salt: Salt, key: PacketKey, block: nat): Block {
    CounterBlock(salt, key.ssrc, IndexOf(key.roc, key.sequence), block)
  }

  function KeyedIv(salt: Salt, key: PacketKey): bytes {
    GcmIv(salt, key.ssrc, key.roc, key.sequence)
  }

  lemma EqualBlocksEqualKeys(salt: Salt, x: PacketKey, b: nat, y: PacketKey, d: nat)
    requires b < SEQ_MOD && d < SEQ_MOD
    ensures KeyedBlock(salt, x, b) == KeyedBlock(salt, y, d) <==> x == y && b == d
  {
    var m, n := IndexOf(x.roc, x.sequence), IndexOf(y.roc, y.sequence);
    if KeyedBlock(salt, x, b) == KeyedBlock(salt, y, d) {
      CounterBlockInjective(salt, x.ssrc, m, b, y.ssrc, n, d);
      assert m / SEQ_MOD == x.roc && n / SEQ_MOD == y.roc && m % SEQ_MOD == x.sequence && n % SEQ_MOD == y.sequence;
    }
  }

  lemma EqualIvsEqualKeys(salt: Salt, x: PacketKey, y: PacketKey)
    ensures KeyedIv(salt, x) == KeyedIv(salt, y) <==> x == y
  {
    if KeyedIv(salt, x) == KeyedIv(salt, y) {
      GcmIvInjective(salt, x.ssrc, x.roc, x.sequence, y.ssrc, y.roc, y.sequence);
    }
  }

  /** No two (packet, block) pairs of a run share an AES-CM input, and no two packets share a GCM vector. */
  lemma CipherInputsNeverRepeat(salt: Salt, run: seq<IndexedPacket>, i: nat, b: nat, j: nat, d: nat)
    requires Paced(map[], run) && AllWellFormed(run)
    requires i < |run| && j < |run| && b < SEQ_MOD && d < SEQ_MOD
    ensures var keys := PacketKeys(map[], run);
      && (KeyedBlock(salt, keys[i], b) == KeyedBlock(salt, keys[j], d) <==> i == j && b == d)
      && (KeyedIv(salt, keys[i]) == KeyedIv(salt, keys[j]) <==> i == j)
  {
    PacketKeysDistinct(map[], map[], run);
    var keys := PacketKeys(map[], run);
    EqualBlocksEqualKeys(salt, keys[i], b, keys[j], d);
    EqualIvsEqualKeys(salt, keys[i], keys[j]);
  }
}
