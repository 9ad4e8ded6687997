/** What goes over the wire, octet by octet: header fields, cipher inputs, protected packets and their tags, without the
    functions that the other modules build them from. */
module SrtpWire {
  import opened Words
  import opened Wrappers
  import opened PacketIndex
  import opened Srtp
  import Rtp

  // ----- network byte order -----

  function Be16(x: u16): bytes { [x / 0x100, x % 0x100] }

  function Be32(x: u32): bytes { [x / 0x100_0000, x / 0x1_0000 % 0x100, x / 0x100 % 0x100, x % 0x100] }

  lemma NetworkOrder(x: u16, y: u32)
    ensures U16ToBytes(x) == Be16(x) && U32ToBytes(y) == Be32(y)
  {
    var high, low := y / 0x1_0000, y % 0x1_0000;
    FourOctets(high / 0x100, high % 0x100, low / 0x100, low % 0x100);
  }

  lemma FourOctets(a: byte, b: byte, c: byte, d: byte)
    ensures var high: int, low: int := a * 0x100 + b, c * 0x100 + d; var y := high * 0x1_0000 + low;
      && y / 0x100_0000 == a && y / 0x1_0000 % 0x100 == b && y / 0x100 % 0x100 == c && y % 0x100 == d
      && y / 0x1_0000 == high && y % 0x1_0000 == low
  {
  }

  // ----- the header -----

  /** The fields at their offsets (section 5.1 of RFC 3550). */
  function SequenceAt(p: bytes): u16
    requires |p| >= 12
  {
    var high: int, low: int := p[2], p[3];
    high * 0x100 + low
  }

  function SsrcAt(p: bytes): u32
    requires |p| >= 12
  {
    var a: int, b: int, c: int, d: int := p[8], p[9], p[10], p[11];
    a * 0x100_0000 + b * 0x1_0000 + c * 0x100 + d
  }

  /** Version 2 in the top two bits, and room for the fixed part, the CSRC list that the low four bits count, and the
      extension that bit 4 announces, as long as its own length field says in 32-bit words. */
  predicate HasHeader(p: bytes) {
    && |p| >= 12 && p[0] / 64 == 2
    && var fixed := 12 + 4 * (p[0] % 16);
    && fixed <= |p|
    && (p[0] / 16 % 2 == 1 ==> fixed + 4 <= |p| && fixed + 4 + 4 * ExtensionWords(p, fixed) <= |p|)
  }

  function ExtensionWords(p: bytes, at: nat): nat
    requires at + 4 <= |p|
  {
    var high: int, low: int := p[at + 2], p[at + 3];
    high * 0x100 + low
  }

  function HeaderLen(p: bytes): nat
    requires HasHeader(p)
  {
    var fixed := 12 + 4 * (p[0] % 16);
    fixed + if p[0] / 16 % 2 == 1 then 4 + 4 * ExtensionWords(p, fixed) else 0
  }

  /** The parser accepts exactly such packets and reads the fields at those offsets. */
  lemma HeaderReadExactly(p: bytes)
    ensures (Rtp.WellFormed(p) <==> HasHeader(p)) && (HasHeader(p) ==> |p| >= 12)
    ensures HasHeader(p) ==> var h := Rtp.Parse(p).value;
      && h.ssrc == SsrcAt(p) && h.sequence == SequenceAt(p) && h.TotalLen() == HeaderLen(p) <= |p|
  {
    if |p| >= 12 {
      assert p[2..4] == [p[2], p[3]];
      assert p[8..12][..2] == [p[8], p[9]] && p[8..12][2..] == [p[10], p[11]];
      var n := 12 + 4 * (p[0] % 16);
      if n + 4 <= |p| {
        assert p[n + 2..n + 4] == [p[n + 2], p[n + 3]];
      }
    }
  }

  // ----- cipher inputs -----

  /** The AES-CM input for a block of a packet: SSRC, rollover count, sequence number and block count under the salt. */
  function BlockAt(salt: Salt, ssrc: u32, roc: u32, sequence: u16, block: nat): Block {
    XorSeq([0, 0, 0, 0] + Be32(ssrc) + Be32(roc) + Be16(sequence) + Be16(block % SEQ_MOD), salt + [0, 0])
  }

  function IvAt(salt: Salt, ssrc: u32, roc: u32, sequence: u16): bytes {
    XorSeq([0, 0] + Be32(ssrc) + Be32(roc) + Be16(sequence), salt[..12])
  }

  lemma IndexOctets(roc: u32, sequence: u16)
    ensures U48ToBytes(IndexOf(roc, sequence)) == Be32(roc) + Be16(sequence)
  {
    var index := IndexOf(roc, sequence);
    var low := index % 0x1_0000_0000;
    assert index / 0x1_0000_0000 % 0x1_0000 == roc / 0x1_0000 && low == roc % 0x1_0000 * 0x1_0000 + sequence;
    assert low / 0x1_0000 == roc % 0x1_0000 && low % 0x1_0000 == sequence;
    NetworkOrder(sequence, roc);
  }

  lemma CipherInputs(salt: Salt, ssrc: u32, roc: u32, sequence: u16, block: nat)
    ensures CounterBlock(salt, ssrc, IndexOf(roc, sequence), block) == BlockAt(salt, ssrc, roc, sequence, block)
    ensures GcmIv(salt, ssrc, roc, sequence) == IvAt(salt, ssrc, roc, sequence)
  {
    IndexOctets(roc, sequence);
    NetworkOrder(sequence, ssrc);
    NetworkOrder(block % SEQ_MOD, roc);
    assert [0, 0, 0, 0] + Be32(ssrc) + (Be32(roc) + Be16(sequence)) + Be16(block % SEQ_MOD)
        == [0, 0, 0, 0] + Be32(ssrc) + Be32(roc) + Be16(sequence) + Be16(block % SEQ_MOD);
  }

  // ----- protected packets -----

  /** Octets masked by the keystream from the header's end on. */
  ghost predicate Masked(c: Primitives, k: SessionKeys, roc: u32, packet: bytes, out: bytes, n: nat, end: nat)
    requires |packet| >= 12 && n <= end <= |packet| && end <= |out|
  {
    forall i :: n <= i < end ==>
      out[i] == Xor(packet[i],
                    c.aes(k.key, BlockAt(k.salt, SsrcAt(packet), roc, SequenceAt(packet), (i - n) / 16))[(i - n) % 16])
  }

  /** What a packet protected under a rollover count is: the header in clear; then with AES-CM the payload masked, and
      the first ten octets of the HMAC over all this and the rollover count; with GCM the payload sealed under the
      packet's vector with the header as associated data. */
  ghost predicate IsProtected(c: Primitives, k: SessionKeys, roc: u32, packet: bytes, out: bytes)
    requires HasHeader(packet)
  {
    var n := HeaderLen(packet);
    && n <= |packet| <= |out| && out[..n] == packet[..n]
    && match k.suite
       case AesCm128HmacSha180 =>
         && Masked(c, k, roc, packet, out, n, |packet|)
         && out[|packet|..] == c.hmac(k.authKey, out[..|packet|] + Be32(roc))[..10]
       case AeadAes128Gcm =>
         out[n..] == c.seal(k.key, IvAt(k.salt, SsrcAt(packet), roc, SequenceAt(packet)), packet[..n], packet[n..])
  }

  lemma AesCmMasks(c: Primitives, k: SessionKeys, roc: u32, packet: bytes, out: bytes, n: nat)
    requires |packet| >= 12 && n <= |packet| <= |out|
    requires var masked := AesCm(c, k, SsrcAt(packet), IndexOf(roc, SequenceAt(packet)), packet[n..]);
      out[n..|packet|] == masked
    ensures Masked(c, k, roc, packet, out, n, |packet|)
  {
    hide CounterBlock, BlockAt, SsrcAt, SequenceAt, Xor;
    var ssrc, sequence := SsrcAt(packet), SequenceAt(packet);
    forall i | n <= i < |packet|
      ensures out[i] == Xor(packet[i], c.aes(k.key, BlockAt(k.salt, ssrc, roc, sequence, (i - n) / 16))[(i - n) % 16])
    {
      CipherInputs(k.salt, ssrc, roc, sequence, (i - n) / 16);
      assert out[i] == out[n..|packet|][i - n] && packet[n..][i - n] == packet[i];
    }
  }

  lemma ProtectAtIsProtected(c: Primitives, k: SessionKeys, roc: u32, packet: bytes)
    requires HasHeader(packet) && (k.suite.AeadAes128Gcm? ==> LawfulAead(c))
    ensures Rtp.WellFormed(packet) && IsProtected(c, k, roc, packet, ProtectAt(c, k, roc, packet))
  {
    HeaderReadExactly(packet);
    var n, out := HeaderLen(packet), ProtectAt(c, k, roc, packet);
    var ssrc, sequence := SsrcAt(packet), SequenceAt(packet);
    CipherInputs(k.salt, ssrc, roc, sequence, 0);
    NetworkOrder(sequence, roc);
    assert out[..n] == packet[..n];
    hide CounterBlock, GcmIv, BlockAt, IvAt, Be32, U32ToBytes, SsrcAt, SequenceAt, Rtp.Parse, HeaderLen, HasHeader,
        Masked;
    match k.suite
    case AesCm128HmacSha180 =>
      var body := packet[..n] + AesCm(c, k, ssrc, IndexOf(roc, sequence), packet[n..]);
      assert out[..|packet|] == body && out[|packet|..] == out[|body|..] && out[n..|packet|] == body[n..];
      AesCmMasks(c, k, roc, packet, out, n);
    case AeadAes128Gcm =>
      assert out[n..] == c.seal(k.key, GcmIv(k.salt, ssrc, roc, sequence), packet[..n], packet[n..]);
  }

  /** What protection sends for every packet, and when it refuses. */
  lemma ProtectExactly(c: Primitives, k: SessionKeys, streams: Streams, packet: bytes)
    requires k.suite.AeadAes128Gcm? ==> LawfulAead(c)
    ensures var r := Protect(c, k, streams, packet).0;
      if !HasHeader(packet) then r == Err(InvalidRtpPacket)
      else
        r.Ok? && IsProtected(c, k, EstimateRoc(Lookup(streams, SsrcAt(packet)), SequenceAt(packet)), packet, r.value)
  {
    HeaderReadExactly(packet);
    if HasHeader(packet) {
      ProtectAtIsProtected(c, k, EstimateRoc(Lookup(streams, SsrcAt(packet)), SequenceAt(packet)), packet);
    }
    hide IsProtected, ProtectAt, EstimateRoc, HeaderLen, HasHeader, SsrcAt, SequenceAt, Rtp.Parse, AcceptInto;
  }

  /** What a context sends for a run of packets. */
  function ProtectAll(c: Primitives, k: SessionKeys, streams: Streams, run: seq<IndexedPacket>): (r: seq<bytes>)
    requires AllWellFormed(run)
    ensures |r| == |run|
    decreases |run|
  {
    if run == [] then []
    else
      var (out, streams') := Protect(c, k, streams, run[0].packet);
      [out.value] + ProtectAll(c, k, streams', run[1..])
  }

  /** Along a paced run every packet goes out protected under the rollover count of its true index. */
  lemma {:induction false} RunIsProtected(c: Primitives, k: SessionKeys, streams: Streams, last: map<u32, nat>,
      run: seq<IndexedPacket>)
    requires Paced(last, run) && TracksAll(streams, last) && AllWellFormed(run)
    requires k.suite.AeadAes128Gcm? ==> LawfulAead(c)
    ensures forall i :: 0 <= i < |run| ==>
      && HasHeader(run[i].packet) && run[i].index / SEQ_MOD < 0x1_0000_0000
      && IsProtected(c, k, run[i].index / SEQ_MOD, run[i].packet, ProtectAll(c, k, streams, run)[i])
    decreases |run|
  {
    if run != [] {
      var p, h := run[0], Rtp.Parse(run[0].packet).value;
      TracksAllNext(streams, last, h, p.index);
      HeaderReadExactly(p.packet);
      ProtectExactly(c, k, streams, p.packet);
      RunIsProtected(c, k, AcceptInto(streams, h), last[h.ssrc := p.index], run[1..]);
      hide IsProtected, HasHeader, EstimateRoc, Advance, ProtectAt, SsrcAt, SequenceAt, Rtp.Parse, TracksAll, Paced;
      var outs := ProtectAll(c, k, streams, run);
      forall i | 0 < i < |run| ensures run[i] == run[1..][i - 1] && outs[i] == outs[1..][i - 1] {}
    }
  }

  // ----- accepted packets -----

  /** Whether a received packet authenticates under a rollover count: with AES-CM its last ten octets are those of the
      HMAC over what precedes them and the rollover count; with GCM it opens. */
  ghost predicate Authentic(c: Primitives, k: SessionKeys, roc: u32, packet: bytes)
    requires |packet| >= k.suite.TagLen() && HasHeader(packet[..|packet| - k.suite.TagLen()])
  {
    var cut := packet[..|packet| - k.suite.TagLen()];
    var n := HeaderLen(cut);
    match k.suite
    case AesCm128HmacSha180 => |packet| == |cut| + 10 && packet[|cut|..] == c.hmac(k.authKey, cut + Be32(roc))[..10]
    case AeadAes128Gcm =>
      && n <= |cut| == |packet| - 16
      && c.open(k.key, IvAt(k.salt, SsrcAt(cut), roc, SequenceAt(cut)), packet[..n], packet[n..]).Some?
  }

  /** What an accepted packet unprotects to. */
  ghost predicate IsUnprotected(c: Primitives, k: SessionKeys, roc: u32, packet: bytes, out: bytes)
    requires |packet| >= k.suite.TagLen() && HasHeader(packet[..|packet| - k.suite.TagLen()])
  {
    var cut := packet[..|packet| - k.suite.TagLen()];
    var n := HeaderLen(cut);
    && n <= |cut| && n <= |out| && out[..n] == packet[..n]
    && match k.suite
       case AesCm128HmacSha180 => |out| == |packet| - 10 && Masked(c, k, roc, cut, out, n, |cut|)
       case AeadAes128Gcm =>
         c.open(k.key, IvAt(k.salt, SsrcAt(cut), roc, SequenceAt(cut)), packet[..n], packet[n..]) == Some(out[n..])
  }

  lemma UnprotectAtExactly(c: Primitives, k: SessionKeys, roc: u32, packet: bytes)
    requires |packet| >= k.suite.TagLen() && HasHeader(packet[..|packet| - k.suite.TagLen()])
    ensures Rtp.WellFormed(packet[..|packet| - k.suite.TagLen()])
    ensures var r := UnprotectAt(c, k, roc, packet);
      (r.Some? <==> Authentic(c, k, roc, packet)) && (r.Some? ==> IsUnprotected(c, k, roc, packet, r.value))
  {
    var cut := packet[..|packet| - k.suite.TagLen()];
    HeaderReadExactly(cut);
    var n, r := HeaderLen(cut), UnprotectAt(c, k, roc, packet);
    var ssrc, sequence := SsrcAt(cut), SequenceAt(cut);
    CipherInputs(k.salt, ssrc, roc, sequence, 0);
    NetworkOrder(sequence, roc);
    hide CounterBlock, GcmIv, BlockAt, IvAt, Be32, U32ToBytes, SsrcAt, SequenceAt, Rtp.Parse, HeaderLen, HasHeader,
        Masked, AesCm;
    if r.Some? && k.suite.AesCm128HmacSha180? {
      var plain := AesCm(c, k, ssrc, IndexOf(roc, sequence), cut[n..]);
      assert r.value == packet[..n] + plain && |plain| == |cut| - n;
      SliceOfConcat(packet[..n], plain);
      AesCmMasks(c, k, roc, cut, r.value, n);
    }
  }

  lemma SliceOfConcat(a: bytes, b: bytes)
    ensures (a + b)[|a|..|a| + |b|] == b && (a + b)[..|a|] == a
  {
  }

  lemma UnprotectByHeader(c: Primitives, k: SessionKeys, streams: Streams, packet: bytes)
    ensures var r, t := Unprotect(c, k, streams, packet).0, k.suite.TagLen();
      if |packet| < t || !HasHeader(packet[..|packet| - t]) then r == Err(InvalidRtpPacket)
      else
        var cut := packet[..|packet| - t];
        var plain := UnprotectAt(c, k, EstimateRoc(Lookup(streams, SsrcAt(cut)), SequenceAt(cut)), packet);
        r == if plain.None? then Err(AuthenticationFailed) else Ok(plain.value)
  {
    if |packet| >= k.suite.TagLen() {
      HeaderReadExactly(packet[..|packet| - k.suite.TagLen()]);
    }
    hide UnprotectAt, EstimateRoc, HeaderLen, SsrcAt, SequenceAt, HasHeader, Rtp.Parse, Rtp.WellFormed, AcceptInto;
  }

  /** What unprotection accepts and yields, for every datagram, and with which error it refuses. */
  lemma UnprotectExactly(c: Primitives, k: SessionKeys, streams: Streams, packet: bytes)
    ensures var r, t := Unprotect(c, k, streams, packet).0, k.suite.TagLen();
      if |packet| < t || !HasHeader(packet[..|packet| - t]) then r == Err(InvalidRtpPacket)
      else
        var cut := packet[..|packet| - t];
        var roc := EstimateRoc(Lookup(streams, SsrcAt(cut)), SequenceAt(cut));
        if Authentic(c, k, roc, packet) then r.Ok? && IsUnprotected(c, k, roc, packet, r.value)
        else r == Err(AuthenticationFailed)
  {
    hide *;
    var t := k.suite.TagLen();
    UnprotectByHeader(c, k, streams, packet);
    if |packet| >= t {
      var cut := packet[..|packet| - t];
      if HasHeader(cut) {
        HeaderReadExactly(cut);
        UnprotectAtExactly(c, k, EstimateRoc(Lookup(streams, SsrcAt(cut)), SequenceAt(cut)), packet);
      }
    }
  }
}
