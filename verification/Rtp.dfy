/** The variable-length RTP header: fixed part, CSRC list and one extension. */
module Rtp {
  import opened Words
  import opened Wrappers

  const RTP_HEADER_MIN_LEN := 12

  datatype Header = Header(
    version: nat, padding: bool, extension: bool, csrcCount: nat,
    sequence: u16, timestamp: u32, ssrc: u32, extensionLength: Option<u16>)
  {
    /** Length of the fixed part, the CSRC list and the extension together. */
    function TotalLen(): nat {
      RTP_HEADER_MIN_LEN + csrcCount * 4
      + if extension && extensionLength.Some? then 4 + extensionLength.value * 4 else 0
    }
  }

  /** `RtpHeader::parse`; `None` is the InvalidRtpPacket error. */
  function Parse(data: bytes): Option<Header> {
    if |data| < RTP_HEADER_MIN_LEN then None else
    var first := data[0];
    var version, extension, csrcCount := first / 64, first / 16 % 2 != 0, first % 16;
    var csrcEnd := RTP_HEADER_MIN_LEN + csrcCount * 4;
    if version != 2 || |data| < csrcEnd || (extension && |data| < csrcEnd + 4) then None
    else
      Some(Header(version, first / 32 % 2 != 0, extension, csrcCount,
                  U16FromBytes(data[2..4]), U32FromBytes(data[4..8]), U32FromBytes(data[8..12]),
                  if extension then Some(U16FromBytes(data[csrcEnd + 2..csrcEnd + 4])) else None))
  }

  /** The header parses and the packet is long enough to hold all of it. */
  predicate WellFormed(packet: bytes) {
    var header := Parse(packet);
    header.Some? && header.value.TotalLen() <= |packet|
  }

  /** Two packets that share the bytes of a complete header parse to the same header. */
  lemma ParseDependsOnHeaderBytes(p: bytes, q: bytes)
    requires WellFormed(p)
    requires var n := Parse(p).value.TotalLen(); n <= |q| && q[..n] == p[..n]
    ensures Parse(q) == Parse(p)
  {
    var n := Parse(p).value.TotalLen();
    assert forall i :: 0 <= i < n ==> p[i] == p[..n][i] == q[..n][i] == q[i];
    assert p[2..4] == q[2..4] && p[4..8] == q[4..8] && p[8..12] == q[8..12];
    var csrcEnd := RTP_HEADER_MIN_LEN + p[0] % 16 * 4;
    if Parse(p).value.extension {
      assert p[csrcEnd + 2..csrcEnd + 4] == q[csrcEnd + 2..csrcEnd + 4];
    }
  }
}
