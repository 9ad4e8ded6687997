/** The forwarding loop of one direction as it runs: learned addresses and crypto contexts changed in place. */
module RelayLoop {
  import opened Words
  import opened Wrappers
  import opened SrtpContext
  import opened Relay

  type Addr = nat

  /** The address of one leg, shared by the two loops: from SDP, or learned from the first datagram. */
  class Remote {
    var addr: Option<Addr>

    constructor (initial: Option<Addr>)
      ensures addr == initial
    {
      addr := initial;
    }
  }

  class ForwardingLoop {
    const source: Remote
    const destination: Remote
    const decrypt: Option<SrtpCryptoSuite>
    const encrypt: Option<SrtpCryptoSuite>

    predicate HasCrypto() { decrypt.Some? && encrypt.Some? }

    ghost predicate Valid()
      reads this, if decrypt.Some? then {decrypt.value} else {}, if encrypt.Some? then {encrypt.value} else {}
    {
      && source != destination
      && (decrypt.Some? ==> decrypt.value.Valid())
      && (encrypt.Some? ==> encrypt.value.Valid())
      && (HasCrypto() ==> decrypt.value != encrypt.value && decrypt.value.crypto == encrypt.value.crypto)
    }

    ghost function Keys(): Direction
      requires HasCrypto()
      reads decrypt.value, encrypt.value
    {
      Direction(decrypt.value.keys, encrypt.value.keys)
    }

    ghost function State(): Contexts
      requires HasCrypto()
      reads decrypt.value, encrypt.value
    {
      Contexts(decrypt.value.streams, encrypt.value.streams)
    }

    constructor (source: Remote, destination: Remote, decrypt: Option<SrtpCryptoSuite>,
        encrypt: Option<SrtpCryptoSuite>)
      requires source != destination
      requires decrypt.Some? ==> decrypt.value.Valid()
      requires encrypt.Some? ==> encrypt.value.Valid()
      requires decrypt.Some? && encrypt.Some? ==>
        decrypt.value != encrypt.value && decrypt.value.crypto == encrypt.value.crypto
      ensures Valid() && this.source == source && this.destination == destination
      ensures this.decrypt == decrypt && this.encrypt == encrypt
    {
      this.source, this.destination, this.decrypt, this.encrypt := source, destination, decrypt, encrypt;
    }

    /** One received datagram. The source address is learned once and never replaced; without both contexts, or without
        a destination, nothing is sent and no context changes. */
    method Turn(datagram: bytes, from: Addr) returns (outbound: Option<(bytes, Addr)>)
      requires Valid()
      modifies source
      modifies if decrypt.Some? then {decrypt.value} else {}, if encrypt.Some? then {encrypt.value} else {}
      ensures Valid() && destination.addr == old(destination.addr)
      ensures source.addr == if datagram == [] || old(source.addr).Some? then old(source.addr) else Some(from)
      ensures HasCrypto() ==>
        && Keys() == old(Keys())
        && (if outbound.Some? then Some(outbound.value.0) else None, State())
           == Relayed(decrypt.value.crypto, Keys(), old(State()), Arrival(datagram, destination.addr.Some?))
      ensures outbound.Some? ==> HasCrypto() && Some(outbound.value.1) == destination.addr
      ensures decrypt.Some? && !HasCrypto() ==> decrypt.value.streams == old(decrypt.value.streams)
      ensures encrypt.Some? && !HasCrypto() ==> encrypt.value.streams == old(encrypt.value.streams)
    {
      outbound := None;
      if datagram == [] {
        return;
      }
      if source.addr.None? {
        source.addr := Some(from);
      }
      var dest := destination.addr;
      if dest.Some? && decrypt.Some? && encrypt.Some? {
        var packet := if |datagram| <= RECV_BUF_LEN then datagram else datagram[..RECV_BUF_LEN];
        var rtp := decrypt.value.UnprotectRtp(packet);
        if rtp.Ok? {
          var srtp := encrypt.value.ProtectRtp(rtp.value);
          if srtp.Ok? {
            outbound := Some((srtp.value, dest.value));
          }
        }
      }
    }
  }
}
