/** One direction of the media relay (unprotect with one leg's key, protect with the other's)
    and the whole media path. */
module Relay {
  import opened Words
  import opened Wrappers
  import opened PacketIndex
  import opened Srtp
  import Rtp

  /** The forwarding loops receive into a buffer of this size; longer datagrams arrive cut off. */
  const RECV_BUF_LEN := 2048

  datatype Contexts = Contexts(decrypt: Streams, encrypt: Streams)

  /** The session keys of one direction: the sender's leg and the receiver's leg. */
  datatype Direction = Direction(decrypt: SessionKeys, encrypt: SessionKeys)

  /** What one received datagram does to the two contexts, and what is sent on. */
  function Forward(c: Primitives, d: Direction, ctx: Contexts, packet: bytes): (Option<bytes>, Contexts) {
    var (rtp, decrypt') := Unprotect(c, d.decrypt, ctx.decrypt, packet);
    if rtp.Err? then (None, ctx.(decrypt := decrypt')) else
    var (srtp, encrypt') := Protect(c, d.encrypt, ctx.encrypt, rtp.value);
    (if srtp.Ok? then Some(srtp.value) else None, Contexts(decrypt', encrypt'))
  }

  function Received(datagram: bytes): bytes {
    if |datagram| <= RECV_BUF_LEN then datagram else datagram[..RECV_BUF_LEN]
  }

  /** A datagram from one leg, and whether the other leg's address was known when it arrived. */
  datatype Arrival = Arrival(datagram: bytes, destinationKnown: bool)

  /** One turn of a forwarding loop: empty datagrams and unknown destinations leave both contexts alone. */
  function Relayed(c: Primitives, d: Direction, ctx: Contexts, a: Arrival): (Option<bytes>, Contexts) {
    if a.datagram == [] || !a.destinationKnown then (None, ctx)
    else Forward(c, d, ctx, Received(a.datagram))
  }

  /** Of a datagram longer than 2048 octets only the first 2048 count; any other is taken as it is. */
  lemma LongDatagramsAreCut(c: Primitives, d: Direction, ctx: Contexts, datagram: bytes, known: bool)
    ensures Relayed(c, d, ctx, Arrival(datagram, known)) ==
      if datagram == [] || !known then (None, ctx)
      else Forward(c, d, ctx, if |datagram| > 2048 then datagram[..2048] else datagram)
  {
    hide Forward;
  }

  function AfterRun(c: Primitives, d: Direction, ctx: Contexts, arrivals: seq<Arrival>): Contexts
    decreases |arrivals|
  {
    if arrivals == [] then ctx else AfterRun(c, d, Relayed(c, d, ctx, arrivals[0]).1, arrivals[1..])
  }

  // ----- lockstep of the two contexts -----

  ghost predicate Lockstep(ctx: Contexts) {
    forall ssrc: u32 :: Lookup(ctx.decrypt, ssrc) == Lookup(ctx.encrypt, ssrc)
  }

  lemma ForwardKeepsLockstep(c: Primitives, d: Direction, ctx: Contexts, packet: bytes)
    requires Lockstep(ctx)
    ensures Lockstep(Forward(c, d, ctx, packet).1)
  {
    var (rtp, decrypt') := Unprotect(c, d.decrypt, ctx.decrypt, packet);
    if rtp.Ok? {
      AcceptedPacketKeepsHeader(c, d.decrypt, ctx.decrypt, packet);
      var h := Rtp.Parse(rtp.value).value;
      assert Forward(c, d, ctx, packet).1 == Contexts(AcceptInto(ctx.decrypt, h), AcceptInto(ctx.encrypt, h));
      assert Lookup(ctx.decrypt, h.ssrc) == Lookup(ctx.encrypt, h.ssrc);
      forall ssrc: u32
        ensures Lookup(AcceptInto(ctx.decrypt, h), ssrc) == Lookup(AcceptInto(ctx.encrypt, h), ssrc)
      {
        assert Lookup(ctx.decrypt, ssrc) == Lookup(ctx.encrypt, ssrc);
      }
    } else {
      forall ssrc: u32 ensures Lookup(decrypt', ssrc) == Lookup(ctx.encrypt, ssrc) {
        assert Lookup(ctx.decrypt, ssrc) == Lookup(ctx.encrypt, ssrc);
      }
    }
  }

  /** From fresh contexts, no mix of accepted, rejected and dropped datagrams drives the two contexts apart. */
  lemma {:induction false} RunKeepsLockstep(c: Primitives, d: Direction, ctx: Contexts, arrivals: seq<Arrival>)
    requires Lockstep(ctx)
    ensures Lockstep(AfterRun(c, d, ctx, arrivals))
    decreases |arrivals|
  {
    if arrivals != [] {
      var a := arrivals[0];
      if a.datagram != [] && a.destinationKnown {
        ForwardKeepsLockstep(c, d, ctx, Received(a.datagram));
      }
      RunKeepsLockstep(c, d, Relayed(c, d, ctx, a).1, arrivals[1..]);
    }
  }

  /** In lockstep, a datagram is forwarded exactly when it is accepted, and is re-protected under the rollover
      count it was accepted under. */
  lemma ForwardedUnderAcceptedCount(c: Primitives, d: Direction, ctx: Contexts, packet: bytes)
    requires Lockstep(ctx)
    ensures var rtp := Unprotect(c, d.decrypt, ctx.decrypt, packet).0; var out := Forward(c, d, ctx, packet).0;
      && (out.Some? <==> rtp.Ok?)
      && (out.Some? ==>
            && Rtp.WellFormed(rtp.value)
            && var h := Rtp.Parse(rtp.value).value;
            && var roc := EstimateRoc(Lookup(ctx.decrypt, h.ssrc), h.sequence);
            && d.decrypt.suite.TagLen() <= |packet| && Rtp.WellFormed(packet[..|packet| - d.decrypt.suite.TagLen()])
            && UnprotectAt(c, d.decrypt, roc, packet) == Some(rtp.value)
            && out.value == ProtectAt(c, d.encrypt, roc, rtp.value))
  {
    var rtp := Unprotect(c, d.decrypt, ctx.decrypt, packet).0;
    if rtp.Ok? {
      AcceptedPacketKeepsHeader(c, d.decrypt, ctx.decrypt, packet);
      var h := Rtp.Parse(rtp.value).value;
      assert Lookup(ctx.decrypt, h.ssrc) == Lookup(ctx.encrypt, h.ssrc);
    }
  }

  /** The same after any run from fresh contexts. */
  lemma RunForwardsUnderAcceptedCount(c: Primitives, d: Direction, arrivals: seq<Arrival>, packet: bytes)
    ensures var ctx := AfterRun(c, d, Contexts(map[], map[]), arrivals);
            var rtp := Unprotect(c, d.decrypt, ctx.decrypt, packet).0;
      && (Forward(c, d, ctx, packet).0.Some? <==> rtp.Ok?)
      && (rtp.Ok? ==>
            && Rtp.WellFormed(rtp.value)
            && var h := Rtp.Parse(rtp.value).value;
            Forward(c, d, ctx, packet).0
            == Some(ProtectAt(c, d.encrypt, EstimateRoc(Lookup(ctx.decrypt, h.ssrc), h.sequence), rtp.value)))
  {
    RunKeepsLockstep(c, d, Contexts(map[], map[]), arrivals);
    ForwardedUnderAcceptedCount(c, d, AfterRun(c, d, Contexts(map[], map[]), arrivals), packet);
  }

  // ----- datagrams that come again -----

  /** The SSRC and sequence number in a datagram's clear header. */
  predicate HasHeader(d: Direction, packet: bytes) {
    d.decrypt.suite.TagLen() <= |packet| && Rtp.WellFormed(packet[..|packet| - d.decrypt.suite.TagLen()])
  }

  /** The rollover count that a context guesses for a datagram. */
  function GuessFor(d: Direction, streams: Streams, packet: bytes): u32
    requires HasHeader(d, packet)
  {
    var h := Rtp.Parse(packet[..|packet| - d.decrypt.suite.TagLen()]).value;
    EstimateRoc(Lookup(streams, h.ssrc), h.sequence)
  }

  /** After its own index, a sequence number is guessed as before. */
  lemma AcceptKeepsGuess(state: StreamState, sequence: u16)
    ensures EstimateRoc(Accept(state, sequence), sequence) == EstimateRoc(state, sequence)
  {
    var roc := EstimateRoc(state, sequence);
    if Accept(state, sequence) == StreamState(roc, Some(sequence)) {
      assert WrappingSub16(sequence, sequence) == 0;
      if sequence >= HALF { assert WrappingSub16(sequence, HALF) == sequence - HALF; }
    }
  }

  /** There is no replay list (section 3.3.2 of RFC 3711): whatever happened in between, a datagram that was accepted
      is accepted again, and forwarded again octet for octet, as soon as its rollover count is guessed the same. */
  lemma RepeatedDatagramIsForwardedAgain(c: Primitives, d: Direction, ctx: Contexts, later: Contexts, packet: bytes)
    requires Lockstep(ctx) && Lockstep(later) && Forward(c, d, ctx, packet).0.Some?
    ensures HasHeader(d, packet)
    ensures GuessFor(d, later.decrypt, packet) == GuessFor(d, ctx.decrypt, packet) ==>
      Forward(c, d, later, packet).0 == Forward(c, d, ctx, packet).0
  {
    ForwardedUnderAcceptedCount(c, d, ctx, packet);
    ForwardedUnderAcceptedCount(c, d, later, packet);
    AcceptedPacketKeepsHeader(c, d.decrypt, ctx.decrypt, packet);
    hide EstimateRoc, Accept, UnprotectAt, ProtectAt, Rtp.Parse;
  }

  /** And it is guessed the same right after it was accepted. */
  lemma RepeatedAtOnceIsForwardedAgain(c: Primitives, d: Direction, ctx: Contexts, packet: bytes)
    requires Lockstep(ctx) && Forward(c, d, ctx, packet).0.Some?
    ensures Forward(c, d, Forward(c, d, ctx, packet).1, packet).0 == Forward(c, d, ctx, packet).0
  {
    var later := Forward(c, d, ctx, packet).1;
    ForwardKeepsLockstep(c, d, ctx, packet);
    RepeatedDatagramIsForwardedAgain(c, d, ctx, later, packet);
    AcceptedPacketKeepsHeader(c, d.decrypt, ctx.decrypt, packet);
    var h := Rtp.Parse(Unprotect(c, d.decrypt, ctx.decrypt, packet).0.value).value;
    AcceptKeepsGuess(Lookup(ctx.decrypt, h.ssrc), h.sequence);
    assert later.decrypt == AcceptInto(ctx.decrypt, h);
    hide EstimateRoc, Accept, UnprotectAt, ProtectAt, Rtp.Parse, Forward;
  }

  // ----- the whole media path -----

  /** Stream tables along the path: sending endpoint, the relay's two contexts, receiving endpoint. */
  datatype Path = Path(sender: Streams, relay: Contexts, receiver: Streams)

  /** One RTP packet with its true index, and where along the path it is lost, if anywhere. */
  datatype Trip = Trip(sent: IndexedPacket, lostBeforeRelay: bool, lostAfterRelay: bool)

  /** Sends one packet down the path; both endpoints run the same context code with their leg's keys. */
  function Carry(c: Primitives, d: Direction, path: Path, trip: Trip): (Option<bytes>, Path) {
    var (srtp, sender') := Protect(c, d.decrypt, path.sender, trip.sent.packet);
    var path1 := path.(sender := sender');
    if srtp.Err? || trip.lostBeforeRelay then (None, path1) else
    var (out, relay') := Relayed(c, d, path.relay, Arrival(srtp.value, true));
    var path2 := path1.(relay := relay');
    if out.None? || trip.lostAfterRelay then (None, path2) else
    var (rtp, receiver') := Unprotect(c, d.encrypt, path.receiver, out.value);
    (if rtp.Ok? then Some(rtp.value) else None, path2.(receiver := receiver'))
  }

  function CarryAll(c: Primitives, d: Direction, path: Path, trips: seq<Trip>): (delivered: seq<Option<bytes>>)
    ensures |delivered| == |trips|
    decreases |trips|
  {
    if trips == [] then []
    else
      var (r, path') := Carry(c, d, path, trips[0]);
      [r] + CarryAll(c, d, path', trips[1..])
  }

  /** The highest true index per SSRC that has passed each point of the path. */
  datatype Progress = Progress(sender: map<u32, nat>, relay: map<u32, nat>, receiver: map<u32, nat>)
  {
    function After(trip: Trip, ssrc: u32): Progress {
      Progress(
        sender[ssrc := trip.sent.index],
        if trip.lostBeforeRelay then relay else relay[ssrc := trip.sent.index],
        if trip.lostBeforeRelay || trip.lostAfterRelay then receiver else receiver[ssrc := trip.sent.index])
    }
  }

  ghost predicate InStep(path: Path, p: Progress) {
    && TracksAll(path.sender, p.sender)
    && TracksAll(path.relay.decrypt, p.relay) && TracksAll(path.relay.encrypt, p.relay)
    && TracksAll(path.receiver, p.receiver)
  }

  /** A packet the relay can receive whole, whose index is ahead by less than half the sequence space at every point of
      the path that it reaches. */
  predicate TripFits(d: Direction, p: Progress, trip: Trip) {
    && Rtp.WellFormed(trip.sent.packet)
    && |trip.sent.packet| + d.decrypt.suite.TagLen() <= 2048
    && var h := Rtp.Parse(trip.sent.packet).value;
    && h.sequence == trip.sent.index % SEQ_MOD
    && Follows(LastIndex(p.sender, h.ssrc), trip.sent.index)
    && (!trip.lostBeforeRelay ==> Follows(LastIndex(p.relay, h.ssrc), trip.sent.index))
    && (!trip.lostBeforeRelay && !trip.lostAfterRelay ==> Follows(LastIndex(p.receiver, h.ssrc), trip.sent.index))
  }

  ghost predicate TripsFit(d: Direction, p: Progress, trips: seq<Trip>)
    decreases |trips|
  {
    trips != [] ==>
      && TripFits(d, p, trips[0])
      && TripsFit(d, p.After(trips[0], Rtp.Parse(trips[0].sent.packet).value.ssrc), trips[1..])
  }

  function Expected(trip: Trip): Option<bytes> {
    if trip.lostBeforeRelay || trip.lostAfterRelay then None else Some(trip.sent.packet)
  }

  lemma RelayedWhenInStep(c: Primitives, d: Direction, path: Path, p: Progress, trip: Trip)
    requires LawfulAead(c) && InStep(path, p) && TripFits(d, p, trip) && !trip.lostBeforeRelay
    ensures var h := Rtp.Parse(trip.sent.packet).value;
            var srtp := Protect(c, d.decrypt, path.sender, trip.sent.packet).0;
            var out := Protect(c, d.encrypt, path.relay.encrypt, trip.sent.packet).0;
      && srtp.Ok? && out.Ok?
      && Relayed(c, d, path.relay, Arrival(srtp.value, true))
         == (Some(out.value), Contexts(AcceptInto(path.relay.decrypt, h), AcceptInto(path.relay.encrypt, h)))
  {
    var h := Rtp.Parse(trip.sent.packet).value;
    TracksAllNext(path.sender, p.sender, h, trip.sent.index);
    TracksAllNext(path.relay.decrypt, p.relay, h, trip.sent.index);
    RoundTrip(c, d.decrypt, path.sender, path.relay.decrypt, trip.sent.packet);
  }

  /** Where a packet that fits leaves the four stream tables. */
  function PathAfter(path: Path, h: Rtp.Header, trip: Trip): Path {
    Path(
      AcceptInto(path.sender, h),
      if trip.lostBeforeRelay then path.relay
      else Contexts(AcceptInto(path.relay.decrypt, h), AcceptInto(path.relay.encrypt, h)),
      if trip.lostBeforeRelay || trip.lostAfterRelay then path.receiver else AcceptInto(path.receiver, h))
  }

  lemma CarryWhenInStep(c: Primitives, d: Direction, path: Path, p: Progress, trip: Trip)
    requires LawfulAead(c) && InStep(path, p) && TripFits(d, p, trip)
    ensures Carry(c, d, path, trip) == (Expected(trip), PathAfter(path, Rtp.Parse(trip.sent.packet).value, trip))
  {
    var h := Rtp.Parse(trip.sent.packet).value;
    if !trip.lostBeforeRelay {
      RelayedWhenInStep(c, d, path, p, trip);
      if !trip.lostAfterRelay {
        TracksAllNext(path.relay.encrypt, p.relay, h, trip.sent.index);
        TracksAllNext(path.receiver, p.receiver, h, trip.sent.index);
        RoundTrip(c, d.encrypt, path.relay.encrypt, path.receiver, trip.sent.packet);
      }
    }
  }

  lemma PathStaysInStep(d: Direction, path: Path, p: Progress, trip: Trip)
    requires InStep(path, p) && TripFits(d, p, trip)
    ensures var h := Rtp.Parse(trip.sent.packet).value; InStep(PathAfter(path, h, trip), p.After(trip, h.ssrc))
  {
    var h := Rtp.Parse(trip.sent.packet).value;
    TracksAllNext(path.sender, p.sender, h, trip.sent.index);
    if !trip.lostBeforeRelay {
      TracksAllNext(path.relay.decrypt, p.relay, h, trip.sent.index);
      TracksAllNext(path.relay.encrypt, p.relay, h, trip.sent.index);
      if !trip.lostAfterRelay {
        TracksAllNext(path.receiver, p.receiver, h, trip.sent.index);
      }
    }
  }

  lemma {:induction false} CarryAllWhenInStep(c: Primitives, d: Direction, path: Path, p: Progress, trips: seq<Trip>)
    requires LawfulAead(c) && InStep(path, p) && TripsFit(d, p, trips)
    ensures forall i :: 0 <= i < |trips| ==> CarryAll(c, d, path, trips)[i] == Expected(trips[i])
    decreases |trips|
  {
    if trips != [] {
      CarryWhenInStep(c, d, path, p, trips[0]);
      PathStaysInStep(d, path, p, trips[0]);
      CarryAllWhenInStep(c, d, Carry(c, d, path, trips[0]).1,
                         p.After(trips[0], Rtp.Parse(trips[0].sent.packet).value.ssrc), trips[1..]);
    }
  }

  /** Media transparency: for any suites on the two legs, any interleaving of SSRCs and any losses that leave gaps below
      half the sequence space, every packet that is not lost comes out byte for byte as it was sent. */
  lemma MediaTransparency(c: Primitives, d: Direction, trips: seq<Trip>)
    requires LawfulAead(c)
    requires TripsFit(d, Progress(map[], map[], map[]), trips)
    ensures var delivered := CarryAll(c, d, Path(map[], Contexts(map[], map[]), map[]), trips);
      forall i :: 0 <= i < |trips| ==> delivered[i] == Expected(trips[i])
  {
    CarryAllWhenInStep(c, d, Path(map[], Contexts(map[], map[]), map[]), Progress(map[], map[], map[]), trips);
  }
}
