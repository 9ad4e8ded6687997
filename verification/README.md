# Minghe: a verified model of the SIP server's core

Minghe is a SIP server and back-to-back user agent: it registers extensions, routes calls between them, rewrites their
session descriptions, and relays their SRTP media through keys of its own on each leg. This project models the parts of it
whose correctness spans many steps, and proves what the code and the standards it follows promise about them.

`dafny verify dfyconfig.toml` checks everything. The modules, by the file they model:

| source | modules |
|---|---|
| `src/media/srtp.rs` | `PacketIndex` (rollover tracking), `Rtp` (header parsing), `Srtp` (protection as functions), `SrtpWire` (what they do, octet by octet), `SrtpContext` (the crypto context object, key derivation, SDES), `SdesLines` (crypto attributes in a description), `SdesOffers` (which key a rewritten description carries) |
| `src/media/relay.rs` | `Relay` (forwarding and the end-to-end path), `RelayLoop` (the loop object), `RelayPorts` (the relay manager and its port allocator) |
| `src/sip/parser.rs`, `src/sip/server.rs` | `SipText`, `SipReading` (lines, words and header names told by spelling), `Utf8` (which octets are text), `Framing` (framer and read loop), `Chunking` (how a stream may be cut into reads), `Sdp`, `SdpSections` (SDP rewriting), `SipPrinting`, `SipResponses` (response builders), `SipEchoes` (what responses say, read back) |
| `src/sip/router.rs` | `SipForwarding` (rebuilt requests and responses), `SipOutbound` (what becomes of each header of a request sent on), `SipInvites` (when a forwarded INVITE arrives whole), `Calls` (all interleavings of the lock regions), `CallHandlers` (the router object and its handlers), `CallOrigins` (where all that a call and its relay hold comes from) |
| `src/sip/message.rs` | `OfflineMessages` (the store object), `OfflineRuns` (conservation over interleavings), `OfflineOrder` (order, trimming, expiry), `OfflineRates` (the rate bound), `OfflineBursts` (runs that show what the conditions are for) |
| `src/sip/registrar.rs` | `Nonces`, `Blocking`, `BlockingWindows` (fixed windows against sliding ones), `Registrar` (the handler alone), `RegistrarRuns` (all interleavings of its regions) |

`Words`, `Seqs` and `Wrappers` are shared helpers.

How to read it. What the source changes step by step is a class or a method with loops, proved equal to a function of
the old state; what the source promises is proved about those functions and about whole runs of them. What
such a function yields is also told without its help, by octets, words, header names and numbers: in `SrtpWire`, `SipReading`,
`SipEchoes`, `SipOutbound`, `CallOrigins`, and in single theorems of the other modules. Where several tasks share state, every region that the source runs under one lock is one step, and "run" means any interleaving of
such steps; a time that the source reads before it takes the lock is read in a step of its own or is an arbitrary
parameter of the region. Where a row says "one at a time" it is about calls that do not overlap. Text is one character
per octet, with ASCII white space and letter case. AES on one block, HMAC-SHA1, AES-GCM, base64 and MD5 are arbitrary
functions; the only laws used are that AEAD open undoes seal, which adds 16 octets, that base64 decoding undoes
encoding, and, for reading crypto lines back, that base64 text is non-empty and holds no white space and no bar. Random
values, clocks and the outcome of sends are parameters.

Where the code and its comments or standards differ, the model follows the code, and says by how much:

- `estimate_roc` subtracts with wrap-around where Appendix A of RFC 3711 subtracts plain integers
  (src/media/srtp.rs:695). `PacketIndex.AgreesWithRfcExactly` gives the two regions in which they differ, and
  `PacketIndex.RecoveredExactly` which packets are then attributed to the right rollover count.
- The failure window is described as sliding (src/sip/registrar.rs:217-222) but is a fixed window that starts at the first
  failure. `BlockingWindows.SlidingPromiseExactly` says for which policies that makes no difference,
  `BlockingWindows.DenseReachesExactly` which failures close together reach the threshold, and
  `BlockingWindows.FixedWindowsMissABurst` gives for every policy the longest stretch that goes unnoticed.
- Times are read before the lock is taken, so regions can go by times out of order although the clock never goes back.
  The rate of a sender then has no bound at all (`OfflineBursts.LateStoresHaveNoBound`): to the 240 messages within 60
  seconds it can add one for every store that passes the gate late (`OfflineRates.SenderRateBound`). A live nonce can be
  lost to a clean-up (`Nonces.LateRegionLosesALiveNonce`; exactly when, `Nonces.AcceptedExactly`), and a failure can be
  forgotten (`Blocking.LateRegionForgetsAFailure`; exactly when, `Blocking.CountsTheSameExactly`).
- A request that has passed the blocked check goes on to register when its address is blocked in between
  (`RegistrarRuns.PassedBeforeBlocked`); one whose check comes later changes nothing (`RegistrarRuns.BlockedStaysOut`).
- Two deliveries to one extension, which two REGISTERs start (src/sip/server.rs:470-473), can trim the newest message and keep
  the older ones (`OfflineBursts.TwoDeliveriesTrimTheNewest`).
- The size cap of a connection is checked after the frames have been taken out, so it lets through frames of 65537 octets
  always, and longer ones up to 73728 octets depending on how the stream is read (`Chunking.OversizedFrameDependsOnReads`).
- There is no list of packets received (section 3.3.2 of RFC 3711): an accepted datagram that comes again is forwarded again
  (`Relay.RepeatedDatagramIsForwardedAgain`).
- A range of relay ports that ends at 65535 is accepted by the configuration, but the 16-bit cursor then wraps and hands out
  ports from 0, which are outside unless the range starts there (`RelayPorts.PortsStayInRangeExactly`). Overflow wraps, as in
  release builds.
- A last audio section without any crypto attribute gets no crypto lines when no m=audio line of the description has four
  fields (`SdpSections.RewriteSections`). The comment at src/sip/parser.rs:802-804 says that crypto lines of audio sections
  never reach the general filter; indented or capitalised ones do, and are dropped there.
- A response to a request that lacks From, Call-ID or CSeq (or To, unless a tag is added) contains a blank line too early, so
  it does not frame as one message (`SipResponses.ResponseFramesExactly`, `SipResponses.BareRequestFramesEarly`).
- A relay start that was claimed for a call goes to the next call with the same Call-ID if the first ends in between
  (`Calls.ReusedCallIdStartsTwice`); relays are keyed exactly as long as that does not happen
  (`Calls.StartsAreKeyedExactly`). Two interleaved INVITEs with one Call-ID can leave a call without a relay session
  (`Calls.InterleavedInvitesLoseASession`), which is why sessions are spoken of with messages handled one at a time.
- A crypto line without `a=` in front survives the rewriting and is accepted by the reader, so it can win over the server's
  own key (`SdesOffers.StrayKeyWins`; exactly when, `SdesOffers.OfferReadsBackExactly`).
- Replacing the length of a request looks at untrimmed lines, sending it on trims them: an indented length survives next to
  the new one, and an empty or blank-looking header line cuts off what follows (`SipInvites.IndentedLengthBreaks`,
  `SipInvites.ForwardedInviteExactly`).
- Without `qop=auth` a nonce can be used again until it expires (`Nonces.ReplayExactly`).

## Model

| member | source | states |
|---|---|---|
| PacketIndex.AgreesWithRfcExactly | src/media/srtp.rs:689-705 | the guessed rollover count equals the one of Appendix A of RFC 3711 on an initialised state if and only if the state is outside two named regions of the lower half |
| PacketIndex.RecoveredExactly | src/media/srtp.rs:689-705 | for all pairs of highest index and true index: the packet is attributed to its true rollover count if and only if it lies in explicit intervals around the highest index |
| PacketIndex.LatePacketRecoveredExactly | src/media/srtp.rs:689-705 | a packet late by 1 to 32767 is recovered exactly when the highest index is in the upper half, or the packet lies across the wrap, or there was no rollover yet |
| PacketIndex.ForwardPacketRecovered | src/media/srtp.rs:689-720 | a packet ahead by 1 to 32767 is always recovered and becomes the highest index, across any rollover below 2^48 |
| PacketIndex.StoredIndexNeverDecreases | src/media/srtp.rs:707-720 | for every state and sequence number, accepting a packet never lowers the stored 48-bit index |
| PacketIndex.RunRecoversEveryIndex | src/media/srtp.rs:689-720 | index recovery over whole runs (section 3.3.1 of RFC 3711): for true indices that start below 65536 and rise by 1 to 32767, every guess is right and the stored state is the true last index |
| Rtp.ParseDependsOnHeaderBytes | src/media/srtp.rs:842-909 | header parsing depends only on the header's own octets, CSRC list and extension included, so encrypting the payload cannot change it |
| SrtpWire.HeaderReadExactly | src/media/srtp.rs:842-909 | a packet has a header exactly if it has version 2 and room for the CSRC list and the extension that it announces; sequence number, SSRC and header length are read from octets 2 and 3, 8 to 11, and the length fields (section 5.1 of RFC 3550) |
| Srtp.CounterBlockInjective | src/media/srtp.rs:560-604 | for a fixed salt the AES-CM counter block determines SSRC, 48-bit index and block number (section 4.1.1 of RFC 3711) |
| Srtp.GcmIvInjective | src/media/srtp.rs:611-619 | for a fixed salt the GCM vector determines SSRC, rollover count and sequence number (section 8.1 of RFC 7714) |
| Srtp.AesCmIsItsOwnInverse | src/media/srtp.rs:560-604 | masking twice with the counter-mode keystream gives the data back, at any length |
| Srtp.ProtectedPacketShape | src/media/srtp.rs:402-470 | protection adds exactly the suite's tag length, keeps the header octets, and leaves a packet that parses to the same header |
| Srtp.UnprotectAtUndoesProtectAt | src/media/srtp.rs:402-552 | under one rollover count, unprotecting a protected packet yields the packet, in both suites |
| Srtp.RoundTrip | src/media/srtp.rs:402-552 | if both sides guess the same rollover count, unprotect of protect returns the packet, the length grows by exactly the tag, and both sides advance their state for that SSRC |
| Srtp.AcceptedPacketKeepsHeader | src/media/srtp.rs:476-552 | whatever unprotection accepts carries the header it arrived with, so it can be protected again, and the state advances by that header |
| SrtpWire.ProtectExactly | src/media/srtp.rs:402-470 | which octets protection sends, for every packet: the header in clear; under AES-CM each payload octet masked by AES of the counter block of its SSRC, rollover count, sequence number and position, then the first ten octets of the HMAC over all this and the four octets of the rollover count; under GCM the payload sealed under the vector of section 8.1 of RFC 7714 with the header as associated data; an error exactly without a header |
| SrtpWire.RunIsProtected | src/media/srtp.rs:402-470 | along a run of rising indices per SSRC that rollover count is the true index divided by 65536 |
| SrtpWire.UnprotectExactly | src/media/srtp.rs:476-552 | a datagram is accepted exactly if its last ten octets are that HMAC over the rest and the guessed rollover count, or if it opens under that vector with its header as associated data; and what it then unprotects to; and with which error any other is refused |
| Srtp.PacketKeysAreTrueIndices | src/media/srtp.rs:402-470 | over a run of increasing indices per SSRC, any mix of SSRCs, each packet is protected under its true index |
| Srtp.PacketKeysDistinct | src/media/srtp.rs:402-470 | no two packets of such a run are protected under the same SSRC, rollover count and sequence number |
| Srtp.CipherInputsNeverRepeat | src/media/srtp.rs:560-619 | over such a run no two (packet, block) pairs share an AES-CM input and no two packets share a GCM vector |
| SrtpContext.SdesRoundTrip | src/media/srtp.rs:212-266 | importing an exported SDES key gives the same suite, master key and salt |
| SrtpContext.SdesImportExactly | src/media/srtp.rs:212-243 | import succeeds exactly for texts that decode to key and salt of the suite's length, and exporting gives those octets back |
| SrtpContext.SdesKeysExactly | src/media/srtp.rs:212-243 | which octets are key and salt: 16 and 14 of 30 for AES-CM, 16 and 12 of 28 for GCM, with two zeros after; any other length, and text that is not base64, is its own error |
| SrtpContext.DerivedKeysExactly | src/media/srtp.rs:307-360 | the three session keys written out as AES of the master salt with label 0, 1 or 2 in its eighth octet (section 4.3 of RFC 3711) |
| SrtpContext.ConstantTimeEq | src/media/srtp.rs:806-820 | the comparison that visits every octet decides equality |
| SrtpContext.SrtpCryptoSuite.PrfDerive | src/media/srtp.rs:326-360 | the derivation loop yields the key stream of section 4.3.1 of RFC 3711 under a label |
| SrtpContext.SrtpCryptoSuite.DeriveSessionKeys | src/media/srtp.rs:307-323 | the session keys of a context are the three derived ones, the authentication key only for AES-CM |
| SrtpContext.SrtpCryptoSuite.ToSdesKey | src/media/srtp.rs:258-266 | the exported text is the base64 of key and salt, 14 octets of it or 12, and imports to the context's own master keys |
| SrtpContext.SrtpCryptoSuite.AesCmEncrypt | src/media/srtp.rs:560-604 | the block loop over a counter block kept in place computes the counter-mode masking, for any data length |
| SrtpContext.SrtpCryptoSuite.BuildGcmIv | src/media/srtp.rs:611-619 | the in-place exclusive-or loop computes the vector of section 8.1 of RFC 7714 |
| SrtpContext.SrtpCryptoSuite.UpdateStreamStateAfterSuccess | src/media/srtp.rs:707-720 | writing through the stream's entry advances that SSRC's state and no other |
| SrtpContext.SrtpCryptoSuite.ProtectRtp | src/media/srtp.rs:402-470 | the object's protection, with its table of streams, is the function of the round trip and the run theorems; it fails exactly without a header, and otherwise sends header, masked or sealed payload and the tag over them and the rollover count, written out octet by octet |
| SrtpContext.SrtpCryptoSuite.UnprotectRtp | src/media/srtp.rs:476-552 | likewise for unprotection: it accepts exactly if the ten octets received are the HMAC over the rest and the rollover count, or the seal opens, and yields header and payload; a rejected packet leaves every SSRC's state as it reads |
| SdesLines.ExtractSrtpCrypto | src/sip/router.rs:1455-1493 | the scan of a description with its fallback variable picks the first usable AES-CM attribute, or else the first usable GCM one, or nothing |
| SdesLines.LineReadExactly | src/media/srtp.rs:752-804 | a crypto line, told by its parts, is usable exactly if its tag is a number of 32 bits, its suite known, and its key, up to a bar, decodes to the suite's octets; then it gives this tag and these keys |
| SdesLines.SuiteByName | src/media/srtp.rs:67-73 | the two suites known, by name in any case |
| SdesLines.AdvertisedText | src/sip/parser.rs:677-685 | the crypto line that the server writes, as text |
| SdesLines.AdvertisedReadsBack | src/sip/router.rs:1455-1498 | a crypto line that the server advertises reads back, by the same code, as exactly its tag and master keys |
| SdesOffers.OfferReadsBackExactly | src/sip/router.rs:1455-1493 | reading a rewritten offer with the server's own reader yields the advertised AES-CM key if and only if no stray usable line (a crypto attribute without `a=`) comes before the first crypto lines written, or it has the same key, and these lines come; a stray key otherwise |
| SdesOffers.GcmAnswerReadsBackExactly | src/sip/router.rs:1455-1493 | the same for an answer that advertises one GCM key, where a stray AES-CM key anywhere wins |
| SdesOffers.PlainOfferReadsBack | src/sip/router.rs:1455-1493 | without such lines and with some full m=audio line the advertised key is read |
| SdesOffers.StrayKeyWins | src/sip/router.rs:1455-1493 | an explicit description for which it is not: one with such a line in front |
| Relay.ForwardKeepsLockstep | src/media/relay.rs:254-283 | forwarding, rejecting or failing on one datagram keeps the two contexts' per-SSRC states equal |
| Relay.RunKeepsLockstep | src/media/relay.rs:254-283 | the decrypt and encrypt contexts of a direction stay equal, an absent entry read as default, after any run of accepted, rejected and dropped datagrams over any SSRCs |
| Relay.ForwardedUnderAcceptedCount | src/media/relay.rs:254-283 | in lockstep a datagram is forwarded exactly when it is accepted, re-protected under the index it was accepted under |
| Relay.RunForwardsUnderAcceptedCount | src/media/relay.rs:254-283 | the same after any run from fresh contexts |
| Relay.RepeatedDatagramIsForwardedAgain | src/media/relay.rs:254-283 | no replay list: whatever happened in between, a datagram once forwarded is forwarded again, octet for octet, when its rollover count is guessed the same |
| Relay.RepeatedAtOnceIsForwardedAgain | src/media/relay.rs:254-283 | and it is guessed the same right after its acceptance |
| Relay.LongDatagramsAreCut | src/media/relay.rs:227-260 | of a datagram longer than 2048 octets only the first 2048 are looked at; empty ones, and those without a destination, change nothing |
| Relay.MediaTransparency | src/media/relay.rs:260-283 | end-to-end transparency: with losses on either leg, for every pair of suites, each packet that crosses both legs comes out byte for byte as the sender's RTP packet |
| RelayLoop.ForwardingLoop.Turn | src/media/relay.rs:227-300 | one turn of the forwarding loop over the two context objects is one step of the relay model; the source address is learned once and never replaced; without both contexts nothing is sent |
| RelayPorts.RoundRobin | src/media/relay.rs:69-92 | the n-th port handed out is even, in the range, and counts round it; allocation never fails |
| RelayPorts.SamePortAfterOneSweep | src/media/relay.rs:69-92 | any K = ceil((end - start) / 2) consecutive ports differ, and the K-th next is the same again |
| RelayPorts.SessionPortsNotReused | src/media/relay.rs:96-127 | the two ports of a session differ and are not handed out again within the next floor((K - 2) / 2) sessions |
| RelayPorts.PortsStayInRangeExactly | src/media/relay.rs:69-92 | for ever even and in range if and only if the range does not end at 65535 or starts at 0 |
| RelayPorts.MediaRelayManager.AllocatePortPair | src/media/relay.rs:69-92 | the retry loop over the shared cursor yields the next port of the round robin and never fails in a non-empty range |
| RelayPorts.MediaRelayManager.CreateSession | src/media/relay.rs:96-127 | an existing session is returned unchanged; a new one takes the next two ports of the allocator, in every range, and is the only change |
| RelayPorts.MediaRelayManager.RemoveSession | src/media/relay.rs:130-146 | drops exactly that session and its stop sender |
| Framing.FindHeaderEnd | src/sip/parser.rs:539-550 | the scan finds the first blank line, or reports that there is none |
| Framing.ReadContentLength | src/sip/parser.rs:551-585 | the header loop yields the length that all Content-Length lines agree on, and an error when one is malformed or two differ |
| Framing.FrameSipMessage | src/sip/parser.rs:539-595 | the framer's verdict: incomplete, invalid, or complete with a length within the buffer |
| SipReading.LengthByName | src/sip/parser.rs:551-585 | a header line gives a length exactly under the name Content-Length or l, in any case, and the length is what follows the colon, trimmed |
| SipReading.FrameExactly | src/sip/parser.rs:539-595 | the verdict on every buffer: incomplete without a blank line; with one, invalid unless what comes before it is text whose lines agree on a length; then complete exactly if that many octets follow, none given counting as 0 |
| SipReading.LengthsReadExactly | src/sip/parser.rs:564-585 | header lines yield a length exactly if all that give one give this one |
| Utf8.ValidExactly | src/sip/parser.rs:556-566 | a header block counts as text exactly if it is a sequence of encoded scalar values, each in its shortest form (section 3 of RFC 3629) |
| Framing.VerdictIsStable | src/sip/parser.rs:539-595 | Complete and Invalid do not change when octets are appended, and Complete consumes at least 4 |
| Framing.IncompleteIsShort | src/sip/parser.rs:539-595 | an incomplete buffer is shorter than the frame, or the header block, that it grows into |
| Framing.DrainBuffer | src/sip/server.rs:350-373 | the extraction loop hands over the frames of the buffer in order and keeps the unframed rest |
| Framing.ReadLoop | src/sip/server.rs:323-382 | the read loop with its breaks and its size check, over any sequence of reads |
| Framing.DrainInTwoSteps | src/sip/server.rs:350-373 | draining early and carrying the rest over is the same as draining everything at once |
| Framing.ServedFramesAreStreamFrames | src/sip/server.rs:323-382 | for any cutting, with any cap, the frames so far are a prefix of the whole stream's, all of them if the connection was not cut off by the cap |
| Framing.StreamDrainsExactly | src/sip/server.rs:350-373 | a stream of messages is taken apart into exactly these, with nothing left over, if and only if each of them frames as itself |
| Chunking.CapNeverFires | src/sip/server.rs:323-382 | from any buffer, the size cap never fires on a stream whose frames, and header block of an invalid frame, are at most 65537 octets and whose tail is at most 65536 |
| Chunking.ChunkingIndependence | src/sip/server.rs:323-382 | every way of reading a stream, 1 to 8192 octets at a time, gives the messages, the verdict and the rest of framing it at once, and equally never overflows, if and only if it fits those lengths |
| Chunking.OversizedFrameDependsOnReads | src/sip/server.rs:323-382 | a frame of more than 65537 octets breaks the connection when read octet by octet, and some way of reading lets it through if and only if it is at most 73728 |
| Chunking.MessagesArrive | src/sip/server.rs:323-382 | however a stream of whole text messages of at most 65537 octets is read, exactly these messages are processed, in order, with nothing left over |
| Sdp.RewriteSdpWithCryptos | src/sip/parser.rs:721-792 | the line loop with its section flags computes the rewriting that the next rows are about; what it makes of m=audio lines is told by `SdpSections.RewrittenAudioLines`, what it drops by `SdpSections.StrippedExactly` |
| Sdp.RewriteTwice | src/sip/parser.rs:721-823 | rewriting is idempotent on every description, with and without crypto lines |
| SdpSections.RewrittenAudioLines | src/sip/parser.rs:740-765 | on every description, the k-th m=audio line of the result has as fields m=audio, the relay's port, RTP/SAVP (or the protocol it had, if no crypto lines are given), and then the fields from the fourth on of the k-th m=audio line given, if that has at least four; otherwise it is that line |
| SdpSections.StrippedExactly | src/sip/parser.rs:800-823 | the fourteen attributes that are dropped, in any case and however indented, and no others |
| SdpSections.RewriteWithoutCryptos | src/sip/parser.rs:721-792 | without crypto lines to insert, only c= and m=audio lines change and only the crypto attributes of audio sections go |
| SdpSections.EverySectionAsExpected | src/sip/parser.rs:721-792 | from any state of the flags, the crypto lines of each section of the output, as a function of the shapes of the input's sections |
| SdpSections.RewriteSections | src/sip/parser.rs:721-792 | every section of the result carries exactly the expected crypto lines, once and in order, and no original one survives anywhere |
| SdpSections.RewriteKeepsOrder | src/sip/parser.rs:721-823 | all other lines that are kept stay in their order, and nothing else is added |
| SdpSections.FullAudioSectionsCarryGivenCryptos | src/sip/parser.rs:721-792 | each audio section with at least four fields ends up with exactly the given crypto lines; a section that is not audio with none |
| SipPrinting.FrameOfPrinted | src/sip/parser.rs:539-595 | a printed message frames by the length its header lines agree on, and its body reads back |
| SipPrinting.ContentLengthAgrees | src/sip/parser.rs:551-585 | header lines that carry no length, or all the same, are accepted with it |
| SipReading.KindByName | src/sip/parser.rs:225-244 | which header a line carries, by its name before the first colon in any case, short forms included |
| SipReading.LinesExactly | src/sip/parser.rs:220-230 | a line ends at a line feed, with one carriage return right before it; the last one may end the text |
| SipReading.WordsExactly | src/sip/parser.rs:386-400 | words are what white space separates |
| SipReading.TrimmedExactly | src/sip/parser.rs:222-226 | trimming takes the longest white space off both ends and nothing else |
| SipReading.LowerByAlphabet | src/sip/parser.rs:226-226 | letter case: the 26 capitals become their small letters, nothing else changes |
| SipReading.ContainsExactly | src/sip/parser.rs:245-245 | a part is found if and only if it stands somewhere |
| SipResponses.BuildResponseWithBody | src/sip/parser.rs:213-279 | collecting the request's headers by kind in one pass and pushing them in order prints the response that the next rows are about |
| SipResponses.ResponseFramesExactly | src/sip/parser.rs:102-279 | a built response frames as exactly itself if and only if the request has From, Call-ID and CSeq header lines, and a To line unless the status is above 100; then its body reads back |
| SipResponses.ResponseStreamExactly | src/sip/server.rs:350-373 | a stream of built responses is taken apart into exactly these responses if and only if each request has those lines |
| SipResponses.BareRequestFramesEarly | src/sip/parser.rs:102-279 | a concrete failing request: every response to a request line alone frames too early |
| SipResponses.ResponseReadsBack | src/sip/parser.rs:317-401 | the response to a request with one Call-ID that has those lines reads back with the given status and that Call-ID |
| SipEchoes.ResponseEchoes | src/sip/parser.rs:213-279 | what a response says, read back line by line: its status and reason; all Via headers of the request in order; its last From, Call-ID and CSeq headers; its last To header, with a tag added unless the status is 100 or it has one, in any case; the extra headers; and the length of the body |
| SipEchoes.OfKindExactly | src/sip/parser.rs:225-244 | the headers of one kind that are collected are all of these and no others, in the order they come |
| SipForwarding.ForwardedResponseFrames | src/sip/router.rs:1221-1271 | a response forwarded to the caller always frames as exactly itself and carries the given body |
| SipEchoes.ForwardedEchoes | src/sip/router.rs:1221-1271 | what a forwarded response says: its status and reason; all Via headers of the INVITE; its first From, Call-ID and CSeq headers as far as it has any; the first To header of the answer, else of the INVITE, else one made from the contact; the contact exactly for a success; and the length of the body |
| SipForwarding.RebuildRequestWithSdp | src/sip/router.rs:1064-1104 | the loop that replaces the length headers and the body of a request; what comes out is told by `SipOutbound.RebuiltSays` |
| SipForwarding.BuildOutboundRequest | src/sip/router.rs:1137-1219 | the loop that writes the server's own Via and Contact and drops routing headers; what comes out is told by `SipOutbound.OutboundSays` |
| SipOutbound.RebuiltSays | src/sip/router.rs:1064-1104 | the rebuilt request keeps all header lines in order, except that each named Content-Length or l gives the new length; a content type and a length are added exactly if no line is named so; then the new description |
| SipOutbound.OutboundSays | src/sip/router.rs:1137-1219 | what the outbound request says, read back header by header: the request line with the new target; the server's Via and no other, no route left; every contact, and at least one, the server's, if it has one to give; and all headers but those and the negotiation headers unchanged in order, From, To, Call-ID and CSeq among them; what is not a request is left alone |
| SipOutbound.NegotiationLine | src/sip/router.rs:1273-1302 | a header that lists option tags keeps, under its name and in order, those that are not dropped, or goes if none is left; session timer headers go |
| SipOutbound.KeptTagsExactly | src/sip/router.rs:1281-1293 | which option tags are dropped: empty ones, timer and 100rel, in any case |
| SipInvites.ForwardedInviteExactly | src/sip/router.rs:1064-1219 | a forwarded INVITE arrives as one message whose body is the rewritten description if and only if no header line is empty, none of those that decide the length carries another one out of sight of the replacing test, and one of them carries a length, which the line added at the end does unless a blank-looking line comes before it |
| SipInvites.ForwardedInviteFrames | src/sip/router.rs:1064-1219 | in particular when no header line is empty or indented, whatever lengths they carry |
| SipInvites.IndentedLengthBreaks | src/sip/router.rs:1064-1219 | it does not when an indented Content-Length line among them carries another length |
| OfflineMessages.MergeBack | src/sip/message.rs:91-99 | the popping loop keeps undelivered messages before newer ones and cuts the oldest beyond 100 |
| OfflineMessages.AddUp | src/sip/message.rs:335-359 | the counting loops over all queues add up to the totals that the quotas are compared with |
| OfflineMessages.OfflineStore.StoreOfflineMessage | src/sip/message.rs:281-385 | a store is its rate region followed by its queue region, with the same outcome in each case; the two are told by the next rows |
| OfflineMessages.GateExactly | src/sip/message.rs:292-321 | a sender passes unless its window is younger than 60 seconds and has counted 120; a pass is counted, a refusal is not, and no other sender's window changes |
| OfflineMessages.StoreExactly | src/sip/message.rs:323-385 | every queue keeps its fresh messages; the store is refused exactly when 500 of them are its sender's, or 10000 are held; otherwise its message goes to the end of its queue, whose oldest one leaves if it had 100 |
| OfflineMessages.HeldExactly | src/sip/message.rs:335-352 | what is compared with the quotas is the number of messages over all queues, the sender's or all |
| OfflineMessages.OfflineStore.DeliverOfflineMessages | src/sip/message.rs:392-474 | a delivery run to its end hands over as many of the fresh messages as sends work, in order; delivered and queued messages together are the fresh ones of the old queue in order, those beyond the newest 100 left aside; all other queues are unchanged |
| OfflineMessages.DeliverHandsOver | src/sip/message.rs:392-474 | the same of the function that the quotas are proved of: a message whose send fails is not lost |
| OfflineMessages.FreshOneByOne | src/sip/message.rs:77-88 | which messages are fresh, and in which order they stay: those less than 86400 seconds old |
| OfflineMessages.QuotasHoldOverRuns | src/sip/message.rs:335-385 | from any state within them, stores and deliveries run one at a time keep the quotas: no sender holds more than 500 messages and the store no more than 10000 |
| OfflineMessages.QuotasHoldFromTheStart | src/sip/message.rs:335-385 | so they hold in every such run from the empty store |
| OfflineRuns.StepFollowsRegions | src/sip/message.rs:281-474 | the steps of the interleaving model, of which a store is three (reading the clock, the rate region, the queue region), change the shared tables exactly as the store's lock regions do |
| OfflineRuns.RunConserves | src/sip/message.rs:281-474 | in every interleaving of clock readings, rate regions, queue regions, takings, sends, failures and put-backs no accepted message is lost or doubled, and no queue exceeds 100 |
| OfflineRuns.PlaceDecides | src/sip/message.rs:281-474 | what conservation means: each accepted message is in exactly the container that its place names, and received only by its addressee |
| OfflineOrder.DeliveredInAcceptanceOrder | src/sip/message.rs:392-474 | in every interleaving with at most one delivery per extension at a time, each extension receives its messages in the order of the queue regions that accepted them, put-backs included |
| OfflineOrder.OnlyTheOldestAreTrimmed | src/sip/message.rs:91-385 | in every interleaving with at most one delivery per extension at a time, whenever a message is trimmed its queue is full afterwards and everything left in it is newer |
| OfflineOrder.OnlyTheStaleExpire | src/sip/message.rs:77-88 | in any interleaving a message is only dropped as expired by a queue region or a taking that goes by a time at which its time to live is over |
| OfflineRates.SenderRateBound | src/sip/message.rs:281-330 | in every interleaving, a sender has at most 240 messages accepted with times within 60 seconds, and as many more as its stores pass the rate region late, after one that carries a later time |
| OfflineRates.OnTimeSenderBound | src/sip/message.rs:281-330 | at most 240 when none is late |
| OfflineBursts.LateStoresHaveNoBound | src/sip/message.rs:281-385 | and no bound at all otherwise: for every n a run from the empty store, with a clock that never goes back, that accepts n messages of one sender within 60 seconds |
| OfflineBursts.TwoDeliveriesTrimTheNewest | src/sip/message.rs:91-474 | with two deliveries to one extension at once the newest message can be trimmed while the 100 older ones stay: an explicit run |
| Nonces.NonceTable.Challenge | src/sip/registrar.rs:546-573 | a challenge records its nonce after making room: expired entries first, then all |
| Nonces.NonceTable.ValidateNonce | src/sip/registrar.rs:595-625 | the verdict on a returned nonce and the table after it, branch by branch |
| Nonces.AcceptanceHasChallenge | src/sip/registrar.rs:546-625 | every accepted nonce was issued to the same address less than 300 s before, over any run |
| Nonces.CountsStrictlyIncrease | src/sip/registrar.rs:595-625 | the counts accepted for one nonce under qop=auth strictly increase over any run, despite expiry, eviction and whole-table clears (section 3.2.2 of RFC 2617) |
| Nonces.StaysUntilRemoved | src/sip/registrar.rs:546-703 | over any run with nonces never reissued, an issued nonce is in the table if and only if no later region has removed it: by a clean-up, prune or validation that finds it expired, or by clearing a full table |
| Nonces.AcceptedExactly | src/sip/registrar.rs:546-703 | a validation of a nonce issued to its address and live by its own time succeeds if and only if, under qop=auth, its count is above 0 and above all accepted ones, and no region since the challenge has removed the nonce |
| Nonces.ExactlyTheDeservedAreAccepted | src/sip/registrar.rs:546-625 | in particular exactly when it is deserved, nothing live being lost, if no region before it went by a later time and the table was never cleared |
| Nonces.LateRegionLosesALiveNonce | src/sip/registrar.rs:595-703 | an instance of removal: a validation that reads its time before a clean-up and gets the lock after it |
| Nonces.ReplayExactly | src/sip/registrar.rs:614-624 | repeating an accepted validation succeeds exactly when its qop is not auth |
| Nonces.TableStaysBounded | src/sip/registrar.rs:553-573 | the table never exceeds 100000 entries |
| Blocking.FailureTables.RecordFailure | src/sip/registrar.rs:230-300 | the counting region and the blocking region, and nothing at all when blocking is disabled |
| Blocking.EntryIsStreak | src/sip/registrar.rs:244-283 | a resting entry counts the failures since a window opened, all inside it, with no success among them, between 1 and the threshold less one |
| Blocking.BlockedSoundly | src/sip/registrar.rs:230-305 | an address is only ever blocked after max_failures failures in one fixed window with no success in between, in any interleaving of the regions |
| Blocking.CountsTheSameExactly | src/sip/registrar.rs:244-283 | over any run, all failures of an address count as they do in a counter kept for it alone if and only if no window of its own is dropped in making room that would still have counted its next failure |
| Blocking.ReachesExactly | src/sip/registrar.rs:244-283 | so an address reaches the threshold exactly when its own counter does, as long as nothing is lost |
| Blocking.InOrderNothingIsLost | src/sip/registrar.rs:244-283 | nothing is lost when failures are counted in the order of their clock readings and the table is never cleared |
| Blocking.LostWindowTells | src/sip/registrar.rs:244-283 | every loss can be told: the failures still missing to the threshold then reach it in the counter and not in the table |
| Blocking.LateRegionForgetsAFailure | src/sip/registrar.rs:230-283 | an instance of loss: another address's later failure gets the lock first and prunes the window |
| Blocking.InsertedUnlessFull | src/sip/registrar.rs:286-300 | every insertion follows an earlier failure of its address that reached the threshold; if there is room, or it was blocked already, the address is blocked at every later point of the run, and otherwise it is not |
| Blocking.BlockedForGood | src/sip/registrar.rs:286-300 | blocked addresses stay blocked |
| Blocking.TablesStayBounded | src/sip/registrar.rs:244-300 | both tables respect their configured limits |
| BlockingWindows.DenseReachesExactly | src/sip/registrar.rs:244-283 | as long as nothing of the address is lost, some failure of a stretch within one window length reaches the threshold if and only if those up to the first outside the window already running fill it up, or those after it are max_failures by themselves |
| BlockingWindows.EnoughFailuresReach | src/sip/registrar.rs:244-283 | as long as nothing of the address is lost, 2 * max_failures - 2 failures within one window length, with no success, always reach the threshold, and max_failures do when that is 1 or the window is one second |
| BlockingWindows.FixedWindowsMissABurst | src/sip/registrar.rs:217-222 | one fewer need not, for every policy: an explicit run in which nothing reaches the threshold and the address is not blocked, although the comment describes a sliding window |
| BlockingWindows.SlidingPromiseExactly | src/sip/registrar.rs:217-283 | for every valid policy: as long as nothing of the address is lost, max_failures failures within one window length always reach the threshold, as a sliding window promises, if and only if max_failures is at most 2, the window is one second, or the table has a single slot |
| Registrar.RegistrarService.HandleRegister | src/sip/registrar.rs:329-539 | the handler run by itself, over the two tables and the registrations, makes its checks in the source's order; which requests it accepts is told by `Registrar.AcceptedByDigestExactly` |
| Registrar.AcceptedExactlyWhenAuthorized | src/sip/registrar.rs:329-539 | handled by itself, a REGISTER is accepted if and only if every check holds, and only then changes a registration: its own extension's, to the contact, address and expiry asked for, 3600 seconds if none, or away for 0 |
| Registrar.AcceptedByDigestExactly | src/sip/registrar.rs:329-539 | the checks written out, both ways: the address not blocked; the extension a 32-bit number in the configured range, over TLS or listed for UDP; the user name the extension; the nonce standing; and the response, in any case, the MD5 digest of section 3.2.2.1 of RFC 2617 (or RFC 2069 without qop) over the extension's own password, or the default one if it has none |
| Registrar.WrongPasswordIsRefused | src/sip/registrar.rs:469-486 | so if digests do not collide, a response computed from any other password is refused |
| Registrar.CountReadsBack | src/sip/registrar.rs:450-456 | a nonce count is the hexadecimal number it is, up to 64 bits |
| Registrar.CaseMattersNot | src/sip/registrar.rs:450-456 | in any letter case |
| Registrar.RefusedExactly | src/sip/registrar.rs:346-466 | which refusal a request gets, both ways; and the nonce of a 401 can be answered from that address in the state right after it, at any time within 300 s |
| Registrar.FailuresCountedOnce | src/sip/registrar.rs:339-490 | for every request: a refusal counts exactly one failure unless the address was blocked before, success clears them, asking for a challenge costs nothing, and nothing counts when blocking is disabled |
| Registrar.CountIsUsedUp | src/sip/registrar.rs:452-490 | a nonce count is used up by the first request that carries it, even with a wrong password |
| RegistrarRuns.HandledAlone | src/sip/registrar.rs:329-539 | from any state, the regions of a request run without others in between give the reply and the tables of the handler by itself |
| RegistrarRuns.NoncesFollowLog | src/sip/registrar.rs:546-703 | the nonce table at any point of an interleaving is that of the log of nonce regions so far, so the run theorems about nonces apply |
| RegistrarRuns.AcceptedWasValidated | src/sip/registrar.rs:452-539 | every request past its checks was validated successfully by exactly one earlier region, its own |
| RegistrarRuns.OnlyPassedRequestsRegister | src/sip/registrar.rs:329-703 | in every interleaving a registration changes only by expiry or by the last region of a request that passed all checks, and then only its own extension's |
| RegistrarRuns.BlockedTookABurst | src/sip/registrar.rs:230-490 | in every interleaving of requests, clean-ups and failures of calls, an address is only blocked after max_failures failures in one fixed window with no success in between |
| RegistrarRuns.NoRequestAcceptedTwice | src/sip/registrar.rs:329-625 | in every interleaving of regions with fresh nonces, of two accepted requests with one nonce under qop=auth the one validated later carries the higher count |
| RegistrarRuns.AcceptedAnswersAChallenge | src/sip/registrar.rs:329-625 | in every interleaving, every accepted request was validated less than 300 s after a 401 with its nonce was sent to its address |
| RegistrarRuns.BlockedStaysOut | src/sip/registrar.rs:329-539 | in every interleaving, a request whose blocked check comes after its address was blocked is refused and touches no table |
| RegistrarRuns.OnlyTheCheckLooks | src/sip/registrar.rs:329-539 | no other region looks at the blocked addresses: with any others blocked the same regions run to the same replies, registrations, nonces and failure counts |
| RegistrarRuns.PassedBeforeBlocked | src/sip/registrar.rs:329-539 | why the check must come later: a run in which a request that has passed it registers after another request got the address blocked |
| Calls.SendersBelongToCalls | src/sip/router.rs:998-1060 | in every interleaving of lock regions each stop sender belongs to an active call |
| Calls.CallWasInserted | src/sip/router.rs:390-430 | the keys in an active call are those of the INVITE that last inserted it |
| Calls.CalleeKeyWasAnswered | src/sip/router.rs:495-531 | its callee key and media address are those in the last answer whose tag and suite were offered |
| Calls.KeyAgreement | src/sip/router.rs:998-1048 | a started relay has all four contexts exactly when its call has taken over an answer; then it encrypts to each party with the key advertised to it under the tag that party offered or selected, both directions of a leg use one suite, it runs on the call's ports, and sends to the media addresses of the INVITE and of that answer (sections 5.1.2 and 5.1.3 of RFC 4568) |
| Calls.CalleeReadsRelayKeyExactly | src/sip/router.rs:998-1048 | a callee that reads the forwarded description with this server's reader and answers with AES-CM has exactly the key that its relay encrypts with if and only if no stray crypto line wins and the crypto lines come |
| Calls.RelayStartsOnceFullyKeyed | src/sip/router.rs:684-711 | as long as no call is inserted while a start claimed under its Call-ID is pending, Call-IDs reused or not, the relay of each inserted call starts at most once however many 200 responses arrive, and every relay has all four contexts |
| Calls.StartsAreKeyedExactly | src/sip/router.rs:287-711 | along a run no start that can be made lacks a key if and only if that never happens |
| Calls.NoMoreRelaysThanCalls | src/sip/router.rs:684-711 | in every interleaving, no more relays are started under a Call-ID than calls were inserted under it |
| Calls.AnswerMatchesOffer | src/sip/router.rs:583-622 | in every interleaving, an answer forwarded to the caller carries the server's key for the call that the first read finds, in the suite its caller offered, and the tag of the call that the second read finds, or 1 if there is none; both are one call unless another was inserted under the Call-ID in between |
| Calls.ReusedCallIdStartsTwice | src/sip/router.rs:287-711 | what that excludes: a run of the handlers' regions, session insertions included, in which a relay starts without the callee's key and then a second time |
| Calls.InterleavedInvitesLoseASession | src/sip/router.rs:293-446 | why one message at a time is asked for: a run that leaves a call without its relay session |
| CallHandlers.Router.HandleInvite | src/sip/router.rs:197-446 | admission of the caller, what an INVITE inserts and cleans up, the ports it takes from the allocator, the description it sends on, and its reply, in the order of its checks |
| CallHandlers.Router.HandleCalleeResponse | src/sip/router.rs:457-712 | what a response from the callee changes (contact and media address included), starts or cleans up, and what the caller gets to see, description included; what a started relay is made of is told by `CallOrigins.RelayIsAsAgreed` |
| CallHandlers.Router.HandleBye | src/sip/router.rs:755-887 | a BYE ends the call exactly when it comes from one of its two sides, and which side it goes to |
| CallHandlers.Router.HandleCancel | src/sip/router.rs:890-975 | a CANCEL ends the call exactly when it carries the caller's tag; then the callee gets it and the caller a 487 |
| CallHandlers.OneAtATimeAgrees | src/sip/router.rs:197-1060 | with messages handled one at a time, after each of them the relay sessions are exactly those of the active calls, exactly the started calls have a stop sender, and every relay was fully keyed |
| CallHandlers.AnswersMatchOffers | src/sip/router.rs:457-712 | then every answer carries the caller's own tag and suite, the port of its own leg and the server's address, the missing-key error never occurs, and 488 is sent exactly for a first 200 without an offered key |
| CallHandlers.EndedCallsLeaveNothing | src/sip/router.rs:1053-1060 | a call that ends by hang-up, cancellation, failure or refusal is in no table afterwards |
| CallHandlers.OneAtATimeIsARun | src/sip/router.rs:197-1060 | handling messages one at a time is one of the interleavings, so the interleaving theorems apply to it |
| CallOrigins.InviteExactly | src/sip/router.rs:197-446 | which reply an INVITE gets, and that exactly a 100 leaves a call: with the parties, tag, media address and key of the INVITE, keys from the random octets drawn for it in the right suites, and the ports of the session just made; only a refused caller whose address is not blocked counts as a failure |
| CallOrigins.CallWasAskedFor | src/sip/router.rs:390-430 | after any messages handled one at a time, each active call is still as the last INVITE admitted under its Call-ID asked, and its session the one made for it |
| CallOrigins.CalleeTagIsItsFirst | src/sip/router.rs:482-503 | the callee's tag of a call is the one in its first 180, 183 or 200 that had one |
| CallOrigins.ProgressExactly | src/sip/router.rs:477-545 | what a response changes in its call: its progress by the status, the contact by the first 200 that gives one, key and media address by an accepted answer; all else stays |
| CallOrigins.WhoMayEndACall | src/sip/router.rs:755-975 | a BYE is accepted exactly with the From tag of the INVITE, the callee's first tag, or over a connection of one of the two extensions, and goes to the other side; a CANCEL exactly with the From tag of the INVITE |
| CallOrigins.RelayIsAsAgreed | src/sip/router.rs:293-1048 | a relay starts exactly with the first 200 of a call that accepts an offered key, and is then told by the INVITE and that answer alone: it runs on the ports of the session, sends to the media address that each of them gives, decrypts with the key each carries, and encrypts with the keys drawn for the INVITE; and both parties were told just its ports and keys in the descriptions sent to them |

## Left out

- SrtpContext.SrtpCryptoSuite.ProtectRtp: GCM sealing never fails here, so the error it could return for very long payloads does not occur.
- SipForwarding.BuildOutboundRequest: does not rewrite the From header, as the MESSAGE path does; calls leave it alone.
- SipResponses.ResponseFramesExactly: for requests in ASCII and for extra headers and tags without control characters, as all callers supply.
- CallHandlers.Router.HandleInvite: whether the address is blocked, the caller registered and the connection its own, and what the look-ups of callee, sink and contact yield, are parameters of the message.
- CallHandlers.Router.HandleCalleeResponse: what the caller sees is its status and session description; the printed text around it is modelled apart, in SipEchoes.ForwardedEchoes.
- SipInvites.ForwardedInviteExactly: for header lines in ASCII and an unindented request line.
- SipEchoes.ResponseEchoes: for requests in ASCII that carry what must be copied, and extra headers and tags without control characters.
- SipOutbound.OutboundSays: for requests in ASCII and a target, Via and contact without control characters, as all callers supply.
- SdesOffers.OfferReadsBackExactly: the lines added at the end of a description for other purposes are not part of it.
- CallOrigins.RelayIsAsAgreed: for messages handled one at a time, as interleaved ones can take each other's session; the lines added at the end of the caller's description for other purposes are not part of it.
- Calls.KeyAgreement: key material is identified by suite, master key and salt; sinks and the original INVITE text of a call are not modelled.
- Registrar.RegistrarService.HandleRegister: starts from decoded header fields; splitting the Authorization header into parameters is not modelled.
- RegistrarRuns.BlockedTookABurst: of a call, only the failure that it records is an event here; its own blocked check is a parameter of the INVITE.
- OfflineMessages.OfflineStore.StoreOfflineMessage: checks of a MESSAGE request before it is stored, and direct delivery to a callee who is online, are not modelled.
- RelayPorts.MediaRelayManager.AllocatePortPair: calls run one at a time; two tasks racing on the cursor, and ports still in use by old sessions, are not considered.
- Media sockets, TLS, tasks, timeouts and the idle limit of connections; the order of region steps is all that is kept of concurrency.
- The table of connections and handshakes of `src/sip/server.rs`, and the UDP listener.
- Configuration loading (`src/config.rs`), used only for the preconditions it guarantees; `src/sip/transaction.rs`; `src/sip/transport.rs` beyond its two cases.
- `fill_missing_rtpmap`, `ensure_answer_crypto_not_last_line` and the extraction of media addresses: additions at the end of a description and a plain look-up.
- White space and letter case beyond ASCII.
- Look-ups of registrations, which filter by time; their clean-up is an event of the runs.
