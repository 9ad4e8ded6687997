/** Rollover-counter tracking of one synchronisation source: the 48-bit packet index behind a 16-bit sequence number. */
module PacketIndex {
  import opened Words
  import opened Wrappers

  const HALF := 0x8000
  const SEQ_MOD := 0x1_0000
  const INDEX_MOD := 0x1_0000_0000_0000

  datatype StreamState = StreamState(roc: u32, highest: Option<u16>)

  /** `SrtpStreamState::default()`. */
  const FRESH := StreamState(0, None)

  function EstimateRoc(state: StreamState, sequence: u16): u32 {
    match state.highest
    case None => state.roc
    case Some(highest) =>
      if highest < HALF then
        if WrappingSub16(sequence, highest) > HALF then SaturatingDec32(state.roc) else state.roc
      else if WrappingSub16(highest, HALF) > sequence then WrappingInc32(state.roc)
      else state.roc
  }

  function IndexOf(roc: u32, sequence: u16): (i: nat)
    ensures i < INDEX_MOD
  {
    roc * SEQ_MOD + sequence
  }

  /** `update_stream_state_after_success`, as a function of the old state. */
  function Advance(state: StreamState, sequence: u16, guessedRoc: u32): StreamState {
    match state.highest
    case None => StreamState(guessedRoc, Some(sequence))
    case Some(highest) =>
      if IndexOf(guessedRoc, sequence) > IndexOf(state.roc, highest)
      then StreamState(guessedRoc, Some(sequence))
      else state
  }

  /** What a receiver does with an accepted packet. */
  function Accept(state: StreamState, sequence: u16): StreamState {
    Advance(state, sequence, EstimateRoc(state, sequence))
  }

  /** The state of a receiver that knows the highest index exactly. */
  function StateAt(index: nat): StreamState
    requires index < INDEX_MOD
  {
    StreamState(index / SEQ_MOD, Some(index % SEQ_MOD))
  }

  // ----- Appendix A of RFC 3711 -----

  /** The index-guessing procedure of Appendix A of RFC 3711; its subtractions are on plain integers. */
  function Rfc3711Guess(roc: u32, highest: u16, sequence: u16): u32 {
    if highest < HALF then
      if sequence - highest > HALF then (roc - 1) % 0x1_0000_0000 else roc
    else if highest - HALF > sequence then (roc + 1) % 0x1_0000_0000
    else roc
  }

  /** The two regions of initialised states in which the code departs from Appendix A. */
  predicate DepartsFromRfc(roc: u32, highest: u16, sequence: u16) {
    && highest < HALF
    && if roc == 0 then sequence - highest > HALF else sequence < highest
  }

  lemma AgreesWithRfcExactly(roc: u32, highest: u16, sequence: u16)
    ensures EstimateRoc(StreamState(roc, Some(highest)), sequence) == Rfc3711Guess(roc, highest, sequence)
       <==> !DepartsFromRfc(roc, highest, sequence)
  {
    if highest < HALF && sequence < highest {
      assert WrappingSub16(sequence, highest) == sequence - highest + SEQ_MOD > HALF;
    }
  }

  // ----- which true indices are recovered -----

  /** The true indices that a receiver whose highest index is `current` attributes to the right rollover
      count. At the last rollover count the successor of the counter wraps to 0, which the first packets of
      a stream match by chance. */
  predicate Recoverable(current: nat, index: nat) {
    var roc, low := current / SEQ_MOD, current % SEQ_MOD;
    if low >= HALF then
      current - HALF <= index < current + HALF || index + INDEX_MOD < current + HALF
    else if roc == 0 then
      index < SEQ_MOD
    else
      || current <= index <= current + HALF
      || current - HALF < index < roc * SEQ_MOD
      || (roc - 1) * SEQ_MOD <= index < current - SEQ_MOD
  }

  lemma WrappingSubCases(a: u16, b: u16)
    ensures WrappingSub16(a, b) == if a >= b then a - b else a - b + SEQ_MOD
  {
  }

  lemma IndexInParts(index: nat)
    requires index < INDEX_MOD
    ensures index == index / SEQ_MOD * SEQ_MOD + index % SEQ_MOD && index / SEQ_MOD < 0x1_0000_0000
  {
  }

  lemma RecoveredFromUpperHalf(roc: u32, low: u16, trueRoc: u32, sequence: u16)
    requires low >= HALF
    ensures var current, index := roc * SEQ_MOD + low, trueRoc * SEQ_MOD + sequence;
      EstimateRoc(StreamState(roc, Some(low)), sequence) == trueRoc
      <==> current - HALF <= index < current + HALF || index + INDEX_MOD < current + HALF
  {
    WrappingSubCases(low, HALF);
  }

  lemma RecoveredFromLowerHalf(roc: u32, low: u16, trueRoc: u32, sequence: u16)
    requires low < HALF
    ensures var current, index := roc * SEQ_MOD + low, trueRoc * SEQ_MOD + sequence;
      EstimateRoc(StreamState(roc, Some(low)), sequence) == trueRoc
      <==> if roc == 0 then index < SEQ_MOD
           else (|| current <= index <= current + HALF
                 || current - HALF < index < roc * SEQ_MOD
                 || (roc - 1) * SEQ_MOD <= index < current - SEQ_MOD)
  {
    WrappingSubCases(sequence, low);
    hide WrappingSub16;
  }

  /** Which packets are attributed to the right rollover count, for every pair of indices. */
  lemma RecoveredExactly(current: nat, index: nat)
    requires current < INDEX_MOD && index < INDEX_MOD
    ensures EstimateRoc(StateAt(current), index % SEQ_MOD) == index / SEQ_MOD <==> Recoverable(current, index)
  {
    hide EstimateRoc;
    IndexInParts(current);
    IndexInParts(index);
    if current % SEQ_MOD >= HALF {
      RecoveredFromUpperHalf(current / SEQ_MOD, current % SEQ_MOD, index / SEQ_MOD, index % SEQ_MOD);
    } else {
      RecoveredFromLowerHalf(current / SEQ_MOD, current % SEQ_MOD, index / SEQ_MOD, index % SEQ_MOD);
    }
  }

  /** A packet up to 32767 behind is recovered, or not, exactly by where the highest index stands. */
  lemma LatePacketRecoveredExactly(current: nat, late: nat)
    requires current < INDEX_MOD && 1 <= late < HALF && late <= current
    ensures EstimateRoc(StateAt(current), (current - late) % SEQ_MOD) == (current - late) / SEQ_MOD
       <==> current % SEQ_MOD >= HALF || late > current % SEQ_MOD || current / SEQ_MOD == 0
  {
    var roc, low, index := current / SEQ_MOD, current % SEQ_MOD, current - late;
    var seqNo := index % SEQ_MOD;
    if late > low {
      assert index / SEQ_MOD == roc - 1 && seqNo == low - late + SEQ_MOD;
    } else {
      assert index / SEQ_MOD == roc && seqNo == low - late;
    }
    WrappingSubCases(seqNo, low);
    WrappingSubCases(if low >= HALF then low else HALF, HALF);
    hide WrappingSub16;
  }

  /** A packet up to 32767 ahead is always recovered, and becomes the new highest index. */
  lemma ForwardPacketRecovered(current: nat, index: nat)
    requires current < index < current + HALF && index < INDEX_MOD
    ensures EstimateRoc(StateAt(current), index % SEQ_MOD) == index / SEQ_MOD
    ensures Accept(StateAt(current), index % SEQ_MOD) == StateAt(index)
  {
    var low, seqNo := current % SEQ_MOD, index % SEQ_MOD;
    if index / SEQ_MOD == current / SEQ_MOD {
      assert seqNo == low + (index - current);
    } else {
      assert index / SEQ_MOD == current / SEQ_MOD + 1 && seqNo == low + (index - current) - SEQ_MOD;
    }
    assert low < HALF ==> WrappingSub16(seqNo, low) == seqNo - low;
  }

  lemma StoredIndexNeverDecreases(state: StreamState, sequence: u16)
    ensures var next := Accept(state, sequence);
      && next.highest.Some?
      && (state.highest.Some? ==> IndexOf(state.roc, state.highest.value) <= IndexOf(next.roc, next.highest.value))
  {
    assert Accept(state, sequence) == Advance(state, sequence, EstimateRoc(state, sequence));
  }

  // ----- whole runs -----

  /** `index` may follow the indices seen so far: the first lies before the first rollover, later ones are ahead by
      less than half the sequence space. */
  predicate Follows(last: Option<nat>, index: nat) {
    && index < INDEX_MOD
    && match last
       case None => index < SEQ_MOD
       case Some(l) => l < index < l + HALF
  }

  ghost predicate InOrder(last: Option<nat>, indices: seq<nat>)
    decreases |indices|
  {
    indices != [] ==> Follows(last, indices[0]) && InOrder(Some(indices[0]), indices[1..])
  }

  /** `state` is the receiver that has seen exactly the indices up to `last`. */
  predicate Tracks(state: StreamState, last: Option<nat>) {
    match last
    case None => state == FRESH
    case Some(l) => l < INDEX_MOD && state == StateAt(l)
  }

  lemma TracksNext(state: StreamState, last: Option<nat>, index: nat)
    requires Tracks(state, last) && Follows(last, index)
    ensures EstimateRoc(state, index % SEQ_MOD) == index / SEQ_MOD
    ensures Tracks(Accept(state, index % SEQ_MOD), Some(index))
  {
    if last.Some? {
      ForwardPacketRecovered(last.value, index);
    }
  }

  /** The rollover counts guessed while accepting a run of sequence numbers, and the state reached. */
  function Guesses(state: StreamState, sequences: seq<u16>): (r: (seq<u32>, StreamState))
    ensures |r.0| == |sequences|
    decreases |sequences|
  {
    if sequences == [] then ([], state)
    else
      var rest := Guesses(Accept(state, sequences[0]), sequences[1..]);
      ([EstimateRoc(state, sequences[0])] + rest.0, rest.1)
  }

  function SequenceNumbers(indices: seq<nat>): (r: seq<u16>)
    ensures |r| == |indices|
  {
    seq(|indices|, i requires 0 <= i < |indices| => indices[i] % SEQ_MOD)
  }

  /** Index recovery over a whole run, across any number of rollovers (section 3.3.1 of RFC 3711). */
  lemma {:induction false} RunRecoversEveryIndex(state: StreamState, last: Option<nat>, indices: seq<nat>)
    requires Tracks(state, last) && InOrder(last, indices)
    ensures var (rocs, final) := Guesses(state, SequenceNumbers(indices));
      && (forall i :: 0 <= i < |indices| ==> rocs[i] == indices[i] / SEQ_MOD)
      && Tracks(final, if indices == [] then last else Some(indices[|indices| - 1]))
    decreases |indices|
  {
    if indices != [] {
      TracksNext(state, last, indices[0]);
      var next := Accept(state, indices[0] % SEQ_MOD);
      RunRecoversEveryIndex(next, Some(indices[0]), indices[1..]);
      assert SequenceNumbers(indices)[1..] == SequenceNumbers(indices[1..]) by {
        assert forall i :: 1 <= i < |indices| ==> SequenceNumbers(indices)[i] == SequenceNumbers(indices[1..])[i - 1];
      }
    }
  }
}
