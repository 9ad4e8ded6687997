/** When the size cap of a connection makes the way a stream is cut into reads matter. */
module Chunking {
  import opened Seqs
  import opened Framing

  /** How much one read returns at most. */
  const READ_LEN := 8192

  /** No frame is more than one octet longer than the cap, nor the header block that condemns what is left, and what
      is left unfinished fits the cap. */
  ghost predicate FitsCap(d: Drained) {
    && (forall i :: 0 <= i < |d.frames| ==> |d.frames[i]| <= 65537)
    && if d.invalid then HeaderEnd(d.rest).Some? && HeaderEnd(d.rest).value + 4 <= 65537 else |d.rest| <= 65536
  }

  /** One way to read a stream. */
  ghost predicate Reads(chunks: seq<string>, stream: string) {
    Concat(chunks) == stream && forall i :: 0 <= i < |chunks| ==> 1 <= |chunks[i]| <= 8192
  }

  // ----- streams that fit -----

  lemma LeftoverFitsCap(a: string, b: string)
    requires Frame(a) == Incomplete && FitsCap(Drain(a + b))
    ensures |a| <= BUFFER_CAP
  {
    IncompleteIsShort(a, b);
    var whole := Drain(a + b);
    if Frame(a + b).Complete? {
      VerdictIsStable(a + b, "");
      assert |whole.frames[0]| == Frame(a + b).length;
    }
  }

  /** The cap never fires on a stream that fits, read by read from any buffer. */
  lemma {:induction false} CapNeverFires(buffer: string, chunks: seq<string>)
    requires Frame(buffer) == Incomplete && FitsCap(Drain(buffer + Concat(chunks)))
    ensures !Serve(buffer, chunks).status.Overflow?
    decreases |chunks|
  {
    if chunks != [] {
      var filled, later := buffer + chunks[0], Concat(chunks[1..]);
      Assoc(buffer, chunks[0], later);
      DrainInTwoSteps(filled, later);
      DrainLeavesIncomplete(filled);
      var d := Drain(filled);
      if !d.invalid {
        FitsCapLater(d.frames, Drain(d.rest + later));
        LeftoverFitsCap(d.rest, later);
        CapNeverFires(d.rest, chunks[1..]);
      }
    }
  }

  lemma FitsCapLater(frames: seq<string>, d: Drained)
    requires FitsCap(Before(frames, d))
    ensures FitsCap(d)
  {
    forall i | 0 <= i < |d.frames| ensures |d.frames[i]| <= BUFFER_CAP + 1 {
      assert d.frames[i] == (frames + d.frames)[|frames| + i];
    }
  }

  /** What framing the whole stream at once yields. */
  function Whole(stream: string): Served {
    var whole := Drain(stream);
    Served(whole.frames, if whole.invalid then InvalidFrame else Reading(whole.rest))
  }

  lemma FittingStreamsAreWhole(chunks: seq<string>)
    requires FitsCap(Drain(Concat(chunks)))
    ensures Serve("", chunks) == Whole(Concat(chunks))
  {
    assert "" + Concat(chunks) == Concat(chunks);
    NothingIsIncomplete();
    hide Frame, Serve, Drain, Concat, FitsCap;
    ServedFramesAreStreamFrames("", chunks);
    CapNeverFires("", chunks);
  }

  // ----- streams that do not -----

  /** The stream one octet at a time. */
  function Octets(s: string): (chunks: seq<string>)
    ensures |chunks| == |s| && forall i :: 0 <= i < |chunks| ==> |chunks[i]| == 1
  {
    seq(|s|, i requires 0 <= i < |s| => [s[i]])
  }

  lemma {:induction false} OctetsMakeStream(s: string)
    ensures Concat(Octets(s)) == s
  {
    if s != "" {
      assert Octets(s)[1..] == Octets(s[1..]);
      OctetsMakeStream(s[1..]);
    }
  }

  /** Read one octet at a time, a stream that does not fit overflows. */
  lemma {:induction false} OctetsOverflow(buffer: string, s: string)
    requires Frame(buffer) == Incomplete && |buffer| <= BUFFER_CAP && !FitsCap(Drain(buffer + s))
    ensures Serve(buffer, Octets(s)).status.Overflow?
    decreases |s|
  {
    if s == "" {
      EmptyConcat(buffer);
    } else {
      var filled, later := buffer + [s[0]], s[1..];
      assert Octets(s)[0] == [s[0]] && Octets(s)[1..] == Octets(later) && s == [s[0]] + later;
      Assoc(buffer, [s[0]], later);
      OneMoreOctet(buffer, s[0], later);
      if Frame(filled) == Incomplete {
        assert Fill(buffer, [s[0]]) == Served([], if |filled| > BUFFER_CAP then Overflow else Reading(filled));
        if |filled| <= BUFFER_CAP {
          OctetsOverflow(filled, later);
        }
      } else {
        OctetsOverflow("", later);
      }
    }
  }

  /** One more octet leaves the buffer incomplete, or completes exactly one frame, and then the rest does not fit. */
  lemma OneMoreOctet(buffer: string, c: char, later: string)
    requires Frame(buffer) == Incomplete && |buffer| <= BUFFER_CAP && !FitsCap(Drain(buffer + [c] + later))
    ensures var filled := buffer + [c];
      if Frame(filled) == Incomplete then Drain(filled) == Drained([], filled, false)
      else
        && Fill(buffer, [c]) == Served([filled], Reading(""))
        && Frame("") == Incomplete && !FitsCap(Drain("" + later))
  {
    var filled := buffer + [c];
    DrainInTwoSteps(filled, later);
    IncompleteIsShort(buffer, [c]);
    if Frame(filled).Complete? {
      VerdictIsStable(filled, "");
      WholeFrameDrains(filled);
      hide Drain, Frame, FitsCap;
      if FitsCap(Drain("" + later)) {
        FitsCapBefore(filled, Drain("" + later));
      }
    } else if Frame(filled) == Invalid {
      CondemnedFits(filled, later);
      assert false;
    }
  }

  lemma CondemnedFits(a: string, b: string)
    requires Frame(a) == Invalid && |a| <= BUFFER_CAP + 1
    ensures FitsCap(Drain(a + b))
  {
    VerdictIsStable(a, b);
    HeaderEndOfPrefix(a, b);
  }

  lemma WholeFrameDrains(f: string)
    requires Frame(f) == Complete(|f|)
    ensures Drain(f) == Drained([f], "", false) && Frame("") == Incomplete
  {
    VerdictIsStable(f, "");
    assert f[..|f|] == f && f[|f|..] == "";
    assert Frame("") == Incomplete && Drain("") == Drained([], "", false);
    EmptyConcat([f]);
  }

  lemma FitsCapBefore(frame: string, d: Drained)
    requires FitsCap(d) && |frame| <= BUFFER_CAP + 1
    ensures FitsCap(Before([frame], d))
  {
  }

  /** Chunking independence, exactly: every way of reading a stream yields the frames, the verdict and the unread tail
      of framing it at once, and never overflows, if and only if no frame and no condemned header block is longer than
      65537 octets and the tail is at most 65536. */
  lemma ChunkingIndependence(stream: string)
    ensures (forall chunks :: Reads(chunks, stream) ==> Serve("", chunks) == Whole(stream)) <==> FitsCap(Drain(stream))
    ensures (forall chunks :: Reads(chunks, stream) ==> !Serve("", chunks).status.Overflow?) <==> FitsCap(Drain(stream))
  {
    if FitsCap(Drain(stream)) {
      forall chunks | Reads(chunks, stream)
        ensures Serve("", chunks) == Whole(stream) && !Serve("", chunks).status.Overflow?
      {
        FittingStreamsAreWhole(chunks);
      }
    } else {
      OctetsMakeStream(stream);
      assert "" + stream == stream && Frame("") == Incomplete;
      OctetsOverflow("", stream);
      assert Reads(Octets(stream), stream);
    }
  }

  // ----- a frame longer than the cap -----

  /** The stream in full reads. */
  function Blocks(s: string): seq<string>
    decreases |s|
  {
    if |s| <= READ_LEN then [s] else [s[..READ_LEN]] + Blocks(s[READ_LEN..])
  }

  lemma {:induction false} BlocksAreReads(s: string)
    requires s != ""
    ensures Reads(Blocks(s), s)
    decreases |s|
  {
    if |s| <= READ_LEN {
      EmptyConcat(s);
    } else {
      var block, later := s[..READ_LEN], Blocks(s[READ_LEN..]);
      BlocksAreReads(s[READ_LEN..]);
      OneMoreRead(block, later, s[READ_LEN..]);
      assert s == block + s[READ_LEN..];
    }
  }

  lemma OneMoreRead(block: string, chunks: seq<string>, stream: string)
    requires 1 <= |block| <= READ_LEN && Reads(chunks, stream)
    ensures Reads([block] + chunks, block + stream)
  {
    TailOfConcat([block], chunks);
    assert ([block] + chunks)[1..] == chunks;
  }

  /** A proper part of a frame is incomplete. */
  lemma PartIsIncomplete(part: string, more: string)
    requires Frame(part + more) == Complete(|part + more|) && more != ""
    ensures Frame(part) == Incomplete && Drain(part) == Drained([], part, false)
  {
    VerdictIsStable(part, more);
  }

  lemma {:induction false} BlocksPass(f: string, buffer: string, s: string)
    requires Frame(f) == Complete(|f|) && f == buffer + s && s != "" && |f| <= BUFFER_CAP + READ_LEN
    requires |buffer| % READ_LEN == 0
    ensures Serve(buffer, Blocks(s)) == Served([f], Reading(""))
    decreases |s|
  {
    hide Frame, Drain, Serve;
    if |s| <= READ_LEN {
      LastRead(f, buffer, s);
    } else {
      var block, later := s[..READ_LEN], s[READ_LEN..];
      assert block + later == s;
      Assoc(buffer, block, later);
      PartIsIncomplete(buffer + block, later);
      EarlierRead(buffer, block, Blocks(later));
      BlocksPass(f, buffer + block, later);
    }
  }

  lemma LastRead(f: string, buffer: string, s: string)
    requires Frame(f) == Complete(|f|) && f == buffer + s
    ensures Serve(buffer, [s]) == Served([f], Reading(""))
  {
    WholeFrameDrains(f);
    hide Frame, Drain;
    EmptyConcat([f]);
    assert Serve("", []) == Served([], Reading("")) && [s][1..] == [];
  }

  /** A read that leaves the buffer incomplete within the cap. */
  lemma EarlierRead(buffer: string, block: string, later: seq<string>)
    requires Drain(buffer + block) == Drained([], buffer + block, false) && |buffer + block| <= BUFFER_CAP
    ensures Serve(buffer, [block] + later) == Serve(buffer + block, later)
  {
    hide Drain;
    TailOfConcat([block], later);
    assert ([block] + later)[1..] == later;
    EmptyConcat(Serve(buffer + block, later).frames);
  }

  lemma {:induction false} TooLongOverflows(f: string, buffer: string, chunks: seq<string>)
    requires Frame(f) == Complete(|f|) && f == buffer + Concat(chunks) && |f| > BUFFER_CAP + READ_LEN
    requires |buffer| <= BUFFER_CAP && forall i :: 0 <= i < |chunks| ==> 1 <= |chunks[i]| <= READ_LEN
    ensures Serve(buffer, chunks) == Served([], Overflow)
    decreases |chunks|
  {
    var filled, later := buffer + chunks[0], Concat(chunks[1..]);
    Assoc(buffer, chunks[0], later);
    PartIsIncomplete(filled, later);
    if |filled| <= BUFFER_CAP {
      TooLongOverflows(f, filled, chunks[1..]);
    }
  }

  /** What happens to a frame longer than 65537 octets: read one octet at a time it always breaks the connection, and
      some way of reading it gets it through if and only if it is at most 73728 octets, the cap and one full read. */
  lemma OversizedFrameDependsOnReads(f: string)
    requires Frame(f) == Complete(|f|) && |f| > 65537
    ensures Reads(Octets(f), f) && Serve("", Octets(f)).status.Overflow?
    ensures (exists chunks :: Reads(chunks, f) && Serve("", chunks) == Served([f], Reading(""))) <==>
        |f| <= 73728
  {
    assert "" + f == f && Frame("") == Incomplete;
    WholeFrameDrains(f);
    OctetsMakeStream(f);
    assert Drain(f).frames[0] == f;
    OctetsOverflow("", f);
    if |f| <= BUFFER_CAP + READ_LEN {
      BlocksAreReads(f);
      BlocksPass(f, "", f);
    } else {
      forall chunks | Reads(chunks, f) ensures Serve("", chunks) == Served([], Overflow) {
        TooLongOverflows(f, "", chunks);
      }
    }
  }

  // ----- whole messages -----

  lemma {:induction false} AllProcessed(messages: seq<string>)
    requires forall i :: 0 <= i < |messages| ==> ValidUtf8(messages[i])
    ensures Processed(messages) == messages
  {
    hide ValidUtf8;
    if messages != [] {
      AllProcessed(messages[1..]);
      assert messages == [messages[0]] + messages[1..];
    }
  }

  /** However a stream of whole text messages of at most 65537 octets is read, exactly these messages are processed, in
      order, and nothing is left over. */
  lemma MessagesArrive(messages: seq<string>, chunks: seq<string>)
    requires forall i :: 0 <= i < |messages| ==>
      Frame(messages[i]) == Complete(|messages[i]|) && |messages[i]| <= 65537 && ValidUtf8(messages[i])
    requires Reads(chunks, Concat(messages))
    ensures Processed(Serve("", chunks).frames) == messages && Serve("", chunks).status == Reading("")
  {
    StreamDrainsExactly(messages);
    AllProcessed(messages);
    hide Frame, ValidUtf8, Serve, Drain, Processed, Reads;
    ChunkingIndependence(Concat(messages));
  }
}
