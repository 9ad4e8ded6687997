/** Message boundaries in a byte stream: the framer, and the fill, frame and drain loop of a connection. */
module Framing {
  import opened Seqs
  import opened SipText
  import opened Wrappers

  const SEPARATOR := "\r\n\r\n"
  const USIZE_MOD := 0x1_0000_0000_0000_0000
  const BUFFER_CAP := 65536

  // ----- UTF-8 (section 4 of RFC 3629), one character per octet -----

  predicate Octet(s: string, i: nat, low: int, high: int) { i < |s| && low <= s[i] as int <= high }

  predicate Tail(s: string, i: nat) { Octet(s, i, 0x80, 0xBF) }

  /** Length of the well-formed sequence at the front, or 0. */
  function Utf8Len(s: string): (n: nat)
    ensures n <= |s| && (s == "" ==> n == 0)
  {
    if Octet(s, 0, 0, 0x7F) then 1
    else if Octet(s, 0, 0xC2, 0xDF) && Tail(s, 1) then 2
    else if Tail(s, 2) && ((Octet(s, 0, 0xE0, 0xE0) && Octet(s, 1, 0xA0, 0xBF))
                           || (Octet(s, 0, 0xE1, 0xEC) && Tail(s, 1))
                           || (Octet(s, 0, 0xED, 0xED) && Octet(s, 1, 0x80, 0x9F))
                           || (Octet(s, 0, 0xEE, 0xEF) && Tail(s, 1))) then 3
    else if Tail(s, 2) && Tail(s, 3) && ((Octet(s, 0, 0xF0, 0xF0) && Octet(s, 1, 0x90, 0xBF))
                                         || (Octet(s, 0, 0xF1, 0xF3) && Tail(s, 1))
                                         || (Octet(s, 0, 0xF4, 0xF4) && Octet(s, 1, 0x80, 0x8F))) then 4
    else 0
  }

  predicate ValidUtf8(s: string) {
    s == "" || (Utf8Len(s) > 0 && ValidUtf8(s[Utf8Len(s)..]))
  }

  predicate IsAscii(s: string) { forall i :: 0 <= i < |s| ==> s[i] as int < 0x80 }

  lemma {:induction false} AsciiIsValidUtf8(s: string)
    requires IsAscii(s)
    ensures ValidUtf8(s)
  {
    if s != "" {
      AsciiIsValidUtf8(s[1..]);
    }
  }

  // ----- one frame -----

  datatype FrameResult = Complete(length: nat) | Incomplete | Invalid

  /** A CRLF right after a CRLF. */
  predicate AtBlankLine(s: string) {
    |s| >= 4 && s[0] == '\r' && s[1] == '\n' && s[2] == '\r' && s[3] == '\n'
  }

  /** Position of the first blank line, counted at its leading CRLF. */
  function HeaderEnd(buf: string): (r: Option<nat>)
    ensures r.Some? ==> r.value + 4 <= |buf|
  {
    if |buf| < 4 then None
    else if AtBlankLine(buf) then Some(0)
    else Shift(HeaderEnd(buf[1..]), 1)
  }

  function Shift(r: Option<nat>, d: nat): Option<nat> {
    if r.Some? then Some(r.value + d) else None
  }

  predicate AllDigits(s: string) { forall i :: 0 <= i < |s| ==> IsDigit(s[i]) }

  /** Rust's parsing of an unsigned decimal below a limit: one leading plus sign is allowed, overflow is an error. */
  function ParseUnsigned(s: string, limit: nat): Option<nat> {
    var digits := if s != "" && s[0] == '+' then s[1..] else s;
    if digits == "" || !AllDigits(digits) || DigitsValue(digits) >= limit then None
    else Some(DigitsValue(digits))
  }

  function ParseUsize(s: string): Option<nat> { ParseUnsigned(s, USIZE_MOD) }

  /** The value text of a Content-Length header line, in full or compact form. */
  function LengthField(line: string): Option<string> {
    var trimmed := Trim(line);
    var lower := Lower(trimmed);
    if "content-length:" <= lower then Some(Trim(trimmed[15..]))
    else if "l:" <= lower then Some(Trim(trimmed[2..]))
    else None
  }

  /** The content length that the header lines agree on, given the one seen so far; `Err` when one
      is malformed or two differ. */
  function ContentLength(lines: seq<string>, seen: Option<nat>): Result<Option<nat>, ()> {
    if lines == [] then Ok(seen)
    else
      match LengthField(lines[0])
      case None => ContentLength(lines[1..], seen)
      case Some(value) =>
        var parsed := ParseUsize(value);
        if parsed.None? || (seen.Some? && seen != parsed) then Err(())
        else ContentLength(lines[1..], parsed)
  }

  /** What a complete header block says the whole message's length is; `None` when it is invalid. */
  function FrameLength(header: string): Option<nat> {
    if !ValidUtf8(header) then None
    else
      match ContentLength(Lines(header), None)
      case Err(_) => None
      case Ok(length) =>
        var total := |header| + 4 + if length.Some? then length.value else 0;
        if total >= USIZE_MOD then None else Some(total)
  }

  /** `frame_sip_message` as a function of the buffer. */
  function Frame(buf: string): FrameResult {
    match HeaderEnd(buf)
    case None => Incomplete
    case Some(end) =>
      match FrameLength(buf[..end])
      case None => Invalid
      case Some(total) => if |buf| >= total then Complete(total) else Incomplete
  }

  lemma BlankLineIsSeparator(buf: string, i: nat)
    requires i + 4 <= |buf|
    ensures AtBlankLine(buf[i..]) <==> buf[i..i + 4] == SEPARATOR
  {
    var p := buf[i..i + 4];
    assert p[0] == buf[i] && p[1] == buf[i + 1] && p[2] == buf[i + 2] && p[3] == buf[i + 3];
  }

  method FindHeaderEnd(buf: string) returns (r: Option<nat>)
    ensures r == HeaderEnd(buf)
  {
    if |buf| < 4 {
      return None;
    }
    for i := 0 to |buf| - 3
      invariant HeaderEnd(buf) == Shift(HeaderEnd(buf[i..]), i)
    {
      DropDrop(buf, i, 1);
      assert AtBlankLine(buf[i..]) == (buf[i..i + 4] == SEPARATOR) by { BlankLineIsSeparator(buf, i); }
      if buf[i..i + 4] == SEPARATOR {
        return Some(i);
      }
    }
    return None;
  }

  method ReadContentLength(header: string) returns (r: Result<Option<nat>, ()>)
    ensures r == ContentLength(Lines(header), None)
  {
    var contentLength: Option<nat> := None;
    var lines := Lines(header);
    for i := 0 to |lines|
      invariant ContentLength(lines, None) == ContentLength(lines[i..], contentLength)
    {
      assert lines[i..][1..] == lines[i + 1..];
      var trimmed := Trim(lines[i]);
      var lower := Lower(trimmed);
      if "content-length:" <= lower || "l:" <= lower {
        var value := if "content-length:" <= lower then Trim(trimmed[15..]) else Trim(trimmed[2..]);
        var parsed := ParseUsize(value);
        if parsed.None? || (contentLength.Some? && contentLength != parsed) {
          return Err(());
        }
        contentLength := parsed;
      }
    }
    assert lines[|lines|..] == [];
    return Ok(contentLength);
  }

  method FrameSipMessage(buf: string) returns (r: FrameResult)
    ensures r == Frame(buf)
  {
    var headerEnd := FindHeaderEnd(buf);
    if headerEnd.None? {
      return Incomplete;
    }
    var header := buf[..headerEnd.value];
    if !ValidUtf8(header) {
      return Invalid;
    }
    var contentLength := ReadContentLength(header);
    if contentLength.Err? {
      return Invalid;
    }
    var length := contentLength.value;
    var total := headerEnd.value + 4 + if length.Some? then length.value else 0;
    if total >= USIZE_MOD {
      return Invalid;
    }
    return if |buf| >= total then Complete(total) else Incomplete;
  }

  // ----- stability under more input -----

  lemma {:induction false} HeaderEndOfPrefix(a: string, b: string)
    ensures HeaderEnd(a).Some? ==> HeaderEnd(a + b) == HeaderEnd(a)
    ensures HeaderEnd(a + b).Some? && HeaderEnd(a + b).value + 4 <= |a| ==> HeaderEnd(a) == HeaderEnd(a + b)
  {
    if |a| >= 4 {
      TailOfConcat(a, b);
      HeaderEndOfPrefix(a[1..], b);
    }
  }

  /** Complete and Invalid are final: more bytes do not change them. A complete frame consumes at least 4 bytes. */
  lemma VerdictIsStable(a: string, b: string)
    ensures Frame(a) != Incomplete ==> Frame(a + b) == Frame(a)
    ensures Frame(a).Complete? ==> 4 <= Frame(a).length <= |a|
  {
    HeaderEndOfPrefix(a, b);
    if HeaderEnd(a).Some? {
      assert (a + b)[..HeaderEnd(a).value] == a[..HeaderEnd(a).value];
      LengthCoversHeader(a[..HeaderEnd(a).value]);
    }
  }

  lemma LengthCoversHeader(header: string)
    ensures FrameLength(header).Some? ==> FrameLength(header).value >= |header| + 4
  {
  }

  /** A buffer that is still incomplete is shorter than the frame it grows into, or than the
      header block that condemns it. */
  lemma IncompleteIsShort(a: string, b: string)
    requires Frame(a) == Incomplete
    ensures Frame(a + b).Complete? ==> |a| < Frame(a + b).length
    ensures Frame(a + b) == Invalid ==> |a| < HeaderEnd(a + b).value + 4
  {
    HeaderEndOfPrefix(a, b);
    if HeaderEnd(a).Some? {
      assert (a + b)[..HeaderEnd(a).value] == a[..HeaderEnd(a).value];
    }
    if HeaderEnd(a + b).Some? {
      LengthCoversHeader((a + b)[..HeaderEnd(a + b).value]);
    }
  }

  // ----- the connection's read loop -----

  /** What framing a buffer as far as it goes yields. */
  datatype Drained = Drained(frames: seq<string>, rest: string, invalid: bool)

  function Drain(buf: string): Drained
    decreases |buf|
  {
    match Frame(buf)
    case Incomplete => Drained([], buf, false)
    case Invalid => Drained([], buf, true)
    case Complete(n) =>
      VerdictIsStable(buf, "");
      var later := Drain(buf[n..]);
      Drained([buf[..n]] + later.frames, later.rest, later.invalid)
  }

  /** How the loop stands: still reading with a buffer, or broken off. */
  datatype Status = Reading(buffer: string) | InvalidFrame | Overflow

  datatype Served = Served(frames: seq<string>, status: Status)

  /** One read appended to the buffer, the buffer drained, and then the size cap. */
  function Fill(buffer: string, chunk: string): Served {
    var d := Drain(buffer + chunk);
    Served(d.frames,
           if d.invalid then InvalidFrame else if |d.rest| > BUFFER_CAP then Overflow else Reading(d.rest))
  }

  function Serve(buffer: string, chunks: seq<string>): Served
    decreases |chunks|
  {
    if chunks == [] then Served([], Reading(buffer))
    else
      var first := Fill(buffer, chunks[0]);
      if first.status.Reading? then
        var later := Serve(first.status.buffer, chunks[1..]);
        Served(first.frames + later.frames, later.status)
      else first
  }

  function Concat(chunks: seq<string>): string {
    if chunks == [] then "" else chunks[0] + Concat(chunks[1..])
  }

  /** The messages handed on for processing: frames that are not text are dropped. */
  function Processed(frames: seq<string>): seq<string> {
    if frames == [] then []
    else (if ValidUtf8(frames[0]) then [frames[0]] else []) + Processed(frames[1..])
  }

  lemma {:induction false} ProcessedOfConcat(a: seq<string>, b: seq<string>)
    ensures Processed(a + b) == Processed(a) + Processed(b)
  {
    if a == [] {
      EmptyConcat(b);
      EmptyConcat(Processed(b));
    } else {
      TailOfConcat(a, b);
      ProcessedOfConcat(a[1..], b);
      Assoc(if ValidUtf8(a[0]) then [a[0]] else [], Processed(a[1..]), Processed(b));
    }
  }

  /** Frames found earlier, put before what a buffer drains to. */
  function Before(frames: seq<string>, d: Drained): Drained {
    Drained(frames + d.frames, d.rest, d.invalid)
  }

  lemma DrainOne(frames: seq<string>, buf: string)
    requires Frame(buf).Complete?
    ensures var n := Frame(buf).length;
      4 <= n <= |buf| && Before(frames, Drain(buf)) == Before(frames + [buf[..n]], Drain(buf[n..]))
  {
    VerdictIsStable(buf, "");
    var n := Frame(buf).length;
    var later := Drain(buf[n..]);
    assert Drain(buf) == Drained([buf[..n]] + later.frames, later.rest, later.invalid);
    Assoc(frames, [buf[..n]], later.frames);
  }

  /** The extraction loop: frames the buffer as far as it goes. */
  method DrainBuffer(input: string) returns (processed: seq<string>, buffer: string, invalid: bool)
    ensures var d := Drain(input);
      processed == Processed(d.frames) && invalid == d.invalid && (!invalid ==> buffer == d.rest)
  {
    buffer, processed, invalid := input, [], false;
    ghost var frames: seq<string> := [];
    while true
      invariant processed == Processed(frames)
      invariant Drain(input) == Before(frames, Drain(buffer))
      decreases |buffer|
    {
      var r := FrameSipMessage(buffer);
      match r {
        case Complete(n) =>
          DrainOne(frames, buffer);
          var message := buffer[..n];
          ProcessedOfConcat(frames, [message]);
          frames := frames + [message];
          buffer := buffer[n..];
          if ValidUtf8(message) {
            processed := processed + [message];
          }
        case Incomplete =>
          assert Before(frames, Drain(buffer)).frames == frames;
          return;
        case Invalid =>
          assert Before(frames, Drain(buffer)).frames == frames;
          invalid := true;
          return;
      }
    }
  }

  function ServedBefore(frames: seq<string>, s: Served): Served {
    Served(frames + s.frames, s.status)
  }

  lemma ServeOne(frames: seq<string>, buffer: string, chunks: seq<string>)
    requires chunks != []
    ensures var first := Fill(buffer, chunks[0]);
      ServedBefore(frames, Serve(buffer, chunks))
      == if first.status.Reading?
         then ServedBefore(frames + first.frames, Serve(first.status.buffer, chunks[1..]))
         else Served(frames + first.frames, first.status)
  {
    var first := Fill(buffer, chunks[0]);
    if first.status.Reading? {
      var later := Serve(first.status.buffer, chunks[1..]);
      Assoc(frames, first.frames, later.frames);
    }
  }

  /** The read loop of a connection, over what its successive reads return. */
  method ReadLoop(chunks: seq<string>) returns (processed: seq<string>, status: Status)
    ensures processed == Processed(Serve("", chunks).frames) && status == Serve("", chunks).status
  {
    var buffer := "";
    processed := [];
    ghost var frames: seq<string> := [];
    for i := 0 to |chunks|
      invariant processed == Processed(frames)
      invariant Serve("", chunks) == ServedBefore(frames, Serve(buffer, chunks[i..]))
    {
      assert chunks[i..][1..] == chunks[i + 1..];
      ServeOne(frames, buffer, chunks[i..]);
      ghost var first := Fill(buffer, chunks[i]);
      buffer := buffer + chunks[i];
      var more, rest, invalid := DrainBuffer(buffer);
      ProcessedOfConcat(frames, first.frames);
      processed := processed + more;
      frames := frames + first.frames;
      if invalid {
        return processed, InvalidFrame;
      }
      buffer := rest;
      if |buffer| > BUFFER_CAP {
        return processed, Overflow;
      }
    }
    assert chunks[|chunks|..] == [] && frames + [] == frames;
    return processed, Reading(buffer);
  }

  // ----- the same stream in different reads -----

  /** Draining early and carrying the rest over is the same as draining everything at once. */
  lemma {:induction false} DrainInTwoSteps(a: string, b: string)
    ensures var first := Drain(a);
      Drain(a + b) == if first.invalid then Drained(first.frames, first.rest + b, true)
                      else Before(first.frames, Drain(first.rest + b))
    decreases |a|
  {
    VerdictIsStable(a, b);
    if Frame(a).Complete? {
      var n := Frame(a).length;
      assert (a + b)[..n] == a[..n] && (a + b)[n..] == a[n..] + b;
      DrainInTwoSteps(a[n..], b);
      Assoc([a[..n]], Drain(a[n..]).frames, Drain(Drain(a[n..]).rest + b).frames);
    } else {
      EmptyConcat(Drain(a + b).frames);
    }
  }

  /** However the stream is cut into reads, what has been framed so far is a prefix of what the whole stream frames
      to; a connection that is still reading has framed the whole stream, and one broken off for an invalid frame
      has framed everything before it. */
  lemma {:induction false} ServedFramesAreStreamFrames(buffer: string, chunks: seq<string>)
    requires Frame(buffer) == Incomplete
    ensures var served := Serve(buffer, chunks); var whole := Drain(buffer + Concat(chunks));
      && served.frames <= whole.frames
      && (served.status.Reading? ==> whole == Drained(served.frames, served.status.buffer, false))
      && (served.status.InvalidFrame? ==> whole.invalid && served.frames == whole.frames)
    decreases |chunks|
  {
    if chunks == [] {
      assert buffer + "" == buffer;
    } else {
      var filled, later := buffer + chunks[0], Concat(chunks[1..]);
      Assoc(buffer, chunks[0], later);
      DrainInTwoSteps(filled, later);
      var d := Drain(filled);
      if Fill(buffer, chunks[0]).status.Reading? {
        DrainLeavesIncomplete(filled);
        ServedFramesAreStreamFrames(d.rest, chunks[1..]);
        PrefixUnderConcat(d.frames, Serve(d.rest, chunks[1..]).frames, Drain(d.rest + later).frames);
      }
    }
  }

  lemma PrefixUnderConcat<T>(a: seq<T>, b: seq<T>, c: seq<T>)
    requires b <= c
    ensures a + b <= a + c
  {
  }

  lemma {:induction false} DrainLeavesIncomplete(buf: string)
    ensures Frame(Drain(buf).rest) == if Drain(buf).invalid then Invalid else Incomplete
    decreases |buf|
  {
    if Frame(buf).Complete? {
      VerdictIsStable(buf, "");
      DrainLeavesIncomplete(buf[Frame(buf).length..]);
    }
  }

  /** A stream of messages is taken apart into exactly these messages if and only if each of them frames as itself. */
  lemma {:induction false} StreamDrainsExactly(messages: seq<string>)
    ensures Drain(Concat(messages)) == Drained(messages, "", false) <==>
      forall i :: 0 <= i < |messages| ==> Frame(messages[i]) == Complete(|messages[i]|)
    decreases |messages|
  {
    hide Frame;
    if messages == [] {
      assert Frame("") == Incomplete by { NothingIsIncomplete(); }
    } else {
      var m, later := messages[0], messages[1..];
      var stream := m + Concat(later);
      VerdictIsStable(m, Concat(later));
      StreamDrainsExactly(later);
      assert messages == [m] + later;
      if Frame(m) == Complete(|m|) {
        assert stream[..|m|] == m && stream[|m|..] == Concat(later);
        TailOfConcat([m], Drain(Concat(later)).frames);
        EmptyConcat(Drain(Concat(later)).frames);
      } else {
        if Frame(m) == Incomplete { IncompleteIsShort(m, Concat(later)); }
        VerdictIsStable(stream, "");
        assert Drain(stream).frames != [] ==> |Drain(stream).frames[0]| == Frame(stream).length != |m|;
      }
    }
  }

  lemma NothingIsIncomplete()
    ensures Frame("") == Incomplete
  {
  }
}
