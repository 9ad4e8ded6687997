/** Printed messages and the framer: a message printed from header lines and a body is
    framed as exactly that message. */
module SipPrinting {
  import opened Seqs
  import opened SipText
  import opened Wrappers
  import opened Framing

  /** A header block followed by a blank line and the body. */
  function PrintMessage(lines: seq<string>, body: string): string {
    Print(lines) + (CRLF + body)
  }

  /** A header line that neither is blank nor spans lines. */
  predicate Solid(line: string) { line != "" && OneLine(line) && IsAscii(line) }

  ghost predicate AllSolid(lines: seq<string>) { forall i :: 0 <= i < |lines| ==> Solid(lines[i]) }

  /** `extract_body`: what follows the first blank line, unless it is empty. */
  function ExtractBody(message: string): Option<string> {
    match HeaderEnd(message)
    case None => None
    case Some(end) => if message[end + 4..] == "" then None else Some(message[end + 4..])
  }

  lemma HeaderEndAtCrlf(rest: string)
    ensures HeaderEnd(CRLF + rest) == if CRLF <= rest then Some(0) else Shift(HeaderEnd(rest), 2)
  {
    var s := CRLF + rest;
    TailOfConcat(CRLF, rest);
    TailOfConcat("\n", rest);
    EmptyConcat(rest);
    assert CRLF[1..] == "\n";
    CrlfPrefix(rest);
    assert |rest| >= 2 ==> s[2] == rest[0] && s[3] == rest[1];
    assert AtBlankLine(s) <==> CRLF <= rest;
    assert !AtBlankLine(s[1..]);
  }

  lemma {:induction false} HeaderEndAfterLine(line: string, rest: string)
    requires OneLine(line)
    ensures HeaderEnd(line + (CRLF + rest)) == if CRLF <= rest then Some(|line|) else Shift(HeaderEnd(rest), |line| + 2)
  {
    var s := line + (CRLF + rest);
    if line == "" {
      EmptyConcat(CRLF + rest);
      HeaderEndAtCrlf(rest);
    } else {
      TailOfConcat(line, CRLF + rest);
      assert s[1] == if |line| > 1 then line[1] else '\r';
      assert !AtBlankLine(s);
      HeaderEndAfterLine(line[1..], rest);
    }
  }

  lemma CrlfPrefix(s: string)
    ensures CRLF <= s <==> |s| >= 2 && s[0] == '\r' && s[1] == '\n'
  {
  }

  lemma PrintMessageCons(lines: seq<string>, body: string)
    requires lines != []
    ensures PrintMessage(lines, body) == lines[0] + (CRLF + PrintMessage(lines[1..], body))
  {
    PrintCons(lines, CRLF + body);
  }

  lemma PrintedStartsWithText(lines: seq<string>, body: string)
    requires lines != [] && lines[0] != "" && OneLine(lines[0])
    ensures !(CRLF <= PrintMessage(lines, body))
  {
    PrintMessageCons(lines, body);
    var line, s := lines[0], PrintMessage(lines, body);
    assert s[0] == line[0] && s[1] == if |line| > 1 then line[1] else '\r';
    CrlfPrefix(s);
  }

  lemma SolidTail(lines: seq<string>)
    requires lines != [] && AllSolid(lines)
    ensures OneLine(lines[0]) && lines[0] != "" && AllSolid(lines[1..])
  {
  }

  lemma {:induction false} HeaderEndOfPrinted(lines: seq<string>, body: string)
    requires lines != [] && AllSolid(lines)
    ensures |Print(lines)| >= 2 && HeaderEnd(PrintMessage(lines, body)) == Some(|Print(lines)| - 2)
  {
    var rest, later := lines[1..], PrintMessage(lines[1..], body);
    SolidTail(lines);
    PrintMessageCons(lines, body);
    HeaderEndAfterLine(lines[0], later);
    assert |Print(lines)| == |lines[0]| + 2 + |Print(rest)|;
    if rest == [] {
      EmptyConcat(CRLF + body);
    } else {
      SolidTail(rest);
      PrintedStartsWithText(rest, body);
      HeaderEndOfPrinted(rest, body);
    }
  }

  lemma {:induction false} PrintOfConcat(a: seq<string>, b: seq<string>)
    ensures Print(a + b) == Print(a) + Print(b)
  {
    if a == [] {
      EmptyConcat(b);
      EmptyConcat(Print(b));
    } else {
      TailOfConcat(a, b);
      PrintOfConcat(a[1..], b);
      PrintCons(a, Print(b));
    }
  }

  lemma PrintLast(lines: seq<string>)
    requires lines != []
    ensures var last, init := lines[|lines| - 1], lines[..|lines| - 1];
      |Print(lines)| >= 2 && Print(lines)[..|Print(lines)| - 2] == Print(init) + last
  {
    var last, init := lines[|lines| - 1], lines[..|lines| - 1];
    assert init + [last] == lines;
    PrintOfConcat(init, [last]);
    assert Print([last]) == last + (CRLF + "");
    EmptyConcat(CRLF);
    Assoc(Print(init), last, CRLF);
    SplitConcat(Print(init) + last, CRLF);
  }

  /** The header block of a printed message, without the CRLF of its last line, reads back as its lines. */
  lemma HeaderOfPrinted(lines: seq<string>, body: string)
    requires lines != [] && AllSolid(lines)
    ensures |Print(lines)| >= 2
    ensures var header := PrintMessage(lines, body)[..|Print(lines)| - 2];
      Lines(header) == lines && IsAscii(header)
  {
    var last, init := lines[|lines| - 1], lines[..|lines| - 1];
    assert init + [last] == lines && AllSolid(init) && Solid(last);
    PrintLast(lines);
    PrefixOfConcat(Print(lines), CRLF + body, |Print(lines)| - 2);
    LinesOfPrint(init, last);
    LinesOfOne(last);
    PrintIsAscii(init);
    hide Print, Lines, AllSolid;
  }

  lemma PrefixOfConcat<T>(a: seq<T>, b: seq<T>, n: nat)
    requires n <= |a|
    ensures (a + b)[..n] == a[..n]
  {
  }

  lemma {:induction false} PrintIsAscii(lines: seq<string>)
    requires AllSolid(lines)
    ensures IsAscii(Print(lines))
  {
    if lines != [] {
      PrintIsAscii(lines[1..]);
      assert IsAscii(CRLF) && IsAscii(lines[0]);
    }
  }

  lemma BodyOfPrinted(lines: seq<string>, body: string)
    ensures PrintMessage(lines, body)[|Print(lines)| + 2..] == body
  {
    Assoc(Print(lines), CRLF, body);
    SplitConcat(Print(lines) + CRLF, body);
  }

  function LengthOr0(length: Option<nat>): nat { if length.Some? then length.value else 0 }

  lemma FrameLengthOfHeader(header: string, lines: seq<string>)
    requires IsAscii(header) && Lines(header) == lines && ContentLength(lines, None).Ok?
    requires |header| + 4 + LengthOr0(ContentLength(lines, None).value) < USIZE_MOD
    ensures FrameLength(header) == Some(|header| + 4 + LengthOr0(ContentLength(lines, None).value))
  {
    AsciiIsValidUtf8(header);
  }

  lemma FrameByHeader(message: string, end: nat, total: nat, body: string)
    requires HeaderEnd(message) == Some(end) && FrameLength(message[..end]) == Some(total)
    requires message[end + 4..] == body
    ensures Frame(message) == if |message| >= total then Complete(total) else Incomplete
    ensures ExtractBody(message) == if body == "" then None else Some(body)
  {
  }

  lemma FrameLengthOfPrinted(lines: seq<string>, body: string, length: Option<nat>)
    requires lines != [] && AllSolid(lines) && ContentLength(lines, None) == Ok(length)
    requires |Print(lines)| + 2 + LengthOr0(length) < USIZE_MOD
    ensures |Print(lines)| >= 2
    ensures FrameLength(PrintMessage(lines, body)[..|Print(lines)| - 2]) == Some(|Print(lines)| + 2 + LengthOr0(length))
  {
    hide ContentLength, FrameLength, Lines, Print, AllSolid;
    HeaderOfPrinted(lines, body);
    var header := PrintMessage(lines, body)[..|Print(lines)| - 2];
    assert |header| == |Print(lines)| - 2;
    FrameLengthOfHeader(header, lines);
  }

  /** A printed message frames by what its header lines say the content length is. */
  lemma FrameOfPrinted(lines: seq<string>, body: string, length: Option<nat>)
    requires lines != [] && AllSolid(lines) && ContentLength(lines, None) == Ok(length)
    requires |Print(lines)| + 2 + LengthOr0(length) < USIZE_MOD
    ensures var total := |Print(lines)| + 2 + LengthOr0(length); var message := PrintMessage(lines, body);
      && Frame(message) == (if |message| >= total then Complete(total) else Incomplete)
      && ExtractBody(message) == (if body == "" then None else Some(body))
  {
    hide ContentLength, FrameLength, Lines, Print, AllSolid, HeaderEnd;
    FrameLengthOfPrinted(lines, body, length);
    HeaderEndOfPrinted(lines, body);
    BodyOfPrinted(lines, body);
    var total := |Print(lines)| + 2 + LengthOr0(length);
    FrameByHeader(PrintMessage(lines, body), |Print(lines)| - 2, total, body);
  }

  /** An empty line among the header lines ends the header there. */
  lemma EmptyLineEndsHeader(before: seq<string>, after: seq<string>, body: string)
    ensures PrintMessage(before + [""] + after, body) == PrintMessage(before, PrintMessage(after, body))
  {
    var rest := PrintMessage(after, body);
    calc {
      PrintMessage(before + [""] + after, body);
      { PrintOfConcat(before + [""], after); PrintOfConcat(before, [""]); }
      Print(before) + Print([""]) + Print(after) + (CRLF + body);
      { EmptyConcat(CRLF); assert Print([""]) == CRLF; Assoc(Print(before) + CRLF, Print(after), CRLF + body); }
      Print(before) + CRLF + rest;
      { Assoc(Print(before), CRLF, rest); }
      PrintMessage(before, rest);
    }
  }

  /** The body of a printed message, whatever its header lines say. */
  lemma BodyReadsBack(lines: seq<string>, body: string)
    requires lines != [] && AllSolid(lines)
    ensures ExtractBody(PrintMessage(lines, body)) == if body == "" then None else Some(body)
  {
    hide Print, AllSolid, HeaderEnd;
    HeaderEndOfPrinted(lines, body);
    BodyOfPrinted(lines, body);
  }

  // ----- content-length lines -----

  /** The header lines say that the body is this long; without a length they say that it is empty. */
  predicate Declares(lines: seq<string>, n: nat) {
    ContentLength(lines, None).Ok? && LengthOr0(ContentLength(lines, None).value) == n
  }

  /** A printed message frames as exactly itself if and only if its header lines declare the length of its body. */
  lemma FramesExactly(lines: seq<string>, body: string)
    requires lines != [] && AllSolid(lines) && |PrintMessage(lines, body)| < USIZE_MOD
    ensures var message := PrintMessage(lines, body); Frame(message) == Complete(|message|) <==> Declares(lines, |body|)
  {
    hide Lines, Print, AllSolid, HeaderEnd, ContentLength, ValidUtf8;
    HeaderOfPrinted(lines, body);
    HeaderEndOfPrinted(lines, body);
    BodyOfPrinted(lines, body);
    AsciiIsValidUtf8(PrintMessage(lines, body)[..|Print(lines)| - 2]);
  }

  /** Lines declare a length exactly when all that carry one carry this one, and some line does unless it is 0. */
  lemma DeclaresExactly(lines: seq<string>, n: nat)
    ensures Declares(lines, n) <==>
      && (forall i :: 0 <= i < |lines| ==> Agrees(lines[i], n))
      && (n == 0 || exists i :: 0 <= i < |lines| && LengthField(lines[i]).Some?)
  {
    hide LengthField, ParseUsize;
    if forall i :: 0 <= i < |lines| ==> Agrees(lines[i], n) {
      ContentLengthAgrees(lines, n, None);
    } else if ContentLength(lines, None).Ok? {
      LengthsAreOne(lines, None);
      assert exists i :: 0 <= i < |lines| && !Agrees(lines[i], n);
    }
  }

  /** If the line carries a length, it is this one. */
  predicate Agrees(line: string, n: nat) {
    LengthField(line).None? || ParseUsize(LengthField(line).value) == Some(n)
  }

  lemma {:induction false} LengthsAreOne(lines: seq<string>, seen: Option<nat>)
    requires ContentLength(lines, seen).Ok?
    ensures var r := ContentLength(lines, seen).value;
      && (seen.Some? ==> r == seen)
      && forall i :: 0 <= i < |lines| && LengthField(lines[i]).Some? ==>
           r.Some? && ParseUsize(LengthField(lines[i]).value) == r
  {
    hide LengthField, ParseUsize;
    if lines != [] {
      LengthsAreOne(lines[1..], if LengthField(lines[0]).Some? then ParseUsize(LengthField(lines[0]).value) else seen);
    }
  }

  lemma {:induction false} ContentLengthOfConcat(a: seq<string>, b: seq<string>, seen: Option<nat>)
    requires ContentLength(a, seen).Ok?
    ensures ContentLength(a + b, seen) == ContentLength(b, ContentLength(a, seen).value)
  {
    if a == [] {
      EmptyConcat(b);
    } else {
      TailOfConcat(a, b);
      match LengthField(a[0])
      case None => ContentLengthOfConcat(a[1..], b, seen);
      case Some(value) => ContentLengthOfConcat(a[1..], b, ParseUsize(value));
    }
  }

  /** Lines that carry no length, or all carry the same one, agree on it. */
  lemma {:induction false} ContentLengthAgrees(lines: seq<string>, n: nat, seen: Option<nat>)
    requires seen.Some? ==> seen.value == n
    requires forall i :: 0 <= i < |lines| ==>
      LengthField(lines[i]).None? || ParseUsize(LengthField(lines[i]).value) == Some(n)
    ensures ContentLength(lines, seen)
         == Ok(if exists i :: 0 <= i < |lines| && LengthField(lines[i]).Some? then Some(n) else seen)
  {
    if lines != [] {
      var next := if LengthField(lines[0]).Some? then Some(n) else seen;
      ContentLengthAgrees(lines[1..], n, next);
      if i :| 0 <= i < |lines[1..]| && LengthField(lines[1..][i]).Some? {
        assert LengthField(lines[i + 1]).Some?;
      }
    }
  }

  function LengthLine(n: nat): string { "Content-Length: " + Decimal(n) }

  lemma ParseOfDecimal(n: nat, limit: nat)
    requires n < limit
    ensures ParseUnsigned(Decimal(n), limit) == Some(n)
  {
    var digits := Decimal(n);
    assert IsDigit(digits[0]) && digits[0] != '+';
    DigitsValueOfDecimal(n);
  }

  lemma LengthLineFacts(n: nat)
    requires n < USIZE_MOD
    ensures LengthField(LengthLine(n)).Some? && ParseUsize(LengthField(LengthLine(n)).value) == Some(n)
    ensures Solid(LengthLine(n))
  {
    var digits, line := Decimal(n), LengthLine(n);
    DecimalIsWord(n);
    LengthLineInParts(n);
    LengthLineIsSolid(n);
    TrimOfTrimmed(line);
    TrimOfSpaced(digits);
    ParseOfDecimal(n, USIZE_MOD);
    hide Decimal, LengthLine, Trim, Lower, ParseUsize, Solid, Trimmed;
  }

  lemma LengthLineInParts(n: nat)
    ensures var line := LengthLine(n);
      && Trimmed(line) && |line| >= 15 && line[15..] == " " + Decimal(n) && "content-length:" <= Lower(line)
  {
    var digits, line := Decimal(n), LengthLine(n);
    assert IsDigit(digits[|digits| - 1]);
    hide Decimal;
    assert line[|line| - 1] == digits[|digits| - 1] && line[0] == 'C';
    assert line[..15] == "Content-Length:" && line[15..] == " " + digits;
    assert Lower(line)[..15] == "content-length:";
  }

  lemma LengthLineIsSolid(n: nat)
    ensures Solid(LengthLine(n))
  {
    var digits, line := Decimal(n), LengthLine(n);
    assert forall i :: 0 <= i < |digits| ==> IsDigit(digits[i]);
    hide Decimal;
    forall i | 0 <= i < |line| ensures line[i] != '\n' && line[i] as int < 0x80 {
      if i >= 16 { assert line[i] == digits[i - 16] && IsDigit(digits[i - 16]); }
    }
  }

  lemma TrimOfSpaced(s: string)
    requires s != "" && Trimmed(s)
    ensures Trim(" " + s) == s
  {
    assert (" " + s)[1..] == s;
    assert TrimStart(" " + s) == TrimStart(s) == s;
  }

  /** The first character of an unindented line already tells that it carries no length. */
  lemma OtherInitialNoLength(line: string)
    requires line != "" && !IsSpace(line[0]) && LowerChar(line[0]) !in {'c', 'l'}
    ensures LengthField(line).None?
  {
    TrimIsTrimmed(line);
    assert Lower(Trim(line))[0] == LowerChar(line[0]);
  }

  /** A line that differs from the name Content-Length at one place, and does not start with `l`, carries no length. */
  lemma OtherNameNoLength(line: string, i: nat)
    requires Trimmed(line) && i < 15 && i < |line| && LowerChar(line[0]) != 'l'
    requires LowerChar(line[i]) != "content-length:"[i]
    ensures LengthField(line).None?
  {
    TrimOfTrimmed(line);
    var lower := Lower(line);
    assert lower[i] == LowerChar(line[i]) && lower[0] == LowerChar(line[0]);
    PrefixChar("content-length:", lower, i);
  }

  lemma PrefixChar(p: string, s: string, i: nat)
    requires i < |p| && i < |s|
    ensures p <= s ==> s[i] == p[i]
  {
  }
}
