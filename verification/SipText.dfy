/** Line-oriented text as the SIP and SDP code sees it: one character per octet, ASCII white space and case. */
module SipText {
  import opened Seqs

  const CRLF := "\r\n"

  predicate IsSpace(c: char) { c == ' ' || 9 <= c as int <= 13 }

  predicate IsDigit(c: char) { '0' <= c <= '9' }

  function LowerChar(c: char): char {
    if 'A' <= c <= 'Z' then (c as int + 32) as char else c
  }

  function Lower(s: string): (r: string)
    ensures |r| == |s|
  {
    seq(|s|, i requires 0 <= i < |s| => LowerChar(s[i]))
  }

  function TrimStart(s: string): string {
    if s != "" && IsSpace(s[0]) then TrimStart(s[1..]) else s
  }

  function TrimEnd(s: string): string {
    if s != "" && IsSpace(s[|s| - 1]) then TrimEnd(s[..|s| - 1]) else s
  }

  function Trim(s: string): string { TrimEnd(TrimStart(s)) }

  /** No line feed: what every line of a text satisfies. */
  predicate OneLine(s: string) { '\n' !in s }

  ghost predicate AllOneLine(ls: seq<string>) { forall i :: 0 <= i < |ls| ==> OneLine(ls[i]) }

  function StripCr(s: string): string {
    if s != "" && s[|s| - 1] == '\r' then s[..|s| - 1] else s
  }

  /** Position of the first line feed, or the length. */
  function FindLf(s: string): (n: nat)
    ensures n <= |s| && OneLine(s[..n]) && (n < |s| ==> s[n] == '\n')
  {
    if s == "" || s[0] == '\n' then 0
    else
      var n := FindLf(s[1..]) + 1;
      assert s[..n] == [s[0]] + s[1..][..n - 1];
      n
  }

  /** Rust's `str::lines`: a carriage return is dropped only right before a line feed, and no
      empty last line is made. */
  function Lines(s: string): (ls: seq<string>)
    ensures AllOneLine(ls)
    decreases |s|
  {
    if s == "" then []
    else
      var n := FindLf(s);
      if n == |s| then assert s[..n] == s; [s] else [StripCr(s[..n])] + Lines(s[n + 1..])
  }

  /** Every line followed by CRLF. */
  function Print(ls: seq<string>): string {
    if ls == [] then "" else ls[0] + (CRLF + Print(ls[1..]))
  }

  lemma {:induction false} FindLfAfter(l: string, rest: string)
    requires OneLine(l)
    ensures FindLf(l + ("\n" + rest)) == |l|
  {
    if l == "" {
      EmptyConcat("\n" + rest);
    } else {
      TailOfConcat(l, "\n" + rest);
      FindLfAfter(l[1..], rest);
    }
  }

  lemma LinesOfLine(line: string, tail: string)
    requires OneLine(line)
    ensures Lines(line + (CRLF + tail)) == [line] + Lines(tail)
  {
    var l, s := line + "\r", line + (CRLF + tail);
    assert s == l + ("\n" + tail) by {
      Assoc(line, "\r", "\n" + tail);
      assert "\r" + ("\n" + tail) == CRLF + tail;
    }
    FindLfAfter(l, tail);
    SplitConcat(l, "\n" + tail);
    SplitConcat(line, "\r");
    DropDrop(s, |l|, 1);
    assert ("\n" + tail)[1..] == tail;
  }

  lemma PrintCons(ls: seq<string>, rest: string)
    requires ls != []
    ensures Print(ls) + rest == ls[0] + (CRLF + (Print(ls[1..]) + rest))
  {
    Assoc(ls[0], CRLF + Print(ls[1..]), rest);
    Assoc(CRLF, Print(ls[1..]), rest);
  }

  /** Printed lines read back, whatever carriage returns they contain. */
  lemma {:induction false} LinesOfPrint(ls: seq<string>, rest: string)
    requires AllOneLine(ls)
    ensures Lines(Print(ls) + rest) == ls + Lines(rest)
  {
    if ls == [] {
      EmptyConcat(rest);
    } else {
      var tail := Print(ls[1..]) + rest;
      calc {
        Lines(Print(ls) + rest);
        { PrintCons(ls, rest); }
        Lines(ls[0] + (CRLF + tail));
        { LinesOfLine(ls[0], tail); }
        [ls[0]] + Lines(tail);
        { LinesOfPrint(ls[1..], rest); }
        [ls[0]] + (ls[1..] + Lines(rest));
        ls + Lines(rest);
      }
    }
  }

  lemma {:induction false} LinesOfOne(l: string)
    requires OneLine(l) && l != ""
    ensures Lines(l) == [l]
  {
    NoLfNotFound(l);
  }

  lemma {:induction false} NoLfNotFound(l: string)
    requires OneLine(l)
    ensures FindLf(l) == |l|
  {
    if l != "" {
      NoLfNotFound(l[1..]);
    }
  }

  // ----- white-space separated fields -----

  predicate IsWord(s: string) { s != "" && forall i :: 0 <= i < |s| ==> !IsSpace(s[i]) }

  ghost predicate AllWords(ws: seq<string>) { forall i :: 0 <= i < |ws| ==> IsWord(ws[i]) }

  /** Length of the leading run of non-space characters. */
  function WordLen(s: string): (n: nat)
    ensures n <= |s| && (forall i :: 0 <= i < n ==> !IsSpace(s[i])) && (n < |s| ==> IsSpace(s[n]))
  {
    if s == "" || IsSpace(s[0]) then 0 else 1 + WordLen(s[1..])
  }

  /** Rust's `split_whitespace`. */
  function Words(s: string): (ws: seq<string>)
    ensures AllWords(ws)
    decreases |s|
  {
    if s == "" then []
    else if IsSpace(s[0]) then Words(s[1..])
    else var n := WordLen(s); [s[..n]] + Words(s[n..])
  }

  function JoinWords(ws: seq<string>): string {
    if ws == [] then "" else if |ws| == 1 then ws[0] else ws[0] + " " + JoinWords(ws[1..])
  }

  lemma {:induction false} WordLenOf(w: string, rest: string)
    requires (forall i :: 0 <= i < |w| ==> !IsSpace(w[i])) && (rest != "" ==> IsSpace(rest[0]))
    ensures WordLen(w + rest) == |w|
  {
    if w == "" {
      EmptyConcat(rest);
    } else {
      TailOfConcat(w, rest);
      WordLenOf(w[1..], rest);
    }
  }

  lemma {:induction false} WordsOfJoin(ws: seq<string>)
    requires AllWords(ws)
    ensures Words(JoinWords(ws)) == ws
  {
    if ws != [] {
      var s := JoinWords(ws);
      var rest := if |ws| == 1 then "" else " " + JoinWords(ws[1..]);
      assert s == ws[0] + rest;
      WordLenOf(ws[0], rest);
      SplitConcat(ws[0], rest);
      assert !IsSpace(s[0]);
      if |ws| > 1 {
        assert Words(rest) == Words(rest[1..]) && rest[1..] == JoinWords(ws[1..]);
        WordsOfJoin(ws[1..]);
      }
    }
  }

  // ----- decimal numbers -----

  function DigitChar(d: nat): char
    requires d < 10
  {
    ('0' as int + d) as char
  }

  function Decimal(n: nat): (s: string)
    ensures s != "" && forall i :: 0 <= i < |s| ==> IsDigit(s[i])
  {
    if n < 10 then [DigitChar(n)] else Decimal(n / 10) + [DigitChar(n % 10)]
  }

  /** The number that a string of digits denotes. */
  function DigitsValue(s: string): nat
    requires forall i :: 0 <= i < |s| ==> IsDigit(s[i])
  {
    if s == "" then 0
    else
      var last := s[|s| - 1];
      assert IsDigit(last);
      10 * DigitsValue(s[..|s| - 1]) + (last as int - '0' as int)
  }

  lemma {:induction false} DigitsValueOfDecimal(n: nat)
    ensures DigitsValue(Decimal(n)) == n
  {
    var s := Decimal(n);
    if n < 10 {
      assert s[..0] == "";
    } else {
      assert s[..|s| - 1] == Decimal(n / 10);
      DigitsValueOfDecimal(n / 10);
    }
  }

  lemma DecimalIsWord(n: nat)
    ensures IsWord(Decimal(n))
  {
    var s := Decimal(n);
    forall i | 0 <= i < |s| ensures !IsSpace(s[i]) { assert IsDigit(s[i]); }
  }

  // ----- trimming -----

  /** Neither starts nor ends with white space. */
  predicate Trimmed(s: string) { s != "" ==> !IsSpace(s[0]) && !IsSpace(s[|s| - 1]) }

  lemma {:induction false} TrimEndOfSolid(s: string)
    requires s != "" && !IsSpace(s[0])
    ensures var r := TrimEnd(s); 0 < |r| <= |s| && r[0] == s[0] && r == s[..|r|] && !IsSpace(r[|r| - 1])
  {
    if IsSpace(s[|s| - 1]) {
      TrimEndOfSolid(s[..|s| - 1]);
    }
  }

  lemma {:induction false} TrimIsTrimmed(s: string)
    ensures Trimmed(Trim(s)) && (OneLine(s) ==> OneLine(Trim(s)))
    ensures s != "" && !IsSpace(s[0]) ==> Trim(s) != "" && Trim(s)[0] == s[0]
  {
    if s != "" && IsSpace(s[0]) {
      assert Trim(s) == Trim(s[1..]);
      TrimIsTrimmed(s[1..]);
    } else if s != "" {
      TrimEndOfSolid(s);
    }
  }

  lemma TrimOfTrimmed(s: string)
    requires Trimmed(s)
    ensures Trim(s) == s
  {
  }
}
