/** How text is read, told by spelling: white space, letter case, lines and words, and the names that header fields go
    by. */
module SipReading {
  import opened Seqs
  import opened SipText
  import opened Wrappers
  import opened Framing
  import opened SipResponses

  const UPPER := "ABCDEFGHIJKLMNOPQRSTUVWXYZ"
  const LOWER := "abcdefghijklmnopqrstuvwxyz"

  /** Exactly the 26 letters change, each to its small one. */
  lemma LowerByAlphabet(s: string, i: nat)
    requires i < |s|
    ensures |Lower(s)| == |s|
    ensures s[i] in UPPER ==> exists k :: 0 <= k < 26 && s[i] == UPPER[k] && Lower(s)[i] == LOWER[k]
    ensures s[i] !in UPPER ==> Lower(s)[i] == s[i]
  {
    var c := s[i];
    forall k | 0 <= k < 26 ensures UPPER[k] as int == 65 + k && LOWER[k] as int == 97 + k {
      AlphabetAt(k);
    }
    if 'A' <= c <= 'Z' {
      var k := c as int - 65;
      assert UPPER[k] == c && LowerChar(c) == LOWER[k];
    }
  }

  lemma AlphabetAt(k: nat)
    requires k < 26
    ensures |UPPER| == |LOWER| == 26 && UPPER[k] as int == 65 + k && LOWER[k] as int == 97 + k
  {
  }

  predicate AllSpaces(s: string) { forall i :: 0 <= i < |s| ==> s[i] as int in {9, 10, 11, 12, 13, 32} }

  /** Trimming takes away the longest white space at both ends and nothing else. */
  lemma TrimmedExactly(s: string) returns (before: string, after: string)
    ensures s == before + Trim(s) + after && AllSpaces(before) && AllSpaces(after)
    ensures Trim(s) != "" ==> !AllSpaces(Trim(s)[..1]) && !AllSpaces(Trim(s)[|Trim(s)| - 1..])
  {
    var middle;
    before, middle := StartTrimmed(s);
    after := EndTrimmed(middle);
    var t := Trim(s);
    TrimIsTrimmed(s);
    if t != "" {
      assert t[..1] == [t[0]] && t[|t| - 1..] == [t[|t| - 1]];
      assert t[..1][0] == t[0] && t[|t| - 1..][0] == t[|t| - 1];
    }
    Assoc(before, t, after);
  }

  lemma {:induction false} StartTrimmed(s: string) returns (before: string, rest: string)
    ensures s == before + rest && rest == TrimStart(s) && AllSpaces(before)
  {
    if s != "" && IsSpace(s[0]) {
      var b;
      b, rest := StartTrimmed(s[1..]);
      before := [s[0]] + b;
      Assoc([s[0]], b, rest);
      hide TrimStart;
      assert s == [s[0]] + s[1..];
    } else {
      before, rest := "", s;
    }
  }

  lemma {:induction false} EndTrimmed(s: string) returns (after: string)
    ensures s == TrimEnd(s) + after && AllSpaces(after)
  {
    if s != "" && IsSpace(s[|s| - 1]) {
      var a := EndTrimmed(s[..|s| - 1]);
      after := a + [s[|s| - 1]];
      assert s == s[..|s| - 1] + [s[|s| - 1]];
    } else {
      after := "";
    }
  }

  /** A line ends at a line feed, together with one carriage return right before it; the last one may end the text. */
  lemma LinesExactly(l: string, rest: string)
    requires '\n' !in l
    ensures Lines(l + "\n" + rest) == [if l != "" && l[|l| - 1] == '\r' then l[..|l| - 1] else l] + Lines(rest)
    ensures Lines(l) == if l == "" then [] else [l]
  {
    var s := l + "\n" + rest;
    Assoc(l, "\n", rest);
    FindLfAfter(l, rest);
    assert s[..|l|] == l && s[|l| + 1..] == rest;
    NoLfNotFound(l);
  }

  /** Words are what white space separates. */
  lemma {:induction false} WordsExactly(space: string, w: string, rest: string)
    requires AllSpaces(space) && (rest != "" ==> AllSpaces(rest[..1]))
    requires forall i :: 0 <= i < |w| ==> w[i] as int !in {9, 10, 11, 12, 13, 32}
    ensures Words(space + w + rest) == if w == "" then Words(rest) else [w] + Words(rest)
    decreases |space|
  {
    if space != "" {
      assert space + w + rest == [space[0]] + (space[1..] + w + rest) && IsSpace(space[0]);
      WordsExactly(space[1..], w, rest);
    } else if w == "" {
      assert space + w + rest == rest;
    } else {
      var s := space + w + rest;
      assert s == w + rest && s[0] == w[0] && !IsSpace(w[0]);
      if rest != "" { assert IsSpace(rest[..1][0]); }
      forall i | 0 <= i < |w| ensures !IsSpace(w[i]) { assert w[i] as int !in {9, 10, 11, 12, 13, 32}; }
      WordLenOf(w, rest);
      SplitConcat(w, rest);
      assert Words(s) == [s[..|w|]] + Words(s[|w|..]);
    }
  }

  // ----- header fields by name -----

  /** A header name: one or more characters without a colon, not starting with white space. */
  predicate IsName(name: string) { name != "" && ':' !in name && !IsSpace(name[0]) }

  function Field(name: string, value: string): string { name + ":" + value }

  /** A prefix test against a name in small letters with its colon is a test for that name. */
  lemma PrefixByName(name: string, value: string, p: string)
    requires ':' !in name && ':' !in p
    ensures p + ":" <= Lower(Field(name, value)) <==> Lower(name) == p
  {
    var lower, n := Lower(Field(name, value)), |name|;
    assert lower[..n] == Lower(name) && lower[n] == ':';
    forall i | 0 <= i < n ensures lower[i] != ':' { assert name[i] in name; }
    forall i | 0 <= i < |p| ensures p[i] != ':' { assert p[i] in p; }
    if p + ":" <= lower {
      SameColon(p, lower, n);
      assert lower[..n] == (p + ":")[..n] == p;
    }
  }

  lemma SameColon(p: string, text: string, n: nat)
    requires p + ":" <= text && n < |text| && text[n] == ':' && (forall i :: 0 <= i < n ==> text[i] != ':')
    requires forall i :: 0 <= i < |p| ==> p[i] != ':'
    ensures |p| == n
  {
    assert text[|p|] == (p + ":")[|p|] == ':';
    forall i | 0 <= i < |p| ensures text[i] != ':' { assert text[i] == (p + ":")[i] == p[i]; }
  }

  /** What a header line is, by its name in any case, short forms included. */
  lemma KindByName(name: string, value: string)
    requires IsName(name)
    ensures var k, n := KindOf(Field(name, value)), Lower(name);
      && (k == Via <==> n in {"via", "v"}) && (k == From <==> n in {"from", "f"}) && (k == To <==> n in {"to", "t"})
      && (k == CallId <==> n in {"call-id", "i"}) && (k == CSeq <==> n == "cseq")
  {
    hide Lower;
    PrefixByName(name, value, "via");
    PrefixByName(name, value, "v");
    PrefixByName(name, value, "from");
    PrefixByName(name, value, "f");
    PrefixByName(name, value, "to");
    PrefixByName(name, value, "t");
    PrefixByName(name, value, "call-id");
    PrefixByName(name, value, "i");
    PrefixByName(name, value, "cseq");
    assert "via" + ":" == "via:" && "v" + ":" == "v:" && "from" + ":" == "from:" && "f" + ":" == "f:";
    assert "to" + ":" == "to:" && "t" + ":" == "t:" && "call-id" + ":" == "call-id:" && "i" + ":" == "i:";
    assert "cseq" + ":" == "cseq:";
    NamesDiffer();
  }

  lemma NamesDiffer()
    ensures |"via"| == 3 && |"v"| == 1 && |"from"| == 4 && |"f"| == 1 && |"to"| == 2 && |"t"| == 1
    ensures |"call-id"| == 7 && |"i"| == 1 && |"cseq"| == 4
    ensures "v"[0] == 'v' && "f"[0] == 'f' && "t"[0] == 't' && "i"[0] == 'i' && "from"[0] == 'f' && "cseq"[0] == 'c'
  {
  }

  lemma TrimOfField(name: string, value: string)
    requires IsName(name)
    ensures Trim(Field(name, value)) == Field(name, TrimEnd(value))
    decreases |value|
  {
    var line := Field(name, value);
    assert line[0] == name[0];
    if value != "" && IsSpace(value[|value| - 1]) {
      assert line[|line| - 1] == value[|value| - 1];
      assert line[..|line| - 1] == Field(name, value[..|value| - 1]);
      TrimOfField(name, value[..|value| - 1]);
      assert Field(name, value[..|value| - 1])[0] == name[0];
    } else {
      assert line[|line| - 1] == if value == "" then ':' else value[|value| - 1];
    }
  }

  lemma {:induction false} TrimOfTrimEnd(s: string)
    ensures Trim(TrimEnd(s)) == Trim(s)
    decreases |s|
  {
    if s != "" && IsSpace(s[|s| - 1]) {
      TrimOfTrimEnd(s[..|s| - 1]);
      StartThenEnd(s);
    } else {
      assert TrimEnd(s) == s;
    }
  }

  lemma {:induction false} StartThenEnd(s: string)
    requires s != "" && IsSpace(s[|s| - 1])
    ensures Trim(s[..|s| - 1]) == Trim(s)
    decreases |s|
  {
    if IsSpace(s[0]) {
      if |s| > 1 {
        assert s[..|s| - 1][1..] == s[1..][..|s| - 2];
        StartThenEnd(s[1..]);
        assert TrimStart(s) == TrimStart(s[1..]) && TrimStart(s[..|s| - 1]) == TrimStart(s[..|s| - 1][1..]);
      } else {
        assert s[..0] == "" && s[1..] == "";
      }
    } else {
      assert |s| > 1;
      assert s[..|s| - 1][0] == s[0];
    }
  }

  /** A line carries a length exactly under the name Content-Length or its short form, in any case, and the value is
      what follows the colon, trimmed. */
  lemma LengthByName(name: string, value: string)
    requires IsName(name)
    ensures LengthField(Field(name, value))
         == if Lower(name) in {"content-length", "l"} then Some(Trim(value)) else None
  {
    var short := TrimEnd(value);
    TrimOfField(name, value);
    PrefixByName(name, short, "content-length");
    PrefixByName(name, short, "l");
    assert "content-length" + ":" == "content-length:" && "l" + ":" == "l:";
    TrimOfTrimEnd(value);
    assert Field(name, short)[|name| + 1..] == short;
    assert |Lower(name)| == |name| && |"content-length"| == 14 && |"l"| == 1;
    hide Trim, Lower, Field;
  }

  predicate PartAt(s: string, part: string, i: nat) { i + |part| <= |s| && s[i..i + |part|] == part }

  /** Finding a part anywhere. */
  lemma {:induction false} ContainsExactly(s: string, part: string)
    ensures Contains(s, part) <==> exists i: nat :: PartAt(s, part, i)
  {
    assert part <= s <==> PartAt(s, part, 0);
    if s != "" {
      var rest := s[1..];
      ContainsExactly(rest, part);
      forall i: nat ensures PartAt(rest, part, i) <==> PartAt(s, part, i + 1) {
        if i + |part| <= |rest| {
          assert rest[i..i + |part|] == s[i + 1..i + 1 + |part|];
        }
      }
      if i: nat :| PartAt(s, part, i) && i > 0 {
        assert PartAt(rest, part, i - 1);
      }
    }
  }

  // ----- frames by what their headers say -----

  /** The first blank line is the first place where this text stands. */
  predicate FirstAt(s: string, part: string, i: nat) {
    PartAt(s, part, i) && forall j :: 0 <= j < i ==> !PartAt(s, part, j)
  }

  lemma PartAtTail(s: string, part: string, j: nat)
    requires s != ""
    ensures PartAt(s[1..], part, j) <==> PartAt(s, part, j + 1)
  {
    if j + |part| <= |s| - 1 {
      assert s[1..][j..j + |part|] == s[j + 1..j + 1 + |part|];
    }
  }

  lemma FirstAtTail(s: string, part: string, i: nat)
    requires s != "" && !PartAt(s, part, 0) && i > 0
    ensures FirstAt(s[1..], part, i - 1) <==> FirstAt(s, part, i)
  {
    forall j: nat ensures PartAt(s[1..], part, j) <==> PartAt(s, part, j + 1) { PartAtTail(s, part, j); }
    hide PartAt;
    assert forall j :: 0 < j ==> (PartAt(s, part, j) <==> PartAt(s[1..], part, j - 1));
  }

  lemma BlankLineAtStart(buf: string)
    ensures AtBlankLine(buf) <==> PartAt(buf, "\r\n\r\n", 0)
  {
    if |buf| >= 4 {
      BlankLineIsSeparator(buf, 0);
      assert buf[0..] == buf;
    }
  }

  lemma {:induction false} BlankLineExactly(buf: string, i: nat)
    ensures HeaderEnd(buf) == Some(i) <==> FirstAt(buf, "\r\n\r\n", i)
    decreases |buf|
  {
    BlankLineAtStart(buf);
    if |buf| >= 4 && !AtBlankLine(buf) && i > 0 {
      hide PartAt, AtBlankLine;
      BlankLineExactly(buf[1..], i - 1);
      FirstAtTail(buf, "\r\n\r\n", i);
      hide FirstAt;
    }
  }

  /** All lines that give a length give this one, and one does if there is one. */
  ghost predicate Gives(lines: seq<string>, seen: Option<nat>, length: Option<nat>) {
    && (forall i :: 0 <= i < |lines| && LengthField(lines[i]).Some? ==>
          length.Some? && ParseUsize(LengthField(lines[i]).value) == length)
    && (seen.Some? ==> length == seen)
    && (length.Some? ==> seen.Some? || exists i :: 0 <= i < |lines| && LengthField(lines[i]).Some?)
  }

  lemma {:induction false} LengthsReadExactly(lines: seq<string>, seen: Option<nat>, length: Option<nat>)
    ensures ContentLength(lines, seen) == Ok(length) <==> Gives(lines, seen, length)
  {
    hide LengthField, ParseUsize;
    if lines != [] {
      var rest := lines[1..];
      assert forall i :: 0 < i < |lines| ==> lines[i] == rest[i - 1];
      if LengthField(lines[0]).None? {
        LengthsReadExactly(rest, seen, length);
        GivesTail(lines, seen, length);
      } else {
        var parsed := ParseUsize(LengthField(lines[0]).value);
        if parsed.Some? && (seen.None? || seen == parsed) {
          LengthsReadExactly(rest, parsed, length);
          GivesHead(lines, seen, parsed, length);
        }
      }
    }
  }

  lemma GivesTail(lines: seq<string>, seen: Option<nat>, length: Option<nat>)
    requires lines != [] && LengthField(lines[0]).None?
    ensures Gives(lines, seen, length) <==> Gives(lines[1..], seen, length)
  {
    hide LengthField, ParseUsize;
    var rest := lines[1..];
    assert forall i :: 0 <= i < |rest| ==> rest[i] == lines[i + 1];
    if i :| 0 <= i < |lines| && LengthField(lines[i]).Some? {
      assert rest[i - 1] == lines[i];
    }
    if i :| 0 <= i < |rest| && LengthField(rest[i]).Some? {
      assert lines[i + 1] == rest[i];
    }
  }

  lemma GivesHead(lines: seq<string>, seen: Option<nat>, parsed: Option<nat>, length: Option<nat>)
    requires lines != [] && LengthField(lines[0]).Some? && parsed == ParseUsize(LengthField(lines[0]).value)
    requires parsed.Some? && (seen.None? || seen == parsed)
    ensures Gives(lines, seen, length) <==> Gives(lines[1..], parsed, length)
  {
    hide LengthField, ParseUsize;
    var rest := lines[1..];
    assert forall i :: 0 <= i < |rest| ==> rest[i] == lines[i + 1];
    if Gives(rest, parsed, length) {
      forall i | 0 <= i < |lines| && LengthField(lines[i]).Some?
        ensures length.Some? && ParseUsize(LengthField(lines[i]).value) == length
      {
        assert i > 0 ==> rest[i - 1] == lines[i];
      }
    }
  }

  /** The verdict on a buffer: incomplete without a blank line; with one, invalid unless what comes before it is text
      whose lines agree on a length, none counting as 0; and then complete exactly if that many octets follow. */
  lemma FrameExactly(buf: string, end: nat, length: Option<nat>)
    ensures (forall i :: !FirstAt(buf, "\r\n\r\n", i)) ==> Frame(buf) == Incomplete
    ensures
      FirstAt(buf, "\r\n\r\n", end) && (!ValidUtf8(buf[..end]) || forall n :: !Gives(Lines(buf[..end]), None, n)) ==>
        Frame(buf) == Invalid
    ensures FirstAt(buf, "\r\n\r\n", end) && ValidUtf8(buf[..end]) && Gives(Lines(buf[..end]), None, length) ==>
      var total := end + 4 + if length.Some? then length.value else 0;
      Frame(buf) == if total >= 0x1_0000_0000_0000_0000 then Invalid
                    else if |buf| >= total then Complete(total) else Incomplete
  {
    BlankLineExactly(buf, end);
    if HeaderEnd(buf).Some? { BlankLineExactly(buf, HeaderEnd(buf).value); }
    hide FirstAt, HeaderEnd, ContentLength, Gives, Lines, ValidUtf8;
    if HeaderEnd(buf) == Some(end) {
      LengthsReadExactly(Lines(buf[..end]), None, length);
      if ContentLength(Lines(buf[..end]), None).Ok? {
        LengthsReadExactly(Lines(buf[..end]), None, ContentLength(Lines(buf[..end]), None).value);
      }
    }
  }
}
