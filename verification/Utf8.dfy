/** Well-formed UTF-8 by what it encodes: the framer's table against the encoding of section 3 of RFC 3629. */
module Utf8 {
  import opened Seqs
  import opened Framing

  /** The Unicode scalar values: no surrogates, nothing above 0x10FFFF. */
  predicate IsScalar(x: nat) { x < 0xD800 || 0xE000 <= x <= 0x10FFFF }

  function Continued(x: nat): char { (0x80 + x % 0x40) as char }

  /** The one to four octets of a scalar value, six bits to each after the first. */
  function Encoded(x: nat): string
    requires IsScalar(x)
  {
    if x < 0x80 then [x as char]
    else if x < 0x800 then [(0xC0 + x / 0x40) as char, Continued(x)]
    else if x < 0x1_0000 then [(0xE0 + x / 0x1000) as char, Continued(x / 0x40), Continued(x)]
    else [(0xF0 + x / 0x4_0000) as char, Continued(x / 0x1000), Continued(x / 0x40), Continued(x)]
  }

  /** The scalar value at the front, given how many octets it takes. */
  function Decoded(s: string, n: nat): nat
    requires 1 <= n <= 4 && n <= |s|
  {
    var a, b := s[0] as int, if n > 1 then s[1] as int % 0x40 else 0;
    var c, d := if n > 2 then s[2] as int % 0x40 else 0, if n > 3 then s[3] as int % 0x40 else 0;
    if n == 1 then a
    else if n == 2 then a % 0x20 * 0x40 + b
    else if n == 3 then a % 0x10 * 0x1000 + b * 0x40 + c
    else a % 8 * 0x4_0000 + b * 0x1000 + c * 0x40 + d
  }

  /** Every encoded scalar value is recognised, with its length. */
  lemma EncodedIsRecognised(x: nat, rest: string)
    requires IsScalar(x)
    ensures Utf8Len(Encoded(x) + rest) == |Encoded(x)|
  {
    if x < 0x80 {
      assert (Encoded(x) + rest)[0] == Encoded(x)[0];
    } else if x < 0x800 {
      EncodedInTwo(x, rest);
    } else if x < 0x1_0000 {
      EncodedInThree(x, rest);
    } else {
      EncodedInFour(x, rest);
    }
  }

  lemma EncodedInTwo(x: nat, rest: string)
    requires 0x80 <= x < 0x800
    ensures Utf8Len(Encoded(x) + rest) == 2
  {
    var s := Encoded(x) + rest;
    assert s[0] == Encoded(x)[0] && s[1] == Encoded(x)[1];
  }

  lemma EncodedInThree(x: nat, rest: string)
    requires IsScalar(x) && 0x800 <= x < 0x1_0000
    ensures Utf8Len(Encoded(x) + rest) == 3
  {
    var s := Encoded(x) + rest;
    assert s[0] == Encoded(x)[0] && s[1] == Encoded(x)[1] && s[2] == Encoded(x)[2];
    var a, b := x / 0x1000, x / 0x40 % 0x40;
    assert a < 0x10 && x / 0x40 == 0x40 * a + b && s[0] as int == 0xE0 + a && s[1] as int == 0x80 + b;
  }

  lemma EncodedInFour(x: nat, rest: string)
    requires IsScalar(x) && 0x1_0000 <= x
    ensures Utf8Len(Encoded(x) + rest) == 4
  {
    var s := Encoded(x) + rest;
    assert s[0] == Encoded(x)[0] && s[1] == Encoded(x)[1] && s[2] == Encoded(x)[2] && s[3] == Encoded(x)[3];
    var a, b := x / 0x4_0000, x / 0x1000 % 0x40;
    assert a <= 4 && x / 0x1000 == 0x40 * a + b && s[0] as int == 0xF0 + a && s[1] as int == 0x80 + b;
  }

  lemma TwoOctets(a: nat, b: nat)
    requires 0xC2 <= a <= 0xDF && 0x80 <= b <= 0xBF
    ensures var x := a % 0x20 * 0x40 + b % 0x40; 0x80 <= x < 0x800 && 0xC0 + x / 0x40 == a && 0x80 + x % 0x40 == b
  {
  }

  lemma ThreeOctets(a: nat, b: nat, c: nat)
    requires 0xE0 <= a <= 0xEF && 0x80 <= b <= 0xBF && 0x80 <= c <= 0xBF
    ensures var x := a % 0x10 * 0x1000 + b % 0x40 * 0x40 + c % 0x40;
      x < 0x1_0000 && 0xE0 + x / 0x1000 == a && 0x80 + x / 0x40 % 0x40 == b && 0x80 + x % 0x40 == c
  {
    var high := a % 0x10 * 0x40 + b % 0x40;
    assert (high * 0x40 + c % 0x40) / 0x40 == high && high / 0x40 == a % 0x10 && high % 0x40 == b % 0x40;
  }

  lemma FourOctets(a: nat, b: nat, c: nat, d: nat)
    requires 0xF0 <= a <= 0xF4 && 0x80 <= b <= 0xBF && 0x80 <= c <= 0xBF && 0x80 <= d <= 0xBF
    ensures var x := a % 8 * 0x4_0000 + b % 0x40 * 0x1000 + c % 0x40 * 0x40 + d % 0x40;
      && 0xF0 + x / 0x4_0000 == a && 0x80 + x / 0x1000 % 0x40 == b
      && 0x80 + x / 0x40 % 0x40 == c && 0x80 + x % 0x40 == d
  {
    var high := a % 8 * 0x1000 + b % 0x40 * 0x40 + c % 0x40;
    var top := a % 8 * 0x40 + b % 0x40;
    assert (high * 0x40 + d % 0x40) / 0x40 == high && (high * 0x40 + d % 0x40) % 0x40 == d % 0x40;
    assert high / 0x40 == top && high % 0x40 == c % 0x40 && top / 0x40 == a % 8 && top % 0x40 == b % 0x40;
  }

  /** And nothing else is. */
  lemma RecognisedIsEncoded(s: string)
    requires Utf8Len(s) > 0
    ensures Utf8Len(s) <= 4
    ensures var n := Utf8Len(s); IsScalar(Decoded(s, n)) && s[..n] == Encoded(Decoded(s, n))
  {
    var n := Utf8Len(s);
    if n == 1 {
      assert s[..1] == [s[0]];
    } else if n == 2 {
      TwoOctets(s[0] as int, s[1] as int);
      assert s[..2] == [s[0], s[1]];
    } else if n == 3 {
      ThreeRecognised(s);
    } else {
      FourRecognised(s);
    }
  }

  lemma ThreeRecognised(s: string)
    requires Utf8Len(s) == 3
    ensures var x := Decoded(s, 3); IsScalar(x) && s[..3] == Encoded(x)
  {
    ThreeOctets(s[0] as int, s[1] as int, s[2] as int);
    var x := Decoded(s, 3);
    assert 0x800 <= x < 0x1_0000 && !(0xD800 <= x < 0xE000);
    assert s[..3] == [s[0], s[1], s[2]];
  }

  lemma FourRecognised(s: string)
    requires Utf8Len(s) == 4
    ensures var x := Decoded(s, 4); IsScalar(x) && s[..4] == Encoded(x)
  {
    var a, b, c, d := s[0] as int, s[1] as int, s[2] as int, s[3] as int;
    assert 0xF0 <= a <= 0xF4 && 0x80 <= b <= 0xBF && 0x80 <= c <= 0xBF && 0x80 <= d <= 0xBF;
    assert (a == 0xF0 ==> b >= 0x90) && (a == 0xF4 ==> b <= 0x8F);
    hide Utf8Len, Octet, Tail;
    FourOctets(a, b, c, d);
    var x := Decoded(s, 4);
    assert 0x1_0000 <= x <= 0x10FFFF;
    assert s[..4] == [s[0], s[1], s[2], s[3]];
  }

  function EncodedAll(xs: seq<nat>): string
    requires forall x :: x in xs ==> IsScalar(x)
  {
    if xs == [] then "" else Encoded(xs[0]) + EncodedAll(xs[1..])
  }

  predicate Encodes(xs: seq<nat>, s: string) { (forall x :: x in xs ==> IsScalar(x)) && s == EncodedAll(xs) }

  lemma {:induction false} ValidIsEncoded(s: string) returns (xs: seq<nat>)
    requires ValidUtf8(s)
    ensures Encodes(xs, s)
    decreases |s|
  {
    xs := [];
    if s != "" {
      var n := Utf8Len(s);
      RecognisedIsEncoded(s);
      var later := ValidIsEncoded(s[n..]);
      xs := [Decoded(s, n)] + later;
      assert xs[1..] == later && s == s[..n] + s[n..];
      hide Utf8Len, Decoded, Encoded, IsScalar;
    }
  }

  lemma {:induction false} EncodedIsValid(xs: seq<nat>)
    requires forall x :: x in xs ==> IsScalar(x)
    ensures ValidUtf8(EncodedAll(xs))
  {
    if xs != [] {
      var first, rest := Encoded(xs[0]), EncodedAll(xs[1..]);
      EncodedIsRecognised(xs[0], rest);
      SplitConcat(first, rest);
      EncodedIsValid(xs[1..]);
    }
  }

  /** A string of octets passes as UTF-8 if and only if it encodes some scalar values. */
  lemma ValidExactly(s: string)
    ensures ValidUtf8(s) <==> exists xs :: Encodes(xs, s)
  {
    if ValidUtf8(s) {
      var xs := ValidIsEncoded(s);
      assert Encodes(xs, s);
    }
    if xs :| Encodes(xs, s) {
      EncodedIsValid(xs);
    }
  }
}
