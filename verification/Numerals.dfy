/** Numerals as printf writes them: itoa with its reversal in place, and the conversions built on it. */
module Numerals {
  import opened Arithmetic

  const LOOKUP := "0123456789ABCDEFGHIJKLMNOPQRSTUVWXYZ"
  const NUL := '\0'
  const WORD := 0x1_0000_0000

  predicate IsRadix(radix: int) {
    2 <= radix <= 36
  }

  /** A digit as a reader sees it. */
  function Digit(c: char): nat {
    if '0' <= c <= '9' then c as int - '0' as int else if 'A' <= c <= 'Z' then c as int - 'A' as int + 10 else 36
  }

  function Glyph(d: nat): (c: char)
    requires d < 36
    ensures Digit(c) == d && c != NUL && (c == '0' <==> d == 0)
  {
    if d < 10 then '0' + d as char else 'A' + (d - 10) as char
  }

  lemma GlyphOfDigit(c: char)
    requires Digit(c) < 36
    ensures Glyph(Digit(c)) == c
  {
  }

  /** The digits in order: 0 to 9 and then upper-case letters, each with its place as its value. */
  lemma LookupGlyph(d: nat)
    requires d < 36
    ensures |LOOKUP| == 36 && LOOKUP[d] == Glyph(d)
    ensures var c := "0123456789ABCDEFGHIJKLMNOPQRSTUVWXYZ"[d]; Glyph(d) == c && Digit(c) == d
  {
    if d < 10 {
      assert d == 0 || d == 1 || d == 2 || d == 3 || d == 4 || d == 5 || d == 6 || d == 7 || d == 8 || d == 9;
    } else if d < 19 {
      assert d == 10 || d == 11 || d == 12 || d == 13 || d == 14 || d == 15 || d == 16 || d == 17 || d == 18;
    } else if d < 28 {
      assert d == 19 || d == 20 || d == 21 || d == 22 || d == 23 || d == 24 || d == 25 || d == 26 || d == 27;
    } else {
      assert d == 28 || d == 29 || d == 30 || d == 31 || d == 32 || d == 33 || d == 34 || d == 35;
    }
  }

  predicate Digits(s: string, radix: nat) {
    forall i :: 0 <= i < |s| ==> Digit(s[i]) < radix
  }

  /** The value of a string of digits. */
  function Value(s: string, radix: nat): nat {
    if s == "" then 0 else Value(s[..|s| - 1], radix) * radix + Digit(s[|s| - 1])
  }

  /** A numeral: some digits, the first of them not 0 unless it is the only one. */
  predicate IsNumeral(s: string, radix: nat) {
    s != "" && Digits(s, radix) && (|s| > 1 ==> s[0] != '0')
  }

  /** v div radix and v mod radix by repeated subtraction (DivisionBySubtraction). */
  function Rest(v: nat, radix: nat): (q: nat)
    requires IsRadix(radix)
    ensures (q == 0 <==> v < radix) && (v > 0 ==> q < v)
  {
    if v < radix then 0 else 1 + Rest(v - radix, radix)
  }

  function Last(v: nat, radix: nat): (d: nat)
    requires IsRadix(radix)
    ensures d < radix
  {
    if v < radix then v else Last(v - radix, radix)
  }

  function Numeral(v: nat, radix: nat): (s: string)
    requires IsRadix(radix)
    decreases v
  {
    if v < radix then [Glyph(v)] else Numeral(Rest(v, radix), radix) + [Glyph(Last(v, radix))]
  }

  lemma {:induction false} NumeralIsNumeral(v: nat, radix: nat)
    requires IsRadix(radix)
    ensures IsNumeral(Numeral(v, radix), radix) && (v > 0 ==> Numeral(v, radix)[0] != '0')
    decreases v
  {
    if v >= radix {
      NumeralIsNumeral(Rest(v, radix), radix);
      NumeralExtends(Numeral(Rest(v, radix), radix), Glyph(Last(v, radix)), radix);
    }
  }

  lemma NumeralExtends(s: string, c: char, radix: nat)
    requires IsNumeral(s, radix) && s[0] != '0' && Digit(c) < radix
    ensures IsNumeral(s + [c], radix) && (s + [c])[0] != '0'
  {
  }

  lemma {:induction false} Splits(v: nat, radix: nat)
    requires IsRadix(radix)
    ensures v == Rest(v, radix) * radix + Last(v, radix)
  {
    if v >= radix {
      Splits(v - radix, radix);
      MulDistributes(1, Rest(v - radix, radix), radix);
    }
  }

  lemma DivisionBySubtraction(v: nat, radix: nat)
    requires IsRadix(radix)
    ensures Rest(v, radix) == v / radix && Last(v, radix) == v % radix
  {
    Splits(v, radix);
    var q, d := DivMod(v, radix);
    OneQuotient(q, d, Rest(v, radix), Last(v, radix), radix);
  }

  lemma {:induction false} NumeralValue(v: nat, radix: nat)
    requires IsRadix(radix)
    ensures Value(Numeral(v, radix), radix) == v
    decreases v
  {
    if v < radix {
      ValueExtends("", Glyph(v), radix);
    } else {
      NumeralValue(Rest(v, radix), radix);
      ValueExtends(Numeral(Rest(v, radix), radix), Glyph(Last(v, radix)), radix);
      Splits(v, radix);
    }
  }

  lemma ValueExtends(s: string, c: char, radix: nat)
    ensures Value(s + [c], radix) == Value(s, radix) * radix + Digit(c)
  {
    assert (s + [c])[..|s|] == s;
  }

  lemma Quotient(q: nat, d: nat, radix: nat)
    requires IsRadix(radix) && d < radix && q * radix + d >= 0
    ensures Rest(q * radix + d, radix) == q && Last(q * radix + d, radix) == d
  {
    var v: nat := q * radix + d;
    Splits(v, radix);
    OneQuotient(Rest(v, radix), Last(v, radix), q, d, radix);
  }

  lemma {:induction false} FirstDigitCounts(s: string, radix: nat)
    requires IsRadix(radix) && Digits(s, radix) && s != "" && s[0] != '0'
    ensures Value(s, radix) > 0
    decreases |s|
  {
    var init, c := s[..|s| - 1], s[|s| - 1];
    GlyphOfDigit(s[0]);
    if |s| > 1 {
      FirstDigitCounts(init, radix);
      MulMonotone(1, Value(init, radix), radix);
    }
  }

  lemma NumeralSplit(q: nat, d: nat, radix: nat, v: nat)
    requires IsRadix(radix) && d < radix && q > 0 && v == q * radix + d
    ensures Numeral(v, radix) == Numeral(q, radix) + [Glyph(d)]
  {
    Quotient(q, d, radix);
    MulMonotone(1, q, radix);
  }

  lemma UniqueOne(c: char, radix: nat)
    requires IsRadix(radix) && Digit(c) < radix
    ensures Numeral(Value([c], radix), radix) == [c]
  {
    GlyphOfDigit(c);
    OneDigit(c, radix);
  }

  lemma OneDigit(c: char, radix: nat)
    ensures Value([c], radix) == Digit(c)
  {
    assert [c][..0] == "";
    assert Value("", radix) == 0;
  }

  lemma UniqueMore(init: string, c: char, radix: nat)
    requires IsRadix(radix) && Digit(c) < radix
    requires Value(init, radix) > 0 && Numeral(Value(init, radix), radix) == init
    ensures Numeral(Value(init + [c], radix), radix) == init + [c]
  {
    GlyphOfDigit(c);
    ValueExtends(init, c, radix);
    NumeralSplit(Value(init, radix), Digit(c), radix, Value(init + [c], radix));
  }

  /** Every numeral is the one its value has. */
  lemma {:induction false} NumeralUnique(s: string, radix: nat)
    requires IsRadix(radix) && IsNumeral(s, radix)
    ensures Numeral(Value(s, radix), radix) == s
    decreases |s|
  {
    var init, c := s[..|s| - 1], s[|s| - 1];
    if |s| == 1 {
      assert s == [c];
      UniqueOne(c, radix);
    } else {
      assert init + [c] == s;
      FirstDigitCounts(init, radix);
      NumeralUnique(init, radix);
      UniqueMore(init, c, radix);
    }
  }

  /** n digits are enough for what is less than radix^n. */
  lemma {:induction false} NumeralLength(v: nat, radix: nat, n: nat)
    requires IsRadix(radix) && n >= 1 && v < Power(radix, n)
    ensures |Numeral(v, radix)| <= n
    decreases n
  {
    if v >= radix {
      var p := Power(radix, n - 1);
      assert n > 1 && Power(radix, n) == p * radix;
      Splits(v, radix);
      Shorter(Rest(v, radix), Last(v, radix), radix, p, v);
      NumeralLength(Rest(v, radix), radix, n - 1);
    }
  }

  lemma Shorter(q: nat, d: nat, radix: nat, p: nat, v: nat)
    requires v == q * radix + d && v < p * radix
    ensures q < p
  {
    if q >= p {
      MulMonotone(p, q, radix);
    }
  }

  /** A 32-bit number has at most 32 digits, 10 in decimal and 8 in hexadecimal. */
  lemma WordLengths(v: nat, radix: nat)
    requires IsRadix(radix) && v < WORD
    ensures |Numeral(v, radix)| <= 32
    ensures radix == 10 ==> |Numeral(v, radix)| <= 10
    ensures radix == 16 ==> |Numeral(v, radix)| <= 8
  {
    WordIsPower();
    PowerMonotone(2, radix, 32);
    NumeralLength(v, radix, 32);
    if radix == 10 {
      assert WORD < 10000000000;
      NumeralLength(v, 10, 10);
    } else if radix == 16 {
      NumeralLength(v, 16, 8);
    }
  }

  lemma WordIsPower()
    ensures Power(2, 32) == WORD && Power(16, 8) == WORD && Power(10, 10) == 10000000000
  {
    PowerAdd(2, 4, 4);
    PowerAdd(2, 8, 8);
    PowerAdd(2, 16, 16);
    PowerAdd(16, 4, 4);
    PowerAdd(10, 5, 5);
    assert Power(2, 4) == 16 && Power(16, 4) == 65536 && Power(10, 5) == 100000;
  }

  // ---------------------------------------------------------------------------------------------
  // Strings in buffers
  // ---------------------------------------------------------------------------------------------

  /** A string of n characters, none of them NUL, with a NUL after it. */
  predicate StringAt(chars: string, at: nat, n: nat) {
    at + n < |chars| && chars[at + n] == NUL && forall i :: at <= i < at + n ==> chars[i] != NUL
  }

  function Reversed(s: string): (r: string)
    ensures |r| == |s| && forall i {:trigger r[i]} :: 0 <= i < |s| ==> r[i] == s[|s| - 1 - i]
  {
    seq(|s|, i requires 0 <= i < |s| => s[|s| - 1 - i])
  }

  /** The digits as the loop of itoa finds them, lowest place first. */
  function LowFirst(v: nat, radix: nat): string
    requires IsRadix(radix)
    decreases v
  {
    if v == 0 then "" else [Glyph(Last(v, radix))] + LowFirst(Rest(v, radix), radix)
  }

  lemma {:induction false} LowFirstReversed(v: nat, radix: nat)
    requires IsRadix(radix) && v > 0
    ensures Reversed(LowFirst(v, radix)) == Numeral(v, radix)
    decreases v
  {
    if v < radix {
      assert LowFirst(0, radix) == "";
    } else {
      LowFirstReversed(Rest(v, radix), radix);
    }
    ReversedPrepends(Glyph(Last(v, radix)), LowFirst(Rest(v, radix), radix));
  }

  lemma ReversedPrepends(c: char, s: string)
    ensures Reversed([c] + s) == Reversed(s) + [c]
  {
  }

  method StrLen(s: array<char>, at: nat, ghost n: nat) returns (len: nat)
    requires StringAt(s[..], at, n)
    ensures len == n
  {
    len := 0;
    while s[at + len] != NUL
      invariant len <= n
      decreases n - len
    {
      len := len + 1;
    }
  }

  /** strrev: the string reversed in place. */
  method StrRev(s: array<char>, at: nat, ghost n: nat)
    requires StringAt(s[..], at, n)
    modifies s
    ensures s[..] == old(s[..at]) + Reversed(old(s[at..at + n])) + old(s[at + n..])
  {
    var beg := 0;
    var len: int := StrLen(s, at, n);
    var end := len - 1;
    ghost var was := s[..];
    while beg < end
      invariant 0 <= beg <= end + 2 && end == n - 1 - beg
      invariant Swapping(s[..], was, at, n, beg)
    {
      var tmp := s[at + end];
      s[at + end] := s[at + beg];
      s[at + beg] := tmp;
      beg := beg + 1;
      end := end - 1;
    }
    SwappedIsReversed(s[..], was, at, n, beg);
  }

  /** The first and the last k characters of the string have changed places. */
  predicate Swapping(s: string, was: string, at: nat, n: nat, k: int) {
    && |s| == |was| && at + n <= |s|
    && forall i {:trigger s[i]} :: 0 <= i < |s| ==>
         s[i] == if at <= i < at + n && (i < at + k || at + n - 1 - k < i) then was[at + at + n - 1 - i] else was[i]
  }

  lemma SwappedIsReversed(s: string, was: string, at: nat, n: nat, k: int)
    requires Swapping(s, was, at, n, k) && 2 * k + 1 >= n
    ensures s == was[..at] + Reversed(was[at..at + n]) + was[at + n..]
  {
    var mid := was[at..at + n];
    var r := was[..at] + Reversed(mid) + was[at + n..];
    forall i | 0 <= i < |s|
      ensures s[i] == r[i]
    {
      if i < at {
        assert r[i] == was[i];
      } else if i < at + n {
        if at + k <= i <= at + n - 1 - k {
          assert i == at + at + n - 1 - i;
        }
        assert r[i] == Reversed(mid)[i - at] == mid[n - 1 - (i - at)] == was[at + at + n - 1 - i];
      } else {
        assert r[i] == was[at + n..][i - (at + n)] == was[i];
      }
    }
  }

  lemma TailStep(low: string, n: nat, c: char, rest: string)
    requires n <= |low| && low[n..] == [c] + rest
    ensures n < |low| && low[n] == c && low[n + 1..] == rest
  {
    assert low[n..][0] == c && low[n..][1..] == rest && |low[n..]| > 0;
  }

  method LookUp(i: nat) returns (c: char)
    requires i < 36
    ensures c == Glyph(i)
  {
    LookupGlyph(i);
    c := LOOKUP[i];
  }

  /** One turn of itoa's digit loop: the next digit, and what is left of the number. */
  method NextDigit(newval: nat, radix: nat, ghost low: string, ghost n: nat) returns (c: char, rest: nat)
    requires IsRadix(radix) && newval > 0 && n <= |low| && LowFirst(newval, radix) == low[n..]
    ensures n < |low| && c == low[n] && rest < newval && LowFirst(rest, radix) == low[n + 1..]
  {
    DivisionBySubtraction(newval, radix);
    TailStep(low, n, Glyph(newval % radix), LowFirst(newval / radix, radix));
    c := LookUp(newval % radix);
    rest := newval / radix;
  }

  /** The text from place `at` on is s, and the rest is as it was. */
  predicate Placed(after: string, before: string, at: nat, s: string) {
    at + |s| <= |before| && after == before[..at] + s + before[at + |s|..]
  }

  lemma PlacedNext(after: string, before: string, at: nat, low: string, n: nat)
    requires n < |low| && at + |low| <= |before| && Placed(after, before, at, low[..n])
    ensures Placed(after[at + n := low[n]], before, at, low[..n + 1])
  {
    assert low[..n + 1] == low[..n] + [low[n]];
  }

  /** The digit loop of itoa. */
  method PutDigits(value: nat, buf: array<char>, at: nat, radix: nat) returns (n: nat)
    requires IsRadix(radix) && at + |LowFirst(value, radix)| <= buf.Length
    modifies buf
    ensures n == |LowFirst(value, radix)| && Placed(buf[..], old(buf[..]), at, LowFirst(value, radix))
  {
    ghost var low, was := LowFirst(value, radix), buf[..];
    var newval: nat := value;
    n := 0;
    while newval > 0
      invariant n <= |low| && LowFirst(newval, radix) == low[n..]
      invariant Placed(buf[..], was, at, low[..n])
      decreases newval
    {
      var c;
      c, newval := NextDigit(newval, radix, low, n);
      PlacedNext(buf[..], was, at, low, n);
      buf[at + n] := c;
      n := n + 1;
    }
  }

  /** The text from place `at` on is s and a NUL, and the rest is as it was. */
  predicate Written(after: string, before: string, at: nat, s: string) {
    at + |s| < |before| && after == before[..at] + s + [NUL] + before[at + |s| + 1..]
  }

  /** itoa: the numeral and a NUL at the place given, and nothing else changed. */
  method Itoa(value: nat, buf: array<char>, at: nat, radix: nat)
    requires IsRadix(radix) && at + |Numeral(value, radix)| < buf.Length
    modifies buf
    ensures Written(buf[..], old(buf[..]), at, Numeral(value, radix))
  {
    if value == 0 {
      buf[at] := '0';
      buf[at + 1] := NUL;
    } else {
      LowFirstReversed(value, radix);
      LowFirstNoNul(value, radix);
      PutReversed(value, buf, at, radix);
    }
  }

  /** The digit loop, the NUL and the reversal of itoa. */
  method PutReversed(value: nat, buf: array<char>, at: nat, radix: nat)
    requires IsRadix(radix) && at + |LowFirst(value, radix)| < buf.Length
    requires forall i :: 0 <= i < |LowFirst(value, radix)| ==> LowFirst(value, radix)[i] != NUL
    modifies buf
    ensures Written(buf[..], old(buf[..]), at, Reversed(LowFirst(value, radix)))
  {
    ghost var low, was := LowFirst(value, radix), buf[..];
    var n := PutDigits(value, buf, at, radix);
    buf[at + n] := NUL;
    ghost var mid := buf[..];
    EndsWithNul(mid, was, at, low);
    StrRev(buf, at, n);
    ReversalWrites(was, mid, buf[..], at, low);
  }

  lemma EndsWithNul(mid: string, was: string, at: nat, low: string)
    requires at + |low| < |was| == |mid| && mid == (was[..at] + low + was[at + |low|..])[at + |low| := NUL]
    requires forall i :: 0 <= i < |low| ==> low[i] != NUL
    ensures mid == was[..at] + low + [NUL] + was[at + |low| + 1..] && StringAt(mid, at, |low|)
  {
    forall i | at <= i < at + |low|
      ensures mid[i] != NUL
    {
      assert mid[i] == low[i - at];
    }
  }

  lemma ReversalWrites(was: string, mid: string, after: string, at: nat, low: string)
    requires at + |low| < |was| && mid == was[..at] + low + [NUL] + was[at + |low| + 1..]
    requires after == mid[..at] + Reversed(mid[at..at + |low|]) + mid[at + |low|..]
    ensures Written(after, was, at, Reversed(low))
  {
    var rest := was[at + |low| + 1..];
    assert mid[..at] == was[..at] && mid[at..at + |low|] == low && mid[at + |low|..] == [NUL] + rest;
    assert after == was[..at] + Reversed(low) + ([NUL] + rest);
    assert was[..at] + Reversed(low) + ([NUL] + rest) == was[..at] + Reversed(low) + [NUL] + rest;
  }

  lemma {:induction false} LowFirstNoNul(v: nat, radix: nat)
    requires IsRadix(radix)
    ensures forall i :: 0 <= i < |LowFirst(v, radix)| ==> LowFirst(v, radix)[i] != NUL
    decreases v
  {
    if v > 0 {
      LowFirstNoNul(Rest(v, radix), radix);
    }
  }

  // ---------------------------------------------------------------------------------------------
  // printf's conversions
  // ---------------------------------------------------------------------------------------------

  /** puts: the characters from `at` up to the NUL. */
  method Puts(s: array<char>, at: nat, ghost n: nat) returns (out: string)
    requires StringAt(s[..], at, n)
    ensures out == s[at..at + n]
  {
    out := "";
    var index := 0;
    while s[at + index] != NUL
      invariant 0 <= index <= n && out == s[at..at + index]
      decreases n - index
    {
      out := out + [s[at + index]];
      index := index + 1;
    }
  }

  function Zeros(n: nat): (s: string)
    ensures |s| == n && forall i :: 0 <= i < n ==> s[i] == '0'
  {
    if n == 0 then "" else Zeros(n - 1) + ['0']
  }

  lemma ZeroMore(s: string, radix: nat)
    requires IsRadix(radix) && Digits(s, radix) && Value(s, radix) == 0
    ensures Digits(s + ['0'], radix) && Value(s + ['0'], radix) == 0
  {
    ValueExtends(s, '0', radix);
  }

  lemma {:induction false} ZerosValue(n: nat, radix: nat)
    requires IsRadix(radix)
    ensures Digits(Zeros(n), radix) && Value(Zeros(n), radix) == 0
  {
    if n > 0 {
      ZerosValue(n - 1, radix);
      ZeroMore(Zeros(n - 1), radix);
    }
  }

  lemma {:induction false} LeadingZeros(n: nat, s: string, radix: nat)
    requires IsRadix(radix) && Digits(s, radix)
    ensures Digits(Zeros(n) + s, radix) && Value(Zeros(n) + s, radix) == Value(s, radix)
    decreases |s|
  {
    ZerosValue(n, radix);
    if s == "" {
      assert Zeros(n) + s == Zeros(n);
    } else {
      var init, c := s[..|s| - 1], s[|s| - 1];
      LeadingZeros(n, init, radix);
      assert init + [c] == s && Zeros(n) + s == (Zeros(n) + init) + [c];
      ValueExtends(Zeros(n) + init, c, radix);
    }
  }

  /** The %#x conversion: always 8 hexadecimal digits with the value. */
  method PrintHex(value: nat) returns (out: string)
    requires value < WORD
    ensures |out| == 8 && Digits(out, 16) && Value(out, 16) == value
    ensures |Numeral(value, 16)| <= 8 && out == Zeros(8 - |Numeral(value, 16)|) + Numeral(value, 16)
  {
    var convBuf := new char[64];
    HexDigits(value);
    Itoa(value, convBuf, 8, 16);
    ghost var s := Numeral(value, 16);
    assert convBuf[8..9 + |s|] == s + [NUL];
    out := PrintPadded(convBuf, s);
  }

  lemma HexDigits(value: nat)
    requires value < WORD
    ensures var s := Numeral(value, 16);
      && |s| <= 8 && (forall i :: 0 <= i < |s| ==> s[i] != NUL)
      && Digits(Zeros(8 - |s|) + s, 16) && Value(Zeros(8 - |s|) + s, 16) == value
  {
    var s := Numeral(value, 16);
    WordLengths(value, 16);
    NumeralIsNumeral(value, 16);
    NumeralValue(value, 16);
    LeadingZeros(8 - |s|, s, 16);
    NoNul(s, 16);
  }

  /** The rest of %#x, with the numeral s at &conv_buf[8]. */
  method PrintPadded(convBuf: array<char>, ghost s: string) returns (out: string)
    requires convBuf.Length == 64 && |s| <= 8 && convBuf[8..9 + |s|] == s + [NUL]
    requires forall i :: 0 <= i < |s| ==> s[i] != NUL
    modifies convBuf
    ensures out == Zeros(8 - |s|) + s
  {
    ghost var was := convBuf[..];
    assert was[8..][..|s| + 1] == s + [NUL];
    TextAt(was, 8, s);
    var startingIndex := StrLen(convBuf, 8, |s|);
    FillZeros(convBuf, startingIndex);
    assert convBuf[8..] == was[8..];
    assert convBuf[8..9 + |s|] == s + [NUL];
    PaddedLayout(convBuf[..], Zeros(8 - |s|), s);
    out := Puts(convBuf, startingIndex, 8);
  }

  lemma TextAt(chars: string, at: nat, s: string)
    requires at + |s| < |chars| && chars[at..][..|s| + 1] == s + [NUL]
    requires forall i :: 0 <= i < |s| ==> s[i] != NUL
    ensures StringAt(chars, at, |s|) && chars[at..at + |s|] == s
  {
    var part := chars[at..][..|s| + 1];
    assert part[|s|] == NUL && part[..|s|] == s;
    forall i | at <= i < at + |s|
      ensures chars[i] != NUL
    {
      assert chars[i] == part[i - at] == s[i - at];
    }
  }

  lemma NoNul(s: string, radix: nat)
    requires IsRadix(radix) && Digits(s, radix)
    ensures forall i :: 0 <= i < |s| ==> s[i] != NUL
  {
    forall i | 0 <= i < |s|
      ensures s[i] != NUL
    {
      assert Digit(s[i]) < radix;
    }
  }

  /** The padding loop of %#x. */
  method FillZeros(convBuf: array<char>, start: nat)
    requires start <= 8 <= convBuf.Length
    modifies convBuf
    ensures convBuf[..] == old(convBuf[..start]) + Zeros(8 - start) + old(convBuf[8..])
  {
    var i := start;
    while i < 8
      invariant start <= i <= 8
      invariant forall j :: 0 <= j < convBuf.Length ==> convBuf[j] == if start <= j < i then '0' else old(convBuf[j])
    {
      convBuf[i] := '0';
      i := i + 1;
    }
  }

  lemma PaddedLayout(chars: string, z: string, s: string)
    requires |z| + |s| == 8 && |chars| == 64 && chars[|s|..8] == z && chars[8..9 + |s|] == s + [NUL]
    requires (forall i :: 0 <= i < |z| ==> z[i] != NUL) && forall i :: 0 <= i < |s| ==> s[i] != NUL
    ensures StringAt(chars, |s|, 8) && chars[|s|..|s| + 8] == z + s
  {
    var n := |s|;
    var body := chars[n..9 + n];
    assert body == z + (s + [NUL]);
    assert z + (s + [NUL]) == (z + s) + [NUL];
    assert chars[n + 8] == body[8] == NUL && chars[n..n + 8] == body[..8] == z + s;
    forall i | n <= i < n + 8
      ensures chars[i] != NUL
    {
      assert chars[i] == (z + s)[i - n];
    }
  }

  /** The %d conversion of a 32-bit value. */
  method PrintSigned(value: int) returns (out: string)
    requires -WORD / 2 <= value < WORD / 2
    ensures out == if value < 0 then "-" + Numeral(-value, 10) else Numeral(value, 10)
  {
    var convBuf := new char[36];
    ghost var s := Numeral(if value < 0 then -value else value, 10);
    DecimalDigits(if value < 0 then -value else value);
    if value < 0 {
      convBuf[0] := '-';
      ghost var was := convBuf[..];
      Itoa(-value, convBuf, 1, 10);
      SignedText(convBuf[..], was, s);
      SignedNoNul(s);
      TextAt(convBuf[..], 0, "-" + s);
      out := Puts(convBuf, 0, 1 + |s|);
    } else {
      Itoa(value, convBuf, 0, 10);
      assert convBuf[0..][..|s| + 1] == s + [NUL];
      TextAt(convBuf[..], 0, s);
      out := Puts(convBuf, 0, |s|);
    }
  }

  lemma SignedNoNul(s: string)
    requires forall i :: 0 <= i < |s| ==> s[i] != NUL
    ensures forall i :: 0 <= i < |"-" + s| ==> ("-" + s)[i] != NUL
  {
  }

  lemma SignedText(after: string, before: string, s: string)
    requires Written(after, before, 1, s) && before[0] == '-'
    ensures |"-" + s| == |s| + 1 < |after| && after[0..][..|s| + 2] == "-" + s + [NUL]
  {
    assert before[..1] == "-";
  }

  lemma DecimalDigits(value: nat)
    requires value < WORD
    ensures |Numeral(value, 10)| <= 10
    ensures forall i :: 0 <= i < |Numeral(value, 10)| ==> Numeral(value, 10)[i] != NUL
  {
    WordLengths(value, 10);
    NumeralIsNumeral(value, 10);
    NoNul(Numeral(value, 10), 10);
  }
}
