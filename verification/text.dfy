/** String operations the client and server rely on: whitespace trimming
    (C# `String.Trim`, Python `str.strip`), C# `String.Split(char)`, and decimal
    formatting and parsing of integers (C# `int.ToString`, Python `str`, `int`
    and the `0Nd` format specifier). */
module Text {
  import opened Base

  /** `Char.IsWhiteSpace` of .NET: the characters `String.Trim()` removes. */
  predicate IsDotNetSpace(c: char) {
    var n := c as int;
    (0x09 <= n <= 0x0D) || n == 0x20 || n == 0x85 || n == 0xA0 || n == 0x1680
    || (0x2000 <= n <= 0x200A) || n == 0x2028 || n == 0x2029 || n == 0x202F
    || n == 0x205F || n == 0x3000
  }

  /** Python's `str.isspace`: the characters `str.strip()` removes. Unlike .NET
      it also counts the separators U+001C..U+001F. */
  predicate IsPythonSpace(c: char) {
    var n := c as int;
    (0x09 <= n <= 0x0D) || (0x1C <= n <= 0x20) || n == 0x85 || n == 0xA0 || n == 0x1680
    || (0x2000 <= n <= 0x200A) || n == 0x2028 || n == 0x2029 || n == 0x202F
    || n == 0x205F || n == 0x3000
  }

  /** Neither end of `s` is a character that `p` classifies as padding. */
  predicate Unpadded(s: string, p: char -> bool) {
    s == [] || (!p(s[0]) && !p(s[|s| - 1]))
  }

  /** Length of the longest prefix of `s` made of `p`-characters. */
  function LeadingCount(s: string, p: char -> bool): (n: nat)
    ensures n <= |s|
    ensures All(s[..n], p)
    ensures n < |s| ==> !p(s[n])
  {
    if s == [] || !p(s[0]) then 0
    else
      var m := LeadingCount(s[1..], p);
      assert s[..m + 1] == [s[0]] + s[1..][..m];
      m + 1
  }

  /** Length of the longest suffix of `s` made of `p`-characters. */
  function TrailingCount(s: string, p: char -> bool): (n: nat)
    ensures n <= |s|
    ensures All(s[|s| - n..], p)
    ensures n < |s| ==> !p(s[|s| - n - 1])
  {
    if s == [] || !p(s[|s| - 1]) then 0
    else
      var init := s[..|s| - 1];
      var m := TrailingCount(init, p);
      assert s[|s| - (m + 1)..] == init[|init| - m..] + [s[|s| - 1]];
      m + 1
  }

  /** Removes the longest leading and trailing runs of `p`-characters:
      C# `String.Trim()` with `IsDotNetSpace`, Python `str.strip()` with `IsPythonSpace`.
      The result is the unpadded middle of `s`, and only padding was removed. */
  function TrimWith(s: string, p: char -> bool): (r: string)
    ensures Unpadded(r, p)
    ensures LeadingCount(s, p) + |r| <= |s|
    ensures r == s[LeadingCount(s, p)..LeadingCount(s, p) + |r|]
    ensures All(s[LeadingCount(s, p) + |r|..], p)
  {
    var lead := LeadingCount(s, p);
    var rest := s[lead..];
    var trail := TrailingCount(rest, p);
    var r := rest[..|rest| - trail];
    assert r == s[lead..lead + |r|];
    assert r != [] ==> r[0] == s[lead] && r[|r| - 1] == rest[|rest| - trail - 1];
    assert s[lead + |r|..] == rest[|rest| - trail..];
    r
  }

  lemma {:induction false} LeadingCountOfPadded(a: string, r: string, p: char -> bool)
    requires All(a, p)
    requires r == [] || !p(r[0])
    ensures LeadingCount(a + r, p) == |a|
  {
    if a == [] {
      assert a + r == r;
    } else {
      assert (a + r)[1..] == a[1..] + r;
      LeadingCountOfPadded(a[1..], r, p);
    }
  }

  lemma {:induction false} TrailingCountOfPadded(r: string, b: string, p: char -> bool)
    requires All(b, p)
    requires r == [] || !p(r[|r| - 1])
    ensures TrailingCount(r + b, p) == |b|
  {
    if b == [] {
      assert r + b == r;
    } else {
      assert (r + b)[..|r + b| - 1] == r + b[..|b| - 1];
      TrailingCountOfPadded(r, b[..|b| - 1], p);
    }
  }

  /** Trimming removes exactly the padding added around an unpadded string. */
  lemma TrimOfPadded(a: string, r: string, b: string, p: char -> bool)
    requires All(a, p) && All(b, p)
    requires Unpadded(r, p)
    ensures TrimWith(a + r + b, p) == r
  {
    var s := a + r + b;
    if r == [] {
      assert s == (a + b) + [];
      assert All(a + b, p) by {
        forall i | 0 <= i < |a + b| ensures p((a + b)[i]) {
          if i < |a| { assert (a + b)[i] == a[i]; } else { assert (a + b)[i] == b[i - |a|]; }
        }
      }
      LeadingCountOfPadded(a + b, [], p);
    } else {
      assert s == a + (r + b);
      LeadingCountOfPadded(a, r + b, p);
      assert s[|a|..] == r + b;
      TrailingCountOfPadded(r, b, p);
      assert (r + b)[..|r + b| - |b|] == r;
    }
  }

  /** An unpadded string is its own trim. */
  lemma TrimOfUnpadded(r: string, p: char -> bool)
    requires Unpadded(r, p)
    ensures TrimWith(r, p) == r
  {
    assert r == [] + r + [];
    TrimOfPadded([], r, [], p);
  }

  /** Trimming only removes characters, so one absent before is absent after. */
  lemma TrimKeepsAbsent(s: string, p: char -> bool, c: char)
    requires c !in s
    ensures c !in TrimWith(s, p)
  {
    var r := TrimWith(s, p);
    var lead := LeadingCount(s, p);
    forall i | 0 <= i < |r| ensures r[i] != c {
      assert r[i] == s[lead + i];
    }
  }

  // ---------------------------------------------------------------------
  // C# String.Split(char)
  // ---------------------------------------------------------------------

  /** Re-inserts `sep` between consecutive parts. */
  function Join(parts: seq<string>, sep: char): string
    requires |parts| >= 1
  {
    if |parts| == 1 then parts[0] else parts[0] + [sep] + Join(parts[1..], sep)
  }

  /** C# `s.Split(sep)`: the pieces between successive occurrences of `sep`,
      cut at EVERY occurrence; empty pieces are kept. */
  function Split(s: string, sep: char): (parts: seq<string>)
    ensures |parts| >= 1
    ensures forall i :: 0 <= i < |parts| ==> sep !in parts[i]
    ensures Join(parts, sep) == s
    decreases |s|
  {
    if s == [] then [[]]
    else
      var rest := Split(s[1..], sep);
      if s[0] == sep then
        assert [sep] + s[1..] == s;
        [[]] + rest
      else
        var first := [s[0]] + rest[0];
        assert sep !in first;
        if |rest| == 1 then
          assert first == s;
          [first]
        else
          assert Join([first] + rest[1..], sep) == first + [sep] + Join(rest[1..], sep) by {
            assert ([first] + rest[1..])[1..] == rest[1..];
          }
          [first] + rest[1..]
  }

  lemma {:induction false} SplitWithoutSeparator(a: string, sep: char)
    requires sep !in a
    ensures Split(a, sep) == [a]
  {
    if a != [] {
      SplitWithoutSeparator(a[1..], sep);
      assert [a[0]] + a[1..] == a;
    }
  }

  lemma {:induction false} SplitAtFirstSeparator(a: string, b: string, sep: char)
    requires sep !in a
    ensures Split(a + [sep] + b, sep) == [a] + Split(b, sep)
  {
    var s := a + [sep] + b;
    if a == [] {
      assert s[1..] == b;
    } else {
      assert s[1..] == a[1..] + [sep] + b;
      SplitAtFirstSeparator(a[1..], b, sep);
      assert [a[0]] + a[1..] == a;
    }
  }

  /** Split inverts Join when no part contains the separator. */
  lemma {:induction false} SplitJoin(parts: seq<string>, sep: char)
    requires |parts| >= 1
    requires forall i :: 0 <= i < |parts| ==> sep !in parts[i]
    ensures Split(Join(parts, sep), sep) == parts
  {
    if |parts| == 1 {
      SplitWithoutSeparator(parts[0], sep);
    } else {
      SplitJoin(parts[1..], sep);
      SplitAtFirstSeparator(parts[0], Join(parts[1..], sep), sep);
      assert [parts[0]] + parts[1..] == parts;
    }
  }

  /** The text before the first `c`; all of `s` when `c` does not occur. */
  function Before(s: string, c: char): (r: string)
    ensures c !in r
    ensures |r| <= |s| && r == s[..|r|]
  {
    if s == [] || s[0] == c then [] else [s[0]] + Before(s[1..], c)
  }

  /** The text after the first `c`; empty when `c` does not occur. */
  function After(s: string, c: char): string {
    if s == [] then [] else if s[0] == c then s[1..] else After(s[1..], c)
  }

  lemma {:induction false} BeforeAfter(s: string, c: char)
    ensures c in s ==> s == Before(s, c) + [c] + After(s, c)
    ensures c !in s ==> Before(s, c) == s
  {
    if s != [] && s[0] != c {
      BeforeAfter(s[1..], c);
      assert Before(s, c) == [s[0]] + Before(s[1..], c);
      assert After(s, c) == After(s[1..], c);
      assert s == [s[0]] + s[1..];
    }
  }

  /** Text before and after the first `c`, when that `c` follows `a`. */
  lemma {:induction false} BeforeAfterFirst(a: string, b: string, c: char)
    requires c !in a
    ensures Before(a + [c] + b, c) == a
    ensures After(a + [c] + b, c) == b
  {
    var s := a + [c] + b;
    if a == [] {
      assert s == [c] + b && s[1..] == b;
    } else {
      assert s[0] == a[0] && s[1..] == a[1..] + [c] + b;
      BeforeAfterFirst(a[1..], b, c);
      assert [a[0]] + a[1..] == a;
    }
  }

  /** The first piece of a split is the text before the first separator; a
      second piece exists exactly when the separator occurs, and it is the text
      between the first and the second separator. */
  lemma {:induction false} SplitHeads(s: string, sep: char)
    ensures Split(s, sep)[0] == Before(s, sep)
    ensures |Split(s, sep)| >= 2 <==> sep in s
    ensures sep in s ==> Split(s, sep)[1] == Before(After(s, sep), sep)
    decreases |s|
  {
    BeforeAfter(s, sep);
    if sep in s {
      SplitAtFirstSeparator(Before(s, sep), After(s, sep), sep);
      SplitHeads(After(s, sep), sep);
    } else {
      SplitWithoutSeparator(s, sep);
    }
  }

  // ---------------------------------------------------------------------
  // Decimal integers
  // ---------------------------------------------------------------------

  lemma AllConcat(a: string, b: string, p: char -> bool)
    requires All(a, p) && All(b, p)
    ensures All(a + b, p)
  {
    forall i | 0 <= i < |a + b| ensures p((a + b)[i]) {
      if i < |a| { assert (a + b)[i] == a[i]; } else { assert (a + b)[i] == b[i - |a|]; }
    }
  }

  predicate IsDigit(c: char) {
    '0' <= c <= '9'
  }

  lemma DigitsAreAscii(s: string)
    requires All(s, IsDigit)
    ensures All(s, IsAscii)
  {
    forall i | 0 <= i < |s| ensures IsAscii(s[i]) {
      assert IsDigit(s[i]);
    }
  }

  function DigitChar(d: nat): (c: char)
    requires d < 10
    ensures IsDigit(c)
  {
    ('0' as int + d) as char
  }

  function DigitValue(c: char): nat
    requires IsDigit(c)
  {
    c as int - '0' as int
  }

  function Pow10(k: nat): (p: nat)
    ensures p >= 1
  {
    if k == 0 then 1 else 10 * Pow10(k - 1)
  }

  /** The shortest decimal spelling of `n`, most significant digit first. */
  function Decimal(n: nat): (s: string)
    ensures |s| >= 1
    ensures All(s, IsDigit)
  {
    if n < 10 then [DigitChar(n)] else Decimal(n / 10) + [DigitChar(n % 10)]
  }

  /** The value of a string of decimal digits (leading zeros allowed). */
  function DecimalValue(s: string): nat
    requires All(s, IsDigit)
  {
    if s == [] then 0 else 10 * DecimalValue(s[..|s| - 1]) + DigitValue(s[|s| - 1])
  }

  lemma {:induction false} DecimalRoundTrip(n: nat)
    ensures DecimalValue(Decimal(n)) == n
  {
    if n >= 10 {
      var s := Decimal(n);
      assert s[..|s| - 1] == Decimal(n / 10);
      DecimalRoundTrip(n / 10);
    }
  }

  /** `n` has at most `k` digits exactly when it is below 10^k. */
  lemma {:induction false} DecimalLength(n: nat, k: nat)
    requires k >= 1
    ensures |Decimal(n)| <= k <==> n < Pow10(k)
  {
    if n >= 10 {
      if k == 1 {
        assert |Decimal(n)| == |Decimal(n / 10)| + 1;
      } else {
        DecimalLength(n / 10, k - 1);
        assert n < Pow10(k) <==> n / 10 < Pow10(k - 1);
      }
    } else {
      assert Pow10(k) >= 10 by { assert Pow10(k) == 10 * Pow10(k - 1); }
    }
  }

  /** Digit strings of the same length are equal exactly when their values are. */
  lemma {:induction false} DecimalValueInjective(s: string, t: string)
    requires All(s, IsDigit) && All(t, IsDigit)
    requires |s| == |t| && DecimalValue(s) == DecimalValue(t)
    ensures s == t
    decreases |s|
  {
    if s != [] {
      var n := |s| - 1;
      var a, b := DecimalValue(s[..n]), DecimalValue(t[..n]);
      var d, e := DigitValue(s[n]), DigitValue(t[n]);
      assert DecimalValue(s) == 10 * a + d && DecimalValue(t) == 10 * b + e;
      SplitLastDigit(a, d);
      SplitLastDigit(b, e);
      assert a == b && d == e;
      assert s[n] == t[n];
      DecimalValueInjective(s[..n], t[..n]);
      assert s == s[..n] + [s[n]] && t == t[..n] + [t[n]];
    }
  }

  /** The last digit and the rest of a number written as 10 * a + d. */
  lemma SplitLastDigit(a: nat, d: nat)
    requires d < 10
    ensures (10 * a + d) % 10 == d && (10 * a + d) / 10 == a
  {
  }

  function Zeros(k: nat): (z: string)
    ensures |z| == k
    ensures forall i :: 0 <= i < k ==> z[i] == '0'
  {
    seq(k, _ => '0')
  }

  /** `s` preceded by enough '0' characters to make it `width` long (unchanged when already that long). */
  function ZeroPad(s: string, width: nat): (r: string)
    ensures |r| == if |s| < width then width else |s|
    ensures r[|r| - |s|..] == s
    ensures forall i :: 0 <= i < |r| - |s| ==> r[i] == '0'
  {
    if |s| < width then Zeros(width - |s|) + s else s
  }

  lemma {:induction false} DecimalValueOfZeros(k: nat)
    ensures All(Zeros(k), IsDigit)
    ensures DecimalValue(Zeros(k)) == 0
  {
    if k > 0 {
      assert Zeros(k)[..k - 1] == Zeros(k - 1);
      DecimalValueOfZeros(k - 1);
    }
  }

  /** Leading zeros do not change a decimal value. */
  lemma {:induction false} DecimalValueOfPadded(s: string, width: nat)
    requires All(s, IsDigit)
    ensures All(ZeroPad(s, width), IsDigit)
    ensures DecimalValue(ZeroPad(s, width)) == DecimalValue(s)
    decreases |s|
  {
    if |s| < width {
      var z := Zeros(width - |s|);
      DecimalValueOfZeros(width - |s|);
      DecimalValueOfZerosThen(z, s);
    }
  }

  lemma {:induction false} DecimalValueOfZerosThen(z: string, s: string)
    requires All(z, IsDigit) && DecimalValue(z) == 0
    requires All(s, IsDigit)
    ensures All(z + s, IsDigit)
    ensures DecimalValue(z + s) == DecimalValue(s)
    decreases |s|
  {
    assert All(z + s, IsDigit) by {
      forall i | 0 <= i < |z + s| ensures IsDigit((z + s)[i]) {
        if i < |z| { assert (z + s)[i] == z[i]; } else { assert (z + s)[i] == s[i - |z|]; }
      }
    }
    if s == [] {
      assert z + s == z;
    } else {
      assert (z + s)[..|z + s| - 1] == z + s[..|s| - 1];
      DecimalValueOfZerosThen(z, s[..|s| - 1]);
    }
  }

  /** C# `int.ToString()` under the invariant culture and Python `str(int)`. */
  function IntToDecimal(n: int): (s: string)
    ensures n >= 0 ==> s != [] && All(s, IsDigit)
    ensures n < 0 ==> |s| >= 2 && s[0] == '-' && All(s[1..], IsDigit)
  {
    if n < 0 then
      var d := Decimal(-n);
      assert ("-" + d)[1..] == d;
      "-" + d
    else Decimal(n)
  }

  /** Python's `f'{n:0<width>d}'`: the sign counts towards the width and the
      zeros go between the sign and the digits. */
  function FormatZeroPadded(n: int, width: nat): (f: string)
    ensures |f| >= width && |f| >= 1
    ensures n >= 0 ==> All(f, IsDigit)
    ensures n < 0 ==> |f| >= 2 && f[0] == '-' && All(f[1..], IsDigit)
  {
    if n < 0 then
      var z := ZeroPad(Decimal(-n), if width >= 1 then width - 1 else 0);
      DecimalValueOfPadded(Decimal(-n), if width >= 1 then width - 1 else 0);
      assert ("-" + z)[1..] == z;
      "-" + z
    else
      DecimalValueOfPadded(Decimal(n), width);
      ZeroPad(Decimal(n), width)
  }

  /** Digits and the minus sign are neither whitespace nor a colon. */
  lemma SignOrDigitIsPlain(c: char)
    requires c == '-' || IsDigit(c)
    ensures !IsDotNetSpace(c) && !IsPythonSpace(c) && c != ':'
  {
  }

  /** Every character of a zero-padded spelling is a digit or the minus sign,
      and the last one is a digit. */
  lemma ZeroPaddedChars(n: int, width: nat)
    ensures var f := FormatZeroPadded(n, width);
      && |f| >= 1 && IsDigit(f[|f| - 1])
      && forall i :: 0 <= i < |f| ==> f[i] == '-' || IsDigit(f[i])
  {
    var f := FormatZeroPadded(n, width);
    forall i | 0 <= i < |f| ensures f[i] == '-' || IsDigit(f[i]) {
      if n < 0 && i > 0 {
        assert f[i] == f[1..][i - 1];
      }
    }
  }

  /** A zero-padded spelling is a single token: no colon in it and no
      whitespace of either platform at its ends. */
  lemma ZeroPaddedToken(n: int, width: nat)
    ensures var f := FormatZeroPadded(n, width);
      && f != [] && ':' !in f
      && Unpadded(f, IsDotNetSpace) && Unpadded(f, IsPythonSpace)
  {
    var f := FormatZeroPadded(n, width);
    ZeroPaddedChars(n, width);
    forall i | 0 <= i < |f| ensures f[i] != ':' {
      SignOrDigitIsPlain(f[i]);
    }
    SignOrDigitIsPlain(f[0]);
    SignOrDigitIsPlain(f[|f| - 1]);
  }

  /** Zero-padding to `width` characters is exact for a non-negative number
      below 10^width; a larger one keeps all its digits. */
  lemma ZeroPaddedWidth(n: nat, width: nat)
    requires width >= 1
    ensures n < Pow10(width) ==> |FormatZeroPadded(n, width)| == width
    ensures n >= Pow10(width) ==> |FormatZeroPadded(n, width)| == |Decimal(n)| > width
  {
    DecimalLength(n, width);
  }

  /** Python's `int(text)` for text made of an optional sign and ASCII digits;
      anything else is a `ValueError` (None). */
  function ParseInt(s: string): (r: Option<int>)
    // accepted: one sign or digit, then digits, and at least one digit in all
    ensures r.Some? <==>
      && s != [] && All(s[1..], IsDigit)
      && (IsDigit(s[0]) || ((s[0] == '-' || s[0] == '+') && |s| >= 2))
    // a negative result needs the minus sign
    ensures r.Some? && r.value < 0 ==> s[0] == '-'
  {
    if |s| >= 1 && (s[0] == '-' || s[0] == '+') then
      var digits := s[1..];
      if digits != [] && All(digits, IsDigit) then
        var v: int := DecimalValue(digits);
        Some(if s[0] == '-' then -v else v)
      else None
    else if s != [] && All(s, IsDigit) then Some(DecimalValue(s))
    else None
  }

  /** Python's `int` reads back what `str` wrote. */
  lemma {:induction false} IntRoundTrip(n: int)
    ensures ParseInt(IntToDecimal(n)) == Some(n)
  {
    var s := IntToDecimal(n);
    if n < 0 {
      var d := Decimal(-n);
      assert s == ['-'] + d;
      assert s[0] == '-' && s[1..] == d;
      DecimalRoundTrip(-n);
    } else {
      var d := Decimal(n);
      assert s == d && s[0] != '-' && s[0] != '+';
      DecimalRoundTrip(n);
    }
  }

  /** The digits of a zero-padded spelling carry the number's magnitude. */
  lemma ZeroPaddedValue(n: int, width: nat)
    ensures var f := FormatZeroPadded(n, width);
      && (n >= 0 ==> DecimalValue(f) == n)
      && (n < 0 ==> |f| >= 2 && DecimalValue(f[1..]) == -n)
  {
    var m: nat := if n < 0 then -n else n;
    var w := if n < 0 then (if width >= 1 then width - 1 else 0) else width;
    var z := ZeroPad(Decimal(m), w);
    DecimalValueOfPadded(Decimal(m), w);
    DecimalRoundTrip(m);
    if n < 0 {
      assert FormatZeroPadded(n, width)[1..] == z;
    }
  }

  /** `int` of a minus sign followed by digits. */
  lemma ParseNegative(f: string)
    requires |f| >= 2 && f[0] == '-' && All(f[1..], IsDigit)
    ensures ParseInt(f) == Some(-(DecimalValue(f[1..]) as int))
  {
  }

  /** `int` of digits alone. */
  lemma ParseUnsigned(f: string)
    requires |f| >= 1 && All(f, IsDigit)
    ensures ParseInt(f) == Some(DecimalValue(f) as int)
  {
    assert IsDigit(f[0]);
  }

  /** Python's `int` reads a zero-padded spelling back, leading zeros and all. */
  lemma ZeroPaddedRoundTrip(n: int, width: nat)
    ensures ParseInt(FormatZeroPadded(n, width)) == Some(n)
  {
    var f := FormatZeroPadded(n, width);
    ZeroPaddedValue(n, width);
    if n < 0 {
      ParseNegative(f);
    } else {
      ParseUnsigned(f);
    }
  }

  /** Different numbers get different zero-padded spellings. */
  lemma ZeroPaddedInjective(m: int, n: int, width: nat)
    requires FormatZeroPadded(m, width) == FormatZeroPadded(n, width)
    ensures m == n
  {
    ZeroPaddedRoundTrip(m, width);
    ZeroPaddedRoundTrip(n, width);
  }

  /** Decimal spellings of integers contain no whitespace of either platform. */
  lemma IntToDecimalUnpadded(n: int)
    ensures All(IntToDecimal(n), c => !IsPythonSpace(c) && !IsDotNetSpace(c) && c != ':')
  {
    var s := IntToDecimal(n);
    var d := Decimal(if n < 0 then -n else n);
    forall i | 0 <= i < |s| ensures !IsPythonSpace(s[i]) && !IsDotNetSpace(s[i]) && s[i] != ':' {
      if n < 0 && i > 0 {
        assert s[i] == d[i - 1];
      }
    }
  }

  /** Distinct integers have distinct decimal spellings. */
  lemma IntToDecimalInjective(m: int, n: int)
    requires IntToDecimal(m) == IntToDecimal(n)
    ensures m == n
  {
    IntRoundTrip(m);
    IntRoundTrip(n);
  }
}
