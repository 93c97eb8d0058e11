/**
 * The handful of .NET string and number operations the core relies on:
 * string.IsNullOrWhiteSpace, ToLower and case-insensitive comparison,
 * the ordinal String.Replace (every occurrence, scanned left to right),
 * String.TrimEnd(char) and Int32.ToString("D<width>").
 */
module Text {
  import opened Primitives

  // ---------------------------------------------------------------- characters

  /** Char.IsWhiteSpace: the Unicode space separators, line and paragraph
      separators, and the controls U+0009-U+000D and U+0085. */
  predicate IsWhiteSpace(c: char) {
    var n := c as int;
    (0x09 <= n <= 0x0D) || n == 0x20 || n == 0x85 || n == 0xA0 || n == 0x1680
    || (0x2000 <= n <= 0x200A) || n == 0x2028 || n == 0x2029 || n == 0x202F
    || n == 0x205F || n == 0x3000
  }

  predicate IsDigit(c: char) {
    '0' <= c <= '9'
  }

  /** string.IsNullOrWhiteSpace: null, empty, or white space only. */
  predicate IsNullOrWhiteSpace(s: Option<string>) {
    s.None? || forall i :: 0 <= i < |s.value| ==> IsWhiteSpace(s.value[i])
  }

  /** Case mapping of one character, restricted to the ASCII letters. */
  function LowerChar(c: char): char {
    if 'A' <= c <= 'Z' then (c as int + 32) as char else c
  }

  /** String.ToLower. */
  function ToLower(s: string): string {
    seq(|s|, i requires 0 <= i < |s| => LowerChar(s[i]))
  }

  /** String.Equals(a, b, StringComparison.OrdinalIgnoreCase). */
  predicate EqualsIgnoreCase(a: string, b: string) {
    ToLower(a) == ToLower(b)
  }

  // ----------------------------------------------------------------- substrings

  predicate StartsWith(s: string, prefix: string) {
    |prefix| <= |s| && s[..|prefix|] == prefix
  }

  /** `s` has an occurrence of `p` at some position. */
  predicate Contains(s: string, p: string) {
    exists i :: 0 <= i <= |s| && StartsWith(s[i..], p)
  }

  predicate NoDigits(s: string) {
    forall i :: 0 <= i < |s| ==> !IsDigit(s[i])
  }

  predicate AllDigits(s: string) {
    forall i :: 0 <= i < |s| ==> IsDigit(s[i])
  }

  predicate HasDigit(s: string) {
    exists i :: 0 <= i < |s| && IsDigit(s[i])
  }

  /** A suffix of a string without `p` has no `p` either. */
  lemma NotContainsSuffix(s: string, p: string, k: nat)
    requires k <= |s| && !Contains(s, p)
    ensures !Contains(s[k..], p)
  {
    forall i | 0 <= i <= |s| - k ensures !StartsWith(s[k..][i..], p) {
      assert s[k..][i..] == s[k + i..];
    }
  }

  /** A prefix of a string without `p` has no `p` either. */
  lemma NotContainsPrefix(s: string, p: string, k: nat)
    requires k <= |s| && !Contains(s, p)
    ensures !Contains(s[..k], p)
  {
    forall i | 0 <= i <= k ensures !StartsWith(s[..k][i..], p) {
      if i + |p| <= k {
        assert s[..k][i..][..|p|] == s[i..][..|p|];
      }
    }
  }

  // ------------------------------------------------------------------- Replace

  /** String.Replace(pattern, replacement) with ordinal comparison: the string
      is scanned from the left, every occurrence of `pattern` found is
      replaced, and scanning resumes after it. */
  function ReplaceAll(s: string, pattern: string, replacement: string): string
    requires |pattern| > 0
    decreases |s|
  {
    if StartsWith(s, pattern) then replacement + ReplaceAll(s[|pattern|..], pattern, replacement)
    else if s == [] then []
    else [s[0]] + ReplaceAll(s[1..], pattern, replacement)
  }

  /** Replacing a pattern that does not occur leaves the string unchanged. */
  lemma {:induction false} ReplaceAllWithoutOccurrence(s: string, pattern: string, replacement: string)
    requires |pattern| > 0 && !Contains(s, pattern)
    ensures ReplaceAll(s, pattern, replacement) == s
    decreases |s|
  {
    if s != [] {
      assert s[0..] == s;
      NotContainsSuffix(s, pattern, 1);
      ReplaceAllWithoutOccurrence(s[1..], pattern, replacement);
    }
  }

  /** Replacing a pattern by itself gives back the input: the scan copies
      every character it does not replace, in order. */
  lemma {:induction false} ReplaceAllWithItself(s: string, pattern: string)
    requires |pattern| > 0
    ensures ReplaceAll(s, pattern, pattern) == s
    decreases |s|
  {
    if StartsWith(s, pattern) {
      ReplaceAllWithItself(s[|pattern|..], pattern);
      assert s == s[..|pattern|] + s[|pattern|..];
    } else if s != [] {
      ReplaceAllWithItself(s[1..], pattern);
      assert s == [s[0]] + s[1..];
    }
  }

  /** With a replacement made of digits, a digit-free prefix of the result was
      copied unchanged from the input: no replacement happened inside it. */
  lemma {:induction false} DigitFreePrefixIsCopied(s: string, pattern: string, replacement: string, m: nat)
    requires |pattern| > 0 && |replacement| > 0 && AllDigits(replacement)
    requires m <= |ReplaceAll(s, pattern, replacement)|
    ensures NoDigits(ReplaceAll(s, pattern, replacement)[..m]) ==>
              m <= |s| && s[..m] == ReplaceAll(s, pattern, replacement)[..m]
    decreases |s|
  {
    var r := ReplaceAll(s, pattern, replacement);
    if m == 0 {
    } else if StartsWith(s, pattern) {
      assert r[..m][0] == replacement[0];
    } else if s != [] {
      var r' := ReplaceAll(s[1..], pattern, replacement);
      assert r == [s[0]] + r';
      DigitFreePrefixIsCopied(s[1..], pattern, replacement, m - 1);
      assert r[..m] == [s[0]] + r'[..m - 1];
      if NoDigits(r[..m]) {
        var tail := r'[..m - 1];
        forall i | 0 <= i < |tail| ensures !IsDigit(tail[i]) {
          assert tail[i] == r[..m][i + 1];
        }
        assert s[..m] == [s[0]] + s[1..][..m - 1];
      }
    }
  }

  /** Replacing by digits removes every occurrence of a digit-free pattern:
      no occurrence survives and none is formed across a replacement. */
  lemma {:induction false} ReplaceAllRemovesPattern(s: string, pattern: string, replacement: string)
    requires |pattern| > 0 && NoDigits(pattern)
    requires |replacement| > 0 && AllDigits(replacement)
    ensures !Contains(ReplaceAll(s, pattern, replacement), pattern)
    decreases |s|
  {
    var r := ReplaceAll(s, pattern, replacement);
    if StartsWith(s, pattern) {
      var r' := ReplaceAll(s[|pattern|..], pattern, replacement);
      ReplaceAllRemovesPattern(s[|pattern|..], pattern, replacement);
      assert r == replacement + r';
      forall i | 0 <= i <= |r| ensures !StartsWith(r[i..], pattern) {
        if i < |replacement| {
          assert r[i..][0] == replacement[i];
        } else {
          assert r[i..] == r'[i - |replacement|..];
        }
      }
    } else if s != [] {
      var r' := ReplaceAll(s[1..], pattern, replacement);
      ReplaceAllRemovesPattern(s[1..], pattern, replacement);
      assert r == [s[0]] + r';
      forall i | 0 <= i <= |r| ensures !StartsWith(r[i..], pattern) {
        if i == 0 {
          if |pattern| <= |r| {
            DigitFreePrefixIsCopied(s, pattern, replacement, |pattern|);
            assert r[0..] == r;
          }
        } else {
          assert r[i..] == r'[i - 1..];
        }
      }
    }
  }

  /** Replacing one pattern by digits cannot create an occurrence of another
      digit-free pattern. */
  lemma {:induction false} ReplaceAllKeepsAbsent(s: string, pattern: string, replacement: string, p: string)
    requires |pattern| > 0 && |replacement| > 0 && AllDigits(replacement)
    requires |p| > 0 && NoDigits(p) && !Contains(s, p)
    ensures !Contains(ReplaceAll(s, pattern, replacement), p)
    decreases |s|
  {
    var r := ReplaceAll(s, pattern, replacement);
    if StartsWith(s, pattern) {
      var r' := ReplaceAll(s[|pattern|..], pattern, replacement);
      NotContainsSuffix(s, p, |pattern|);
      ReplaceAllKeepsAbsent(s[|pattern|..], pattern, replacement, p);
      assert r == replacement + r';
      forall i | 0 <= i <= |r| ensures !StartsWith(r[i..], p) {
        if i < |replacement| {
          assert r[i..][0] == replacement[i];
        } else {
          assert r[i..] == r'[i - |replacement|..];
        }
      }
    } else if s != [] {
      var r' := ReplaceAll(s[1..], pattern, replacement);
      NotContainsSuffix(s, p, 1);
      ReplaceAllKeepsAbsent(s[1..], pattern, replacement, p);
      assert r == [s[0]] + r';
      forall i | 0 <= i <= |r| ensures !StartsWith(r[i..], p) {
        if i == 0 {
          if |p| <= |r| {
            DigitFreePrefixIsCopied(s, pattern, replacement, |p|);
            assert r[0..] == r;
            assert s[0..] == s;
          }
        } else {
          assert r[i..] == r'[i - 1..];
        }
      }
    }
  }

  /** Replacing an occurring pattern by digits leaves a digit in the result. */
  lemma {:induction false} ReplaceAllIntroducesDigit(s: string, pattern: string, replacement: string)
    requires |pattern| > 0 && |replacement| > 0 && AllDigits(replacement)
    requires Contains(s, pattern)
    ensures HasDigit(ReplaceAll(s, pattern, replacement))
    decreases |s|
  {
    var r := ReplaceAll(s, pattern, replacement);
    if StartsWith(s, pattern) {
      assert r[0] == replacement[0];
    } else {
      var i :| 0 <= i <= |s| && StartsWith(s[i..], pattern);
      assert s[0..] == s;
      assert s[1..][i - 1..] == s[i..];
      ReplaceAllIntroducesDigit(s[1..], pattern, replacement);
      var r' := ReplaceAll(s[1..], pattern, replacement);
      var j :| 0 <= j < |r'| && IsDigit(r'[j]);
      assert r[j + 1] == r'[j];
    }
  }

  /** Replacing a digit-free pattern by digits never removes the last digit. */
  lemma {:induction false} ReplaceAllKeepsDigit(s: string, pattern: string, replacement: string)
    requires |pattern| > 0 && NoDigits(pattern)
    requires |replacement| > 0 && AllDigits(replacement)
    requires HasDigit(s)
    ensures HasDigit(ReplaceAll(s, pattern, replacement))
    decreases |s|
  {
    var r := ReplaceAll(s, pattern, replacement);
    if StartsWith(s, pattern) {
      assert r[0] == replacement[0];
    } else {
      var k :| 0 <= k < |s| && IsDigit(s[k]);
      if k == 0 {
        assert r[0] == s[0];
      } else {
        assert s[1..][k - 1] == s[k];
        ReplaceAllKeepsDigit(s[1..], pattern, replacement);
        var r' := ReplaceAll(s[1..], pattern, replacement);
        var j :| 0 <= j < |r'| && IsDigit(r'[j]);
        assert r[j + 1] == r'[j];
      }
    }
  }

  // ------------------------------------------------------------------- TrimEnd

  /** String.TrimEnd(c): every trailing `c` is removed, nothing else. */
  function TrimEnd(s: string, c: char): (r: string)
    ensures |r| <= |s| && r == s[..|r|]
    ensures r == [] || r[|r| - 1] != c
    ensures forall i :: |r| <= i < |s| ==> s[i] == c
    decreases |s|
  {
    if |s| > 0 && s[|s| - 1] == c then TrimEnd(s[..|s| - 1], c) else s
  }

  /** A digit survives trimming any non-digit character. */
  lemma TrimEndKeepsDigit(s: string, c: char)
    requires !IsDigit(c)
    ensures HasDigit(s) ==> HasDigit(TrimEnd(s, c))
  {
    if HasDigit(s) {
      var r := TrimEnd(s, c);
      var k :| 0 <= k < |s| && IsDigit(s[k]);
      assert k < |r| && r[k] == s[k];
    }
  }

  // ------------------------------------------------------- ToString("D<width>")

  function Pow10(k: nat): (r: nat)
    ensures r >= 1
  {
    if k == 0 then 1 else 10 * Pow10(k - 1)
  }

  function DigitChar(d: nat): (c: char)
    requires d < 10
    ensures IsDigit(c)
  {
    ('0' as int + d) as char
  }

  /** The number a string of decimal digits denotes. */
  function DigitsValue(s: string): int {
    if s == [] then 0 else DigitsValue(s[..|s| - 1]) * 10 + (s[|s| - 1] as int - '0' as int)
  }

  /** The shortest decimal representation of `n`. */
  function DecimalDigits(n: nat): (r: string)
    ensures |r| >= 1 && AllDigits(r)
    ensures DigitsValue(r) == n
    decreases n
  {
    if n < 10 then [DigitChar(n)] else DecimalDigits(n / 10) + [DigitChar(n % 10)]
  }

  lemma {:induction false} DecimalDigitsLength(n: nat, k: nat)
    requires k >= 1 && n < Pow10(k)
    ensures |DecimalDigits(n)| <= k
    decreases k
  {
    if n >= 10 {
      DecimalDigitsLength(n / 10, k - 1);
    }
  }

  function Zeros(k: nat): (r: string)
    ensures |r| == k && AllDigits(r)
  {
    seq(k, _ => '0')
  }

  lemma {:induction false} LeadingZerosKeepValue(k: nat, d: string)
    ensures DigitsValue(Zeros(k) + d) == DigitsValue(d)
    decreases |d|
  {
    if d == [] {
      ZerosValue(k);
      assert Zeros(k) + d == Zeros(k);
    } else {
      var init := d[..|d| - 1];
      assert (Zeros(k) + d)[..|Zeros(k) + d| - 1] == Zeros(k) + init;
      LeadingZerosKeepValue(k, init);
    }
  }

  lemma {:induction false} ZerosValue(k: nat)
    ensures DigitsValue(Zeros(k)) == 0
  {
    if k > 0 {
      assert Zeros(k)[..k - 1] == Zeros(k - 1);
      ZerosValue(k - 1);
    }
  }

  /** Int32.ToString("D<width>") of a non-negative number: its decimal digits,
      left-padded with '0' to at least `width` characters. */
  function ZeroPad(n: nat, width: nat): (r: string)
    ensures AllDigits(r) && |r| >= 1 && |r| >= width
  {
    var d := DecimalDigits(n);
    if |d| >= width then d else Zeros(width - |d|) + d
  }

  /** The padded text denotes the number it was made from, and a number below
      10^width takes exactly `width` characters. */
  lemma ZeroPadRoundTrip(n: nat, width: nat)
    ensures DigitsValue(ZeroPad(n, width)) == n
    ensures 1 <= width && n < Pow10(width) ==> |ZeroPad(n, width)| == width
  {
    var d := DecimalDigits(n);
    if |d| < width {
      LeadingZerosKeepValue(width - |d|, d);
    }
    if 1 <= width && n < Pow10(width) {
      DecimalDigitsLength(n, width);
    }
  }
}
