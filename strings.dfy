/** The Python `str` operations the two scripts rely on: `strip`, `lower`,
    `startswith`/`endswith`, the substring search behind `split`, string
    comparison (as used by `list.sort`) and integer formatting. */
module Strings {

  /** Python's `str.isspace()` for one character: the characters of bidirectional
      class WS, B or S, and the space separators (category Zs). */
  predicate IsSpace(c: char) {
    || ('\t' <= c <= '\r')
    || ('\U{1C}' <= c <= ' ')
    || c == '\U{85}' || c == '\U{A0}' || c == '\U{1680}'
    || ('\U{2000}' <= c <= '\U{200A}')
    || c == '\U{2028}' || c == '\U{2029}' || c == '\U{202F}' || c == '\U{205F}' || c == '\U{3000}'
  }

  predicate AllSpace(s: string) {
    forall i :: 0 <= i < |s| ==> IsSpace(s[i])
  }

  /** Neither the first nor the last character is whitespace. */
  predicate NoEdgeSpace(s: string) {
    s == [] || (!IsSpace(s[0]) && !IsSpace(s[|s| - 1]))
  }

  /** How many whitespace characters `s` starts with. */
  function LeadingSpace(s: string): (n: nat)
    ensures n <= |s|
    ensures forall k :: 0 <= k < n ==> IsSpace(s[k])
    ensures n < |s| ==> !IsSpace(s[n])
  {
    if s != [] && IsSpace(s[0]) then 1 + LeadingSpace(s[1..]) else 0
  }

  /** How many whitespace characters `s` ends with. */
  function TrailingSpace(s: string): (n: nat)
    ensures n <= |s|
    ensures forall k :: |s| - n <= k < |s| ==> IsSpace(s[k])
    ensures n < |s| ==> !IsSpace(s[|s| - n - 1])
  {
    if s != [] && IsSpace(s[|s| - 1]) then 1 + TrailingSpace(s[..|s| - 1]) else 0
  }

  /** `s` is `r` with whitespace before it, up to index `i`, and after it. */
  predicate PaddedAt(s: string, i: int, r: string) {
    0 <= i <= |s| - |r| && s[i..i + |r|] == r && AllSpace(s[..i]) && AllSpace(s[i + |r|..])
  }

  /** `s.strip()`: the infix of `s` left after dropping whitespace on both ends. */
  function Strip(s: string): (r: string)
    ensures NoEdgeSpace(r)
    ensures exists i :: PaddedAt(s, i, r)
  {
    var i := LeadingSpace(s);
    var j := if i == |s| then i else |s| - TrailingSpace(s);
    assert i < |s| ==> i < j;
    assert PaddedAt(s, i, s[i..j]);
    s[i..j]
  }

  /** The leading whitespace is the run of whitespace that ends at the first
      other character. */
  lemma LeadingSpaceIs(s: string, n: nat)
    requires n <= |s| && (forall k :: 0 <= k < n ==> IsSpace(s[k])) && (n < |s| ==> !IsSpace(s[n]))
    ensures LeadingSpace(s) == n
  {
  }

  lemma TrailingSpaceIs(s: string, n: nat)
    requires n <= |s| && (forall k :: |s| - n <= k < |s| ==> IsSpace(s[k])) && (n < |s| ==> !IsSpace(s[|s| - n - 1]))
    ensures TrailingSpace(s) == n
  {
  }

  /** Whitespace in front is skipped. */
  lemma LeadingSpaceSkips(w: string, x: string)
    requires AllSpace(w)
    ensures LeadingSpace(w + x) == |w| + LeadingSpace(x)
  {
    var s, m := w + x, LeadingSpace(x);
    forall k | 0 <= k < |w| + m ensures IsSpace(s[k]) {
      if k >= |w| {
        assert s[k] == x[k - |w|];
      }
    }
    if |w| + m < |s| {
      assert s[|w| + m] == x[m];
    }
    LeadingSpaceIs(s, |w| + m);
  }

  /** Whitespace behind is skipped. */
  lemma TrailingSpaceSkips(x: string, w: string)
    requires AllSpace(w)
    ensures TrailingSpace(x + w) == |w| + TrailingSpace(x)
  {
    var s, m := x + w, TrailingSpace(x);
    forall k | |s| - (|w| + m) <= k < |s| ensures IsSpace(s[k]) {
      if k < |x| {
        assert s[k] == x[k];
      } else {
        assert s[k] == w[k - |x|];
      }
    }
    if |w| + m < |s| {
      assert s[|x| - m - 1] == x[|x| - m - 1];
    }
    TrailingSpaceIs(s, |w| + m);
  }

  /** What follows a non-blank text does not change its leading whitespace. */
  lemma LeadingSpaceAppend(x: string, w: string)
    requires LeadingSpace(x) < |x|
    ensures LeadingSpace(x + w) == LeadingSpace(x)
  {
    var s, m := x + w, LeadingSpace(x);
    forall k | 0 <= k < m ensures IsSpace(s[k]) {
      assert s[k] == x[k];
    }
    assert s[m] == x[m];
    LeadingSpaceIs(s, m);
  }

  /** Stripping undoes padding: whitespace added around a string without
      whitespace at its edges is exactly what `strip` removes. */
  lemma StripPadded(w1: string, r: string, w2: string)
    requires AllSpace(w1) && AllSpace(w2) && NoEdgeSpace(r)
    ensures Strip(w1 + r + w2) == r
  {
    var s := w1 + r + w2;
    if r == [] {
      forall k | 0 <= k < |s| ensures IsSpace(s[k]) {
        if k < |w1| {
          assert s[k] == w1[k];
        } else {
          assert s[k] == w2[k - |w1|];
        }
      }
      LeadingSpaceIs(s, |s|);
    } else {
      forall k | 0 <= k < |w1| ensures IsSpace(s[k]) {
        assert s[k] == w1[k];
      }
      assert s[|w1|] == r[0];
      LeadingSpaceIs(s, |w1|);
      forall k | |s| - |w2| <= k < |s| ensures IsSpace(s[k]) {
        assert s[k] == w2[k - |w1| - |r|];
      }
      assert s[|s| - |w2| - 1] == r[|r| - 1];
      TrailingSpaceIs(s, |w2|);
      assert s[|w1|..|s| - |w2|] == r;
    }
  }

  lemma StripIdempotent(s: string)
    ensures Strip(Strip(s)) == Strip(s)
  {
    var r := Strip(s);
    assert [] + r + [] == r;
    StripPadded([], r, []);
  }

  /** Trailing whitespace, such as a line's newline, does not change what `strip` gives. */
  lemma StripIgnoresTrailingSpace(x: string, w: string)
    requires AllSpace(w)
    ensures Strip(x + w) == Strip(x)
  {
    var s := x + w;
    if LeadingSpace(x) < |x| {
      LeadingSpaceAppend(x, w);
      TrailingSpaceSkips(x, w);
      var i, j := LeadingSpace(x), |x| - TrailingSpace(x);
      assert s[i..j] == x[i..j];
    } else {
      LeadingSpaceSkips(x, w);
      LeadingSpaceSkips(w, []);
      assert w + [] == w;
    }
  }

  predicate StartsWith(s: string, prefix: string) {
    |prefix| <= |s| && s[..|prefix|] == prefix
  }

  predicate EndsWith(s: string, suffix: string) {
    |suffix| <= |s| && s[|s| - |suffix|..] == suffix
  }

  /** Python's `str.lower()` on ASCII letters; every other character is kept. */
  function LowerChar(c: char): (r: char)
    ensures 'A' <= c <= 'Z' ==> 'a' <= r <= 'z' && r as int - c as int == 32
    ensures !('A' <= c <= 'Z') ==> r == c
  {
    if 'A' <= c <= 'Z' then (c as int + 32) as char else c
  }

  function Lower(s: string): (r: string)
    ensures |r| == |s|
    ensures forall i :: 0 <= i < |s| ==> r[i] == LowerChar(s[i])
  {
    seq(|s|, i requires 0 <= i < |s| => LowerChar(s[i]))
  }

  /** `pat` occurs in `s` starting at index `k`. */
  predicate OccursAt(s: string, pat: string, k: int) {
    0 <= k && k + |pat| <= |s| && s[k..k + |pat|] == pat
  }

  predicate Contains(s: string, pat: string) {
    exists k :: 0 <= k <= |s| && OccursAt(s, pat, k)
  }

  /** `s.find(pat, from)`: the first occurrence of `pat` at or after `from`, or -1. */
  function Find(s: string, pat: string, from: nat): (r: int)
    ensures r == -1 || (from <= r && OccursAt(s, pat, r))
    ensures forall k :: from <= k && (r == -1 || k < r) ==> !OccursAt(s, pat, k)
    decreases |s| - from
  {
    if from + |pat| > |s| then -1
    else if s[from..from + |pat|] == pat then from
    else Find(s, pat, from + 1)
  }

  /** Python's `<` on strings: code-point lexicographic order, a proper prefix first. */
  predicate LexLess(a: string, b: string) {
    if a == [] then b != []
    else if b == [] then false
    else a[0] < b[0] || (a[0] == b[0] && LexLess(a[1..], b[1..]))
  }

  lemma {:induction false} LexLessIrreflexive(a: string)
    ensures !LexLess(a, a)
  {
    if a != [] {
      LexLessIrreflexive(a[1..]);
    }
  }

  lemma {:induction false} LexLessTransitive(a: string, b: string, c: string)
    requires LexLess(a, b) && LexLess(b, c)
    ensures LexLess(a, c)
  {
    if a != [] && b != [] && c != [] && a[0] == b[0] && b[0] == c[0] {
      LexLessTransitive(a[1..], b[1..], c[1..]);
    }
  }

  /** Any two distinct strings are ordered one way or the other. */
  lemma {:induction false} LexLessTotal(a: string, b: string)
    requires a != b
    ensures LexLess(a, b) || LexLess(b, a)
  {
    if a != [] && b != [] && a[0] == b[0] {
      assert a == [a[0]] + a[1..] && b == [b[0]] + b[1..];
      LexLessTotal(a[1..], b[1..]);
    }
  }

  lemma {:induction false} LexLessAsymmetric(a: string, b: string)
    requires LexLess(a, b)
    ensures !LexLess(b, a)
  {
    if a != [] && b != [] && a[0] == b[0] {
      LexLessAsymmetric(a[1..], b[1..]);
    }
  }

  /** Between strings of equal length, the order is decided within them:
      whatever follows either one does not change it. */
  lemma {:induction false} LexLessExtend(a: string, b: string, x: string, y: string)
    requires |a| == |b| && LexLess(a, b)
    ensures LexLess(a + x, b + y)
  {
    assert (a + x)[0] == a[0] && (b + y)[0] == b[0];
    if a[0] == b[0] {
      assert (a + x)[1..] == a[1..] + x && (b + y)[1..] == b[1..] + y;
      LexLessExtend(a[1..], b[1..], x, y);
    }
  }

  predicate IsDigit(c: char) {
    '0' <= c <= '9'
  }

  predicate AllDigits(s: string) {
    forall i :: 0 <= i < |s| ==> IsDigit(s[i])
  }

  function DigitChar(d: nat): (c: char)
    requires d < 10
    ensures IsDigit(c) && c as int - '0' as int == d
  {
    ('0' as int + d) as char
  }

  /** `str(n)` for a non-negative integer: its decimal digits, no leading zero. */
  function Decimal(n: nat): (r: string)
    ensures |r| >= 1 && AllDigits(r)
    ensures r[0] == '0' <==> n == 0
    ensures n < 10 <==> |r| == 1
    decreases n
  {
    if n < 10 then [DigitChar(n)] else Decimal(n / 10) + [DigitChar(n % 10)]
  }

  /** `int(s)` for a string of decimal digits (leading zeros allowed). */
  function ParseDecimal(s: string): nat
    requires AllDigits(s)
  {
    if s == [] then 0 else 10 * ParseDecimal(s[..|s| - 1]) + (s[|s| - 1] as int - '0' as int)
  }

  lemma {:induction false} DecimalRoundTrip(n: nat)
    ensures ParseDecimal(Decimal(n)) == n
    decreases n
  {
    if n >= 10 {
      DecimalRoundTrip(n / 10);
      var r := Decimal(n);
      assert r[..|r| - 1] == Decimal(n / 10);
    }
  }

  /** Leading zeros do not change the value read back. */
  lemma {:induction false} ParseLeadingZeros(k: nat, s: string)
    requires AllDigits(s)
    ensures AllDigits(Zeros(k) + s) && ParseDecimal(Zeros(k) + s) == ParseDecimal(s)
    decreases |s|
  {
    if s == [] {
      ZerosParse(k);
      assert Zeros(k) + s == Zeros(k);
    } else {
      var t := Zeros(k) + s;
      assert t[..|t| - 1] == Zeros(k) + s[..|s| - 1];
      ParseLeadingZeros(k, s[..|s| - 1]);
    }
  }

  lemma {:induction false} ZerosParse(k: nat)
    ensures AllDigits(Zeros(k)) && ParseDecimal(Zeros(k)) == 0
  {
    if k > 0 {
      assert Zeros(k)[..k - 1] == Zeros(k - 1);
      ZerosParse(k - 1);
    }
  }

  function Zeros(k: nat): (r: string)
    ensures |r| == k && forall i :: 0 <= i < k ==> r[i] == '0'
  {
    seq(k, i => '0')
  }

  /** Left-pads a digit string with zeros to at least `width` characters. */
  function PadZeros(s: string, width: nat): (r: string)
    ensures |r| == if |s| < width then width else |s|
    ensures r == Zeros(|r| - |s|) + s
  {
    if |s| < width then Zeros(width - |s|) + s else (assert s == Zeros(0) + s; s)
  }

  /** Python's `f"{n:0{width}d}"`: the sign, then the magnitude padded with zeros
      so that sign and digits together take at least `width` characters. */
  function FormatZeroPadded(n: int, width: nat): string {
    if n >= 0 then PadZeros(Decimal(n), width)
    else ['-'] + PadZeros(Decimal(-n), if width > 0 then width - 1 else 0)
  }

  /** The padded text reads back as `n`: digits only for a non-negative `n`,
      a minus sign and the digits of `-n` otherwise, at least `width` long. */
  lemma ZeroPaddedParses(n: int, width: nat)
    ensures var r := FormatZeroPadded(n, width);
      && (n >= 0 ==> |r| >= width && AllDigits(r) && ParseDecimal(r) == n)
      && (n < 0 ==> |r| >= width && |r| >= 2 && r[0] == '-' && AllDigits(r[1..]) && ParseDecimal(r[1..]) == -n)
  {
    if n >= 0 {
      var d := Decimal(n);
      DecimalRoundTrip(n);
      ParseLeadingZeros(|PadZeros(d, width)| - |d|, d);
    } else {
      var d := Decimal(-n);
      var r := PadZeros(d, if width > 0 then width - 1 else 0);
      DecimalRoundTrip(-n);
      ParseLeadingZeros(|r| - |d|, d);
      assert (['-'] + r)[1..] == r;
    }
  }

  /** Padding is minimal: a text longer than `width` has no leading zero
      (besides the single digit of zero itself). */
  lemma ZeroPaddedMinimal(n: int, width: nat)
    ensures var r := FormatZeroPadded(n, width);
      && (n >= 0 && |r| > width && |r| > 1 ==> r[0] != '0')
      && (n < 0 && |r| > width ==> |r| >= 2 && r[1] != '0')
  {
    if n >= 0 {
      var d := Decimal(n);
      DecimalRoundTrip(n);
      var r := PadZeros(d, width);
      assert |r| > width ==> r == Zeros(0) + d == d;
    } else {
      var d := Decimal(-n);
      DecimalRoundTrip(-n);
      var r := PadZeros(d, if width > 0 then width - 1 else 0);
      assert |r| + 1 > width ==> r == Zeros(0) + d == d;
      assert (['-'] + r)[1..] == r;
    }
  }
}
