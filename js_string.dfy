/**
 * The few JavaScript string operations the handlers rely on:
 * `String.prototype.trim`, `Number.prototype.toString` on a non-negative
 * integer, and `String.prototype.slice` with a negative start or a length.
 */
module JsString {

  import opened Wrappers
  import opened Arith

  /** Characters `trim` removes: ECMAScript WhiteSpace and LineTerminator code points. */
  predicate IsTrimmable(c: char)
  {
    c == '\t' || c == '\n' || c == '\U{B}' || c == '\U{C}' || c == '\r' || c == ' '
    || c == '\U{A0}' || c == '\U{1680}' || ('\U{2000}' <= c <= '\U{200A}')
    || c == '\U{2028}' || c == '\U{2029}' || c == '\U{202F}' || c == '\U{205F}'
    || c == '\U{3000}' || c == '\U{FEFF}'
  }

  predicate AllTrimmable(s: string)
  {
    forall k :: 0 <= k < |s| ==> IsTrimmable(s[k])
  }

  /** Length of the run of trimmable characters at the start of `s`. */
  function LeadingSpace(s: string): (n: nat)
    ensures n <= |s|
    ensures forall k :: 0 <= k < n ==> IsTrimmable(s[k])
    ensures n < |s| ==> !IsTrimmable(s[n])
  {
    if |s| > 0 && IsTrimmable(s[0]) then 1 + LeadingSpace(s[1..]) else 0
  }

  /** Length of the run of trimmable characters at the end of `s`. */
  function TrailingSpace(s: string): (n: nat)
    ensures n <= |s|
    ensures forall k :: |s| - n <= k < |s| ==> IsTrimmable(s[k])
    ensures n < |s| ==> !IsTrimmable(s[|s| - 1 - n])
  {
    if |s| > 0 && IsTrimmable(s[|s| - 1]) then 1 + TrailingSpace(s[..|s| - 1]) else 0
  }

  /**
   * `s.trim()`: the part of `s` left after removing leading and trailing
   * trimmable characters. The result is a contiguous piece of `s`, everything
   * of `s` before and after it is trimmable, and it neither starts nor ends
   * with a trimmable character; these facts determine it uniquely.
   */
  function Trim(s: string): (r: string)
    ensures LeadingSpace(s) + |r| <= |s|
    ensures r == s[LeadingSpace(s) .. LeadingSpace(s) + |r|]
    ensures forall k :: LeadingSpace(s) + |r| <= k < |s| ==> IsTrimmable(s[k])
    ensures r == [] <==> AllTrimmable(s)
    ensures r != [] ==> !IsTrimmable(r[0]) && !IsTrimmable(r[|r| - 1])
  {
    var lead := LeadingSpace(s);
    if lead == |s| then
      []
    else
      var trail := TrailingSpace(s);
      assert !IsTrimmable(s[lead]);
      s[lead .. |s| - trail]
  }

  /** Trimming twice is trimming once. */
  lemma TrimIdempotent(s: string)
    ensures Trim(Trim(s)) == Trim(s)
  {
    var r := Trim(s);
    if r != [] {
      assert LeadingSpace(r) == 0;
    }
  }

  predicate IsDigit(c: char)
  {
    '0' <= c <= '9'
  }

  predicate AllDigits(s: string)
  {
    forall k :: 0 <= k < |s| ==> IsDigit(s[k])
  }

  function DigitChar(d: nat): (c: char)
    requires d < 10
    ensures IsDigit(c) && c as int - '0' as int == d
  {
    ('0' as int + d) as char
  }

  function DigitValue(c: char): nat
    requires IsDigit(c)
  {
    c as int - '0' as int
  }

  /** The number a string of decimal digits denotes, most significant digit first. */
  function DigitsValue(s: string): nat
    requires AllDigits(s)
  {
    if s == [] then 0 else 10 * DigitsValue(s[..|s| - 1]) + DigitValue(s[|s| - 1])
  }

  function Pow10(k: nat): (p: nat)
    ensures p >= 1
  {
    if k == 0 then 1 else 10 * Pow10(k - 1)
  }

  /**
   * `n.toString()` for a non-negative integer: its decimal digits, with no
   * leading zero except for `0` itself.
   */
  function NatToString(n: nat): (s: string)
    ensures |s| >= 1 && AllDigits(s)
    ensures |s| > 1 ==> s[0] != '0'
  {
    if n < 10 then [DigitChar(n)] else NatToString(n / 10) + [DigitChar(n % 10)]
  }

  /**
   * `s.slice(-k)` for `k >= 1`: the last `k` characters, or all of `s` when
   * it is shorter. At `k == 0` this gives the empty string, while JavaScript
   * reads `-0` as `0` and `slice(-0)` gives all of `s`.
   */
  function SliceLast(s: string, k: nat): (r: string)
    ensures |r| == Min(k, |s|)
    ensures r == s[|s| - |r|..]
  {
    if k <= |s| then s[|s| - k..] else s
  }

  /** `s.slice(0, k)`: the first `k` characters, or all of `s` when it is shorter. */
  function SliceFirst<T>(s: seq<T>, k: nat): (r: seq<T>)
    ensures |r| == Min(k, |s|)
    ensures r == s[..|r|]
  {
    if k <= |s| then s[..k] else s
  }

  /** Appending a digit multiplies the value by ten and adds the digit. */
  lemma DigitsValueAppend(s: string, c: char)
    requires AllDigits(s) && IsDigit(c)
    ensures AllDigits(s + [c]) && DigitsValue(s + [c]) == 10 * DigitsValue(s) + DigitValue(c)
  {
    assert (s + [c])[..|s|] == s;
  }

  /** The string `n.toString()` reads back as `n`. */
  lemma {:induction false} NatToStringValue(n: nat)
    ensures DigitsValue(NatToString(n)) == n
  {
    if n >= 10 {
      NatToStringValue(n / 10);
      DigitsValueAppend(NatToString(n / 10), DigitChar(n % 10));
    }
  }

  /** `n` has fewer than `|n.toString()|` decimal digits' worth of magnitude. */
  lemma {:induction false} NatToStringBound(n: nat)
    ensures n < Pow10(|NatToString(n)|)
  {
    if n >= 10 {
      NatToStringBound(n / 10);
    }
  }

  lemma ModTen(n: nat, p: nat)
    requires p >= 1
    ensures 10 * ((n / 10) % p) + n % 10 == n % (10 * p)
  {
    var q, r := n / 10, n % 10;
    var a, b := q / p, q % p;
    assert q == p * a + b;
    assert n == 10 * q + r;
    assert n == (10 * p) * a + (10 * b + r);
    DivModUnique(n, 10 * p, a, 10 * b + r);
  }

  /** A number with no more digits than `k` is its own remainder modulo `10^k`. */
  lemma ShortValue(n: nat, k: nat)
    requires |NatToString(n)| <= k
    ensures n % Pow10(k) == n
  {
    NatToStringBound(n);
    PowMonotone(|NatToString(n)|, k);
    DivModUnique(n, Pow10(k), 0, n);
  }

  /** Keeping one more digit of `n` keeps one more digit of its quotient by ten. */
  lemma SliceLastStep(n: nat, k: nat)
    requires n >= 10 && 1 <= k <= |NatToString(n)|
    ensures SliceLast(NatToString(n), k) == SliceLast(NatToString(n / 10), k - 1) + [DigitChar(n % 10)]
  {
    var t, d := NatToString(n / 10), DigitChar(n % 10);
    SuffixOfAppend(t, d, k);
  }

  lemma SuffixOfAppend(t: string, d: char, k: nat)
    requires 1 <= k <= |t| + 1
    ensures SliceLast(t + [d], k) == SliceLast(t, k - 1) + [d]
  {
    var s := t + [d];
    assert SliceLast(s, k) == s[|s| - k..];
    assert SliceLast(t, k - 1) == t[|t| - (k - 1)..];
    assert s[|s| - k..] == t[|t| - (k - 1)..] + [d];
  }

  /**
   * The last `k` characters of `n.toString()` denote `n` modulo `10^k`:
   * `Date.now().toString().slice(-6)` keeps the clock modulo one million.
   */
  lemma {:induction false} SliceLastValue(n: nat, k: nat)
    ensures AllDigits(SliceLast(NatToString(n), k))
    ensures DigitsValue(SliceLast(NatToString(n), k)) == n % Pow10(k)
  {
    var s := NatToString(n);
    if k == 0 {
      assert SliceLast(s, k) == [];
    } else if k >= |s| {
      assert SliceLast(s, k) == s;
      NatToStringValue(n);
      ShortValue(n, k);
    } else {
      var t := SliceLast(NatToString(n / 10), k - 1);
      var d := DigitChar(n % 10);
      SliceLastStep(n, k);
      SliceLastValue(n / 10, k - 1);
      DigitsValueAppend(t, d);
      ModTen(n, Pow10(k - 1));
    }
  }

  lemma {:induction false} PowMonotone(i: nat, j: nat)
    requires i <= j
    ensures Pow10(i) <= Pow10(j)
  {
    if i < j {
      PowMonotone(i, j - 1);
    }
  }
}
