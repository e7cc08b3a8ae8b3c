/**
 * PHP string built-ins the cache layer relies on, over `string` (one char per byte):
 * `str_replace` of one character, `strtolower`/`strtoupper`, integer <-> decimal text
 * (the `(int)` cast and string interpolation of integers) and `explode`.
 */
module Strings {
  import opened Wrappers

  /** `Nette\Caching\Cache::NAMESPACE_SEPARATOR`, the NUL byte. */
  const NUL: char := 0 as char
  const CRLF: string := "\r\n"

  /** `str_replace(c, r, s)` for a one-character needle. */
  function ReplaceChar(s: string, c: char, r: string): (t: string)
    ensures c !in r ==> c !in t
    ensures c !in s ==> t == s
    ensures forall x :: x in t && x != c && x !in r ==> x in s
    decreases |s|
  {
    if s == [] then []
    else (if s[0] == c then r else [s[0]]) + ReplaceChar(s[1..], c, r)
  }

  lemma ReplaceCharAppend(a: string, b: string, c: char, r: string)
    ensures ReplaceChar(a + b, c, r) == ReplaceChar(a, c, r) + ReplaceChar(b, c, r)
    decreases |a|
  {
    if a == [] {
      assert a + b == b;
    } else {
      assert (a + b)[0] == a[0];
      assert (a + b)[1..] == a[1..] + b;
      ReplaceCharAppend(a[1..], b, c, r);
    }
  }

  lemma AppendAssoc(a: string, b: string, c: string)
    ensures (a + b) + c == a + (b + c)
  {
  }

  function LowerChar(c: char): char {
    if 'A' <= c <= 'Z' then (c as int + 32) as char else c
  }

  function UpperChar(c: char): char {
    if 'a' <= c <= 'z' then (c as int - 32) as char else c
  }

  /** `strtolower` (ASCII). */
  function Lower(s: string): (t: string)
    ensures |t| == |s|
    ensures forall i :: 0 <= i < |s| ==> t[i] == LowerChar(s[i])
  {
    seq(|s|, i requires 0 <= i < |s| => LowerChar(s[i]))
  }

  /** `strtoupper` (ASCII). */
  function Upper(s: string): (t: string)
    ensures |t| == |s|
    ensures forall i :: 0 <= i < |s| ==> t[i] == UpperChar(s[i])
  {
    seq(|s|, i requires 0 <= i < |s| => UpperChar(s[i]))
  }

  lemma LowerIdempotent(s: string)
    ensures Lower(Lower(s)) == Lower(s)
  {
    assert forall i :: 0 <= i < |s| ==> LowerChar(LowerChar(s[i])) == LowerChar(s[i]);
  }

  // ---------------------------------------------------------------------------------
  // Decimal text of integers

  predicate IsDigit(c: char) { '0' <= c <= '9' }

  function DigitValue(c: char): nat
    requires IsDigit(c)
  {
    c as int - '0' as int
  }

  function DigitChar(d: nat): (c: char)
    requires d < 10
    ensures IsDigit(c) && DigitValue(c) == d
  {
    ('0' as int + d) as char
  }

  predicate AllDigits(s: string) {
    forall i :: 0 <= i < |s| ==> IsDigit(s[i])
  }

  /** The value of a run of decimal digits (an empty run is 0). */
  function DecimalValue(ds: string): nat
    requires AllDigits(ds)
    decreases |ds|
  {
    if ds == [] then 0
    else 10 * DecimalValue(ds[..|ds| - 1]) + DigitValue(ds[|ds| - 1])
  }

  /** Decimal text of a natural number, as PHP prints it. */
  function NatToString(n: nat): (s: string)
    ensures |s| > 0 && AllDigits(s)
    decreases n
  {
    if n < 10 then [DigitChar(n)] else NatToString(n / 10) + [DigitChar(n % 10)]
  }

  /** Decimal text of an integer, as PHP prints it (`'-'` then the digits when negative). */
  function IntToString(i: int): (s: string)
    ensures |s| > 0
    ensures ':' !in s && ',' !in s && '\r' !in s && '\n' !in s && NUL !in s
  {
    var t := if i < 0 then "-" + NatToString(-i) else NatToString(i);
    assert forall k :: 0 <= k < |t| ==> t[k] == '-' || IsDigit(t[k]);
    t
  }

  /** The longest prefix of `s` made of decimal digits. */
  function DigitPrefix(s: string): (p: string)
    ensures AllDigits(p) && p <= s
    ensures |p| < |s| ==> !IsDigit(s[|p|])
    decreases |s|
  {
    if s != [] && IsDigit(s[0]) then [s[0]] + DigitPrefix(s[1..]) else []
  }

  predicate IsSpace(c: char) {
    c == ' ' || c == '\t' || c == '\n' || c == '\r' || c == 11 as char || c == 12 as char
  }

  function SkipSpace(s: string): (t: string)
    ensures |t| <= |s| && t == s[|s| - |t|..]
    ensures t != [] ==> !IsSpace(t[0])
    decreases |s|
  {
    if s != [] && IsSpace(s[0]) then SkipSpace(s[1..]) else s
  }

  /**
   * PHP's `(int)` cast of a string: leading white space, an optional sign and the longest
   * run of digits; anything else (including no digits at all) reads as 0.
   */
  function ParseInt(s: string): int {
    var t := SkipSpace(s);
    if t != [] && t[0] == '-' then -(DecimalValue(DigitPrefix(t[1..])) as int)
    else if t != [] && t[0] == '+' then DecimalValue(DigitPrefix(t[1..]))
    else DecimalValue(DigitPrefix(t))
  }

  /** `(int) NULL` is 0. */
  function ParseIntOpt(s: Option<string>): int {
    match s
    case None => 0
    case Some(t) => ParseInt(t)
  }

  lemma {:induction false} DecimalValueOfNatToString(n: nat)
    ensures DecimalValue(NatToString(n)) == n
    decreases n
  {
    var s := NatToString(n);
    if n >= 10 {
      DecimalValueOfNatToString(n / 10);
      assert s[..|s| - 1] == NatToString(n / 10);
    }
  }

  lemma DigitPrefixOfDigits(s: string)
    requires AllDigits(s)
    ensures DigitPrefix(s) == s
    decreases |s|
  {
    if s != [] {
      DigitPrefixOfDigits(s[1..]);
    }
  }

  lemma ParseIntOfDigits(n: nat)
    ensures ParseInt(NatToString(n)) == n
  {
    var digits := NatToString(n);
    DecimalValueOfNatToString(n);
    DigitPrefixOfDigits(digits);
    assert IsDigit(digits[0]) && !IsSpace(digits[0]);
    assert SkipSpace(digits) == digits;
    assert digits[0] != '-' && digits[0] != '+';
  }

  lemma ParseIntOfNegative(n: nat)
    requires n > 0
    ensures ParseInt("-" + NatToString(n)) == -(n as int)
  {
    var digits := NatToString(n);
    var t := "-" + digits;
    DecimalValueOfNatToString(n);
    DigitPrefixOfDigits(digits);
    assert t[0] == '-' && !IsSpace(t[0]);
    assert SkipSpace(t) == t;
    assert t[1..] == digits;
  }

  /** Integers written with `IntToString` read back unchanged through the `(int)` cast. */
  lemma ParseIntOfIntToString(i: int)
    ensures ParseInt(IntToString(i)) == i
  {
    if i < 0 {
      ParseIntOfNegative(-i);
    } else {
      ParseIntOfDigits(i);
    }
  }

  lemma NatToStringInjective(m: nat, n: nat)
    requires NatToString(m) == NatToString(n)
    ensures m == n
  {
    DecimalValueOfNatToString(m);
    DecimalValueOfNatToString(n);
  }

  lemma IntToStringInjective(i: int, j: int)
    requires IntToString(i) == IntToString(j)
    ensures i == j
  {
    ParseIntOfIntToString(i);
    ParseIntOfIntToString(j);
  }

  // ---------------------------------------------------------------------------------
  // explode

  /** Index of the first occurrence of `c` in `s`, if any. */
  function IndexOf(s: string, c: char): (r: Option<nat>)
    ensures r.Some? ==> r.value < |s| && s[r.value] == c && c !in s[..r.value]
    ensures r.None? ==> c !in s
    decreases |s|
  {
    if s == [] then None
    else if s[0] == c then Some(0)
    else match IndexOf(s[1..], c)
      case None => None
      case Some(i) => Some(i + 1)
  }

  /**
   * `explode(c, s, 2) + [NULL, NULL]`: the text before the first `c`, and the text after it,
   * or NULL when `s` holds no `c`.
   */
  function SplitFirst(s: string, c: char): (r: (string, Option<string>))
    ensures r.1.None? <==> c !in s
    ensures r.1.None? ==> r.0 == s
    ensures r.1.Some? ==> s == r.0 + [c] + r.1.value && c !in r.0
  {
    match IndexOf(s, c)
    case None => (s, None)
    case Some(i) => (s[..i], Some(s[i + 1..]))
  }

  lemma {:induction false} IndexOfJoin(a: string, c: char, b: string)
    requires c !in a
    ensures IndexOf(a + [c] + b, c) == Some(|a|)
    decreases |a|
  {
    if a != [] {
      assert (a + [c] + b)[1..] == a[1..] + [c] + b;
      IndexOfJoin(a[1..], c, b);
    }
  }

  /** Splitting at the first `c` recovers the part before it and everything after it, even when that holds `c`. */
  lemma SplitFirstOfJoin(a: string, c: char, b: string)
    requires c !in a
    ensures SplitFirst(a + [c] + b, c) == (a, Some(b))
  {
    var s := a + [c] + b;
    IndexOfJoin(a, c, b);
    assert s[..|a|] == a;
    assert s[|a| + 1..] == b;
  }

  /** `explode(c, s)`: the pieces of `s` between occurrences of `c`. */
  function Split(s: string, c: char): (parts: seq<string>)
    ensures |parts| > 0
    ensures forall k :: 0 <= k < |parts| ==> c !in parts[k]
    decreases |s|
  {
    match IndexOf(s, c)
    case None => [s]
    case Some(i) => [s[..i]] + Split(s[i + 1..], c)
  }

  /** A CRLF pair starts at `k`. */
  predicate CrlfAt(s: string, k: int) {
    0 <= k && k + 1 < |s| && s[k] == '\r' && s[k + 1] == '\n'
  }

  lemma CrlfShift(s: string)
    requires s != []
    ensures forall k :: 1 <= k ==> (CrlfAt(s, k) <==> CrlfAt(s[1..], k - 1))
  {
  }

  /** Index of the first CRLF pair in `s`, if any. */
  function IndexOfCrlf(s: string): (r: Option<nat>)
    ensures r.Some? ==> CrlfAt(s, r.value) && forall k :: 0 <= k < r.value ==> !CrlfAt(s, k)
    ensures r.None? ==> forall k :: !CrlfAt(s, k)
    decreases |s|
  {
    if |s| < 2 then None
    else if s[0] == '\r' && s[1] == '\n' then Some(0)
    else
      CrlfShift(s);
      match IndexOfCrlf(s[1..])
      case None => None
      case Some(i) => Some(i + 1)
  }

  /** `explode("\r\n", s)`. */
  function SplitLines(s: string): (rows: seq<string>)
    ensures |rows| > 0
    decreases |s|
  {
    match IndexOfCrlf(s)
    case None => [s]
    case Some(i) => [s[..i]] + SplitLines(s[i + 2..])
  }

  /** PHP's `empty()` of a string: the empty string and `"0"`. */
  predicate Empty(s: string) {
    s == "" || s == "0"
  }
  /** Two strings with different last characters stay different under any prefixes. */
  lemma SuffixesDiffer(a: string, x: string, b: string, y: string)
    requires |x| > 0 && |y| > 0 && x[|x| - 1] != y[|y| - 1]
    ensures a + x != b + y
  {
    assert (a + x)[|a + x| - 1] == x[|x| - 1];
    assert (b + y)[|b + y| - 1] == y[|y| - 1];
  }

  /** Two strings whose endings disagree stay different under any prefixes. */
  lemma SuffixMismatch(a: string, x: string, b: string, y: string)
    requires |x| <= |y| && x != y[|y| - |x|..]
    ensures a + x != b + y
  {
    assert (a + x)[|a + x| - |x|..] == x;
    assert (b + y)[|b + y| - |x|..] == y[|y| - |x|..];
  }

  /** Prepending the same prefix is injective. */
  lemma PrefixCancels(x: string, a: string, b: string)
    requires x + a == x + b
    ensures a == b
  {
    assert a == (x + a)[|x|..];
    assert b == (x + b)[|x|..];
  }

  /** Appending the same suffix is injective. */
  lemma SuffixCancels(a: string, b: string, x: string)
    requires a + x == b + x
    ensures a == b
  {
    assert |a| == |b|;
    assert a == (a + x)[..|a|];
    assert b == (b + x)[..|b|];
  }
}

/** Sequence helpers: `array_unique` and duplicate-freedom. */
module Seqs {

  predicate NoDup(s: seq<string>) {
    forall i, j :: 0 <= i < j < |s| ==> s[i] != s[j]
  }

  function Elems(s: seq<string>): set<string> {
    set x | x in s
  }

  lemma PrefixSnoc(s: seq<string>, i: nat)
    requires i < |s|
    ensures s[..i + 1] == s[..i] + [s[i]]
  {
  }

  lemma ElemsSnoc(s: seq<string>, i: nat)
    requires i < |s|
    ensures Elems(s[..i + 1]) == Elems(s[..i]) + {s[i]}
  {
    assert s[..i + 1] == s[..i] + [s[i]];
  }

  lemma ElemsAppend(s: seq<string>, t: seq<string>)
    ensures Elems(s + t) == Elems(s) + Elems(t)
  {
  }

  function DedupFrom(s: seq<string>, seen: set<string>): (r: seq<string>)
    ensures forall x :: x in r <==> x in s && x !in seen
    ensures NoDup(r)
    decreases |s|
  {
    if s == [] then []
    else if s[0] in seen then DedupFrom(s[1..], seen)
    else
      var rest := DedupFrom(s[1..], seen + {s[0]});
      assert forall i :: 0 <= i < |rest| ==> rest[i] != s[0];
      [s[0]] + rest
  }

  /** `array_unique`: the first occurrence of each value, in order. */
  function Dedup(s: seq<string>): (r: seq<string>)
    ensures forall x :: x in r <==> x in s
    ensures NoDup(r)
  {
    DedupFrom(s, {})
  }

  lemma {:induction false} DedupFromNoDup(s: seq<string>, seen: set<string>)
    requires NoDup(s) && forall x :: x in s ==> x !in seen
    ensures DedupFrom(s, seen) == s
    decreases |s|
  {
    if s != [] {
      assert forall x :: x in s[1..] ==> x !in seen + {s[0]} by {
        forall x | x in s[1..] ensures x !in seen + {s[0]} {
          var k :| 0 <= k < |s[1..]| && s[1..][k] == x;
          assert s[k + 1] == x;
        }
      }
      DedupFromNoDup(s[1..], seen + {s[0]});
    }
  }

  /** `array_unique` leaves a duplicate-free list as it is. */
  lemma DedupOfNoDup(s: seq<string>)
    requires NoDup(s)
    ensures Dedup(s) == s
  {
    DedupFromNoDup(s, {});
  }
}
