/** The few operations on Kotlin strings (`substringBefore`, `split`, `contains`, a digit run)
    that the model needs, over `seq<char>`. */
module Strings {
  import opened Wrappers

  /** Index of the first occurrence of `c` in `s`, as Kotlin's `indexOf(c)` (which gives -1 for None). */
  function IndexOf(s: string, c: char): (r: Option<nat>)
    ensures r.None? <==> c !in s
    ensures r.Some? ==> r.value < |s| && s[r.value] == c && c !in s[..r.value]
  {
    if |s| == 0 then None
    else if s[0] == c then Some(0)
    else match IndexOf(s[1..], c)
      case None => None
      case Some(i) =>
        assert s[1..][..i] == s[1..i + 1];
        Some(i + 1)
  }

  /** Kotlin's `substringBefore(c)`: the text before the first `c`, or all of `s` when there is none. */
  function SubstringBefore(s: string, c: char): string {
    match IndexOf(s, c)
    case None => s
    case Some(i) => s[..i]
  }

  /** Kotlin's `substringAfter(c)`: the text after the first `c`, or all of `s` when there is none. */
  function SubstringAfter(s: string, c: char): string {
    match IndexOf(s, c)
    case None => s
    case Some(i) => s[i + 1..]
  }

  lemma SubstringsAroundDelimiter(s: string, c: char)
    ensures c in s ==> SubstringBefore(s, c) + [c] + SubstringAfter(s, c) == s
    ensures c in s ==> c !in SubstringBefore(s, c)
    ensures c !in s ==> SubstringBefore(s, c) == s && SubstringAfter(s, c) == s
  {
    if c in s {
      var i := IndexOf(s, c).value;
      assert s[..i] + [c] + s[i + 1..] == s;
    }
  }

  /** Joins `parts` with the delimiter `c` between consecutive parts. */
  function Join(parts: seq<string>, c: char): string
    requires |parts| > 0
  {
    if |parts| == 1 then parts[0] else parts[0] + [c] + Join(parts[1..], c)
  }

  /** Kotlin's `split(c)` on a one-character delimiter: every delimiter cuts, so empty parts are kept
      ("a,,b," gives "a", "", "b", ""). */
  function Split(s: string, c: char): (parts: seq<string>)
    ensures |parts| > 0 && Join(parts, c) == s
    ensures forall k :: 0 <= k < |parts| ==> c !in parts[k]
    decreases |s|
  {
    match IndexOf(s, c)
    case None => [s]
    case Some(i) =>
      var rest := Split(s[i + 1..], c);
      assert ([s[..i]] + rest)[1..] == rest;
      assert s[..i] + [c] + s[i + 1..] == s;
      [s[..i]] + rest
  }

  /** `sub` occurs in `s` starting at position `i`. */
  predicate OccursAt(s: string, sub: string, i: nat) {
    i + |sub| <= |s| && s[i..i + |sub|] == sub
  }

  /** Kotlin's `contains(sub)`. */
  function Contains(s: string, sub: string): (b: bool)
    ensures b <==> exists i: nat :: OccursAt(s, sub, i)
    decreases |s|
  {
    if |sub| <= |s| && s[..|sub|] == sub then
      assert OccursAt(s, sub, 0);
      true
    else if |s| == 0 then
      assert forall i: nat :: !OccursAt(s, sub, i);
      false
    else
      var b := Contains(s[1..], sub);
      assert forall i: nat :: OccursAt(s[1..], sub, i) <==> OccursAt(s, sub, i + 1) by {
        forall i: nat ensures OccursAt(s[1..], sub, i) <==> OccursAt(s, sub, i + 1) {
          if i + |sub| <= |s[1..]| {
            assert s[1..][i..i + |sub|] == s[i + 1..i + 1 + |sub|];
          }
        }
      }
      assert !OccursAt(s, sub, 0);
      assert forall i: nat :: OccursAt(s, sub, i) ==> i > 0 && OccursAt(s[1..], sub, i - 1);
      b
  }

  /** `\d` of a Java regular expression without the Unicode flag: an ASCII digit. */
  predicate IsDigit(ch: char) {
    '0' <= ch <= '9'
  }

  predicate AllDigits(s: string) {
    forall k :: 0 <= k < |s| ==> IsDigit(s[k])
  }

  /** The longest prefix of `s` made of digits (what a greedy `\d+` or `\d*` consumes). */
  function DigitRun(s: string): (d: string)
    ensures |d| <= |s| && d == s[..|d|] && AllDigits(d)
    ensures |d| == |s| || !IsDigit(s[|d|])
  {
    if |s| == 0 || !IsDigit(s[0]) then []
    else
      var rest := DigitRun(s[1..]);
      assert s[..|rest| + 1] == [s[0]] + s[1..][..|rest|];
      [s[0]] + rest
  }

  /** The value of one decimal digit. */
  function DigitOf(ch: char): nat
    requires IsDigit(ch)
  {
    ch as int - '0' as int
  }

  /** Kotlin's `toInt()` on a string of decimal digits, without the 32-bit range check. */
  function DigitsValue(d: string): nat
    requires AllDigits(d)
  {
    if |d| == 0 then 0
    else DigitsValue(d[..|d| - 1]) * 10 + DigitOf(d[|d| - 1])
  }

  function Pow10(n: nat): nat {
    if n == 0 then 1 else 10 * Pow10(n - 1)
  }

  /** A run of `k` digits denotes a number below `10^k`. */
  lemma {:induction false} DigitsValueBound(d: string)
    requires AllDigits(d)
    ensures DigitsValue(d) < Pow10(|d|)
  {
    if |d| > 0 {
      DigitsValueBound(d[..|d| - 1]);
    }
  }

  /** Leading zeros do not change the number (`"007".toInt() == 7`). */
  lemma {:induction false} LeadingZeroIgnored(d: string)
    requires AllDigits(d)
    ensures AllDigits("0" + d) && DigitsValue("0" + d) == DigitsValue(d)
  {
    if |d| > 0 {
      LeadingZeroIgnored(d[..|d| - 1]);
      assert ("0" + d)[..|"0" + d| - 1] == "0" + d[..|d| - 1];
    }
  }

  /** The positional reading of a digit string: the sum over `i` of `d[i] * 10^(|d| - 1 - i)`,
      taken from the most significant digit down. */
  function PositionalValue(d: string): nat
    requires AllDigits(d)
  {
    if |d| == 0 then 0 else DigitOf(d[0]) * Pow10(|d| - 1) + PositionalValue(d[1..])
  }

  /** Appending a digit shifts the positional value one place and adds the digit. */
  lemma {:induction false} PositionalAppend(p: string, ch: char)
    requires AllDigits(p) && IsDigit(ch)
    ensures AllDigits(p + [ch]) && PositionalValue(p + [ch]) == PositionalValue(p) * 10 + DigitOf(ch)
  {
    var q := p + [ch];
    assert forall k :: 0 <= k < |p| ==> q[k] == p[k];
    assert q[|p|] == ch;
    if |p| > 0 {
      var t := p[1..];
      assert q[1..] == t + [ch];
      PositionalAppend(t, ch);
      var h, e := DigitOf(p[0]), Pow10(|p| - 1);
      assert PositionalValue(p) == h * e + PositionalValue(t);
      assert PositionalValue(q) == h * Pow10(|p|) + PositionalValue(t + [ch]);
      ShiftPlace(h, e);
    } else {
      assert q[1..] == [];
    }
  }

  /** Helper for `PositionalAppend`: shifting a digit's place value one place left. */
  lemma ShiftPlace(h: nat, e: nat)
    ensures h * (10 * e) == (h * e) * 10
  {
  }

  /** The fold `DigitsValue` is the positional value of the digits, so `toInt()` reads a page
      number in base 10 with the most significant digit first. */
  lemma {:induction false} DigitsValuePositional(d: string)
    requires AllDigits(d)
    ensures DigitsValue(d) == PositionalValue(d)
  {
    if |d| > 0 {
      var p := d[..|d| - 1];
      DigitsValuePositional(p);
      PositionalAppend(p, d[|d| - 1]);
      assert p + [d[|d| - 1]] == d;
    }
  }

  /** `"42".toInt() == 42`. */
  lemma DigitsValueExample()
    ensures DigitsValue("42") == 42
  {
    assert "42"[..1] == "4";
    assert "4"[..0] == "";
  }
}
