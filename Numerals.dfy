/**
 * Positional numerals in bases 2 to 16 with lowercase digits, the way Rust's
 * `{:?}` prints an unsigned integer (base 10), Python's `str` prints a
 * non-negative `int` (base 10) and Rust's `char::escape_debug` prints a code
 * point (base 16). `Render` writes a number, `ParseLeading` reads one back
 * from the front of a string.
 */
module Numerals {
  import opened Wrappers

  /** The value of a digit character; upper-case letters are read as well. */
  function DigitValue(c: char): (r: Option<nat>)
    ensures r.Some? ==> r.value < 16
    ensures r.Some? <==> ('0' <= c <= '9' || 'a' <= c <= 'f' || 'A' <= c <= 'F')
  {
    if '0' <= c <= '9' then Some(c as int - '0' as int)
    else if 'a' <= c <= 'f' then Some(c as int - 'a' as int + 10)
    else if 'A' <= c <= 'F' then Some(c as int - 'A' as int + 10)
    else None
  }

  /** The lowercase digit for `d`. */
  function DigitChar(d: nat): (c: char)
    requires d < 16
    ensures '0' <= c <= '9' || 'a' <= c <= 'f'
    ensures DigitValue(c) == Some(d)
  {
    if d < 10 then ('0' as int + d) as char else ('a' as int + d - 10) as char
  }

  predicate IsDigit(c: char, base: nat) {
    DigitValue(c).Some? && DigitValue(c).value < base
  }

  predicate AllDigits(s: string, base: nat) {
    forall i :: 0 <= i < |s| ==> IsDigit(s[i], base)
  }

  /** Euclidean division facts for one step of `Render`. */
  lemma DivStep(n: nat, base: nat)
    requires 2 <= base <= 16
    ensures n == (n / base) * base + n % base && n % base < base
    ensures n >= base ==> 1 <= n / base < n
  {
  }

  /** The shortest numeral for `n` in `base`: no leading zero except for 0 itself. */
  function Render(n: nat, base: nat): (r: string)
    requires 2 <= base <= 16
    ensures |r| >= 1 && AllDigits(r, base)
    ensures |r| > 1 ==> r[0] != '0'
    ensures n < base <==> |r| == 1
    decreases n
  {
    DivStep(n, base);
    if n < base then [DigitChar(n)]
    else
      var head := Render(n / base, base);
      head + [DigitChar(n % base)]
  }

  /** The value of a string of digits, most significant first. */
  function Value(s: string, base: nat): nat
    requires AllDigits(s, base)
  {
    if s == [] then 0
    else Value(s[..|s| - 1], base) * base + DigitValue(s[|s| - 1]).value
  }

  lemma ValueSnoc(s: string, c: char, base: nat)
    requires AllDigits(s, base) && IsDigit(c, base)
    ensures AllDigits(s + [c], base)
    ensures Value(s + [c], base) == Value(s, base) * base + DigitValue(c).value
  {
  }

  lemma {:induction false} ValueRender(n: nat, base: nat)
    requires 2 <= base <= 16
    ensures Value(Render(n, base), base) == n
    decreases n
  {
    if n < base {
      assert Render(n, base) == [] + [DigitChar(n)];
      ValueSnoc([], DigitChar(n), base);
    } else {
      DivStep(n, base);
      var q, d := n / base, n % base;
      var head := Render(q, base);
      assert Render(n, base) == head + [DigitChar(d)];
      ValueRender(q, base);
      ValueSnoc(head, DigitChar(d), base);
    }
  }

  /** The length of the run of `base` digits at the front of `s`. */
  function DigitRun(s: string, base: nat): (k: nat)
    ensures k <= |s|
    ensures AllDigits(s[..k], base)
    ensures k < |s| ==> !IsDigit(s[k], base)
  {
    if s != [] && IsDigit(s[0], base) then
      var k := 1 + DigitRun(s[1..], base);
      assert s[..k] == [s[0]] + s[1..][..k - 1];
      k
    else 0
  }

  lemma {:induction false} DigitRunAppend(x: string, t: string, base: nat)
    requires AllDigits(x, base)
    requires t == [] || !IsDigit(t[0], base)
    ensures DigitRun(x + t, base) == |x|
  {
    if x != [] {
      assert (x + t)[1..] == x[1..] + t;
      DigitRunAppend(x[1..], t, base);
    } else {
      assert x + t == t;
    }
  }

  /** Reads the maximal numeral at the front of `s`; gives its value and what follows it. */
  function ParseLeading(s: string, base: nat): (r: Option<(nat, string)>)
    ensures r.Some? ==> |r.value.1| < |s| && r.value.1 == s[|s| - |r.value.1|..]
    ensures r.Some? <==> s != [] && IsDigit(s[0], base)
  {
    var k := DigitRun(s, base);
    if k == 0 then None else Some((Value(s[..k], base), s[k..]))
  }

  /** A whole string read as one numeral. */
  function Parse(s: string, base: nat): Option<nat> {
    match ParseLeading(s, base)
    case Some((n, rest)) => if rest == [] then Some(n) else None
    case None => None
  }

  lemma ParseLeadingRender(n: nat, base: nat, t: string)
    requires 2 <= base <= 16
    requires t == [] || !IsDigit(t[0], base)
    ensures ParseLeading(Render(n, base) + t, base) == Some((n, t))
  {
    var r := Render(n, base);
    DigitRunAppend(r, t, base);
    assert (r + t)[..|r|] == r;
    assert (r + t)[|r|..] == t;
    ValueRender(n, base);
  }

  lemma ParseRender(n: nat, base: nat)
    requires 2 <= base <= 16
    ensures Parse(Render(n, base), base) == Some(n)
  {
    ParseLeadingRender(n, base, []);
    assert Render(n, base) + [] == Render(n, base);
  }

  /** Base 10, as Rust's `{:?}` on an unsigned integer and Python's `str` on a non-negative `int`. */
  function Decimal(n: nat): (r: string)
    ensures AllDigits(r, 10) && |r| >= 1
    ensures |r| > 1 ==> r[0] != '0'
    ensures Parse(r, 10) == Some(n)
  {
    ParseRender(n, 10);
    Render(n, 10)
  }
}
