/** Text primitives the modelled code takes from Rust's standard library:
    decimal digits, `str::parse` for signed integers, `{}` rendering of
    integers, and `str::split` on a single character.
 */
module Text {
  import opened Outcomes

  const I32_MIN: int := -0x8000_0000
  const I32_MAX: int := 0x7FFF_FFFF
  const I64_MIN: int := -0x8000_0000_0000_0000
  const I64_MAX: int := 0x7FFF_FFFF_FFFF_FFFF

  predicate IsDigit(c: char) { '0' <= c <= '9' }

  /** The ASCII letters, which is what `[[:alpha:]]` matches in Rust's regex crate. */
  predicate IsAlpha(c: char) { 'a' <= c <= 'z' || 'A' <= c <= 'Z' }

  predicate AllDigits(s: string) { forall i :: 0 <= i < |s| ==> IsDigit(s[i]) }

  predicate EndsWith(s: string, suffix: string) {
    |suffix| <= |s| && s[|s| - |suffix|..] == suffix
  }

  predicate StartsWith(s: string, prefix: string) {
    |prefix| <= |s| && s[..|prefix|] == prefix
  }

  function DigitValue(c: char): (d: nat)
    requires IsDigit(c)
    ensures d < 10
  {
    (c as int) - ('0' as int)
  }

  function DigitChar(d: nat): (c: char)
    requires d < 10
    ensures IsDigit(c) && DigitValue(c) == d
  {
    (('0' as int) + d) as char
  }

  /** The value of a run of decimal digits, most significant digit first. */
  function DigitsValue(s: string): nat
    requires AllDigits(s)
  {
    if s == [] then 0 else DigitsValue(s[..|s| - 1]) * 10 + DigitValue(s[|s| - 1])
  }

  /** Number of leading digits of `s`: the run a greedy `\d+` or `\d*` consumes. */
  function LeadingDigits(s: string): (n: nat)
    ensures n <= |s|
    ensures AllDigits(s[..n])
    ensures n < |s| ==> !IsDigit(s[n])
  {
    if s == [] || !IsDigit(s[0]) then 0
    else
      var n := 1 + LeadingDigits(s[1..]);
      assert s[..n] == [s[0]] + s[1..][..n - 1];
      n
  }

  /** A digit run followed by a non-digit (or nothing) is exactly what `LeadingDigits` counts. */
  lemma {:induction false} LeadingDigitsOf(digits: string, rest: string)
    requires AllDigits(digits) && (rest == [] || !IsDigit(rest[0]))
    ensures LeadingDigits(digits + rest) == |digits|
    decreases |digits|
  {
    if digits != [] {
      assert (digits + rest)[1..] == digits[1..] + rest;
      LeadingDigitsOf(digits[1..], rest);
    }
  }

  /** Rust's `{}` rendering of a non-negative integer: no sign, no leading zero. */
  function Decimal(n: nat): (r: string)
    ensures r != [] && AllDigits(r)
    ensures DigitsValue(r) == n
    ensures |r| == 1 <==> n < 10
    ensures |r| > 1 ==> r[0] != '0'
  {
    if n < 10 then [DigitChar(n)]
    else
      var r := Decimal(n / 10) + [DigitChar(n % 10)];
      assert r[..|r| - 1] == Decimal(n / 10);
      r
  }

  /** A leading '0' does not change the value of a digit run. */
  lemma {:induction false} LeadingZero(s: string)
    requires AllDigits(s)
    ensures AllDigits("0" + s) && DigitsValue("0" + s) == DigitsValue(s)
  {
    if s != [] {
      var z := "0" + s;
      assert z[..|z| - 1] == "0" + s[..|s| - 1];
      LeadingZero(s[..|s| - 1]);
    }
  }

  /** Rust's `{}` rendering of any integer: a '-' before the magnitude when negative. */
  function IntegerText(n: int): (r: string)
    ensures r != [] && (r[0] == '-' <==> n < 0)
    ensures n >= 0 ==> AllDigits(r) && DigitsValue(r) == n
    ensures n < 0 ==> AllDigits(r[1..]) && DigitsValue(r[1..]) == -n
    ensures n >= 0 && |r| > 1 ==> r[0] != '0'
    ensures n < 0 ==> |r| >= 2 && r[1] != '0'
  {
    if n < 0 then
      var r := "-" + Decimal(-n);
      assert r[1..] == Decimal(-n);
      r
    else Decimal(n)
  }

  /** Rust's `str::parse` for a signed integer type whose range is `lo..=hi`:
      an optional '+' or '-', then one or more ASCII digits and nothing else;
      a value outside the range is an error as well.
   */
  function ParseInteger(s: string, lo: int, hi: int): (r: Option<int>)
    ensures r.Some? ==> lo <= r.value <= hi
    ensures r.Some? ==> s != [] && (AllDigits(s) || (s[0] in "+-" && |s| >= 2 && AllDigits(s[1..])))
    ensures r.Some? && r.value < 0 ==> s[0] == '-'
  {
    var signed := |s| > 0 && (s[0] == '-' || s[0] == '+');
    var digits := if signed then s[1..] else s;
    if digits == [] || !AllDigits(digits) then None
    else
      var v: int := if signed && s[0] == '-' then -(DigitsValue(digits) as int) else DigitsValue(digits);
      if lo <= v <= hi then Some(v) else None
  }

  /** Parsing a rendered integer gives it back, whatever the range that contains it. */
  lemma ParseIntegerText(n: int, lo: int, hi: int)
    requires lo <= n <= hi
    ensures ParseInteger(IntegerText(n), lo, hi) == Some(n)
  {
    var s := IntegerText(n);
    if n < 0 {
      var d := Decimal(-n);
      assert s == "-" + d;
      assert s[0] == '-' && s[1..] == d;
      assert DigitsValue(d) == -n;
    } else {
      assert s == Decimal(n);
      assert IsDigit(s[0]);
      ParseDigits(s, lo, hi);
    }
  }

  /** A '+' before a digit run changes nothing; a '-' negates its value, which
      must then lie in the range. So "+5" parses as 5 and "-05" as -5. */
  lemma ParseSigned(digits: string, lo: int, hi: int)
    requires digits != [] && AllDigits(digits)
    ensures ParseInteger("+" + digits, lo, hi) == ParseInteger(digits, lo, hi)
    ensures ParseInteger("-" + digits, lo, hi) ==
              if lo <= -(DigitsValue(digits) as int) <= hi then Some(-(DigitsValue(digits) as int)) else None
  {
    assert ("+" + digits)[1..] == digits;
    assert ("-" + digits)[1..] == digits;
    ParseDigits(digits, lo, hi);
  }

  /** A bare digit run (no sign) parses to its own value when that value is in range,
      and fails otherwise. */
  lemma ParseDigits(s: string, lo: int, hi: int)
    requires s != [] && AllDigits(s)
    ensures ParseInteger(s, lo, hi) == if lo <= DigitsValue(s) <= hi then Some(DigitsValue(s)) else None
  {
    assert IsDigit(s[0]);
  }

  /** Position of the last occurrence of `c` in `s`. */
  function LastIndexOf(s: string, c: char): (r: Option<nat>)
    ensures r.None? <==> c !in s
    ensures r.Some? ==> r.value < |s| && s[r.value] == c && c !in s[r.value + 1..]
  {
    if s == [] then None
    else if s[|s| - 1] == c then Some(|s| - 1)
    else
      var r := LastIndexOf(s[..|s| - 1], c);
      assert r.Some? ==> s[r.value + 1..] == s[..|s| - 1][r.value + 1..] + [s[|s| - 1]];
      assert c in s[..|s| - 1] <==> c in s;
      r
  }

  /** Rust's `s.split(sep).collect()`: the pieces between occurrences of `sep`,
      in order; there is always at least one piece.
   */
  function Split(s: string, sep: char): (parts: seq<string>)
    ensures |parts| >= 1
    ensures |parts| == 1 <==> sep !in s
    ensures forall i :: 0 <= i < |parts| ==> sep !in parts[i]
    decreases |s|
  {
    match LastIndexOf(s, sep)
    case None => [s]
    case Some(k) => Split(s[..k], sep) + [s[k + 1..]]
  }

  /** The inverse of `Split`: the pieces with `sep` between each neighbouring pair. */
  function Join(parts: seq<string>, sep: char): string
  {
    if parts == [] then ""
    else if |parts| == 1 then parts[0]
    else Join(parts[..|parts| - 1], sep) + [sep] + parts[|parts| - 1]
  }

  lemma {:induction false} JoinSplit(s: string, sep: char)
    ensures Join(Split(s, sep), sep) == s
    decreases |s|
  {
    match LastIndexOf(s, sep)
    case None =>
    case Some(k) =>
      var init, last := s[..k], s[k + 1..];
      assert s == init + [sep] + last;
      SplitAppend(init, sep, last);
      JoinSplit(init, sep);
      JoinSnoc(Split(init, sep), last, sep);
  }

  lemma JoinSnoc(front: seq<string>, last: string, sep: char)
    requires front != []
    ensures Join(front + [last], sep) == Join(front, sep) + [sep] + last
  {
    assert (front + [last])[..|front|] == front;
  }

  /** Splitting text that ends in `sep` and a separator-free piece gives the
      split of what comes before, then that piece. */
  lemma SplitAppend(s: string, sep: char, last: string)
    requires sep !in last
    ensures Split(s + [sep] + last, sep) == Split(s, sep) + [last]
  {
    var x := s + [sep] + last;
    assert x[|s|] == sep;
    assert x[|s| + 1..] == last;
    var k := LastIndexOf(x, sep).value;
    assert x[..k] == s;
    assert x[k + 1..] == last;
  }

  /** A text ending in `a`, `sep`, `b` (after nothing, or after `sep`), with
      neither piece holding `sep`, splits into pieces ending in `a` and `b`. */
  lemma SplitEndsWithPieces(dir: string, sep: char, a: string, b: string)
    requires sep !in a && sep !in b
    requires dir == [] || dir[|dir| - 1] == sep
    ensures var parts := Split(dir + a + [sep] + b, sep);
            |parts| >= 2 && parts[|parts| - 2] == a && parts[|parts| - 1] == b
  {
    SplitAppend(dir + a, sep, b);
    SplitEndsWithPiece(dir, sep, a);
  }

  lemma SplitEndsWithPiece(dir: string, sep: char, a: string)
    requires sep !in a
    requires dir == [] || dir[|dir| - 1] == sep
    ensures var parts := Split(dir + a, sep);
            parts[|parts| - 1] == a
  {
    if dir == [] {
      assert dir + a == a;
    } else {
      var d := dir[..|dir| - 1];
      assert dir + a == d + [sep] + a;
      SplitAppend(d, sep, a);
    }
  }

  /** The last two pieces of a split, with the separator between them, end the text. */
  lemma SplitLastTwo(s: string, sep: char)
    requires sep in s
    ensures var parts := Split(s, sep);
            |parts| >= 2 && EndsWith(s, parts[|parts| - 2] + [sep] + parts[|parts| - 1])
  {
    var k := LastIndexOf(s, sep).value;
    var front := Split(s[..k], sep);
    assert Split(s, sep) == front + [s[k + 1..]];
    SplitLastIsSuffix(s[..k], sep);
    SuffixAcrossSeparator(s, k, front[|front| - 1]);
  }

  lemma SuffixAcrossSeparator(s: string, k: nat, prev: string)
    requires k < |s| && EndsWith(s[..k], prev)
    ensures EndsWith(s, prev + [s[k]] + s[k + 1..])
  {
    assert s[|s| - (|prev| + 1 + |s[k + 1..]|)..] == s[..k][k - |prev|..] + [s[k]] + s[k + 1..];
  }

  /** The last piece of a split ends the text. */
  lemma SplitLastIsSuffix(s: string, sep: char)
    ensures var parts := Split(s, sep);
            EndsWith(s, parts[|parts| - 1])
  {
    match LastIndexOf(s, sep)
    case None =>
    case Some(k) =>
      assert Split(s, sep)[|Split(s, sep)| - 1] == s[k + 1..];
  }
}
