/**
  String operations the two pipelines rely on: prefix and suffix tests,
  joining with a separator and splitting at it again, and the decimal
  rendering of a natural number (Python's `str(n)`).
*/
module Text {
  import opened Wrappers

  /** `s.startswith(p)` */
  predicate IsPrefix(p: string, s: string) {
    |p| <= |s| && s[..|p|] == p
  }

  /** `s.endswith(p)` */
  predicate IsSuffix(p: string, s: string) {
    |p| <= |s| && s[|s| - |p|..] == p
  }

  /** `sep` occurs in `s` starting at index `j`. */
  predicate OccursAt(s: string, sep: string, j: nat) {
    j + |sep| <= |s| && s[j..j + |sep|] == sep
  }

  /**
    `sep` cannot be found starting inside `x`, even when `x` is followed by
    `sep` itself: splitting `x + sep + rest` at `sep` then cuts exactly after `x`.
  */
  predicate FreeOf(x: string, sep: string) {
    forall j: nat :: j < |x| ==> !OccursAt(x + sep, sep, j)
  }

  /** Python's `sep.join(parts)`. */
  function JoinWith(sep: string, parts: seq<string>): string {
    if |parts| == 0 then ""
    else if |parts| == 1 then parts[0]
    else parts[0] + sep + JoinWith(sep, parts[1..])
  }

  /** Python's `s.split(sep)`: cut at every occurrence of `sep`, scanning left to right. */
  function Split(s: string, sep: string): (r: seq<string>)
    requires |sep| > 0
    ensures |r| > 0
    decreases |s|
  {
    if |s| == 0 then [""]
    else if IsPrefix(sep, s) then [""] + Split(s[|sep|..], sep)
    else
      var rest := Split(s[1..], sep);
      [[s[0]] + rest[0]] + rest[1..]
  }

  lemma FreeOfTail(x: string, sep: string)
    requires |x| > 0 && FreeOf(x, sep)
    ensures FreeOf(x[1..], sep)
  {
    assert x[1..] + sep == (x + sep)[1..];
    forall j: nat | j < |x[1..]|
      ensures !OccursAt(x[1..] + sep, sep, j)
    {
      assert !OccursAt(x + sep, sep, j + 1);
      assert (x[1..] + sep)[j..j + |sep|] == (x + sep)[j + 1..j + 1 + |sep|];
    }
  }

  /** Splitting `x + sep + t` yields `x` first, then the pieces of `t`. */
  lemma {:induction false} SplitAfter(x: string, sep: string, t: string)
    requires |sep| > 0 && FreeOf(x, sep)
    ensures Split(x + sep + t, sep) == [x] + Split(t, sep)
    decreases |x|
  {
    var s := x + sep + t;
    if |x| == 0 {
      assert s == sep + t;
      assert s[..|sep|] == sep;
      assert s[|sep|..] == t;
    } else {
      assert !OccursAt(x + sep, sep, 0);
      assert s[..|sep|] == (x + sep)[0..|sep|];
      assert !IsPrefix(sep, s);
      FreeOfTail(x, sep);
      assert s[1..] == x[1..] + sep + t;
      SplitAfter(x[1..], sep, t);
      assert [s[0]] + x[1..] == x;
    }
  }

  /** A string free of `sep` splits into itself alone. */
  lemma {:induction false} SplitWhole(x: string, sep: string)
    requires |sep| > 0 && FreeOf(x, sep)
    ensures Split(x, sep) == [x]
    decreases |x|
  {
    if |x| > 0 {
      if |sep| <= |x| {
        assert !OccursAt(x + sep, sep, 0);
        assert x[..|sep|] == (x + sep)[0..|sep|];
      }
      assert !IsPrefix(sep, x);
      FreeOfTail(x, sep);
      SplitWhole(x[1..], sep);
      assert [x[0]] + x[1..] == x;
    }
  }

  /** Joining with `sep` and splitting at `sep` gives back the parts. */
  lemma {:induction false} SplitJoin(parts: seq<string>, sep: string)
    requires |sep| > 0 && |parts| > 0
    requires forall i | 0 <= i < |parts| :: FreeOf(parts[i], sep)
    ensures Split(JoinWith(sep, parts), sep) == parts
    decreases |parts|
  {
    if |parts| == 1 {
      SplitWhole(parts[0], sep);
    } else {
      SplitAfter(parts[0], sep, JoinWith(sep, parts[1..]));
      SplitJoin(parts[1..], sep);
      assert [parts[0]] + parts[1..] == parts;
    }
  }

  predicate IsDigit(c: char) {
    '0' <= c <= '9'
  }

  predicate AllDigits(s: string) {
    forall i | 0 <= i < |s| :: IsDigit(s[i])
  }

  function DigitChar(d: nat): (c: char)
    requires d < 10
    ensures IsDigit(c)
  {
    ('0' as int + d) as char
  }

  function DigitValue(c: char): (d: nat)
    requires IsDigit(c)
    ensures d < 10
  {
    c as int - '0' as int
  }

  /** Python's `str(n)` for a natural number: decimal digits, no leading zero. */
  function Decimal(n: nat): (s: string)
    ensures |s| > 0 && AllDigits(s)
    decreases n
  {
    if n < 10 then [DigitChar(n)] else Decimal(n / 10) + [DigitChar(n % 10)]
  }

  /** The number a string of decimal digits denotes. */
  function DigitsValue(s: string): nat
    requires AllDigits(s)
    decreases |s|
  {
    if |s| == 0 then 0 else 10 * DigitsValue(s[..|s| - 1]) + DigitValue(s[|s| - 1])
  }

  /** Python's `int(s)` restricted to strings of ASCII digits. */
  function ParseDecimal(s: string): Option<nat> {
    if |s| > 0 && AllDigits(s) then Some(DigitsValue(s)) else None
  }

  lemma {:induction false} DigitsValueOfDecimal(n: nat)
    ensures DigitsValue(Decimal(n)) == n
    decreases n
  {
    if n >= 10 {
      var s := Decimal(n);
      assert s[..|s| - 1] == Decimal(n / 10);
      DigitsValueOfDecimal(n / 10);
    }
  }

  /** Reading back the decimal rendering of `n` gives `n`. */
  lemma ParseDecimalOfDecimal(n: nat)
    ensures ParseDecimal(Decimal(n)) == Some(n)
  {
    DigitsValueOfDecimal(n);
  }

  /** Distinct numbers have distinct decimal renderings. */
  lemma DecimalInjective(m: nat, n: nat)
    requires Decimal(m) == Decimal(n)
    ensures m == n
  {
    ParseDecimalOfDecimal(m);
    ParseDecimalOfDecimal(n);
  }
}
