/**
 * The fragments of Rust's standard library the vesting code leans on, as values:
 * fixed-width integer ranges, `str::split` on one character, `str::parse` for
 * integer types, `to_string` on an unsigned integer and the `{:0N}` zero padding of `format!`.
 */
module Text {
  import opened Wrappers

  type U8 = x: int | 0 <= x < 0x100
  type U32 = x: int | 0 <= x < 0x1_0000_0000
  type U64 = x: int | 0 <= x < 0x1_0000_0000_0000_0000
  type U128 = x: int | 0 <= x < 0x1_0000_0000_0000_0000_0000_0000_0000_0000

  const I32_MIN: int := -0x8000_0000
  const I32_MAX: int := 0x7fff_ffff
  const U32_LIMIT: int := 0x1_0000_0000
  const U128_LIMIT: int := 0x1_0000_0000_0000_0000_0000_0000_0000_0000

  predicate IsDigit(c: char) { '0' <= c <= '9' }

  predicate AllDigits(s: string) { forall i :: 0 <= i < |s| ==> IsDigit(s[i]) }

  function DigitValue(c: char): nat
    requires IsDigit(c)
  {
    c as int - '0' as int
  }

  function DigitChar(n: nat): (c: char)
    requires n < 10
    ensures IsDigit(c) && DigitValue(c) == n
  {
    ('0' as int + n) as char
  }

  /** The number a non-empty run of decimal digits denotes, most significant digit first. */
  function DigitsValue(s: string): nat
    requires AllDigits(s)
  {
    if s == [] then 0 else DigitsValue(s[..|s| - 1]) * 10 + DigitValue(s[|s| - 1])
  }

  /** `n.to_string()` for an unsigned integer: its shortest decimal rendering. */
  function Decimal(n: nat): (s: string)
    ensures 1 <= |s| && AllDigits(s)
  {
    if n < 10 then [DigitChar(n)] else Decimal(n / 10) + [DigitChar(n % 10)]
  }

  function Pow10(w: nat): nat
  {
    if w == 0 then 1 else 10 * Pow10(w - 1)
  }

  /** `format!("{:0w}", n)` for a non-negative `n`: the decimal rendering, left-padded with zeros to width `w`. */
  function ZeroPad(s: string, w: nat): (padded: string)
    ensures |padded| >= w && |padded| >= |s|
  {
    if |s| >= w then s else seq(w - |s|, _ => '0') + s
  }

  /**
   * `str::parse::<uN>()`: an optional leading '+', then at least one decimal digit,
   * and a value below the type's bound; anything else is an error (None).
   */
  function ParseUnsigned(s: string, bound: nat): (r: Option<nat>)
    ensures r.Some? ==> r.value < bound
    ensures s == [] || s == "+" ==> r.None?
  {
    var body := if |s| > 0 && s[0] == '+' then s[1..] else s;
    if |body| == 0 || !AllDigits(body) then None
    else if DigitsValue(body) < bound then Some(DigitsValue(body))
    else None
  }

  /** `str::parse::<i32>()`: as the unsigned parse, but a leading '-' is also allowed and negates the value. */
  function ParseI32(s: string): (r: Option<int>)
    ensures r.Some? ==> I32_MIN <= r.value <= I32_MAX
    ensures s == [] || s == "+" || s == "-" ==> r.None?
  {
    if |s| > 0 && s[0] == '-' then
      var body := s[1..];
      if |body| == 0 || !AllDigits(body) || -(DigitsValue(body) as int) < I32_MIN then None
      else Some(-(DigitsValue(body) as int))
    else
      match ParseUnsigned(s, I32_MAX + 1)
      case None => None
      case Some(v) => Some(v)
  }

  /** `s.split(sep).collect()`: the pieces between the separators, empty pieces included. */
  function Split(s: string, sep: char): (parts: seq<string>)
    ensures |parts| >= 1
  {
    if s == [] then [[]]
    else
      var rest := Split(s[1..], sep);
      if s[0] == sep then [[]] + rest else [[s[0]] + rest[0]] + rest[1..]
  }

  // ---------------------------------------------------------------- lemmas

  /** Reading back the decimal rendering of a number gives the number. */
  lemma {:induction false} DecimalRoundTrip(n: nat)
    ensures DigitsValue(Decimal(n)) == n
  {
    if n >= 10 {
      DecimalRoundTrip(n / 10);
      var s := Decimal(n);
      assert s[..|s| - 1] == Decimal(n / 10);
    }
  }

  /** A number below 10^w has at most w decimal digits. */
  lemma {:induction false} DecimalLength(n: nat, w: nat)
    requires 1 <= w && n < Pow10(w)
    ensures |Decimal(n)| <= w
  {
    if n >= 10 {
      assert w >= 2;
      DecimalLength(n / 10, w - 1);
    }
  }

  /** Leading zeros do not change the value of a run of digits. */
  lemma {:induction false} LeadingZeros(z: string, s: string)
    requires forall i :: 0 <= i < |z| ==> z[i] == '0'
    requires AllDigits(s)
    ensures AllDigits(z + s) && DigitsValue(z + s) == DigitsValue(s)
  {
    if s == [] {
      assert z + s == z;
      if z != [] {
        LeadingZeros(z[..|z| - 1], []);
        assert z[..|z| - 1] + [] == z[..|z| - 1];
      }
    } else {
      LeadingZeros(z, s[..|s| - 1]);
      assert (z + s)[..|z + s| - 1] == z + s[..|s| - 1];
    }
  }

  /** The zero-padded decimal rendering of `n` parses back to `n` as any unsigned type wide enough for it. */
  lemma PaddedRoundTrip(n: nat, w: nat, bound: nat)
    requires n < bound
    ensures AllDigits(ZeroPad(Decimal(n), w))
    ensures DigitsValue(ZeroPad(Decimal(n), w)) == n
    ensures ParseUnsigned(ZeroPad(Decimal(n), w), bound) == Some(n)
  {
    var s := Decimal(n);
    DecimalRoundTrip(n);
    if |s| < w {
      LeadingZeros(seq(w - |s|, _ => '0'), s);
    }
  }

  /** Without a separator in it, a string splits into itself alone. */
  lemma {:induction false} SplitWithoutSeparator(a: string, sep: char)
    requires sep !in a
    ensures Split(a, sep) == [a]
  {
    if a != [] {
      SplitWithoutSeparator(a[1..], sep);
      assert a[0] != sep;
      assert [a[0]] + a[1..] == a;
    }
  }

  /** Splitting at the first separator peels off the piece before it. */
  lemma {:induction false} SplitAtSeparator(a: string, sep: char, b: string)
    requires sep !in a
    ensures Split(a + [sep] + b, sep) == [a] + Split(b, sep)
  {
    if a != [] {
      SplitAtSeparator(a[1..], sep, b);
      var s := a + [sep] + b;
      assert s[0] == a[0] && a[0] != sep;
      assert s[1..] == a[1..] + [sep] + b;
      assert [a[0]] + a[1..] == a;
    } else {
      assert a + [sep] + b == [sep] + b;
    }
  }

  /** A string with exactly two separators splits into the three pieces around them. */
  lemma SplitThree(a: string, b: string, c: string, sep: char)
    requires sep !in a && sep !in b && sep !in c
    ensures Split(a + [sep] + b + [sep] + c, sep) == [a, b, c]
  {
    assert a + [sep] + b + [sep] + c == a + [sep] + (b + [sep] + c);
    SplitAtSeparator(a, sep, b + [sep] + c);
    SplitAtSeparator(b, sep, c);
    SplitWithoutSeparator(c, sep);
  }
}
