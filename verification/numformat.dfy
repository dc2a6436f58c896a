/**
 * Number formatting of the ticker: Python's fixed-point format `f"{n:,.{d}f}"`
 * (digit grouping with ',' and exactly d fraction digits) and `nice_num`, which
 * turns the ',' into ' ' and strips trailing fractional zeros.
 *
 * A float is first rounded to d fraction digits (round half to even on its exact
 * value, as Python's formatting does); the result is a Fixed value: a sign, a
 * natural mantissa and the number of fraction digits.
 */
module NumFormat {
  import opened Wrappers
  import Arith

  predicate IsDigit(c: char) { '0' <= c <= '9' }

  predicate AllDigits(s: string) { forall i :: 0 <= i < |s| ==> IsDigit(s[i]) }

  function DigitValue(c: char): nat
    requires IsDigit(c)
  {
    (c as int) - ('0' as int)
  }

  function DigitChar(d: nat): (c: char)
    requires d < 10
    ensures IsDigit(c) && DigitValue(c) == d
  {
    (('0' as int) + d) as char
  }

  function Pow10(k: nat): (r: nat)
    ensures r >= 1
  {
    if k == 0 then 1 else 10 * Pow10(k - 1)
  }

  /** The number a string of decimal digits denotes (the reading of a digit string). */
  function DecValue(s: string): nat
    requires AllDigits(s)
  {
    if s == [] then 0 else 10 * DecValue(s[..|s| - 1]) + DigitValue(s[|s| - 1])
  }

  /** `str(n)` for a natural number: its decimal digits without leading zeros. */
  function Digits(n: nat): (s: string)
    ensures AllDigits(s) && 1 <= |s|
  {
    if n < 10 then [DigitChar(n)] else Digits(n / 10) + [DigitChar(n % 10)]
  }

  /** The k lowest decimal digits of n, padded with leading zeros. */
  function PadDigits(n: nat, k: nat): (s: string)
    ensures AllDigits(s) && |s| == k
  {
    if k == 0 then [] else PadDigits(n / 10, k - 1) + [DigitChar(n % 10)]
  }

  /** The integer part of the `,` format: groups of three digits joined by sep. */
  function Grouped(n: nat, sep: char): (s: string)
    ensures 1 <= |s| && IsDigit(s[|s| - 1])
  {
    if n < 1000 then Digits(n) else Grouped(n / 1000, sep) + [sep] + PadDigits(n, 3)
  }

  /** A value with `places` fraction digits: (-1)^neg * mantissa / 10^places. */
  datatype Fixed = Fixed(neg: bool, mantissa: nat, places: nat)

  function Sign(x: Fixed): string { if x.neg then "-" else "" }

  /** The digits of m above its k lowest ones: m / 10^k. */
  function DropDigits(m: nat, k: nat): nat
  {
    if k == 0 then m else DropDigits(m / 10, k - 1)
  }

  /** The k lowest digits of m, as a number: m mod 10^k. */
  function LowDigits(m: nat, k: nat): nat
  {
    if k == 0 then 0 else 10 * LowDigits(m / 10, k - 1) + m % 10
  }

  function IntPart(x: Fixed): nat { DropDigits(x.mantissa, x.places) }

  /** The fraction of a Fixed value, in units of its last place. */
  function FracPart(x: Fixed): nat { LowDigits(x.mantissa, x.places) }

  /** Python's `f"{n:.{d}f}"` (sep None) or `f"{n:,.{d}f}"` (sep Some(',')) of a rounded value. */
  function FormatF(x: Fixed, sep: Option<char>): string
  {
    Sign(x)
    + (match sep case None => Digits(IntPart(x)) case Some(c) => Grouped(IntPart(x), c))
    + (if x.places == 0 then "" else "." + PadDigits(x.mantissa, x.places))
  }

  /** `s.replace(a, b)` for single characters. */
  function Replace(s: string, a: char, b: char): (r: string)
    ensures |r| == |s|
  {
    if s == [] then [] else Replace(s[..|s| - 1], a, b) + [if s[|s| - 1] == a then b else s[|s| - 1]]
  }

  /** `s.rstrip(c)`: the longest prefix of s that does not end in c and is followed only by c. */
  function RStrip(s: string, c: char): (r: string)
    ensures |r| <= |s| && r == s[..|r|]
    ensures r == [] || r[|r| - 1] != c
    ensures forall i :: |r| <= i < |s| ==> s[i] == c
  {
    if s != [] && s[|s| - 1] == c then RStrip(s[..|s| - 1], c) else s
  }

  /** `nice_num`: the `,` format with ',' replaced by ' ', then trailing fractional zeros and a bare '.' stripped. */
  function NiceNum(x: Fixed): string
  {
    var s := Replace(FormatF(x, Some(',')), ',', ' ');
    if '.' in s then RStrip(RStrip(s, '0'), '.') else s
  }

  // ---------------------------------------------------------------------------
  // Rounding of a float to a fixed number of fraction digits

  function Abs(v: real): real { if v < 0.0 then -v else v }

  /** Round y to the nearest integer, ties to the even one. */
  function RoundHalfEven(y: real): (m: nat)
    requires y >= 0.0
    ensures -0.5 <= m as real - y <= 0.5
    ensures Abs(m as real - y) == 0.5 ==> m % 2 == 0
  {
    var f := y.Floor;
    var frac := y - f as real;
    if frac < 0.5 then f else if frac > 0.5 then f + 1 else if f % 2 == 0 then f else f + 1
  }

  /** y shifted d decimal places to the left. */
  function Scale(y: real, d: nat): (r: real)
    ensures y >= 0.0 ==> r >= 0.0
  {
    if d == 0 then y else 10.0 * Scale(y, d - 1)
  }

  lemma {:induction false} ScaleIsProduct(y: real, d: nat)
    ensures Scale(y, d) == y * Pow10(d) as real
  {
    if d > 0 {
      ScaleIsProduct(y, d - 1);
      assert Pow10(d) as real == 10.0 * Pow10(d - 1) as real;
    }
  }

  /** The value Python formats when asked for d fraction digits of v. */
  function ToFixed(v: real, d: nat): (x: Fixed)
    ensures x.places == d && x.neg == (v < 0.0)
  {
    Fixed(v < 0.0, RoundHalfEven(Scale(Abs(v), d)), d)
  }

  /**
   * The mantissa Python prints for v with d fraction digits is |v| * 10^d rounded
   * to the nearest integer, a tie going to the even one.
   */
  lemma {:induction false} ToFixedRounds(v: real, d: nat)
    ensures var x := ToFixed(v, d);
      && -0.5 <= x.mantissa as real - Abs(v) * Pow10(d) as real <= 0.5
      && (Abs(x.mantissa as real - Abs(v) * Pow10(d) as real) == 0.5 ==> x.mantissa % 2 == 0)
  {
    ScaleIsProduct(Abs(v), d);
    var y := Scale(Abs(v), d);
    var m := RoundHalfEven(y);
    assert ToFixed(v, d).mantissa == m;
    assert y == Abs(v) * Pow10(d) as real;
  }

  // ---------------------------------------------------------------------------
  // Digit strings

  lemma {:induction false} DecValueAppend(a: string, b: string)
    requires AllDigits(a) && AllDigits(b)
    ensures AllDigits(a + b) && DecValue(a + b) == DecValue(a) * Pow10(|b|) + DecValue(b)
  {
    if b == [] {
      assert a + b == a;
    } else {
      var b' := b[..|b| - 1];
      assert (a + b)[..|a + b| - 1] == a + b';
      assert (a + b)[|a + b| - 1] == b[|b| - 1];
      DecValueAppend(a, b');
      assert DecValue(a + b) == 10 * DecValue(a + b') + DigitValue(b[|b| - 1]);
      assert DecValue(b) == 10 * DecValue(b') + DigitValue(b[|b| - 1]);
      assert Pow10(|b|) == 10 * Pow10(|b'|);
      Arith.ShiftDigit(DecValue(a), Pow10(|b'|), DecValue(b'), DigitValue(b[|b| - 1]));
    }
  }

  /** Reading back `str(n)` gives n. */
  lemma {:induction false} DigitsValue(n: nat)
    ensures DecValue(Digits(n)) == n
  {
    if n >= 10 {
      var d := Digits(n / 10);
      assert (d + [DigitChar(n % 10)])[..|d|] == d;
      DigitsValue(n / 10);
    }
  }

  /** `str(n)` has no leading zero, except for n == 0. */
  lemma {:induction false} DigitsNoLeadingZero(n: nat)
    ensures Digits(n)[0] == '0' ==> n == 0
  {
    if n >= 10 {
      DigitsNoLeadingZero(n / 10);
      assert Digits(n)[0] == Digits(n / 10)[0];
    }
  }

  lemma {:induction false} DigitsLength(n: nat, k: nat)
    requires 1 <= k && n < Pow10(k)
    ensures |Digits(n)| <= k
  {
    if n >= 10 {
      assert k >= 2;
      DigitsLength(n / 10, k - 1);
    }
  }

  /** Reading back the k padded low digits of n gives n mod 10^k. */
  lemma {:induction false} PadDigitsValue(n: nat, k: nat)
    ensures DecValue(PadDigits(n, k)) == LowDigits(n, k)
  {
    if k > 0 {
      var d := PadDigits(n / 10, k - 1);
      assert (d + [DigitChar(n % 10)])[..|d|] == d;
      PadDigitsValue(n / 10, k - 1);
    }
  }

  /** DropDigits and LowDigits are division and remainder by 10^k. */
  lemma {:induction false} DigitSplit(m: nat, k: nat)
    ensures DropDigits(m, k) == m / Pow10(k)
    ensures LowDigits(m, k) == m % Pow10(k)
    ensures DropDigits(m, k) * Pow10(k) + LowDigits(m, k) == m
  {
    var d := Pow10(k);
    if k > 0 {
      var p := Pow10(k - 1);
      assert d == 10 * p;
      DigitSplit(m / 10, k - 1);
      Arith.DivDiv(m, p);
      Arith.ModSplit(m, p);
    }
    Arith.DivModSum(m, d);
  }

  // ---------------------------------------------------------------------------
  // Thousands grouping

  /**
   * The shape of a grouped integer: a first group of one to three digits with no
   * leading zero (unless it is "0"), then groups of exactly three digits, each
   * preceded by a single separator.
   */
  ghost predicate GroupedForm(s: string, sep: char)
    decreases |s|
  {
    || (1 <= |s| <= 3 && AllDigits(s) && (s[0] != '0' || |s| == 1))
    || (|s| >= 5 && s[|s| - 4] == sep && AllDigits(s[|s| - 3..]) && GroupedForm(s[..|s| - 4], sep))
  }

  /** Remove every separator: the inverse of grouping. */
  function Ungroup(s: string, sep: char): string
  {
    if s == [] then [] else Ungroup(s[..|s| - 1], sep) + (if s[|s| - 1] == sep then [] else [s[|s| - 1]])
  }

  lemma {:induction false} UngroupAppend(a: string, b: string, sep: char)
    ensures Ungroup(a + b, sep) == Ungroup(a, sep) + Ungroup(b, sep)
  {
    if b == [] {
      assert a + b == a;
    } else {
      var b' := b[..|b| - 1];
      assert (a + b)[..|a + b| - 1] == a + b';
      UngroupAppend(a, b', sep);
    }
  }

  lemma {:induction false} UngroupDigits(s: string, sep: char)
    requires AllDigits(s) && !IsDigit(sep)
    ensures Ungroup(s, sep) == s
  {
    if s != [] {
      UngroupDigits(s[..|s| - 1], sep);
    }
  }

  /** Grouping with a non-digit separator yields groups of three after a short first group. */
  lemma {:induction false} GroupedWellFormed(n: nat, sep: char)
    requires !IsDigit(sep)
    ensures GroupedForm(Grouped(n, sep), sep)
  {
    var s := Grouped(n, sep);
    if n < 1000 {
      DigitsLength(n, 3);
      DigitsNoLeadingZero(n);
    } else {
      var g := Grouped(n / 1000, sep);
      var t := PadDigits(n, 3);
      assert s == g + [sep] + t;
      assert s[|s| - 4] == sep;
      assert s[|s| - 3..] == t;
      assert s[..|s| - 4] == g;
      GroupedWellFormed(n / 1000, sep);
    }
  }

  /** Removing the separators from a grouped integer and reading the digits gives the integer back. */
  lemma {:induction false} GroupedValue(n: nat, sep: char)
    requires !IsDigit(sep)
    ensures AllDigits(Ungroup(Grouped(n, sep), sep))
    ensures DecValue(Ungroup(Grouped(n, sep), sep)) == n
  {
    if n < 1000 {
      UngroupDigits(Digits(n), sep);
      DigitsValue(n);
    } else {
      GroupedValue(n / 1000, sep);
      var u := Ungroup(Grouped(n / 1000, sep), sep);
      UngroupGroupedStep(n, sep);
      LowGroupValue(u, n);
      Arith.DivModSum(n, 1000);
    }
  }

  lemma {:induction false} UngroupGroupedStep(n: nat, sep: char)
    requires n >= 1000 && !IsDigit(sep)
    ensures Ungroup(Grouped(n, sep), sep) == Ungroup(Grouped(n / 1000, sep), sep) + PadDigits(n, 3)
  {
    var g := Grouped(n / 1000, sep);
    var t := PadDigits(n, 3);
    UngroupAppend(g + [sep], t, sep);
    UngroupAppend(g, [sep], sep);
    assert Ungroup([sep], sep) == [];
    UngroupDigits(t, sep);
  }

  /** Appending the three low digits of n to the digits of u reads as u * 1000 + n mod 1000. */
  lemma {:induction false} LowGroupValue(u: string, n: nat)
    requires AllDigits(u)
    ensures AllDigits(u + PadDigits(n, 3))
    ensures DecValue(u + PadDigits(n, 3)) == DecValue(u) * 1000 + n % 1000
  {
    DecValueAppend(u, PadDigits(n, 3));
    PadDigitsValue(n, 3);
    DigitSplit(n, 3);
    assert Pow10(3) == 1000;
  }

  /** A grouped integer is made of digits and separators only. */
  lemma {:induction false} GroupedChars(n: nat, sep: char)
    ensures forall i :: 0 <= i < |Grouped(n, sep)| ==> IsDigit(Grouped(n, sep)[i]) || Grouped(n, sep)[i] == sep
  {
    if n >= 1000 {
      GroupedChars(n / 1000, sep);
    }
  }

  // ---------------------------------------------------------------------------
  // replace and rstrip

  /** `replace` turns every `a` into `b` and keeps every other character in place. */
  lemma {:induction false} ReplaceChars(s: string, a: char, b: char)
    ensures forall i :: 0 <= i < |s| ==> Replace(s, a, b)[i] == (if s[i] == a then b else s[i])
  {
    if s != [] {
      var s' := s[..|s| - 1];
      ReplaceChars(s', a, b);
      forall i | 0 <= i < |s'|
        ensures Replace(s, a, b)[i] == Replace(s', a, b)[i] && s[i] == s'[i]
      {
      }
    }
  }

  lemma {:induction false} ReplaceAppend(a: string, b: string, x: char, y: char)
    ensures Replace(a + b, x, y) == Replace(a, x, y) + Replace(b, x, y)
  {
    if b == [] {
      assert a + b == a;
    } else {
      var b' := b[..|b| - 1];
      assert (a + b)[..|a + b| - 1] == a + b';
      ReplaceAppend(a, b', x, y);
    }
  }

  lemma {:induction false} ReplaceAbsent(s: string, x: char, y: char)
    requires forall i :: 0 <= i < |s| ==> s[i] != x
    ensures Replace(s, x, y) == s
  {
    if s != [] {
      ReplaceAbsent(s[..|s| - 1], x, y);
    }
  }

  /** Replacing the ',' of Python's grouping by ' ' is grouping with ' '. */
  lemma {:induction false} ReplaceGrouped(n: nat)
    ensures Replace(Grouped(n, ','), ',', ' ') == Grouped(n, ' ')
  {
    if n < 1000 {
      ReplaceAbsent(Digits(n), ',', ' ');
    } else {
      var t := PadDigits(n, 3);
      ReplaceAppend(Grouped(n / 1000, ',') + [','], t, ',', ' ');
      ReplaceAppend(Grouped(n / 1000, ','), [','], ',', ' ');
      assert Replace([','], ',', ' ') == [' '];
      ReplaceAbsent(t, ',', ' ');
      ReplaceGrouped(n / 1000);
    }
  }

  lemma {:induction false} RStripAppend(a: string, b: string, c: char)
    ensures RStrip(a + b, c) == if RStrip(b, c) == [] then RStrip(a, c) else a + RStrip(b, c)
  {
    if b == [] {
      assert a + b == a;
    } else if b[|b| - 1] == c {
      var b' := b[..|b| - 1];
      assert (a + b)[..|a + b| - 1] == a + b';
      RStripAppend(a, b', c);
    }
  }

  /** Stripping trailing zeros from a digit string divides its value by a power of ten. */
  lemma {:induction false} RStripZerosValue(s: string)
    requires AllDigits(s)
    ensures AllDigits(RStrip(s, '0'))
    ensures DecValue(RStrip(s, '0')) * Pow10(|s| - |RStrip(s, '0')|) == DecValue(s)
  {
    if s != [] && s[|s| - 1] == '0' {
      var s' := s[..|s| - 1];
      assert AllDigits(s');
      RStripZerosValue(s');
      var r := RStrip(s', '0');
      assert RStrip(s, '0') == r;
      assert DecValue(s) == 10 * DecValue(s');
      assert Pow10(|s| - |r|) == 10 * Pow10(|s'| - |r|);
      Arith.ScaleByTen(DecValue(r), Pow10(|s'| - |r|), DecValue(s'));
    }
  }

  // ---------------------------------------------------------------------------
  // nice_num

  /** What nice_num leaves of the fraction: "" or '.' followed by digits not ending in '0'. */
  function FracTail(x: Fixed): string
  {
    if x.places == 0 then ""
    else
      var f := RStrip(PadDigits(x.mantissa, x.places), '0');
      if f == [] then "" else "." + f
  }

  lemma {:induction false} GroupedNoDot(n: nat)
    ensures '.' !in Grouped(n, ' ')
  {
    GroupedChars(n, ' ');
  }

  /** After the ',' -> ' ' replacement the format is sign, space-grouped integer, fraction. */
  lemma {:induction false} ReplacedFormat(x: Fixed)
    ensures Replace(FormatF(x, Some(',')), ',', ' ')
         == Sign(x) + Grouped(IntPart(x), ' ')
            + (if x.places == 0 then "" else "." + PadDigits(x.mantissa, x.places))
  {
    var g := Grouped(IntPart(x), ',');
    var t := if x.places == 0 then "" else "." + PadDigits(x.mantissa, x.places);
    assert FormatF(x, Some(',')) == Sign(x) + g + t;
    ReplaceAppend(Sign(x) + g, t, ',', ' ');
    ReplaceAppend(Sign(x), g, ',', ' ');
    ReplaceAbsent(Sign(x), ',', ' ');
    ReplaceAbsent(t, ',', ' ');
    ReplaceGrouped(IntPart(x));
  }

  /** `rstrip("0").rstrip(".")` of an integer text, a '.' and fraction digits. */
  lemma {:induction false} StripFraction(X: string, p: string)
    requires |X| >= 1 && IsDigit(X[|X| - 1]) && AllDigits(p)
    ensures var f := RStrip(p, '0');
      RStrip(RStrip(X + "." + p, '0'), '.') == X + (if f == [] then "" else "." + f)
  {
    var a := X + ".";
    var f := RStrip(p, '0');
    assert X + "." + p == a + p;
    RStripAppend(a, p, '0');
    assert a[|a| - 1] == '.';
    assert RStrip(a, '0') == a;
    if f == [] {
      assert RStrip(a + p, '0') == a;
      assert a[..|a| - 1] == X;
      assert RStrip(a, '.') == RStrip(X, '.');
      assert RStrip(X, '.') == X;
    } else {
      assert RStrip(a + p, '0') == a + f;
      assert f == p[..|f|];
      assert IsDigit(f[|f| - 1]);
      var af := a + f;
      assert af[|af| - 1] == f[|f| - 1];
      assert RStrip(af, '.') == af;
    }
  }

  /**
   * nice_num is the sign, the integer part grouped by single spaces, and the
   * fraction digits without their trailing zeros (the '.' dropped with them when
   * nothing is left).
   */
  lemma {:induction false} NiceNumShape(x: Fixed)
    ensures NiceNum(x) == Sign(x) + Grouped(IntPart(x), ' ') + FracTail(x)
  {
    var X := Sign(x) + Grouped(IntPart(x), ' ');
    var s := Replace(FormatF(x, Some(',')), ',', ' ');
    ReplacedFormat(x);
    GroupedNoDot(IntPart(x));
    assert '.' !in X;
    if x.places == 0 {
      assert s == X;
    } else {
      var p := PadDigits(x.mantissa, x.places);
      assert s == X + "." + p;
      assert s[|X|] == '.';
      StripFraction(X, p);
    }
  }

  /** What nice_num prints, once its replacement and stripping are worked out. */
  function NiceForm(x: Fixed): string
  {
    Sign(x) + Grouped(IntPart(x), ' ') + FracTail(x)
  }

  lemma {:induction false} NiceFormNoTrailingZero(x: Fixed)
    ensures var r := NiceForm(x); '.' in r ==> r[|r| - 1] != '0' && r[|r| - 1] != '.'
  {
    GroupedNoDot(IntPart(x));
    var r := NiceForm(x);
    var X := Sign(x) + Grouped(IntPart(x), ' ');
    assert '.' !in X;
    if FracTail(x) == "" {
      assert r == X;
    } else {
      var f := RStrip(PadDigits(x.mantissa, x.places), '0');
      assert r == X + "." + f;
      assert r[|r| - 1] == f[|f| - 1];
      assert IsDigit(f[|f| - 1]);
    }
  }

  /** Whenever nice_num prints a '.', its output ends in neither '0' nor '.'. */
  lemma {:induction false} NiceNumNoTrailingZero(x: Fixed)
    ensures var r := NiceNum(x); '.' in r ==> r[|r| - 1] != '0' && r[|r| - 1] != '.'
  {
    NiceNumShape(x);
    NiceFormNoTrailingZero(x);
  }

  /** With no fraction digits nothing is stripped: trailing zeros of the integer stay. */
  lemma {:induction false} NiceNumWhole(x: Fixed)
    requires x.places == 0
    ensures NiceNum(x) == Sign(x) + Grouped(x.mantissa, ' ')
  {
    NiceNumShape(x);
  }

  /** The fraction digits left after stripping denote the fraction of the mantissa. */
  lemma {:induction false} StrippedFraction(m: nat, k: nat)
    ensures var f := RStrip(PadDigits(m, k), '0');
      && AllDigits(f) && |f| <= k
      && DecValue(f) * Pow10(k - |f|) == LowDigits(m, k)
      && (f == [] <==> LowDigits(m, k) == 0)
  {
    var p := PadDigits(m, k);
    var f := RStrip(p, '0');
    RStripZerosValue(p);
    PadDigitsValue(m, k);
    var v := DecValue(f);
    var q := Pow10(k - |f|);
    assert v * q == LowDigits(m, k);
    if f == [] {
      assert v == 0;
    } else {
      assert f[|f| - 1] != '0';
      assert v > 0 by {
        assert v == 10 * DecValue(f[..|f| - 1]) + DigitValue(f[|f| - 1]);
      }
      Arith.MulMonotone(q, v);
      assert q * v == v * q;
    }
  }

  lemma {:induction false} NiceFormHasDot(x: Fixed)
    ensures '.' in NiceForm(x) <==> FracTail(x) != ""
  {
    GroupedNoDot(IntPart(x));
    var X := Sign(x) + Grouped(IntPart(x), ' ');
    assert '.' !in X;
    if FracTail(x) != "" {
      assert NiceForm(x)[|X|] == '.';
    } else {
      assert NiceForm(x) == X;
    }
  }

  lemma {:induction false} NiceNumHasDot(x: Fixed)
    ensures '.' in NiceNum(x) <==> FracTail(x) != ""
  {
    NiceNumShape(x);
    NiceFormHasDot(x);
  }

  /**
   * With fraction digits, nice_num shows a '.' exactly when the rounded value has
   * a non-zero fraction, and the digits after it denote that fraction.
   */
  lemma {:induction false} NiceNumFraction(x: Fixed)
    requires x.places > 0
    ensures '.' in NiceNum(x) <==> FracPart(x) != 0
    ensures FracTail(x) != "" ==>
      var f := FracTail(x)[1..];
      AllDigits(f) && 1 <= |f| <= x.places &&
      DecValue(f) * Pow10(x.places - |f|) == FracPart(x)
  {
    NiceNumHasDot(x);
    FracTailFraction(x);
  }

  lemma {:induction false} FracTailFraction(x: Fixed)
    requires x.places > 0
    ensures FracTail(x) != "" <==> FracPart(x) != 0
    ensures FracTail(x) != "" ==>
      var f := FracTail(x)[1..];
      AllDigits(f) && 1 <= |f| <= x.places &&
      DecValue(f) * Pow10(x.places - |f|) == FracPart(x)
  {
    StrippedFraction(x.mantissa, x.places);
    var f := RStrip(PadDigits(x.mantissa, x.places), '0');
    if f != [] {
      assert FracTail(x)[1..] == f;
    }
  }

  /** Text made only of what number formatting prints: digits, ' ', '.' and '-'. */
  predicate NumericText(s: string)
  {
    forall i :: 0 <= i < |s| ==> IsDigit(s[i]) || s[i] == ' ' || s[i] == '.' || s[i] == '-'
  }

  lemma {:induction false} NiceFormChars(x: Fixed)
    ensures NumericText(NiceForm(x))
  {
    var g := Grouped(IntPart(x), ' ');
    GroupedChars(IntPart(x), ' ');
    assert NumericText(g);
    assert NumericText(Sign(x));
    var f := RStrip(PadDigits(x.mantissa, x.places), '0');
    assert AllDigits(f) by {
      assert f == PadDigits(x.mantissa, x.places)[..|f|];
    }
    NumericAppend(Sign(x), g);
    if x.places > 0 && f != [] {
      NumericAppend(".", f);
    }
    NumericAppend(Sign(x) + g, FracTail(x));
  }

  /** nice_num prints nothing but digits, spaces, a '.' and a '-'. */
  lemma {:induction false} NiceNumChars(x: Fixed)
    ensures NumericText(NiceNum(x))
  {
    NiceNumShape(x);
    NiceFormChars(x);
  }

  lemma {:induction false} NumericAppend(a: string, b: string)
    requires NumericText(a) && NumericText(b)
    ensures NumericText(a + b)
  {
  }

  /** With d > 0 places the format ends in a '.' and exactly d digits, which read as the fraction. */
  lemma {:induction false} FormatFFraction(x: Fixed, sep: Option<char>)
    requires x.places > 0
    ensures var r := FormatF(x, sep); var k := x.places;
      && |r| > k && r[|r| - k - 1] == '.'
      && AllDigits(r[|r| - k..]) && DecValue(r[|r| - k..]) == FracPart(x)
  {
    var head := Sign(x) + (match sep case None => Digits(IntPart(x)) case Some(c) => Grouped(IntPart(x), c));
    var t := PadDigits(x.mantissa, x.places);
    assert FormatF(x, sep) == head + "." + t;
    assert (head + "." + t)[|head| + 1..] == t;
    PadDigitsValue(x.mantissa, x.places);
  }

  /** The ungrouped format `f"{n:.{d}f}"` prints nothing but numeric text. */
  lemma {:induction false} FormatFChars(x: Fixed)
    ensures NumericText(FormatF(x, None))
  {
  }
}
