/** The `Fraction` values of the rational series and their two textual
    forms: Python's `str` and the LaTeX of `_frac2latex`
    (pic2formula/fourier_series.py). */
module Fractions {
  import opened Decimal

  datatype Frac = Frac(num: int, den: int)

  /** A `fractions.Fraction`: the denominator is positive and the sign is
      carried by the numerator. Values come from `limit_denominator`, which
      always yields lowest terms. */
  type Rational = f: Frac | f.den >= 1 witness Frac(0, 1)

  /** `d` divides `n`. */
  predicate Divides(d: int, n: int)
    requires d > 0
  {
    n % d == 0
  }

  /** Lowest terms, the form `Fraction` always keeps: numerator and
      denominator have no common divisor above 1. */
  ghost predicate Lowest(f: Rational) {
    forall d: int :: 1 < d && Divides(d, f.num) ==> !Divides(d, f.den)
  }

  function Value(f: Rational): real {
    f.num as real / f.den as real
  }

  /** `f / 2` in lowest terms, for `f` in lowest terms. */
  function Half(f: Rational): (h: Rational)
    ensures Value(h) == Value(f) / 2.0
  {
    if f.num % 2 == 0 then
      assert (f.num / 2) as real == f.num as real / 2.0;
      Frac(f.num / 2, f.den)
    else
      assert (2 * f.den) as real == 2.0 * f.den as real;
      Frac(f.num, 2 * f.den)
  }

  /** `-f`. */
  function Neg(f: Rational): (g: Rational)
    ensures Value(g) == -Value(f)
  {
    Frac(-f.num, f.den)
  }

  lemma MulBounds(d: int, m: int)
    requires d > 0
    ensures m >= 1 ==> d * m >= d
    ensures m <= -1 ==> d * m <= -d
  {
  }

  /** The remainder is fixed by any quotient-remainder split. */
  lemma ModUnique(n: int, d: int, q: int, r: int)
    requires d > 0 && 0 <= r < d && n == d * q + r
    ensures n % d == r
  {
    var q', r' := n / d, n % d;
    assert d * (q - q') == r' - r;
    MulBounds(d, q - q');
  }

  lemma ProductParity(a: int, b: int)
    ensures (a * b) % 2 == (a % 2) * (b % 2)
  {
    var p, s, q, t := a / 2, a % 2, b / 2, b % 2;
    assert a * b == (2 * p + s) * (2 * q + t);
    assert a * b == 2 * (2 * p * q + p * t + q * s) + s * t;
    ModUnique(a * b, 2, 2 * p * q + p * t + q * s, s * t);
  }

  /** A divisor of an odd number that divides `2 * m` divides `m`. */
  lemma OddCommonDivisor(n: int, m: int, d: int)
    requires d > 1 && n % 2 == 1 && Divides(d, n) && Divides(d, 2 * m)
    ensures Divides(d, m)
  {
    var j, k := n / d, (2 * m) / d;
    assert n == d * j && 2 * m == d * k;
    ProductParity(d, j);
    ProductParity(d, k);
    ModUnique(2 * m, 2, m, 0);
    assert d % 2 == 1 && k % 2 == 0;
    assert 2 * m == 2 * (d * (k / 2));
    ModUnique(m, d, k / 2, 0);
  }

  /** Halving keeps lowest terms, so the text of `Half(f)` is the text of
      Python's `f / 2`. */
  lemma HalfLowest(f: Rational)
    requires Lowest(f)
    ensures Lowest(Half(f))
  {
    var h := Half(f);
    forall d: int | 1 < d && Divides(d, h.num)
      ensures !Divides(d, h.den)
    {
      if f.num % 2 == 0 {
        var j := h.num / d;
        assert f.num == d * (2 * j);
        ModUnique(f.num, d, 2 * j, 0);
      } else if Divides(d, h.den) {
        OddCommonDivisor(f.num, f.den, d);
      }
    }
  }

  /** Negation keeps lowest terms, so the text of `Neg(f)` is the text of
      Python's `-f`. */
  lemma NegLowest(f: Rational)
    requires Lowest(f)
    ensures Lowest(Neg(f))
  {
    forall d: int | 1 < d && Divides(d, -f.num)
      ensures !Divides(d, f.den)
    {
      var j := (-f.num) / d;
      assert f.num == d * -j;
      ModUnique(f.num, d, -j, 0);
    }
  }

  /** Python `str(Fraction)`: `n` for an integer, `n/d` otherwise. */
  function FracStr(f: Rational): (s: string)
    ensures |s| >= 1
  {
    if f.den == 1 then IntToString(f.num)
    else IntToString(f.num) + "/" + IntToString(f.den)
  }

  /** `_frac2latex`: an integer as its digits, except that 1 is left out
      when `omit` is set; any other rational as `\frac{n}{d}`. */
  function Frac2Latex(f: Rational, omit: bool): (s: string)
    ensures s == "" <==> omit && f.num == 1 && f.den == 1
  {
    if f.den == 1 then
      if omit && f.num == 1 then "" else IntToString(f.num)
    else
      "\\frac{" + IntToString(f.num) + "}{" + IntToString(f.den) + "}"
  }

  /** An integer written by `IntToString` holds no separator character. */
  lemma NoSeparator(i: int, c: char)
    requires c != '-' && !IsDigit(c)
    ensures c !in IntToString(i)
  {
    var s := IntToString(i);
    assert forall j :: 0 <= j < |s| ==> s[j] != c;
  }

  /** A string split at the first occurrence of a separator that its left
      part does not contain is split the same way every time. */
  lemma SplitUnique(a: string, b: string, a': string, b': string, c: char)
    requires c !in a && c !in a'
    requires a + [c] + b == a' + [c] + b'
    ensures a == a' && b == b'
  {
    var s := a + [c] + b;
    assert forall i :: 0 <= i < |a| ==> s[i] == a[i] != c;
    assert forall i :: 0 <= i < |a'| ==> s[i] == a'[i] != c;
    assert s[|a|] == c && s[|a'|] == c;
    assert a == s[..|a|] == a';
    assert b == s[|a| + 1..] == b';
  }

  /** Equal strings with a common prefix agree after it. */
  lemma DropPrefix(p: string, x: string, y: string)
    requires p + x == p + y
    ensures x == y
  {
    assert x == (p + x)[|p|..];
    assert y == (p + y)[|p|..];
  }

  /** Equal strings with a common suffix agree before it. */
  lemma DropSuffix(x: string, y: string, q: string)
    requires x + q == y + q
    ensures x == y
  {
    assert x == (x + q)[..|x|];
    assert y == (y + q)[..|y|];
  }

  /** Neither text of a fraction holds a space. */
  lemma NoSpace(f: Rational, omit: bool)
    ensures ' ' !in Frac2Latex(f, omit)
    ensures ' ' !in FracStr(f)
  {
    NoSeparator(f.num, ' ');
    NoSeparator(f.den, ' ');
  }

  /** Only a proper fraction is written with a slash. */
  lemma FracStrSlash(f: Rational)
    ensures '/' in FracStr(f) <==> f.den != 1
  {
    NoSeparator(f.num, '/');
    NoSeparator(f.den, '/');
    if f.den != 1 {
      assert FracStr(f)[|IntToString(f.num)|] == '/';
    }
  }

  /** `str` of a fraction determines the fraction. */
  lemma FracStrInjective(f: Rational, g: Rational)
    requires FracStr(f) == FracStr(g)
    ensures f == g
  {
    FracStrSlash(f);
    FracStrSlash(g);
    if f.den == 1 {
      IntToStringInjective(f.num, g.num);
    } else {
      NoSeparator(f.num, '/');
      NoSeparator(g.num, '/');
      SplitUnique(IntToString(f.num), IntToString(f.den), IntToString(g.num), IntToString(g.den), '/');
      IntToStringInjective(f.num, g.num);
      IntToStringInjective(f.den, g.den);
    }
  }

  /** Only a proper fraction is written starting with a backslash. */
  lemma Frac2LatexFirst(f: Rational)
    ensures Frac2Latex(f, false)[0] == '\\' <==> f.den != 1
  {
  }

  /** The body of `\frac{a}{b}` after its opening `\frac{`. */
  lemma FracBodyUnique(a: string, b: string, a': string, b': string)
    requires '}' !in a && '}' !in a'
    requires a + "}{" + b + "}" == a' + "}{" + b' + "}"
    ensures a == a' && b == b'
  {
    assert a + "}{" + b + "}" == a + ['}'] + ("{" + b + "}");
    assert a' + "}{" + b' + "}" == a' + ['}'] + ("{" + b' + "}");
    SplitUnique(a, "{" + b + "}", a', "{" + b' + "}", '}');
    assert b == ("{" + b + "}")[1..|b| + 1];
    assert b' == ("{" + b' + "}")[1..|b'| + 1];
  }

  /** Without omission the LaTeX of a fraction determines the fraction. */
  lemma Frac2LatexInjective(f: Rational, g: Rational)
    requires Frac2Latex(f, false) == Frac2Latex(g, false)
    ensures f == g
  {
    Frac2LatexFirst(f);
    Frac2LatexFirst(g);
    if f.den == 1 {
      IntToStringInjective(f.num, g.num);
    } else {
      var a, b := IntToString(f.num), IntToString(f.den);
      var a', b' := IntToString(g.num), IntToString(g.den);
      assert "\\frac{" + a + "}{" + b + "}" == "\\frac{" + (a + "}{" + b + "}");
      assert "\\frac{" + a' + "}{" + b' + "}" == "\\frac{" + (a' + "}{" + b' + "}");
      DropPrefix("\\frac{", a + "}{" + b + "}", a' + "}{" + b' + "}");
      NoSeparator(f.num, '}');
      NoSeparator(g.num, '}');
      FracBodyUnique(a, b, a', b');
      IntToStringInjective(f.num, g.num);
      IntToStringInjective(f.den, g.den);
    }
  }

  /** Without omission an integer is written so that it reads back. */
  lemma Frac2LatexIntegerRoundTrip(f: Rational)
    requires f.den == 1
    ensures ParseInt(Frac2Latex(f, false)) == f.num
  {
    IntRoundTrip(f.num);
  }
}
