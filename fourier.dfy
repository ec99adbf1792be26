/** The Fourier series of one closed curve (pic2formula/fourier_series.py):
    the amplitude and phase lists kept by `FourierSeries`, their rational
    approximations in `FourierSeriesFraction`, and the two texts that class
    writes, Python's `str` and LaTeX. */
module Fourier {
  import opened Outcomes
  import opened Seqs
  import opened Decimal
  import opened Fractions

  /** A Python `int`-or-`None` argument is truthy when it is a nonzero int. */
  predicate Truthy(n: Option<int>) {
    n.Some? && n.value != 0
  }

  /** `FourierSeries` after `__init__`: amplitudes `r`, phases `p` and the
      degree `n`. Nothing changes these fields afterwards. */
  datatype FourierSeries = FourierSeries(r: seq<real>, p: seq<real>, n: int)

  /** `FourierSeries.__init__`: the two lists must have the same length; a
      truthy `n` cuts both to `[:n+1]`; the degree is one less than the
      length kept. */
  function NewFourierSeries(r: seq<real>, p: seq<real>, n: Option<int>): (res: Result<FourierSeries>)
    ensures res.Failure? <==> |r| != |p|
    ensures res.Failure? ==> res.error == ValueError
    ensures res.Success? ==>
              var s := res.value;
              |s.r| == |s.p| && s.n == |s.r| - 1 && s.r <= r && s.p <= p
    ensures res.Success? && !Truthy(n) ==> res.value.r == r && res.value.p == p
    ensures res.Success? && Truthy(n) && 0 <= n.value < |r| ==> |res.value.r| == n.value + 1
    ensures res.Success? && Truthy(n) && n.value >= |r| ==> res.value.r == r
    ensures res.Success? && n == Some(-1) ==> res.value.r == []
    ensures res.Success? && Truthy(n) && n.value < -1 ==>
              |res.value.r| == (if |r| + n.value + 1 < 0 then 0 else |r| + n.value + 1)
  {
    if |r| != |p| then Failure(ValueError)
    else if Truthy(n) then
      var k := PyStop(n.value + 1, |r|);
      Success(FourierSeries(r[..k], p[..k], k - 1))
    else
      Success(FourierSeries(r, p, |r| - 1))
  }

  /** Building a series again from a built one, with its own degree, gives
      the same series back. */
  lemma NewFourierSeriesIdempotent(r: seq<real>, p: seq<real>, n: Option<int>)
    requires NewFourierSeries(r, p, n).Success?
    ensures var s := NewFourierSeries(r, p, n).value;
            NewFourierSeries(s.r, s.p, Some(s.n)) == Success(s)
  {
    var s := NewFourierSeries(r, p, n).value;
    assert s.r[..|s.r|] == s.r && s.p[..|s.p|] == s.p;
  }

  /** Python `int(m / 2)`: the half rounded toward zero. */
  function TruncHalf(m: int): (h: int)
    ensures m >= 0 ==> 0 <= 2 * h <= m < 2 * h + 2
    ensures m < 0 ==> 2 * h - 2 < m <= 2 * h <= 0
  {
    if m >= 0 then m / 2 else -((-m) / 2)
  }

  /** `_ndarray2fractions`: the first entry is approximated with a
      denominator of at most `int(maxd/2)` (the constant term is halved
      later), every other entry with at most `maxd`. `limit(x, d)` stands
      for `Fraction(x).limit_denominator(d)`, which rejects a bound below 1
      with `ValueError`; an empty list fails at `arr[0]`. */
  function ToFractions(arr: seq<real>, maxd: int, limit: (real, int) -> Rational): (res: Result<seq<Rational>>)
    ensures arr == [] ==> res == Failure(IndexError)
    ensures arr != [] && maxd < 2 ==> res == Failure(ValueError)
    ensures res.Success? <==> arr != [] && maxd >= 2
    ensures res.Success? ==>
              |res.value| == |arr| && res.value[0] == limit(arr[0], TruncHalf(maxd))
              && forall i :: 1 <= i < |arr| ==> res.value[i] == limit(arr[i], maxd)
  {
    if arr == [] then Failure(IndexError)
    else if TruncHalf(maxd) < 1 then Failure(ValueError)
    else
      Success([limit(arr[0], TruncHalf(maxd))]
              + seq(|arr| - 1, i requires 0 <= i < |arr| - 1 => limit(arr[i + 1], maxd)))
  }

  /** `limit(x, d)` has a denominator of at most `d`, as `limit_denominator`
      promises. */
  ghost predicate KeepsBound(limit: (real, int) -> Rational) {
    forall x, d :: d >= 1 ==> limit(x, d).den <= d
  }

  /** With a `limit` that keeps its denominator bound, the constant term's
      denominator is at most `int(maxd/2)` and every other at most `maxd`. */
  lemma ToFractionsBounded(arr: seq<real>, maxd: int, limit: (real, int) -> Rational)
    requires KeepsBound(limit)
    requires ToFractions(arr, maxd, limit).Success?
    ensures var fr := ToFractions(arr, maxd, limit).value;
            fr[0].den <= TruncHalf(maxd) && forall i :: 0 <= i < |fr| ==> fr[i].den <= maxd
  {
    var fr := ToFractions(arr, maxd, limit).value;
    var a := arr[0];
    assert limit(a, TruncHalf(maxd)).den <= TruncHalf(maxd) <= maxd;
    forall i | 1 <= i < |fr|
      ensures fr[i].den <= maxd
    {
      var a := arr[i];
      assert limit(a, maxd).den <= maxd;
    }
  }

  /** `FourierSeriesFraction` after `__init__`: the rational amplitudes
      `r_f`, phases `p_f`, the degree and the denominator bound. */
  datatype SeriesFraction = SeriesFraction(rf: seq<Rational>, pf: seq<Rational>, n: int, maxd: int)

  /** What construction guarantees: one amplitude and one phase for each of
      the degrees `0..n`, and at least the constant term. */
  predicate WellFormed(s: SeriesFraction) {
    s.n >= 0 && |s.rf| == s.n + 1 && |s.pf| == s.n + 1
  }

  type Series = s: SeriesFraction | WellFormed(s)
    witness SeriesFraction([Frac(0, 1)], [Frac(0, 1)], 0, 100)

  /** `FourierSeriesFraction.__init__`: the base constructor, then both lists
      turned into fractions. */
  function NewSeriesFraction(r: seq<real>, p: seq<real>, n: Option<int>, maxd: int,
                             limit: (real, int) -> Rational): (res: Result<Series>)
    ensures |r| != |p| ==> res == Failure(ValueError)
    ensures res.Success? <==>
              NewFourierSeries(r, p, n).Success? && NewFourierSeries(r, p, n).value.r != [] && maxd >= 2
    ensures NewFourierSeries(r, p, n).Success? && NewFourierSeries(r, p, n).value.r == [] ==>
              res == Failure(IndexError)
    ensures res.Success? ==>
              res.value.n == NewFourierSeries(r, p, n).value.n && res.value.maxd == maxd
  {
    match NewFourierSeries(r, p, n)
    case Failure(e) => Failure(e)
    case Success(base) =>
      match ToFractions(base.r, maxd, limit)
      case Failure(e) => Failure(e)
      case Success(rf) =>
        // `p` has the length of `r`, so it cannot fail where `r` did not
        var pf := ToFractions(base.p, maxd, limit).value;
        Success(SeriesFraction(rf, pf, base.n, maxd))
  }

  /** `showmax and showmax < self.n`: the listing is cut after `showmax`. */
  predicate Cut(s: Series, showmax: Option<int>) {
    Truthy(showmax) && showmax.value < s.n
  }

  /** How many leading degrees are listed: `len(r_f[:showmax+1])` when cut,
      all of them otherwise. */
  function Shown(s: Series, showmax: Option<int>): (m: nat)
    ensures m <= |s.rf|
    ensures !Cut(s, showmax) ==> m == |s.rf|
    ensures Cut(s, showmax) && showmax.value >= 0 ==> m == showmax.value + 1
  {
    if Cut(s, showmax) then PyStop(showmax.value + 1, |s.rf|) else |s.rf|
  }

  /** The series of degrees `0..m-1` of `s`. */
  function Prefix(s: Series, m: nat): (t: Series)
    requires 1 <= m <= |s.rf|
    ensures t.n == m - 1 && t.rf <= s.rf && t.pf <= s.pf
  {
    SeriesFraction(s.rf[..m], s.pf[..m], m - 1, s.maxd)
  }

  /** The degree whose amplitude is nonzero and after which every amplitude
      is zero: `np.where(r != 0)[0][-1]`. */
  function LastNonzero(rf: seq<Rational>): (j: Option<nat>)
    ensures j.None? <==> forall i :: 0 <= i < |rf| ==> rf[i].num == 0
    ensures j.Some? ==>
              j.value < |rf| && rf[j.value].num != 0
              && forall i :: j.value < i < |rf| ==> rf[i].num == 0
  {
    if rf == [] then None
    else if rf[|rf| - 1].num != 0 then Some(|rf| - 1)
    else LastNonzero(rf[..|rf| - 1])
  }

  // ---------------------------------------------------------------- LaTeX

  /** The phase of a LaTeX harmonic: nothing for a zero phase, `+ p` for a
      positive one, `- |p|` for a negative one; never a 1 left out. */
  function PhaseLatex(p: Rational): (t: string)
    ensures t == "" <==> p.num == 0
    ensures t != "" ==> |t| >= 4 && t[1] == (if p.num > 0 then '+' else '-')
  {
    if p.num == 0 then ""
    else if p.num >= 0 then " + " + Frac2Latex(p, false)
    else " - " + Frac2Latex(Neg(p), false)
  }

  /** Harmonic `k`, without its line break:
      ` + r \cos \left( kt ± p \right)`, where an amplitude or a degree of 1
      is left out. */
  function TermLatex(rk: Rational, pk: Rational, k: nat): string {
    " + " + Frac2Latex(rk, true) + " \\cos \\left( " + Frac2Latex(Frac(k, 1), true) + "t"
    + PhaseLatex(pk) + " \\right)"
  }

  /** The harmonics `1..m-1` whose amplitude is nonzero, one per line, in
      increasing degree. */
  function LatexTerms(rf: seq<Rational>, pf: seq<Rational>, m: nat): string
    requires m <= |rf| && m <= |pf|
  {
    if m <= 1 then "" else LatexTerms(rf, pf, m - 1) + LatexLine(rf, pf, m - 1)
  }

  /** The line of harmonic `k`: empty when its amplitude is zero. */
  function LatexLine(rf: seq<Rational>, pf: seq<Rational>, k: nat): (t: string)
    requires k < |rf| && k < |pf|
    ensures t == "" <==> rf[k].num == 0
  {
    if rf[k].num != 0 then TermLatex(rf[k], pf[k], k) + "\n" else ""
  }

  /** The constant term as the source writes it: `r0/2` through
      `_frac2latex` with its default `omit=True`, so a constant of 1 is
      written as nothing. */
  function LatexHeadAsWritten(r0: Rational, p0: Rational): (t: string)
    ensures t == "\n" <==> p0.num == 0 && Half(r0).num == 1 && Half(r0).den == 1
  {
    (if p0.num == 0 then "" else "- ") + Frac2Latex(Half(r0), true) + "\n"
  }

  /** The constant term `r0/2` on its own line, preceded by `- ` when phase
      0 is nonzero; the constant is always written out. */
  function LatexHead(r0: Rational, p0: Rational): (t: string)
    ensures |t| >= 2
    ensures t[0] == '-' && t[1] == ' ' <==> p0.num != 0
  {
    NoSpace(Half(r0), false);
    (if p0.num == 0 then "" else "- ") + Frac2Latex(Half(r0), false) + "\n"
  }

  /** `FourierSeriesFraction.latex(showmax)`: the constant term, the listed
      harmonics with nonzero amplitude, and, when the listing is cut before
      the last nonzero harmonic, `\cdots` and that harmonic. */
  function LatexSpec(s: Series, showmax: Option<int>): Result<string> {
    var m := Shown(s, showmax);
    if m == 0 then Failure(IndexError)
    else
      var body := LatexHead(s.rf[0], s.pf[0]) + LatexTerms(s.rf, s.pf, m);
      if !Cut(s, showmax) then Success(body)
      else
        match LastNonzero(s.rf)
        case None => Failure(IndexError)
        case Some(j) =>
          if j <= showmax.value then Success(body)
          else Success(body + " + \\cdots \n" + TermLatex(s.rf[j], s.pf[j], j))
  }

  /** `FourierSeriesFraction.latex`: the listed lines, then the tail of a
      cut listing. */
  method Latex(s: Series, showmax: Option<int>) returns (res: Result<string>)
    ensures res == LatexSpec(s, showmax)
  {
    var cut := Truthy(showmax) && showmax.value < s.n;
    var re, pe := s.rf, s.pf;
    if cut {
      re, pe := PyPrefix(s.rf, showmax.value + 1), PyPrefix(s.pf, showmax.value + 1);
    }
    if |pe| == 0 {
      return Failure(IndexError);
    }
    var text := LatexLines(re, pe);
    LatexTermsPrefix(s.rf, s.pf, |re|, |re|);
    assert re == s.rf[..|re|] && pe == s.pf[..|re|];
    assert |re| == Shown(s, showmax) && re[0] == s.rf[0] && pe[0] == s.pf[0];
    assert text == LatexHead(s.rf[0], s.pf[0]) + LatexTerms(s.rf, s.pf, Shown(s, showmax));
    if !cut {
      return Success(text);
    }
    var last := LastNonzeroIndex(s.rf);
    if last.None? {
      return Failure(IndexError);
    }
    var j := last.value;
    if j <= showmax.value {
      return Success(text);
    }
    text := text + " + \\cdots \n" + TermLatex(s.rf[j], s.pf[j], j);
    return Success(text);
  }

  /** The constant term and the harmonics of nonzero amplitude of the listed
      degrees, built line by line. */
  method LatexLines(re: seq<Rational>, pe: seq<Rational>) returns (text: string)
    requires 1 <= |re| == |pe|
    ensures text == LatexHead(re[0], pe[0]) + LatexTerms(re, pe, |re|)
  {
    var head := LatexHead(re[0], pe[0]);
    var terms := "";
    for k := 1 to |re|
      invariant terms == LatexTerms(re, pe, k)
    {
      if re[k].num != 0 {
        terms := terms + (TermLatex(re[k], pe[k], k) + "\n");
      }
    }
    text := head + terms;
  }

  /** `np.where(r != 0)[0][-1]`, with `None` for the `IndexError` of an
      empty index list: all indices of nonzero amplitude are gathered in
      order and the last one is taken. */
  method LastNonzeroIndex(rf: seq<Rational>) returns (last: Option<nat>)
    ensures last == LastNonzero(rf)
  {
    var nonZero: seq<nat> := [];
    for i := 0 to |rf|
      invariant forall j: nat :: j in nonZero <==> j < i && rf[j].num != 0
      invariant forall a, b :: 0 <= a < b < |nonZero| ==> nonZero[a] < nonZero[b]
      invariant forall a :: 0 <= a < |nonZero| ==> nonZero[a] < i
    {
      if rf[i].num != 0 {
        nonZero := nonZero + [i];
      }
    }
    if |nonZero| == 0 {
      assert forall i :: 0 <= i < |rf| ==> rf[i].num == 0 by {
        forall i | 0 <= i < |rf| ensures rf[i].num == 0 {
          assert i !in nonZero;
        }
      }
      return None;
    }
    var j := nonZero[|nonZero| - 1];
    assert forall i :: j < i < |rf| ==> rf[i].num == 0 by {
      assert forall a :: 0 <= a < |nonZero| ==> nonZero[a] <= j;
      forall i | j < i < |rf| ensures rf[i].num == 0 {
        assert i !in nonZero;
      }
    }
    assert j in nonZero;
    var j' := LastNonzero(rf).value;
    assert j <= j' && j' <= j;
    return Some(j);
  }

  /** The harmonics listed from a series depend only on its first `k`
      degrees. */
  lemma {:induction false} LatexTermsPrefix(rf: seq<Rational>, pf: seq<Rational>, m: nat, k: nat)
    requires m <= k <= |rf| && k <= |pf|
    ensures LatexTerms(rf[..k], pf[..k], m) == LatexTerms(rf, pf, m)
  {
    if m > 1 {
      LatexTermsPrefix(rf, pf, m - 1, k);
    }
  }

  /** Harmonics of zero amplitude add nothing to the listing. */
  lemma {:induction false} LatexTermsZeroTail(rf: seq<Rational>, pf: seq<Rational>, m: nat, k: nat)
    requires 1 <= m <= k <= |rf| && k <= |pf|
    requires forall i :: m <= i < k ==> rf[i].num == 0
    ensures LatexTerms(rf, pf, k) == LatexTerms(rf, pf, m)
  {
    if k > m {
      LatexTermsZeroTail(rf, pf, m, k - 1);
      assert LatexLine(rf, pf, k - 1) == "";
      assert LatexTerms(rf, pf, k) == LatexTerms(rf, pf, k - 1) + LatexLine(rf, pf, k - 1);
    }
  }

  /** The phase of a harmonic of zero amplitude does not show. */
  lemma {:induction false} LatexTermsHiddenPhases(rf: seq<Rational>, pf: seq<Rational>, pf': seq<Rational>, m: nat)
    requires m <= |rf| && m <= |pf| && m <= |pf'|
    requires forall i :: 1 <= i < m && rf[i].num != 0 ==> pf[i] == pf'[i]
    ensures LatexTerms(rf, pf, m) == LatexTerms(rf, pf', m)
  {
    if m > 1 {
      LatexTermsHiddenPhases(rf, pf, pf', m - 1);
    }
  }

  /** The LaTeX text starts with `- ` exactly when phase 0 is nonzero. */
  lemma LatexHeadSign(s: Series, showmax: Option<int>)
    requires Shown(s, showmax) >= 1
    requires Cut(s, showmax) ==> LastNonzero(s.rf).Some?
    ensures var t := LatexSpec(s, showmax).value;
            |t| >= 2 && (t[0] == '-' && t[1] == ' ' <==> s.pf[0].num != 0)
  {
    var t := LatexSpec(s, showmax).value;
    var head := LatexHead(s.rf[0], s.pf[0]);
    var body := head + LatexTerms(s.rf, s.pf, Shown(s, showmax));
    if Cut(s, showmax) && LastNonzero(s.rf).Some? && LastNonzero(s.rf).value > showmax.value {
      var j := LastNonzero(s.rf).value;
      assert t == body + " + \\cdots \n" + TermLatex(s.rf[j], s.pf[j], j);
    } else {
      assert t == body;
    }
    assert t[0] == head[0] && t[1] == head[1];
  }

  /** A cut listing is the whole listing of the series cut at `showmax`,
      followed by `\cdots` and the last nonzero harmonic when that one lies
      beyond the cut; a series of zero amplitudes cannot be cut. */
  lemma LatexCutListing(s: Series, showmax: Option<int>)
    requires Cut(s, showmax) && showmax.value >= 0
    ensures LastNonzero(s.rf).None? ==> LatexSpec(s, showmax) == Failure(IndexError)
    ensures LastNonzero(s.rf).Some? && LastNonzero(s.rf).value <= showmax.value ==>
              LatexSpec(s, showmax) == LatexSpec(Prefix(s, showmax.value + 1), None)
    ensures LastNonzero(s.rf).Some? && LastNonzero(s.rf).value > showmax.value ==>
              var j := LastNonzero(s.rf).value;
              LatexSpec(s, showmax)
              == Success(LatexSpec(Prefix(s, showmax.value + 1), None).value
                         + " + \\cdots \n" + TermLatex(s.rf[j], s.pf[j], j))
  {
    var m := showmax.value + 1;
    var t := Prefix(s, m);
    LatexTermsPrefix(s.rf, s.pf, m, m);
    assert !Cut(t, None) && Shown(t, None) == m;
    assert LatexSpec(t, None) == Success(LatexHead(s.rf[0], s.pf[0]) + LatexTerms(s.rf, s.pf, m));
  }

  /** Cutting a listing after the last nonzero harmonic loses nothing. */
  lemma LatexCutLossless(s: Series, showmax: Option<int>)
    requires Cut(s, showmax) && showmax.value >= 0
    requires LastNonzero(s.rf).Some? && LastNonzero(s.rf).value <= showmax.value
    ensures LatexSpec(s, showmax) == LatexSpec(s, None)
  {
    var m := showmax.value + 1;
    LatexTermsZeroTail(s.rf, s.pf, m, |s.rf|);
  }

  /** The text of a harmonic tells its phase: a zero phase, a positive one
      and a negative one are each written differently, and so are two
      different nonzero phases. */
  lemma TermLatexPhaseInjective(rk: Rational, p: Rational, p': Rational, k: nat)
    requires TermLatex(rk, p, k) == TermLatex(rk, p', k)
    ensures p == p' || (p.num == 0 && p'.num == 0)
  {
    var lead := " + " + Frac2Latex(rk, true) + " \\cos \\left( " + Frac2Latex(Frac(k, 1), true) + "t";
    var tail := " \\right)";
    assert TermLatex(rk, p, k) == lead + (PhaseLatex(p) + tail);
    assert TermLatex(rk, p', k) == lead + (PhaseLatex(p') + tail);
    DropPrefix(lead, PhaseLatex(p) + tail, PhaseLatex(p') + tail);
    DropSuffix(PhaseLatex(p), PhaseLatex(p'), tail);
    if p.num > 0 {
      DropPrefix(" + ", Frac2Latex(p, false), Frac2Latex(p', false));
      Frac2LatexInjective(p, p');
    } else if p.num < 0 {
      DropPrefix(" - ", Frac2Latex(Neg(p), false), Frac2Latex(Neg(p'), false));
      Frac2LatexInjective(Neg(p), Neg(p'));
    }
  }

  /** The corrected constant term tells the constant and whether phase 0
      is zero. */
  lemma LatexHeadInjective(r0: Rational, p0: Rational, r0': Rational, p0': Rational)
    requires LatexHead(r0, p0) == LatexHead(r0', p0')
    ensures Half(r0) == Half(r0') && (p0.num == 0 <==> p0'.num == 0)
  {
    NoSpace(Half(r0), false);
    NoSpace(Half(r0'), false);
    var a, b := Frac2Latex(Half(r0), false), Frac2Latex(Half(r0'), false);
    assert LatexHead(r0, p0)[1] == ' ' <==> p0.num != 0;
    assert LatexHead(r0', p0')[1] == ' ' <==> p0'.num != 0;
    var sign := if p0.num == 0 then "" else "- ";
    assert LatexHead(r0, p0) == sign + (a + "\n");
    assert LatexHead(r0', p0') == sign + (b + "\n");
    DropPrefix(sign, a + "\n", b + "\n");
    DropSuffix(a, b, "\n");
    Frac2LatexInjective(Half(r0), Half(r0'));
  }

  /** The constant term as written loses a constant of 1: amplitude 2 is
      written as an empty line, where the corrected term writes `1`. */
  lemma LatexHeadAsWrittenDropsOne()
    ensures Value(Half(Frac(2, 1))) == 1.0
    ensures LatexHeadAsWritten(Frac(2, 1), Frac(0, 1)) == "\n"
    ensures LatexHead(Frac(2, 1), Frac(0, 1)) == "1\n"
  {
  }

  // ----------------------------------------------------------------- str

  /** The phase of a `str` harmonic: `+ p` for a non-negative phase,
      `- |p|` for a negative one. */
  function PhaseStr(p: Rational): (t: string)
    ensures |t| >= 4 && t[1] == (if p.num >= 0 then '+' else '-')
  {
    if p.num >= 0 then " + " + FracStr(p) else " - " + FracStr(Neg(p))
  }

  /** Harmonic `k` in `str`: ` + r cos(kt ± p)`. */
  function TermStr(rk: Rational, pk: Rational, k: nat): string {
    " + " + FracStr(rk) + " cos(" + IntToString(k) + "t" + PhaseStr(pk) + ")"
  }

  /** The last harmonic of a cut `str` listing as the source writes it: a
      negative phase is written as `+ |p|`. */
  function TailTermStrAsWritten(rk: Rational, pk: Rational, k: nat): (t: string)
    ensures var lead := " + " + FracStr(rk) + " cos(" + IntToString(k) + "t ";
            |t| > |lead| && t[|lead|] == '+'
  {
    " + " + FracStr(rk) + " cos(" + IntToString(k) + "t + "
    + FracStr(if pk.num >= 0 then pk else Neg(pk)) + ")"
  }

  /** The harmonics `1..m-1`, every one of them, in increasing degree. */
  function StrTerms(rf: seq<Rational>, pf: seq<Rational>, m: nat): string
    requires m <= |rf| && m <= |pf|
  {
    if m <= 1 then "" else StrTerms(rf, pf, m - 1) + TermStr(rf[m - 1], pf[m - 1], m - 1)
  }

  /** The constant term `r0/2`, preceded by `- ` when phase 0 is nonzero. */
  function StrHead(r0: Rational, p0: Rational): string {
    (if p0.num == 0 then "" else "- ") + FracStr(Half(r0))
  }

  /** `FourierSeriesFraction.str(showmax)`: the constant term and the listed
      harmonics, then, when cut, `+ ...` and the harmonic of degree `n`. */
  function StrSpec(s: Series, showmax: Option<int>): Result<string> {
    var m := Shown(s, showmax);
    if m == 0 then Failure(IndexError)
    else
      var body := StrHead(s.rf[0], s.pf[0]) + StrTerms(s.rf, s.pf, m);
      if Cut(s, showmax) then Success(body + " + ..." + TermStr(s.rf[s.n], s.pf[s.n], s.n))
      else Success(body)
  }

  /** `FourierSeriesFraction.str`: the listed terms, then the tail of a cut
      listing. */
  method Str(s: Series, showmax: Option<int>) returns (res: Result<string>)
    ensures res == StrSpec(s, showmax)
  {
    var cut := Truthy(showmax) && showmax.value < s.n;
    var re, pe := s.rf, s.pf;
    if cut {
      re, pe := PyPrefix(s.rf, showmax.value + 1), PyPrefix(s.pf, showmax.value + 1);
    }
    if |pe| == 0 {
      return Failure(IndexError);
    }
    var text := StrLines(re, pe);
    StrTermsPrefix(s.rf, s.pf, |re|, |re|);
    assert re == s.rf[..|re|] && pe == s.pf[..|re|];
    assert |re| == Shown(s, showmax) && re[0] == s.rf[0] && pe[0] == s.pf[0];
    assert text == StrHead(s.rf[0], s.pf[0]) + StrTerms(s.rf, s.pf, Shown(s, showmax));
    if !cut {
      return Success(text);
    }
    var last := s.n;
    text := text + " + ..." + TermStr(s.rf[last], s.pf[last], last);
    return Success(text);
  }

  /** The constant term and every harmonic of the listed degrees, built term
      by term. */
  method StrLines(re: seq<Rational>, pe: seq<Rational>) returns (text: string)
    requires 1 <= |re| == |pe|
    ensures text == StrHead(re[0], pe[0]) + StrTerms(re, pe, |re|)
  {
    var head := StrHead(re[0], pe[0]);
    var terms := "";
    for k := 1 to |re|
      invariant terms == StrTerms(re, pe, k)
    {
      terms := terms + TermStr(re[k], pe[k], k);
    }
    text := head + terms;
  }

  /** The `str` harmonics depend only on the first `k` degrees. */
  lemma {:induction false} StrTermsPrefix(rf: seq<Rational>, pf: seq<Rational>, m: nat, k: nat)
    requires m <= k <= |rf| && k <= |pf|
    ensures StrTerms(rf[..k], pf[..k], m) == StrTerms(rf, pf, m)
  {
    if m > 1 {
      StrTermsPrefix(rf, pf, m - 1, k);
    }
  }

  /** A cut `str` listing is the whole listing of the series cut at
      `showmax`, then `+ ...` and the harmonic of the highest degree. */
  lemma StrCutListing(s: Series, showmax: Option<int>)
    requires Cut(s, showmax) && showmax.value >= 0
    ensures StrSpec(s, showmax)
            == Success(StrSpec(Prefix(s, showmax.value + 1), None).value
                       + " + ..." + TermStr(s.rf[s.n], s.pf[s.n], s.n))
  {
    var m := showmax.value + 1;
    StrTermsPrefix(s.rf, s.pf, m, m);
  }

  /** A `str` harmonic tells its phase, sign included. */
  lemma TermStrPhaseInjective(rk: Rational, p: Rational, p': Rational, k: nat)
    requires TermStr(rk, p, k) == TermStr(rk, p', k)
    ensures p == p'
  {
    var lead := " + " + FracStr(rk) + " cos(" + IntToString(k) + "t";
    assert TermStr(rk, p, k) == lead + (PhaseStr(p) + ")");
    assert TermStr(rk, p', k) == lead + (PhaseStr(p') + ")");
    DropPrefix(lead, PhaseStr(p) + ")", PhaseStr(p') + ")");
    DropSuffix(PhaseStr(p), PhaseStr(p'), ")");
    if p.num >= 0 {
      DropPrefix(" + ", FracStr(p), FracStr(p'));
      FracStrInjective(p, p');
    } else {
      DropPrefix(" - ", FracStr(Neg(p)), FracStr(Neg(p')));
      FracStrInjective(Neg(p), Neg(p'));
    }
  }

  /** The last harmonic as written reads the same for phases `p` and `-p`:
      phase -1 comes out as `+ 1`. */
  lemma TailTermStrAsWrittenLosesSign(rk: Rational, k: nat)
    ensures TailTermStrAsWritten(rk, Frac(-1, 1), k) == TailTermStrAsWritten(rk, Frac(1, 1), k)
    ensures TermStr(rk, Frac(-1, 1), k) != TermStr(rk, Frac(1, 1), k)
  {
    var plus, minus := TermStr(rk, Frac(1, 1), k), TermStr(rk, Frac(-1, 1), k);
    var lead := " + " + FracStr(rk) + " cos(" + IntToString(k) + "t";
    assert plus == lead + PhaseStr(Frac(1, 1)) + ")";
    assert minus == lead + PhaseStr(Frac(-1, 1)) + ")";
    assert plus[|lead| + 1] == '+';
    assert minus[|lead| + 1] == '-';
  }
}
