# pic2formula core in Dafny

pic2formula turns a picture into a formula. The picture's edge mask is
traced into polylines, and each polyline is closed and fitted with a
periodic B-spline. The spline is then expanded into a Fourier series, and
that series is written out with rational coefficients, as plain text or
as LaTeX. This project models three parts of that pipeline and proves
properties of them:

- **Tracer** (`pic2formula/edges2polylines.py`):
  - The edge mask is a 2-D integer array. A cell holding 255 is an edge pixel that has not been consumed yet.
  - `edges2polylines` draws an arbitrary live pixel as the seed of a new polyline.
  - It grows the polyline greedily from its end. While the line has at most three points, it takes the nearest live cell in the lattice disc around the end. After that, it takes the candidate of least direction-biased cost, unless that cost exceeds `max_cost`.
  - It reverses the line once, so the line can also grow from its other end.
  - It zeroes every cell it takes.
  - Mask frame `(row, col)` and plot frame `(x, y) = (col, -row)` are kept apart as two types.
  - The mask is a Dafny `array2<int>` changed in place, and the trace is a method with loop invariants. The main invariant is this: every point of a polyline was a live cell, and the number of points taken plus the number of live cells stays equal to the initial number of edge pixels.
- **`Polyline`** (`pic2formula/polyline.py`):
  - A class whose field is the point list.
  - `append`, `__setitem__` and `extend` reject values that are not 2-D.
  - `_close_polyline` returns a closed copy of the path.
  - The model also covers the point-count guard of `bspline` and the control-point wrap of `closed_bspline`.
- **Fourier series text** (`pic2formula/fourier_series.py`):
  - The `FourierSeries` constructor, with its length check and truncation.
  - The conversion of both lists to fractions.
  - `_frac2latex`.
  - The term-by-term text built by `FourierSeriesFraction.str` and `latex`. This is modelled by methods with loops, each proved equal to a specification function, with lemmas about those functions.

Fractions are integer pairs, with the denominator at least 1. Python's
`str` of an `int` and of a `Fraction` is written out digit by digit. The
text of an `int` is proved to parse back to the `int` and to be
injective. The text of a `Fraction` is proved injective only; there is no
fraction parser. Beyond these, the following text facts are proved:

- the text of one fraction determines the fraction, in both `str` and
  LaTeX form;
- the text of one harmonic determines its phase, for a fixed amplitude and
  degree;
- the corrected constant term determines `r0/2` and whether phase 0 is
  zero.

No lemma compares the whole texts of two different series.

The modules, one per file:

- `Outcomes`: the Python exceptions and the Option/Result wrappers.
- `Seqs`: reversal, distinctness and Python slice bounds.
- `Geometry`: the two frames, distances, the integer square root, the lattice disc and the cost.
- `EdgeMask`: the mask.
- `Tracer`: the tracing loops.
- `Polylines`: the `Polyline` class.
- `Decimal`: decimal integer text.
- `Fractions`: rationals and their two texts.
- `Fourier`: the series and their texts.

## Model

| member | source | states |
|---|---|---|
| Geometry.ToPlot | pic2formula/edges2polylines.py:134-141 | `convert_imshow2plot`: a mask cell with non-negative row and column lands where x >= 0 and y <= 0, so the image keeps its orientation in the plot; MaskRoundTrip makes it the inverse of ToMask |
| Geometry.ToMask | pic2formula/edges2polylines.py:144-152 | `convert_plot2imshow`: converting the result back to the plot frame gives the plot point again |
| Geometry.MaskRoundTrip | pic2formula/edges2polylines.py:134-152 | `convert_plot2imshow(convert_imshow2plot(p)) == p` for every integer mask point |
| Geometry.SqDist | pic2formula/edges2polylines.py:94-100 | squared `distance`; it is zero exactly when the two points coincide |
| Geometry.SqDistSymmetric | pic2formula/edges2polylines.py:94-100 | `distance(a, b) == distance(b, a)` |
| Geometry.FloorSqrt | pic2formula/edges2polylines.py:120-121 | `floor(sqrt(n))` as the integer `h` with `h*h <= n < (h+1)*(h+1)` |
| Geometry.WithinFloorSqrt | pic2formula/edges2polylines.py:120-122 | `y` lies in `[-yi, yi]` exactly when `y*y <= r*r - x*x` |
| Geometry.PointsInsideCircle | pic2formula/edges2polylines.py:112-124 | the loop over x-offsets and y-columns builds exactly the disc enumeration `Disc(center, r)` |
| Geometry.DiscMembers | pic2formula/edges2polylines.py:112-124 | a lattice point is in the disc exactly when `r >= 0` and its squared distance to the centre is at most `r*r` |
| Geometry.DiscOrdered | pic2formula/edges2polylines.py:118-123 | the disc is listed in strictly increasing (dx, dy) order, so no point appears twice |
| Geometry.Cost | pic2formula/edges2polylines.py:67-73 | `cost_function`: the end itself costs 0, and without a heading the cost is the squared distance |
| Geometry.DirectionalBias | pic2formula/edges2polylines.py:67-73 | of two candidates at equal distance from the end, the one further along the heading `d` has strictly smaller `cost_function` |
| EdgeMask.LiveCells | pic2formula/edges2polylines.py:108 | the pool holds exactly the in-bounds cells equal to 255 |
| EdgeMask.MakePointList | pic2formula/edges2polylines.py:103-109 | lists every live cell, in row-major order (so each once), and as many as there are live cells |
| EdgeMask.DeleteEdge | pic2formula/edges2polylines.py:127-131 | cell `p` becomes 0, every other cell is unchanged, and the pool loses exactly `p` |
| EdgeMask.LiveAmong | pic2formula/edges2polylines.py:82-90 | keeps, in order, exactly the points whose mask cell is live |
| EdgeMask.LiveAmongOrdered | pic2formula/edges2polylines.py:82-90 | the filter keeps the disc order of the points it keeps |
| EdgeMask.SearchNeighborPoints | pic2formula/edges2polylines.py:76-91 | the live cells of the disc in disc order (strictly increasing x, then y); a point is returned exactly when its cell is in bounds, holds 255 and lies within the radius; a negative or too large index is skipped |
| Tracer.EffectiveMaxCost | pic2formula/edges2polylines.py:10 | `max_cost or neighborhood_size ** 2`: a given nonzero threshold is kept, and `None` or 0 becomes the squared radius |
| Tracer.NearestIndex | pic2formula/edges2polylines.py:29-42 | `sorted(nearest, key=distance)[0]`: a candidate at least distance, with every earlier candidate strictly farther (stable sort) |
| Tracer.CheapestIndex | pic2formula/edges2polylines.py:47-56 | the first candidate after the stable sort by cost: no candidate is cheaper, and every earlier candidate is dearer or ties on cost and is farther |
| Tracer.ReverseConsumes | pic2formula/edges2polylines.py:33-37 | `line.reverse()` keeps the same points and the same pool accounting |
| Tracer.AppendConsumes | pic2formula/edges2polylines.py:57-59 | appending a live cell adds a point that was not yet in the line, and the pool loses exactly that cell |
| Tracer.NearestChoice | pic2formula/edges2polylines.py:29-42 | when the candidates are the live cells in reach in disc order, `sorted(nearest, key=distance)[0]` is nearest of all, and no cell as near comes earlier in disc order |
| Tracer.CheapestChoice | pic2formula/edges2polylines.py:29-56 | when the candidates are the live cells in reach in disc order, the first after the stable sorts by distance and by cost: none is cheaper, and no cell of the same cost and distance comes earlier in disc order |
| Tracer.ReverseChain | pic2formula/edges2polylines.py:35 | `line.reverse()` keeps every pair of neighbours within the radius |
| Tracer.AppendChain | pic2formula/edges2polylines.py:57 | appending a point within the radius of the end keeps every pair of neighbours within the radius |
| Tracer.Heading | pic2formula/edges2polylines.py:45-46 | the normalised heading `d` at the end of the line; on a line whose last two steps are the same step s it is the normalisation of 1.47·s |
| Tracer.CanExtendLive | pic2formula/edges2polylines.py:27-56 | an end can grow on the mask exactly when it can grow on the mask's set of live cells |
| Tracer.HeadAcceptable | pic2formula/edges2polylines.py:41-56 | a point put in front of the line makes no candidate acceptable at the end that was not acceptable before |
| Tracer.HeadStaysStuck | pic2formula/edges2polylines.py:31-59 | an end that no live cell can extend stays stuck while points are added at the other end and cells are consumed |
| Tracer.ChooseNext | pic2formula/edges2polylines.py:27-56 | `None` exactly when no live cell within the radius is acceptable. Otherwise the result is a live cell within the radius: with at most three points it is the nearest such cell, and with more points no cell is cheaper and its cost does not exceed `max_cost`. Ties go to the cell earliest in disc order, as the stable sorts of the source do. A radius of 0 never extends a line |
| Tracer.Take | pic2formula/edges2polylines.py:57-59 | the point is appended and its cell zeroed; the line still holds exactly the consumed cells of the pool |
| Tracer.TracePolyline | pic2formula/edges2polylines.py:20-59 | the seed is in the line, and each two consecutive points lie within the radius of each other. The line holds, once each, exactly the cells the run consumed. The count grows by the line's length. Only edge cells were changed, and only to 0. The line was reversed exactly once. When the run ends, no live cell is acceptable at either end, so the head that was abandoned at the reversal could not grow either (`Exhausted`). A radius of 0 gives the one-point line |
| Tracer.Edges2Polylines | pic2formula/edges2polylines.py:9-64 | the polylines together hold every original edge pixel exactly once, in plot frame; every polyline is non-empty and a chain of points each within the radius of the next; the mask ends with every 255 turned to 0 and all else unchanged; an empty mask gives no polylines; radius 0 gives one-point polylines |
| Polylines.Polyline.constructor | pic2formula/polyline.py:12-13 | a new polyline is empty |
| Polylines.Polyline.Append | pic2formula/polyline.py:30-33 | ValueError exactly when the value is not 2-D, and then the list is unchanged; otherwise the list grows by one point, the value |
| Polylines.Polyline.SetItem | pic2formula/polyline.py:15-18 | ValueError first for a non 2-D value. A key in `[-n, n)` replaces exactly that entry, with negative keys counted from the end. Any other key raises IndexError and changes nothing |
| Polylines.Polyline.Extend | pic2formula/polyline.py:35-37 | outcome and contents are those of appending each value in order, stopping at the first that raises |
| Polylines.AppendEachAll2D | pic2formula/polyline.py:35-37 | extending by 2-D values succeeds and adds them all, in order |
| Polylines.AppendEachStops | pic2formula/polyline.py:35-37 | after an append has raised, the remaining values are never looked at |
| Polylines.AppendEachFirstBad | pic2formula/polyline.py:35-37 | the first non 2-D value raises ValueError, and exactly the values before it have been added |
| Polylines.MirroredPalindrome | pic2formula/polyline.py:89-91 | a path followed by the reverse of `path[:-1]` is a palindrome |
| Polylines.Polyline.ClosePolyline | pic2formula/polyline.py:78-92 | IndexError exactly on an empty path; the path itself is not modified. The result starts with the path and ends on its first point. When the ends are nearer than `epsilon`, it has length n+1. Otherwise it has length 2n-1 and is a palindrome |
| Polylines.Polyline.BSpline | pic2formula/polyline.py:54-59 | ValueError exactly when there are at most `k` points |
| Polylines.Polyline.ClosedBSplineControlPoints | pic2formula/polyline.py:65-70 | the control points are the closed path followed by `path[1:k]`, without an extra first point. For `1 <= k <= len`, there are `len + k - 1` of them and the last `k` repeat the first `k` |
| Seqs.Reversed | pic2formula/edges2polylines.py:35 | `list.reverse()` keeps the length |
| Seqs.ReversedReversed | pic2formula/edges2polylines.py:35 | reversing twice gives the line back |
| Seqs.ReversedSnoc | pic2formula/edges2polylines.py:35 | a point appended after a reversal comes first when the line is reversed back |
| Seqs.PyStop | pic2formula/fourier_series.py:21-22 | the length of `xs[:stop]` under Python's rules, for stops that are in range, past the end or negative |
| Seqs.PyPrefix | pic2formula/fourier_series.py:137-138 | `xs[:stop]` is a prefix of `xs` of length `PyStop(stop, len(xs))` |
| Decimal.NatRoundTrip | pic2formula/fourier_series.py:104 | the decimal digits of a natural number read back as that number |
| Decimal.IntToString | pic2formula/fourier_series.py:104 | `str(int)` is non-empty, starts with `-` exactly for a negative number, and is otherwise digits |
| Decimal.IntRoundTrip | pic2formula/fourier_series.py:104 | `int(str(i)) == i` |
| Decimal.IntToStringInjective | pic2formula/fourier_series.py:104 | different integers have different texts |
| Fractions.Half | pic2formula/fourier_series.py:175 | `r_e[0]/2` as a fraction has half the value |
| Fractions.Neg | pic2formula/fourier_series.py:185 | `-pk` has the opposite value |
| Fractions.HalfLowest | pic2formula/fourier_series.py:175 | `r_e[0]/2` of a fraction in lowest terms is again in lowest terms, so its text is the text of Python's normalised `Fraction` |
| Fractions.NegLowest | pic2formula/fourier_series.py:185 | `-pk` of a fraction in lowest terms is again in lowest terms |
| Fractions.FracStr | pic2formula/fourier_series.py:150 | `str(Fraction)` is never empty |
| Fractions.FracStrSlash | pic2formula/fourier_series.py:150 | `str(Fraction)` contains `/` exactly when the denominator is not 1 |
| Fractions.FracStrInjective | pic2formula/fourier_series.py:150 | different fractions have different `str` texts |
| Fractions.Frac2Latex | pic2formula/fourier_series.py:98-107 | `_frac2latex` gives `""` exactly for the integer 1 with `omit` set |
| Fractions.Frac2LatexFirst | pic2formula/fourier_series.py:100-106 | the text starts with `\frac` exactly when the denominator is not 1 |
| Fractions.Frac2LatexIntegerRoundTrip | pic2formula/fourier_series.py:100-104 | an integer without `omit` is written as the numerator's decimal text |
| Fractions.Frac2LatexInjective | pic2formula/fourier_series.py:98-107 | without `omit`, different fractions have different LaTeX texts |
| Fourier.NewFourierSeries | pic2formula/fourier_series.py:18-25 | ValueError exactly when the lengths differ. Otherwise both lists are prefixes of the inputs of equal length, and `n = len(r) - 1`. A falsy `n` keeps them whole. `0 <= n < len` keeps `n+1` entries, and a larger `n` keeps all. `n = -1` keeps none, and a smaller `n` follows Python's negative slice |
| Fourier.NewFourierSeriesIdempotent | pic2formula/fourier_series.py:20-25 | building a series again from a built one with its own degree changes nothing |
| Fourier.TruncHalf | pic2formula/fourier_series.py:88 | `int(m/2)` is the half rounded toward zero |
| Fourier.ToFractions | pic2formula/fourier_series.py:86-90 | IndexError on an empty list; ValueError when `int(maxd/2) < 1`. Otherwise the result has the same length, the first entry is limited to `int(maxd/2)` and every other entry to `maxd` |
| Fourier.ToFractionsBounded | pic2formula/fourier_series.py:86-90 | with `limit_denominator` keeping its bound, the constant term's denominator is at most `int(maxd/2)` and every denominator at most `maxd` |
| Fourier.NewSeriesFraction | pic2formula/fourier_series.py:109-127 | ValueError for lists of different lengths. It succeeds exactly when the base constructor succeeds with a non-empty list and `maxd >= 2`. The degree is the base constructor's |
| Fourier.Shown | pic2formula/fourier_series.py:166-173 | the listing has `showmax+1` degrees when cut at a non-negative `showmax`, and all of them when not cut |
| Fourier.Prefix | pic2formula/fourier_series.py:167-169 | the series cut after `m` degrees is a prefix of the series, of degree `m-1` |
| Fourier.LastNonzero | pic2formula/fourier_series.py:187-189 | `np.where(r != 0)[0][-1]`: missing exactly when all amplitudes are zero. Otherwise it is an index of nonzero amplitude after which all amplitudes are zero |
| Fourier.LastNonzeroIndex | pic2formula/fourier_series.py:187-189 | gathering the nonzero indices and taking the last gives `LastNonzero` |
| Fourier.PhaseLatex | pic2formula/fourier_series.py:180-185 | the phase part is empty exactly for phase 0, and otherwise has `+` for a positive phase and `-` for a negative one |
| Fourier.LatexLine | pic2formula/fourier_series.py:179-185 | a harmonic's line is empty exactly when its amplitude is zero |
| Fourier.LatexHeadAsWritten | pic2formula/fourier_series.py:174-177 | the constant term as written: it is just the line break exactly when phase 0 is zero and `r0/2` is 1 |
| Fourier.LatexHead | pic2formula/fourier_series.py:174-177 | the constant term begins with `- ` exactly when phase 0 is nonzero (corrected, see Findings) |
| Fourier.LatexLines | pic2formula/fourier_series.py:174-185 | the loop builds the constant term and the lines of the listed harmonics with nonzero amplitude |
| Fourier.Latex | pic2formula/fourier_series.py:161-201 | `latex(showmax)` equals `LatexSpec`, with IndexError for an empty listing and for a cut listing of zero amplitudes; the constant term is corrected (see Findings) |
| Fourier.LatexTermsPrefix | pic2formula/fourier_series.py:166-173 | the listed harmonics depend only on the degrees kept by the cut |
| Fourier.LatexTermsZeroTail | pic2formula/fourier_series.py:179 | harmonics of zero amplitude add nothing |
| Fourier.LatexTermsHiddenPhases | pic2formula/fourier_series.py:178-185 | the phase of a harmonic of zero amplitude never shows |
| Fourier.LatexHeadSign | pic2formula/fourier_series.py:174-177 | the whole LaTeX text starts with `- ` exactly when phase 0 is nonzero |
| Fourier.LatexCutListing | pic2formula/fourier_series.py:166-200 | a cut listing is the full listing of the series cut at `showmax`. The `\cdots` line and the last nonzero harmonic are added exactly when that harmonic lies beyond the cut. IndexError when all amplitudes are zero |
| Fourier.LatexCutLossless | pic2formula/fourier_series.py:186-190 | cutting after the last nonzero harmonic gives the uncut text |
| Fourier.TermLatexPhaseInjective | pic2formula/fourier_series.py:180-185 | a harmonic's LaTeX tells its phase, unless both phases are zero |
| Fourier.LatexHeadInjective | pic2formula/fourier_series.py:174-177 | the corrected constant term tells the constant `r0/2` and whether phase 0 is zero |
| Fourier.LatexHeadAsWrittenDropsOne | pic2formula/fourier_series.py:174-177 | as written, amplitude 2 with phase 0 is written as an empty line, while the corrected term writes `1` |
| Fourier.PhaseStr | pic2formula/fourier_series.py:149-152 | `t + p` for a non-negative phase and `t - (-p)` for a negative one |
| Fourier.StrLines | pic2formula/fourier_series.py:144-152 | the loop builds the constant term and every listed harmonic |
| Fourier.Str | pic2formula/fourier_series.py:132-159 | `str(showmax)` equals `StrSpec`, IndexError for an empty listing; the tail phase is corrected (see Findings) |
| Fourier.StrTermsPrefix | pic2formula/fourier_series.py:136-143 | the listed `str` harmonics depend only on the degrees kept by the cut |
| Fourier.StrCutListing | pic2formula/fourier_series.py:153-158 | a cut `str` listing is the full listing of the series cut at `showmax`, followed by ` + ...` and the harmonic of degree `n` |
| Fourier.TailTermStrAsWritten | pic2formula/fourier_series.py:155-158 | the tail harmonic as written: the sign before the phase is `+`, whatever the sign of the phase |
| Fourier.TermStrPhaseInjective | pic2formula/fourier_series.py:148-152 | a `str` harmonic tells its phase, sign included |
| Fourier.TailTermStrAsWrittenLosesSign | pic2formula/fourier_series.py:155-158 | as written, the tail harmonic reads the same for phases -1 and +1; the corrected one does not |

## Left out

- Floating point. Amplitudes and phases are `real`. In the tracer, `sqrt` comparisons become comparisons of squared integer distances, and `floor(sqrt(.))` becomes an integer square root.
- The radius is an integer, as the command line passes it. A float radius is not modelled.
- The heading normalisation `d / norm(d)` is the parameter `normalize`. The cost is computed over reals with that heading.
- `random.randrange` is an arbitrary choice among the live cells, so the result holds for every choice.
- `Fraction.limit_denominator` is the parameter `limit`. Only its bound on the denominator is assumed, as a hypothesis of `Fourier.ToFractionsBounded`.
- Lowest terms: `Rational` does not require them. A fraction's text matches Python's only for a fraction in lowest terms, which every Python `Fraction` is. The fractions of a series come from the parameter `limit`, and the model does not state that they are in lowest terms. `Fractions.HalfLowest` and `Fractions.NegLowest` prove that the two fractions the texts derive from them, `r0/2` and `-p`, stay in lowest terms.
- `int(max_denominator/2)` is computed by Python in floating point. `Fourier.TruncHalf` is exact; the two differ only above 2^53.
- The tracer keeps each polyline as a sequence of integer lattice points, not as a `Polyline` object of float arrays. Every point it stores is a lattice point, so nothing is lost.
- `EdgeMask.DeleteEdge` requires an in-bounds cell. The tracer only deletes cells it found live.
- `__setitem__` with a slice key is not modelled; only integer keys are.
- `Polyline.__str__`, `length`, `get_x_arr`, `get_y_arr`, the knot vectors and the `scipy.interpolate.BSpline` construction are not modelled: they are float formatting and numerics, or a foreign library.
- `FourierSeries.__call__`, `FourierSeries.str`/`__str__` and `fraction` are not modelled (cosine evaluation and `{:.3f}` formatting). Neither are `_fractions2ndarray` or the float fields `r`/`p` that `FourierSeriesFraction.__init__` rebuilds from the fractions.
- Fourier.NewSeriesFraction: its contract does not describe the fraction lists; `Fourier.ToFractions` states them.
- `print_progress`, the final `print()` and the `numba` compilation are not modelled.
- Fourier.Latex and Fourier.Str collect the harmonics in their own variable before adding them to the constant term. The text is the same as the source's `s +=`.
- Fourier.LatexHead, Fourier.Latex and Fourier.Str model the corrected behaviour listed under Findings. `Fourier.LatexHeadAsWritten` and `Fourier.TailTermStrAsWritten` keep the behaviour as written.

## Findings

| source | as written | input that shows it | evidently intended | confidence | as-written member | corrected member |
|---|---|---|---|---|---|---|
| pic2formula/fourier_series.py:174-177 | the constant term `r0/2` is passed to `_frac2latex` with its default `omit=True`, so a constant of exactly 1 is written as nothing | `r_f[0] = 2`, `p_f[0] = 0`: the first line is `"\n"` instead of `"1\n"` (with a nonzero phase it is `"- \n"`) | the constant is always written, as with `omit=False` | high; not executed | Fourier.LatexHeadAsWrittenDropsOne | Fourier.LatexHeadInjective |
| pic2formula/fourier_series.py:155-158 | in the tail of a cut `str` listing, a negative phase is written `t + {-p}`, so its sign is lost | `showmax < n` with `p_f[-1] = -1`: the tail reads `t + 1`, the same as for phase `+1` | `t - {-p}`, as the listed harmonics write it on line 152 | high; not executed | Fourier.TailTermStrAsWrittenLosesSign | Fourier.TermStrPhaseInjective |
