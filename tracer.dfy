/** `edges2polylines`: greedy tracing of the edge pixels into polylines
    (pic2formula/edges2polylines.py). */
module Tracer {
  import opened Outcomes
  import opened Seqs
  import opened Geometry
  import opened EdgeMask

  /** `max_cost or neighborhood_size ** 2`: a missing or zero threshold
      falls back to the squared radius. */
  function EffectiveMaxCost(maxCost: Option<real>, neighborhoodSize: int): (c: real)
    ensures maxCost.Some? && maxCost.value != 0.0 ==> c == maxCost.value
    ensures maxCost == None || maxCost == Some(0.0) ==> c == (neighborhoodSize * neighborhoodSize) as real
  {
    if maxCost.Some? && maxCost.value != 0.0 then maxCost.value
    else (neighborhoodSize * neighborhoodSize) as real
  }

  /** `sorted(nearest, key=distance)[0]`: the index of the first candidate
      at minimum distance from `end` (Python's sort is stable). */
  function NearestIndex(cands: seq<PlotPoint>, end: PlotPoint): (k: nat)
    requires |cands| > 0
    ensures k < |cands|
    ensures forall j :: 0 <= j < |cands| ==> SqDist(cands[k], end) <= SqDist(cands[j], end)
    ensures forall j :: 0 <= j < k ==> SqDist(cands[k], end) < SqDist(cands[j], end)
  {
    if |cands| == 1 then 0
    else
      var k := NearestIndex(cands[..|cands| - 1], end);
      if SqDist(cands[|cands| - 1], end) < SqDist(cands[k], end) then |cands| - 1 else k
  }

  /** `c` comes first among the live cells within `r` of `end` once they
      are sorted stably by distance: none is nearer, and none as near comes
      earlier in disc order. */
  ghost predicate FirstNearest(edges: array2<int>, c: PlotPoint, end: PlotPoint, r: int)
    reads edges
  {
    forall q :: IsLive(edges, ToMask(q)) && SqDist(q, end) <= r * r ==>
      && SqDist(c, end) <= SqDist(q, end)
      && (SqDist(q, end) == SqDist(c, end) ==> !LexLess(q, c))
  }

  /** When the candidates are exactly the live cells within `r` of `end`,
      listed in disc order, `NearestIndex` picks the first nearest one. */
  lemma NearestChoice(edges: array2<int>, cands: seq<PlotPoint>, end: PlotPoint, r: int)
    requires |cands| > 0 && StrictlyOrdered(cands)
    requires forall q :: q in cands <==> IsLive(edges, ToMask(q)) && r >= 0 && SqDist(q, end) <= r * r
    ensures FirstNearest(edges, cands[NearestIndex(cands, end)], end, r)
  {
    var k := NearestIndex(cands, end);
    forall q | IsLive(edges, ToMask(q)) && SqDist(q, end) <= r * r
      ensures SqDist(cands[k], end) <= SqDist(q, end)
      ensures SqDist(q, end) == SqDist(cands[k], end) ==> !LexLess(q, cands[k])
    {
      assert r >= 0 by { assert cands[0] in cands; }
      assert q in cands;
      var i :| 0 <= i < |cands| && cands[i] == q;
      if k < i {
        assert LexLess(cands[k], cands[i]);
      }
    }
  }

  /** The order of the candidates after sorting them by distance and then,
      stably, by cost: cost first, distance second. */
  predicate CheaperThan(a: PlotPoint, b: PlotPoint, end: PlotPoint, d: Vec) {
    Cost(a, end, d) < Cost(b, end, d) ||
    (Cost(a, end, d) == Cost(b, end, d) && SqDist(a, end) < SqDist(b, end))
  }

  /** `sorted(nearest, key=cost)[0]` after the sort by distance: the index
      of the first candidate that no other candidate precedes. */
  function CheapestIndex(cands: seq<PlotPoint>, end: PlotPoint, d: Vec): (k: nat)
    requires |cands| > 0
    ensures k < |cands|
    ensures forall j :: 0 <= j < |cands| ==> !CheaperThan(cands[j], cands[k], end, d)
    ensures forall j :: 0 <= j < k ==> CheaperThan(cands[k], cands[j], end, d)
  {
    if |cands| == 1 then 0
    else
      var k := CheapestIndex(cands[..|cands| - 1], end, d);
      if CheaperThan(cands[|cands| - 1], cands[k], end, d) then |cands| - 1 else k
  }

  /** `c` comes first among the live cells within `r` of `end` once they
      are sorted stably by distance and then by cost: none is cheaper, and
      none of the same cost and distance comes earlier in disc order. */
  ghost predicate FirstCheapest(edges: array2<int>, c: PlotPoint, end: PlotPoint, d: Vec, r: int)
    reads edges
  {
    forall q :: IsLive(edges, ToMask(q)) && SqDist(q, end) <= r * r ==>
      && !CheaperThan(q, c, end, d)
      && (Cost(q, end, d) == Cost(c, end, d) && SqDist(q, end) == SqDist(c, end) ==> !LexLess(q, c))
  }

  /** When the candidates are exactly the live cells within `r` of `end`,
      listed in disc order, `CheapestIndex` picks the first cheapest one. */
  lemma CheapestChoice(edges: array2<int>, cands: seq<PlotPoint>, end: PlotPoint, d: Vec, r: int)
    requires |cands| > 0 && StrictlyOrdered(cands)
    requires forall q :: q in cands <==> IsLive(edges, ToMask(q)) && r >= 0 && SqDist(q, end) <= r * r
    ensures FirstCheapest(edges, cands[CheapestIndex(cands, end, d)], end, d, r)
  {
    var k := CheapestIndex(cands, end, d);
    forall q | IsLive(edges, ToMask(q)) && SqDist(q, end) <= r * r
      ensures !CheaperThan(q, cands[k], end, d)
      ensures Cost(q, end, d) == Cost(cands[k], end, d) && SqDist(q, end) == SqDist(cands[k], end) ==>
                !LexLess(q, cands[k])
    {
      assert r >= 0 by { assert cands[0] in cands; }
      assert q in cands;
      var i :| 0 <= i < |cands| && cands[i] == q;
      if k < i {
        assert LexLess(cands[k], cands[i]);
      }
    }
  }

  /** The normalised predicted heading at the end of `line`; the
      normalisation `d / norm(d)` is the parameter `normalize`. */
  function Heading(line: seq<PlotPoint>, normalize: Vec -> Vec): (h: Vec)
    requires |line| >= 3
    ensures var a, b, c := line[|line| - 1], line[|line| - 2], line[|line| - 3];
            a.x - b.x == b.x - c.x && a.y - b.y == b.y - c.y ==>
              h == normalize(Vec(1.47 * (a.x - b.x) as real, 1.47 * (a.y - b.y) as real))
  {
    var n := |line|;
    normalize(Momentum(line[n - 1], line[n - 2], line[n - 3]))
  }

  /** A candidate the tracer accepts at the end of `line`: any candidate
      while the line has at most three points, otherwise one whose cost
      does not exceed `maxCost`. */
  predicate Acceptable(line: seq<PlotPoint>, q: PlotPoint, maxCost: real, normalize: Vec -> Vec)
    requires |line| >= 1
  {
    |line| <= 3 || Cost(q, line[|line| - 1], Heading(line, normalize)) <= maxCost
  }

  /** Some live cell within the radius of the end of `line` is acceptable. */
  ghost predicate CanExtend(edges: array2<int>, line: seq<PlotPoint>, radius: int,
                            maxCost: real, normalize: Vec -> Vec)
    requires |line| >= 1
    reads edges
  {
    exists q :: IsLive(edges, ToMask(q)) && radius >= 0 &&
      SqDist(q, line[|line| - 1]) <= radius * radius && Acceptable(line, q, maxCost, normalize)
  }

  /** `CanExtend` over a set of live cells rather than over the mask. */
  ghost predicate CanExtendIn(live: set<MaskPoint>, line: seq<PlotPoint>, radius: int,
                              maxCost: real, normalize: Vec -> Vec)
    requires |line| >= 1
  {
    exists q :: ToMask(q) in live && radius >= 0 &&
      SqDist(q, line[|line| - 1]) <= radius * radius && Acceptable(line, q, maxCost, normalize)
  }

  lemma CanExtendLive(edges: array2<int>, line: seq<PlotPoint>, radius: int,
                      maxCost: real, normalize: Vec -> Vec)
    requires |line| >= 1
    ensures CanExtend(edges, line, radius, maxCost, normalize) <==>
            CanExtendIn(LiveCells(edges), line, radius, maxCost, normalize)
  {
  }

  /** A point put in front of a line does not make any candidate at its
      end acceptable that was not before: the end and, once the line is
      longer than three points, the heading stay the same. */
  lemma HeadAcceptable(p: PlotPoint, line: seq<PlotPoint>, q: PlotPoint, maxCost: real, normalize: Vec -> Vec)
    requires |line| >= 1
    ensures Acceptable([p] + line, q, maxCost, normalize) ==> Acceptable(line, q, maxCost, normalize)
  {
    var s := [p] + line;
    if |line| > 3 {
      assert s[|s| - 1] == line[|line| - 1];
      assert s[|s| - 2] == line[|line| - 2];
      assert s[|s| - 3] == line[|line| - 3];
    }
  }

  /** An end that cannot grow stays stuck while points are put in front
      of it and the live cells only shrink. */
  lemma HeadStaysStuck(live: set<MaskPoint>, live': set<MaskPoint>, line: seq<PlotPoint>, p: PlotPoint,
                       radius: int, maxCost: real, normalize: Vec -> Vec)
    requires |line| >= 1 && live' <= live
    requires !CanExtendIn(live, line, radius, maxCost, normalize)
    ensures !CanExtendIn(live', [p] + line, radius, maxCost, normalize)
  {
    var s := [p] + line;
    assert s[|s| - 1] == line[|line| - 1];
    forall q | ToMask(q) in live' && radius >= 0 && SqDist(q, s[|s| - 1]) <= radius * radius
      ensures !Acceptable(s, q, maxCost, normalize)
    {
      HeadAcceptable(p, line, q, maxCost, normalize);
    }
  }

  /** Neither end of `line` can grow: the tracer's stopping condition. */
  ghost predicate Exhausted(edges: array2<int>, line: seq<PlotPoint>, radius: int,
                            maxCost: real, normalize: Vec -> Vec)
    requires |line| >= 1
    reads edges
  {
    && !CanExtend(edges, line, radius, maxCost, normalize)
    && !CanExtend(edges, Reversed(line), radius, maxCost, normalize)
  }

  /** A polyline whose consecutive points lie within `radius` of each
      other: each point was found in the neighbourhood of the one before. */
  predicate Chain(line: seq<PlotPoint>, radius: int) {
    forall i :: 0 <= i < |line| - 1 ==> SqDist(line[i], line[i + 1]) <= radius * radius
  }

  /** `line.reverse()` keeps neighbours next to each other. */
  lemma ReverseChain(line: seq<PlotPoint>, radius: int)
    requires Chain(line, radius)
    ensures Chain(Reversed(line), radius)
  {
    var r := Reversed(line);
    var n := |line|;
    forall i | 0 <= i < n - 1 ensures SqDist(r[i], r[i + 1]) <= radius * radius {
      ReversedAt(line, i);
      ReversedAt(line, i + 1);
      SqDistSymmetric(r[i], r[i + 1]);
      assert SqDist(line[n - 2 - i], line[n - 1 - i]) <= radius * radius;
    }
  }

  /** Appending a point within `radius` of the end keeps a chain. */
  lemma AppendChain(line: seq<PlotPoint>, next: PlotPoint, radius: int)
    requires |line| >= 1 && Chain(line, radius)
    requires SqDist(next, line[|line| - 1]) <= radius * radius
    ensures Chain(line + [next], radius)
  {
    SqDistSymmetric(next, line[|line| - 1]);
    var s := line + [next];
    forall i | 0 <= i < |s| - 1 ensures SqDist(s[i], s[i + 1]) <= radius * radius {
      if i < |line| - 1 {
        assert s[i] == line[i] && s[i + 1] == line[i + 1];
      }
    }
  }

  /** Every cell keeps its value, or was an edge pixel and is now 0. */
  twostate predicate OnlyConsumed(edges: array2<int>)
    reads edges
  {
    forall r, c :: 0 <= r < edges.Length0 && 0 <= c < edges.Length1 ==>
      edges[r, c] == old(edges[r, c]) || (old(edges[r, c]) == ON && edges[r, c] == 0)
  }

  /** What a polyline under construction owes the pool: its points are
      distinct, and they are exactly the cells of `pool` that are no longer
      in `live`. */
  ghost predicate Consumes(line: seq<PlotPoint>, pool: set<MaskPoint>, live: set<MaskPoint>) {
    && NoDup(line)
    && live <= pool
    && (forall q :: q in line <==> ToMask(q) in pool && ToMask(q) !in live)
    && |line| + |live| == |pool|
  }

  lemma ReverseConsumes(line: seq<PlotPoint>, pool: set<MaskPoint>, live: set<MaskPoint>)
    requires Consumes(line, pool, live)
    ensures Consumes(Reversed(line), pool, live)
    ensures forall q :: q in Reversed(line) <==> q in line
  {
    ReversedMembers(line);
    ReversedNoDup(line);
  }

  lemma AppendConsumes(line: seq<PlotPoint>, pool: set<MaskPoint>, live: set<MaskPoint>, next: PlotPoint)
    requires Consumes(line, pool, live)
    requires ToMask(next) in live
    ensures next !in line
    ensures Consumes(line + [next], pool, live - {ToMask(next)})
  {
    var m := ToMask(next);
    assert live == (live - {m}) + {m};
    NoDupConcat(line, [next]);
  }

  /** Lines 27-56: the point the tracer appends next at the end of `line`,
      or `None` when no candidate is acceptable. Up to three points it is
      the nearest live cell in the radius; after that the cheapest one,
      unless even that one costs more than `maxCost`. */
  method ChooseNext(edges: array2<int>, line: seq<PlotPoint>, neighborhoodSize: int,
                    maxCost: real, normalize: Vec -> Vec) returns (next: Option<PlotPoint>)
    requires |line| >= 1
    ensures next.None? <==> !CanExtend(edges, line, neighborhoodSize, maxCost, normalize)
    ensures next.Some? ==>
              && IsLive(edges, ToMask(next.value))
              && neighborhoodSize >= 0
              && SqDist(next.value, line[|line| - 1]) <= neighborhoodSize * neighborhoodSize
              && Acceptable(line, next.value, maxCost, normalize)
    ensures neighborhoodSize <= 0 && !IsLive(edges, ToMask(line[|line| - 1])) ==> next.None?
    ensures next.Some? && |line| <= 3 ==>
              FirstNearest(edges, next.value, line[|line| - 1], neighborhoodSize)
    ensures next.Some? && |line| > 3 ==>
              FirstCheapest(edges, next.value, line[|line| - 1], Heading(line, normalize), neighborhoodSize)
  {
    var end := line[|line| - 1];
    var nearest := SearchNeighborPoints(edges, end, neighborhoodSize);
    if |nearest| == 0 {
      return None;
    }
    // a radius of 0 reaches only the end itself
    assert neighborhoodSize <= 0 ==> forall q :: q in nearest ==> q == end;
    if |line| <= 3 {
      var k := NearestIndex(nearest, end);
      NearestChoice(edges, nearest, end, neighborhoodSize);
      next := Some(nearest[k]);
    } else {
      var d := Heading(line, normalize);
      var k := CheapestIndex(nearest, end, d);
      CheapestChoice(edges, nearest, end, d, neighborhoodSize);
      if Cost(nearest[k], end, d) > maxCost {
        return None;
      }
      next := Some(nearest[k]);
    }
  }

  /** Put point `p` at the end of the polyline and clear its cell
      (`polyline.append` and `delete_edge`). */
  method Take(edges: array2<int>, line: seq<PlotPoint>, p: PlotPoint, ghost pool: set<MaskPoint>)
      returns (longer: seq<PlotPoint>)
    requires Consumes(line, pool, LiveCells(edges))
    requires IsLive(edges, ToMask(p))
    modifies edges
    ensures longer == line + [p]
    ensures LiveCells(edges) == old(LiveCells(edges)) - {ToMask(p)}
    ensures Consumes(longer, pool, LiveCells(edges))
    ensures OnlyConsumed(edges)
  {
    AppendConsumes(line, pool, LiveCells(edges), p);
    longer := line + [p];
    DeleteEdge(edges, ToMask(p));
  }

  /** One pass of the outer loop after the seed is drawn (lines 20-59):
      seed a polyline, then grow it greedily from its end, reversing it
      once when the end cannot grow, until neither end can: no live cell
      within the radius is acceptable at the end or at the head. */
  method TracePolyline(edges: array2<int>, seed: MaskPoint, count: nat, neighborhoodSize: int,
                       maxCost: real, normalize: Vec -> Vec)
      returns (line: seq<PlotPoint>, newCount: nat, ghost reversals: nat)
    requires IsLive(edges, seed)
    modifies edges
    ensures newCount == count + |line|
    ensures ToPlot(seed) in line
    ensures Chain(line, neighborhoodSize)
    ensures Consumes(line, old(LiveCells(edges)), LiveCells(edges))
    ensures OnlyConsumed(edges)
    ensures reversals == 1
    ensures Exhausted(edges, line, neighborhoodSize, maxCost, normalize)
    ensures neighborhoodSize <= 0 ==> line == [ToPlot(seed)]
  {
    ghost var pool := LiveCells(edges);
    line := Take(edges, [], ToPlot(seed), pool);
    newCount := count + 1;
    var couldReverse := true;
    reversals := 0;
    while true
      invariant ToPlot(seed) in line
      invariant Chain(line, neighborhoodSize)
      invariant Consumes(line, pool, LiveCells(edges))
      invariant newCount == count + |line|
      invariant OnlyConsumed(edges)
      invariant reversals == if couldReverse then 0 else 1
      invariant !couldReverse ==>
                  !CanExtendIn(LiveCells(edges), Reversed(line), neighborhoodSize, maxCost, normalize)
      invariant neighborhoodSize <= 0 ==> line == [ToPlot(seed)]
      decreases |pool| - |line|, couldReverse
    {
      assert ToMask(line[|line| - 1]) !in LiveCells(edges);
      var next := ChooseNext(edges, line, neighborhoodSize, maxCost, normalize);
      if next.None? {
        if couldReverse {
          ReverseConsumes(line, pool, LiveCells(edges));
          ReverseChain(line, neighborhoodSize);
          CanExtendLive(edges, line, neighborhoodSize, maxCost, normalize);
          ReversedReversed(line);
          line := Reversed(line);
          couldReverse := false;
          reversals := reversals + 1;
          continue;
        } else {
          CanExtendLive(edges, Reversed(line), neighborhoodSize, maxCost, normalize);
          break;
        }
      }
      AppendChain(line, next.value, neighborhoodSize);
      ghost var before, shorter := LiveCells(edges), line;
      line := Take(edges, line, next.value, pool);
      if !couldReverse {
        ReversedSnoc(shorter, next.value);
        HeadStaysStuck(before, LiveCells(edges), Reversed(shorter), next.value,
                       neighborhoodSize, maxCost, normalize);
      }
      newCount := newCount + 1;
    }
  }

  /** `edges2polylines`: traces every edge pixel of `edges` into polylines
      and consumes the mask. `random.randrange` is an arbitrary choice of
      a live cell. */
  method Edges2Polylines(edges: array2<int>, neighborhoodSize: int, maxCost: Option<real>,
                         normalize: Vec -> Vec)
      returns (lineBag: seq<seq<PlotPoint>>)
    modifies edges
    ensures NoDup(Flatten(lineBag))
    ensures forall q :: q in Flatten(lineBag) <==> ToMask(q) in old(LiveCells(edges))
    ensures forall i :: 0 <= i < |lineBag| ==> |lineBag[i]| > 0
    ensures forall i :: 0 <= i < |lineBag| ==> Chain(lineBag[i], neighborhoodSize)
    ensures LiveCells(edges) == {}
    ensures forall r, c :: 0 <= r < edges.Length0 && 0 <= c < edges.Length1 ==>
              edges[r, c] == if old(edges[r, c]) == ON then 0 else old(edges[r, c])
    ensures old(LiveCells(edges)) == {} ==> lineBag == []
    ensures neighborhoodSize <= 0 ==> forall i :: 0 <= i < |lineBag| ==> |lineBag[i]| == 1
  {
    var cost := EffectiveMaxCost(maxCost, neighborhoodSize);
    var pl := MakePointList(edges);
    var initNPoints := |pl|;
    lineBag := [];
    var count := 0;
    ghost var init := LiveCells(edges);
    while count < initNPoints
      invariant LiveCells(edges) <= init
      invariant count + |LiveCells(edges)| == initNPoints == |init|
      invariant count == |Flatten(lineBag)| && NoDup(Flatten(lineBag))
      invariant forall q :: q in Flatten(lineBag) <==> ToMask(q) in init && ToMask(q) !in LiveCells(edges)
      invariant forall i :: 0 <= i < |lineBag| ==> |lineBag[i]| > 0
      invariant forall i :: 0 <= i < |lineBag| ==> Chain(lineBag[i], neighborhoodSize)
      invariant neighborhoodSize <= 0 ==> forall i :: 0 <= i < |lineBag| ==> |lineBag[i]| == 1
      invariant OnlyConsumed(edges)
      invariant init == {} ==> lineBag == []
      decreases initNPoints - count
    {
      pl := MakePointList(edges);
      var nPoints := |pl|;
      var initIdx :| 0 <= initIdx < nPoints;
      ghost var before := LiveCells(edges);
      ghost var done := Flatten(lineBag);
      var line;
      ghost var reversals;
      line, count, reversals := TracePolyline(edges, pl[initIdx], count, neighborhoodSize, cost, normalize);
      NoDupConcat(done, line);
      assert (lineBag + [line])[..|lineBag|] == lineBag;
      lineBag := lineBag + [line];
      assert Flatten(lineBag) == done + line;
    }
    forall r, c | 0 <= r < edges.Length0 && 0 <= c < edges.Length1
      ensures edges[r, c] == if old(edges[r, c]) == ON then 0 else old(edges[r, c])
    {
      assert MaskPoint(r, c) !in LiveCells(edges);
    }
  }
}
