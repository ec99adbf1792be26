/** The edge mask as the pool of unconsumed edge pixels: scanning it,
    consuming a cell and searching a neighbourhood
    (pic2formula/edges2polylines.py). */
module EdgeMask {
  import opened Seqs
  import opened Geometry

  /** The value marking an edge pixel. */
  const ON: int := 255

  predicate InBounds(edges: array2<int>, m: MaskPoint) {
    0 <= m.row < edges.Length0 && 0 <= m.col < edges.Length1
  }

  /** A cell is live (still in the pool) when it lies inside the mask and
      holds 255. */
  predicate IsLive(edges: array2<int>, m: MaskPoint)
    reads edges
  {
    InBounds(edges, m) && edges[m.row, m.col] == ON
  }

  /** The pool: every live cell of the mask. */
  ghost function LiveCells(edges: array2<int>): (cells: set<MaskPoint>)
    reads edges
    ensures forall m :: m in cells <==> IsLive(edges, m)
  {
    set r, c | 0 <= r < edges.Length0 && 0 <= c < edges.Length1 && edges[r, c] == ON
      :: MaskPoint(r, c)
  }

  /** Row-major order of mask cells, the order of `np.where`. */
  predicate RowMajorLess(a: MaskPoint, b: MaskPoint) {
    a.row < b.row || (a.row == b.row && a.col < b.col)
  }

  /** `make_pointlist`: every live cell, once each, in row-major order. */
  method MakePointList(edges: array2<int>) returns (pl: seq<MaskPoint>)
    ensures forall m :: m in pl <==> IsLive(edges, m)
    ensures forall i, j :: 0 <= i < j < |pl| ==> RowMajorLess(pl[i], pl[j])
    ensures |pl| == |LiveCells(edges)|
  {
    pl := [];
    for r := 0 to edges.Length0
      invariant forall m :: m in pl <==> IsLive(edges, m) && m.row < r
      invariant forall i, j :: 0 <= i < j < |pl| ==> RowMajorLess(pl[i], pl[j])
    {
      for c := 0 to edges.Length1
        invariant forall m :: m in pl <==>
                    IsLive(edges, m) && (m.row < r || (m.row == r && m.col < c))
        invariant forall i, j :: 0 <= i < j < |pl| ==> RowMajorLess(pl[i], pl[j])
      {
        if edges[r, c] == ON {
          assert forall k :: 0 <= k < |pl| ==> pl[k] in pl;
          pl := pl + [MaskPoint(r, c)];
        }
      }
    }
    assert NoDup(pl) by {
      forall i, j | 0 <= i < j < |pl| ensures pl[i] != pl[j] {
        assert RowMajorLess(pl[i], pl[j]);
      }
    }
    NoDupCard(pl, LiveCells(edges));
  }

  /** `delete_edges`: consumes exactly the cell `p`. */
  method DeleteEdge(edges: array2<int>, p: MaskPoint)
    requires InBounds(edges, p)
    modifies edges
    ensures edges[p.row, p.col] == 0
    ensures forall r, c ::
              0 <= r < edges.Length0 && 0 <= c < edges.Length1 && (r != p.row || c != p.col)
              ==> edges[r, c] == old(edges[r, c])
    ensures LiveCells(edges) == old(LiveCells(edges)) - {p}
  {
    edges[p.row, p.col] := 0;
    assert forall m :: IsLive(edges, m) <==> old(IsLive(edges, m)) && m != p;
  }

  /** The points of `ps` whose mask cell is live, in their order. */
  function LiveAmong(edges: array2<int>, ps: seq<PlotPoint>): (r: seq<PlotPoint>)
    reads edges
    ensures forall q :: q in r <==> q in ps && IsLive(edges, ToMask(q))
  {
    if ps == [] then []
    else
      var last := ps[|ps| - 1];
      LiveAmong(edges, ps[..|ps| - 1]) + (if IsLive(edges, ToMask(last)) then [last] else [])
  }

  /** Filtering keeps the order of the points it keeps. */
  lemma {:induction false} LiveAmongOrdered(edges: array2<int>, ps: seq<PlotPoint>)
    requires StrictlyOrdered(ps)
    ensures StrictlyOrdered(LiveAmong(edges, ps))
  {
    if ps != [] {
      var init, last := ps[..|ps| - 1], ps[|ps| - 1];
      LiveAmongOrdered(edges, init);
      var r := LiveAmong(edges, init);
      forall i | 0 <= i < |r| ensures LexLess(r[i], last) {
        assert r[i] in init;
        var k :| 0 <= k < |init| && init[k] == r[i];
        assert ps[k] == r[i];
      }
      var s := LiveAmong(edges, ps);
      forall i, j | 0 <= i < j < |s| ensures LexLess(s[i], s[j]) {
        if j < |r| {
          assert s[i] == r[i] && s[j] == r[j];
        } else {
          assert s[i] == r[i] && s[j] == last;
        }
      }
    }
  }

  /** `search_neighbor_points`: the live cells within distance `r` of `a`,
      in plot frame; cells with a negative or too large index are skipped. */
  method SearchNeighborPoints(edges: array2<int>, a: PlotPoint, r: int) returns (nbrs: seq<PlotPoint>)
    ensures nbrs == LiveAmong(edges, Disc(a, r))
    ensures forall q :: q in nbrs <==> IsLive(edges, ToMask(q)) && r >= 0 && SqDist(q, a) <= r * r
    ensures StrictlyOrdered(nbrs)
  {
    nbrs := [];
    var pl := PointsInsideCircle(a, r);
    for i := 0 to |pl|
      invariant nbrs == LiveAmong(edges, pl[..i])
    {
      var p := pl[i];
      var pImg := ToMask(p);
      assert pl[..i + 1][..i] == pl[..i];
      if pImg.row < 0 || pImg.col < 0 {
        // a negative index never matches
      } else if pImg.row >= edges.Length0 || pImg.col >= edges.Length1 {
        // the IndexError is caught and the point skipped
      } else if edges[pImg.row, pImg.col] == ON {
        nbrs := nbrs + [p];
      }
    }
    assert pl[..|pl|] == pl;
    DiscOrdered(a, r);
    LiveAmongOrdered(edges, pl);
    forall q ensures q in nbrs <==> IsLive(edges, ToMask(q)) && r >= 0 && SqDist(q, a) <= r * r {
      DiscMembers(a, r, q);
    }
  }
}
