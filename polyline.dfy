/** `Polyline`: a list of 2-D points that refuses values of any other
    length, and the path closing used before a periodic B-spline fit
    (pic2formula/polyline.py). */
module Polylines {
  import opened Outcomes
  import opened Seqs

  /** A stored point: `np.array(value, np.float64)`. */
  datatype Vec2 = Vec2(x: real, y: real)

  function ToVec2(value: seq<real>): Vec2
    requires |value| == 2
  {
    Vec2(value[0], value[1])
  }

  /** What one `append(value)` does to the list `ps`: `_2Dcheck` raises
      ValueError for a value whose length is not 2. */
  function AppendOne(ps: seq<Vec2>, value: seq<real>): (Outcome, seq<Vec2>) {
    if |value| != 2 then (Fail(ValueError), ps) else (Pass, ps + [ToVec2(value)])
  }

  /** Appending each value in order, stopping at the first that raises. */
  function AppendEach(ps: seq<Vec2>, values: seq<seq<real>>): (Outcome, seq<Vec2>) {
    if values == [] then (Pass, ps)
    else
      var prior := AppendEach(ps, values[..|values| - 1]);
      if prior.0.Fail? then prior else AppendOne(prior.1, values[|values| - 1])
  }

  function ToVec2s(values: seq<seq<real>>): (r: seq<Vec2>)
    requires forall i :: 0 <= i < |values| ==> |values[i]| == 2
    ensures |r| == |values|
    ensures forall i :: 0 <= i < |values| ==> r[i] == ToVec2(values[i])
  {
    if values == [] then [] else ToVec2s(values[..|values| - 1]) + [ToVec2(values[|values| - 1])]
  }

  /** Appending values that are all 2-D succeeds and adds them in order. */
  lemma {:induction false} AppendEachAll2D(ps: seq<Vec2>, values: seq<seq<real>>)
    requires forall i :: 0 <= i < |values| ==> |values[i]| == 2
    ensures AppendEach(ps, values) == (Pass, ps + ToVec2s(values))
  {
    if values != [] {
      var init := values[..|values| - 1];
      var last := values[|values| - 1];
      AppendEachAll2D(ps, init);
      assert |last| == 2;
      assert AppendOne(ps + ToVec2s(init), last) == (Pass, ps + ToVec2s(init) + [ToVec2(last)]);
      assert ToVec2s(values) == ToVec2s(init) + [ToVec2(last)];
      assert ps + ToVec2s(values) == ps + ToVec2s(init) + [ToVec2(last)];
    } else {
      assert ps + ToVec2s(values) == ps;
    }
  }

  /** Once an append has raised, the values after it are never looked at. */
  lemma {:induction false} AppendEachStops(ps: seq<Vec2>, values: seq<seq<real>>, i: nat)
    requires i <= |values|
    requires AppendEach(ps, values[..i]).0.Fail?
    ensures AppendEach(ps, values) == AppendEach(ps, values[..i])
    decreases |values| - i
  {
    if i < |values| {
      var init := values[..|values| - 1];
      assert init[..i] == values[..i];
      AppendEachStops(ps, init, i);
    } else {
      assert values[..i] == values;
    }
  }

  /** At the first value that is not 2-D, ValueError is raised and only the
      values before it have been added. */
  lemma {:induction false} AppendEachFirstBad(ps: seq<Vec2>, values: seq<seq<real>>, i: nat)
    requires i < |values| && |values[i]| != 2
    requires forall j :: 0 <= j < i ==> |values[j]| == 2
    ensures AppendEach(ps, values) == (Fail(ValueError), ps + ToVec2s(values[..i]))
  {
    if i == |values| - 1 {
      assert values[..|values| - 1] == values[..i];
      AppendEachAll2D(ps, values[..i]);
    } else {
      assert values[..|values| - 1][i] == values[i];
      assert values[..|values| - 1][..i] == values[..i];
      AppendEachFirstBad(ps, values[..|values| - 1], i);
    }
  }

  /** `delta < epsilon`, where `delta` is the distance from `a` to `b`,
      compared through squares. */
  predicate Near(a: Vec2, b: Vec2, epsilon: real) {
    var dx, dy := b.x - a.x, b.y - a.y;
    epsilon > 0.0 && dx * dx + dy * dy < epsilon * epsilon
  }

  predicate Palindrome(s: seq<Vec2>) {
    forall i :: 0 <= i < |s| ==> s[i] == s[|s| - 1 - i]
  }

  /** `_close_polyline` on a non-empty path `ps`. */
  function Closed(ps: seq<Vec2>, epsilon: real): seq<Vec2>
    requires |ps| >= 1
  {
    if Near(ps[0], ps[|ps| - 1], epsilon) then ps + [ps[0]]
    else ps + Reversed(ps[..|ps| - 1])
  }

  /** A path followed by the reverse of all but its last point reads the
      same both ways. */
  lemma MirroredPalindrome(ps: seq<Vec2>)
    requires |ps| >= 1
    ensures Palindrome(ps + Reversed(ps[..|ps| - 1]))
  {
    var n := |ps|;
    var t := Reversed(ps[..n - 1]);
    var s := ps + t;
    forall i | 0 <= i < |s| ensures s[i] == s[|s| - 1 - i] {
      var j := |s| - 1 - i;
      if i < n - 1 {
        ReversedAt(ps[..n - 1], j - n);
      } else if i >= n {
        ReversedAt(ps[..n - 1], i - n);
      }
    }
  }

  /** The control points `closed_bspline` hands to the spline: the closed
      path `cl`, plus `cl[0]` if its ends differ, plus `cl[1:k]`. */
  function WrapControlPoints(cl: seq<Vec2>, k: int): seq<Vec2>
    requires |cl| >= 1
  {
    var c := if cl[0] != cl[|cl| - 1] then cl + [cl[0]] else cl;
    c + PySliceFrom1(c, k)
  }

  class Polyline {
    /** The list contents. */
    var points: seq<Vec2>

    constructor ()
      ensures points == []
    {
      points := [];
    }

    /** `append`: ValueError for a value that is not 2-D, otherwise the
        value is added at the end. */
    method Append(value: seq<real>) returns (r: Outcome)
      modifies this
      ensures (r, points) == AppendOne(old(points), value)
      ensures r.Fail? <==> |value| != 2
      ensures r.Pass? ==> |points| == |old(points)| + 1 && points[|points| - 1] == ToVec2(value)
      ensures r.Fail? ==> r.error == ValueError && points == old(points)
    {
      if |value| != 2 {
        return Fail(ValueError);
      }
      points := points + [Vec2(value[0], value[1])];
      r := Pass;
    }

    /** `__setitem__` with an integer key: the 2-D check comes first, then
        Python's index rules (negative keys count from the end). */
    method SetItem(key: int, value: seq<real>) returns (r: Outcome)
      modifies this
      ensures |value| != 2 ==> r == Fail(ValueError) && points == old(points)
      ensures |value| == 2 && -|old(points)| <= key < |old(points)| ==>
                r == Pass &&
                points == old(points)[(if key < 0 then key + |old(points)| else key) := ToVec2(value)]
      ensures |value| == 2 && !(-|old(points)| <= key < |old(points)|) ==>
                r == Fail(IndexError) && points == old(points)
    {
      if |value| != 2 {
        return Fail(ValueError);
      }
      var v := Vec2(value[0], value[1]);
      var i := if key < 0 then key + |points| else key;
      if !(0 <= i < |points|) {
        return Fail(IndexError);
      }
      points := points[i := v];
      r := Pass;
    }

    /** `extend`: appends each value in turn. */
    method Extend(values: seq<seq<real>>) returns (r: Outcome)
      modifies this
      ensures (r, points) == AppendEach(old(points), values)
    {
      for i := 0 to |values|
        invariant AppendEach(old(points), values[..i]) == (Pass, points)
      {
        assert values[..i + 1][..i] == values[..i];
        r := Append(values[i]);
        if r.Fail? {
          AppendEachStops(old(points), values, i + 1);
          return;
        }
      }
      assert values[..|values|] == values;
      r := Pass;
    }

    /** `_close_polyline`: a closed copy of the path; the path itself is
        left unchanged. IndexError for an empty path. */
    method ClosePolyline(epsilon: real) returns (res: Result<seq<Vec2>>)
      ensures res.Failure? <==> |points| == 0
      ensures res.Failure? ==> res.error == IndexError
      ensures res.Success? ==> res.value == Closed(points, epsilon)
      ensures res.Success? ==>
                |res.value| >= 1 && res.value[0] == res.value[|res.value| - 1] &&
                res.value[..|points|] == points
      ensures res.Success? && Near(points[0], points[|points| - 1], epsilon) ==>
                |res.value| == |points| + 1
      ensures res.Success? && !Near(points[0], points[|points| - 1], epsilon) ==>
                |res.value| == 2 * |points| - 1 && Palindrome(res.value)
    {
      if |points| == 0 {
        return Failure(IndexError);
      }
      var copy := points;
      var first, last := points[0], points[|points| - 1];
      if Near(first, last, epsilon) {
        copy := copy + [first];
      } else {
        var tmp := copy[..|copy| - 1];
        tmp := Reversed(tmp);
        copy := copy + tmp;
        MirroredPalindrome(points);
      }
      res := Success(copy);
    }

    /** The guard of `bspline`: ValueError unless there are more than `k`
        points. */
    method BSpline(k: int) returns (r: Outcome)
      ensures r.Fail? <==> |points| <= k
      ensures r.Fail? ==> r.error == ValueError
    {
      var n := |points|;
      if n <= k {
        return Fail(ValueError);
      }
      r := Pass;
    }

    /** The control points of `closed_bspline`, without the knot vector and
        the spline. The closed path already ends where it starts, so no
        extra first point is added, and the last `k` control points repeat
        the first `k`. */
    method ClosedBSplineControlPoints(epsilon: real, k: int) returns (c: Result<seq<Vec2>>)
      ensures c.Failure? <==> |points| == 0
      ensures c.Success? ==>
                var cl := Closed(points, epsilon);
                c.value == WrapControlPoints(cl, k) && c.value == cl + PySliceFrom1(cl, k)
      ensures c.Success? && 1 <= k <= |Closed(points, epsilon)| ==>
                |c.value| == |Closed(points, epsilon)| + k - 1 &&
                forall j :: 0 <= j < k ==> c.value[|c.value| - k + j] == c.value[j]
    {
      var pl := ClosePolyline(epsilon);
      if pl.Failure? {
        return Failure(pl.error);
      }
      var cs := pl.value;
      var first := cs[0];
      if first != cs[|cs| - 1] {
        cs := cs + [first];
      }
      cs := cs + PySliceFrom1(cs, k);
      c := Success(cs);
    }
  }
}
