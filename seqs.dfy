/** Sequence helpers shared by the tracer, the polyline and the series:
    list reversal, distinctness, Python slice bounds and flattening. */
module Seqs {

  /** The elements of `s` in the opposite order (Python `list.reverse`). */
  function Reversed<T>(s: seq<T>): (r: seq<T>)
    ensures |r| == |s|
  {
    if s == [] then [] else Reversed(s[1..]) + [s[0]]
  }

  lemma {:induction false} ReversedAt<T>(s: seq<T>, k: nat)
    requires k < |s|
    ensures Reversed(s)[k] == s[|s| - 1 - k]
  {
    if k < |s| - 1 {
      ReversedAt(s[1..], k);
    }
  }

  /** Reversing twice gives the sequence back. */
  lemma ReversedReversed<T>(s: seq<T>)
    ensures Reversed(Reversed(s)) == s
  {
    forall k | 0 <= k < |s| ensures Reversed(Reversed(s))[k] == s[k] {
      ReversedAt(Reversed(s), k);
      ReversedAt(s, |s| - 1 - k);
    }
  }

  /** What is appended at the end comes first after reversal. */
  lemma ReversedSnoc<T>(s: seq<T>, x: T)
    ensures Reversed(s + [x]) == [x] + Reversed(s)
  {
    var r := Reversed(s + [x]);
    forall k | 0 <= k < |r| ensures r[k] == ([x] + Reversed(s))[k] {
      ReversedAt(s + [x], k);
      if k > 0 {
        ReversedAt(s, k - 1);
      }
    }
  }

  /** Reversal keeps exactly the same elements. */
  lemma ReversedMembers<T>(s: seq<T>)
    ensures forall x :: x in Reversed(s) <==> x in s
  {
    forall x | x in Reversed(s) ensures x in s {
      var k :| 0 <= k < |s| && Reversed(s)[k] == x;
      ReversedAt(s, k);
    }
    forall x | x in s ensures x in Reversed(s) {
      var k :| 0 <= k < |s| && s[k] == x;
      ReversedAt(s, |s| - 1 - k);
    }
  }

  /** No element occurs twice. */
  predicate NoDup<T(==)>(s: seq<T>) {
    forall i, j :: 0 <= i < j < |s| ==> s[i] != s[j]
  }

  lemma ReversedNoDup<T>(s: seq<T>)
    requires NoDup(s)
    ensures NoDup(Reversed(s))
  {
    var r := Reversed(s);
    forall i, j | 0 <= i < j < |r| ensures r[i] != r[j] {
      ReversedAt(s, i);
      ReversedAt(s, j);
    }
  }

  /** Two duplicate-free sequences with no common element concatenate to a
      duplicate-free sequence. */
  lemma NoDupConcat<T>(a: seq<T>, b: seq<T>)
    requires NoDup(a) && NoDup(b)
    requires forall x :: x in a ==> x !in b
    ensures NoDup(a + b)
  {
    var s := a + b;
    forall i, j | 0 <= i < j < |s| ensures s[i] != s[j] {
      if j >= |a| && i < |a| {
        assert s[i] in a && s[j] in b;
      }
    }
  }

  /** A duplicate-free sequence has as many elements as the set it spans. */
  lemma {:induction false} NoDupCard<T>(s: seq<T>, S: set<T>)
    requires NoDup(s)
    requires forall x :: x in s <==> x in S
    ensures |s| == |S|
  {
    if s != [] {
      var last := s[|s| - 1];
      var init := s[..|s| - 1];
      assert forall x :: x in init ==> x in s;
      assert forall i :: 0 <= i < |init| ==> init[i] == s[i] != last;
      forall x ensures x in init <==> x in S - {last} {
        if x in S - {last} {
          var i :| 0 <= i < |s| && s[i] == x;
          assert i < |s| - 1;
          assert init[i] == x;
        }
      }
      NoDupCard(init, S - {last});
    } else {
      assert forall x :: x !in S;
    }
  }

  /** The index at which a Python slice `s[:stop]` ends, for a sequence of
      length `len`: a negative stop counts from the end, and the result is
      clamped to `0..len`. */
  function PyStop(stop: int, len: nat): (r: nat)
    ensures r <= len
    ensures 0 <= stop <= len ==> r == stop
    ensures stop > len ==> r == len
    ensures stop < 0 ==> r == (if len + stop < 0 then 0 else len + stop)
  {
    if stop < 0 then (if len + stop < 0 then 0 else len + stop)
    else if stop > len then len
    else stop
  }

  /** Python `s[:stop]`. */
  function PyPrefix<T>(s: seq<T>, stop: int): (r: seq<T>)
    ensures r <= s && |r| == PyStop(stop, |s|)
  {
    s[..PyStop(stop, |s|)]
  }

  /** Python `s[start:stop]` for a start of 1, as used by `c[1:k]`. */
  function PySliceFrom1<T>(s: seq<T>, stop: int): seq<T> {
    var e := PyStop(stop, |s|);
    if e <= 1 then [] else s[1..e]
  }

  /** All lists of `ls` joined in order. */
  function Flatten<T>(ls: seq<seq<T>>): seq<T> {
    if ls == [] then [] else Flatten(ls[..|ls| - 1]) + ls[|ls| - 1]
  }
}
