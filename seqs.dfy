/** Sequence filtering, the model of a Python list comprehension `[x for x in s if p(x)]`. */
module Seqs {

  /** The elements of `s` that satisfy `p`, in their original order. */
  function Filter<T(!new)>(s: seq<T>, p: T -> bool): (r: seq<T>)
    ensures |r| <= |s|
  {
    if s == [] then []
    else if p(s[0]) then [s[0]] + Filter(s[1..], p)
    else Filter(s[1..], p)
  }

  /** The filter keeps exactly the elements of `s` that satisfy `p`. */
  lemma {:induction false} FilterMembers<T(!new)>(s: seq<T>, p: T -> bool)
    ensures forall x :: x in Filter(s, p) <==> x in s && p(x)
  {
    if s != [] {
      FilterMembers(s[1..], p);
      assert s == [s[0]] + s[1..];
    }
  }

  /** Filtering twice with the same predicate is filtering once. */
  lemma {:induction false} FilterIdempotent<T(!new)>(s: seq<T>, p: T -> bool)
    ensures Filter(Filter(s, p), p) == Filter(s, p)
  {
    if s != [] {
      FilterIdempotent(s[1..], p);
      if p(s[0]) {
        var r := Filter(s[1..], p);
        assert ([s[0]] + r)[0] == s[0];
        assert ([s[0]] + r)[1..] == r;
      }
    }
  }

  /** When every element passes, the filter returns its input unchanged and in order. */
  lemma {:induction false} FilterKeepsAll<T(!new)>(s: seq<T>, p: T -> bool)
    requires forall k :: 0 <= k < |s| ==> p(s[k])
    ensures Filter(s, p) == s
  {
    if s != [] {
      FilterKeepsAll(s[1..], p);
      assert [s[0]] + s[1..] == s;
    }
  }

  /** The positions in `s` whose element passes `p`, in increasing order. */
  function Positions<T(!new)>(s: seq<T>, p: T -> bool): seq<nat>
  {
    if s == [] then []
    else if p(s[0]) then [0] + Shift(Positions(s[1..], p))
    else Shift(Positions(s[1..], p))
  }

  /**
   * The filter's output is the subsequence of `s` picked out by
   * `Positions(s, p)`, which are strictly increasing.
   */
  lemma {:induction false} FilterAtPositions<T(!new)>(s: seq<T>, p: T -> bool)
    ensures |Positions(s, p)| == |Filter(s, p)|
    ensures forall k :: 0 <= k < |Positions(s, p)| ==>
              Positions(s, p)[k] < |s| && s[Positions(s, p)[k]] == Filter(s, p)[k]
    ensures forall k, l :: 0 <= k < l < |Positions(s, p)| ==> Positions(s, p)[k] < Positions(s, p)[l]
  {
    if s != [] {
      var tail := s[1..];
      var rest := Positions(tail, p);
      FilterAtPositions(tail, p);
      ShiftMembers(rest);
      var idx := Positions(s, p);
      var fr := Filter(tail, p);
      if p(s[0]) {
        assert idx == [0] + Shift(rest);
        assert Filter(s, p) == [s[0]] + fr;
        forall k | 1 <= k < |idx|
          ensures idx[k] < |s| && s[idx[k]] == Filter(s, p)[k]
        {
          assert idx[k] == rest[k - 1] + 1;
          assert s[idx[k]] == tail[rest[k - 1]];
        }
      } else {
        assert idx == Shift(rest);
        assert Filter(s, p) == fr;
        forall k | 0 <= k < |idx|
          ensures idx[k] < |s| && s[idx[k]] == Filter(s, p)[k]
        {
          assert s[idx[k]] == tail[rest[k]];
        }
      }
    }
  }

  /** A position is selected exactly when its element passes `p`: nothing that passes is dropped. */
  lemma {:induction false} PositionsComplete<T(!new)>(s: seq<T>, p: T -> bool)
    ensures forall j :: 0 <= j < |s| ==> (j in Positions(s, p) <==> p(s[j]))
  {
    if s != [] {
      var tail := s[1..];
      var rest := Positions(tail, p);
      PositionsComplete(tail, p);
      ShiftMembers(rest);
      var idx := Positions(s, p);
      assert idx == if p(s[0]) then [0] + Shift(rest) else Shift(rest);
      forall j | 1 <= j < |s|
        ensures j in idx <==> p(s[j])
      {
        assert s[j] == tail[j - 1];
        assert j in idx <==> j in Shift(rest);
      }
    }
  }

  /** Every position moved one place to the right. */
  function Shift(idx: seq<nat>): seq<nat>
  {
    seq(|idx|, k requires 0 <= k < |idx| => idx[k] + 1)
  }

  lemma ShiftMembers(idx: seq<nat>)
    ensures |Shift(idx)| == |idx|
    ensures forall k :: 0 <= k < |idx| ==> Shift(idx)[k] == idx[k] + 1
    ensures 0 !in Shift(idx)
    ensures forall j :: 1 <= j ==> (j in Shift(idx) <==> j - 1 in idx)
  {
    var r := Shift(idx);
    forall j | 1 <= j
      ensures j in r <==> j - 1 in idx
    {
      if j - 1 in idx {
        var m :| 0 <= m < |idx| && idx[m] == j - 1;
        assert r[m] == j;
      }
      if j in r {
        var m :| 0 <= m < |r| && r[m] == j;
        assert idx[m] == j - 1;
      }
    }
  }
}
