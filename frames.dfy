/**
 Whole-table operations shared by the pipelines: a row filter that keeps the
 frame order (boolean indexing), and pandas' left merge, which keeps every
 left row and repeats it once per matching right row, in right-table order.
 */
module Frames {
  import opened Options

  /** `df[mask]`: the rows satisfying `p`, in frame order. */
  function Keep<T(!new)>(xs: seq<T>, p: T -> bool): (r: seq<T>)
    ensures |r| <= |xs|
    ensures forall x :: x in r <==> x in xs && p(x)
  {
    if |xs| == 0 then []
    else
      var rest := Keep(xs[..|xs| - 1], p);
      assert forall x :: x in xs <==> x in xs[..|xs| - 1] || x == xs[|xs| - 1] by {
        assert xs == xs[..|xs| - 1] + [xs[|xs| - 1]];
      }
      if p(xs[|xs| - 1]) then rest + [xs[|xs| - 1]] else rest
  }

  /** A filter that rejects nothing returns the frame unchanged. */
  lemma {:induction false} KeepAll<T(!new)>(xs: seq<T>, p: T -> bool)
    requires forall i :: 0 <= i < |xs| ==> p(xs[i])
    ensures Keep(xs, p) == xs
  {
    if |xs| > 0 {
      KeepAll(xs[..|xs| - 1], p);
      assert xs == xs[..|xs| - 1] + [xs[|xs| - 1]];
    }
  }

  /** The merge condition with its left row fixed. */
  function MatchOf<L, R>(l: L, on: (L, R) -> bool): R -> bool
  {
    (r: R) => on(l, r)
  }

  /** The right rows matching one left row, for a merge. */
  function Matches<L, R(!new)>(l: L, rs: seq<R>, on: (L, R) -> bool): seq<R>
  {
    Keep(rs, MatchOf(l, on))
  }

  /** The merged rows of one left row: one per match, or one with no right side. */
  function JoinOne<L, R(!new), O>(l: L, rs: seq<R>, on: (L, R) -> bool, combine: (L, Option<R>) -> O): (out: seq<O>)
    ensures |out| >= 1
  {
    var ms := Matches(l, rs, on);
    if |ms| == 0 then [combine(l, None)]
    else seq(|ms|, i requires 0 <= i < |ms| => combine(l, Some(ms[i])))
  }

  /** `pd.merge(ls, rs, how="left")`: left rows in order, each expanded by JoinOne. */
  function LeftJoin<L, R(!new), O>(ls: seq<L>, rs: seq<R>, on: (L, R) -> bool, combine: (L, Option<R>) -> O): seq<O>
  {
    if |ls| == 0 then []
    else LeftJoin(ls[..|ls| - 1], rs, on, combine) + JoinOne(ls[|ls| - 1], rs, on, combine)
  }

  /** Every left row survives the merge: with each matching right row, or, when
      nothing matches, exactly once with no right side. Nothing else is produced. */
  lemma {:induction false} LeftJoinMembers<L, R(!new), O>(ls: seq<L>, rs: seq<R>, on: (L, R) -> bool, combine: (L, Option<R>) -> O, o: O)
    ensures o in LeftJoin(ls, rs, on, combine) <==>
      exists l :: l in ls &&
        ((o == combine(l, None) && forall r :: r in rs ==> !on(l, r)) ||
         (exists r :: r in rs && on(l, r) && o == combine(l, Some(r))))
  {
    if |ls| > 0 {
      var init, l := ls[..|ls| - 1], ls[|ls| - 1];
      LeftJoinMembers(init, rs, on, combine, o);
      assert ls == init + [l];
      JoinOneMembers(l, rs, on, combine, o);
      assert forall x :: x in ls <==> x in init || x == l;
    }
  }

  lemma JoinOneMembers<L, R(!new), O>(l: L, rs: seq<R>, on: (L, R) -> bool, combine: (L, Option<R>) -> O, o: O)
    ensures o in JoinOne(l, rs, on, combine) <==>
      ((o == combine(l, None) && forall r :: r in rs ==> !on(l, r)) ||
       (exists r :: r in rs && on(l, r) && o == combine(l, Some(r))))
  {
    var ms := Matches(l, rs, on);
    assert forall r :: r in ms <==> r in rs && on(l, r);
    if |ms| > 0 {
      var out := JoinOne(l, rs, on, combine);
      if o in out {
        var i :| 0 <= i < |ms| && out[i] == o;
        assert ms[i] in ms;
      }
      if exists r :: r in rs && on(l, r) && o == combine(l, Some(r)) {
        var r :| r in rs && on(l, r) && o == combine(l, Some(r));
        var i :| 0 <= i < |ms| && ms[i] == r;
        assert out[i] == o;
      }
      assert ms[0] in rs && on(l, ms[0]);
    }
  }

  /** When every left row matches at most one right row the merge is one to
      one: same length, and row i is left row i with its match, if any. */
  lemma {:induction false} LeftJoinOneToOne<L, R(!new), O>(ls: seq<L>, rs: seq<R>, on: (L, R) -> bool, combine: (L, Option<R>) -> O)
    requires forall i :: 0 <= i < |ls| ==> |Matches(ls[i], rs, on)| <= 1
    ensures |LeftJoin(ls, rs, on, combine)| == |ls|
    ensures forall i :: 0 <= i < |ls| ==>
      LeftJoin(ls, rs, on, combine)[i] ==
        (var ms := Matches(ls[i], rs, on); if |ms| == 0 then combine(ls[i], None) else combine(ls[i], Some(ms[0])))
  {
    if |ls| > 0 {
      var init := ls[..|ls| - 1];
      assert forall i :: 0 <= i < |init| ==> init[i] == ls[i];
      LeftJoinOneToOne(init, rs, on, combine);
    }
  }

  /** `pd.merge(ls, rs, how="inner")`: for each left row in order, one row per
      matching right row in right-table order; unmatched left rows vanish. */
  function InnerJoin<L, R(!new), O>(ls: seq<L>, rs: seq<R>, on: (L, R) -> bool, combine: (L, R) -> O): seq<O>
  {
    if |ls| == 0 then []
    else
      var ms := Matches(ls[|ls| - 1], rs, on);
      InnerJoin(ls[..|ls| - 1], rs, on, combine) + seq(|ms|, i requires 0 <= i < |ms| => combine(ls[|ls| - 1], ms[i]))
  }

  /** The inner merge holds exactly the combinations of matching left and right rows. */
  lemma {:induction false} InnerJoinMembers<L, R(!new), O>(ls: seq<L>, rs: seq<R>, on: (L, R) -> bool, combine: (L, R) -> O, o: O)
    ensures o in InnerJoin(ls, rs, on, combine) <==>
      exists l, r :: l in ls && r in rs && on(l, r) && o == combine(l, r)
  {
    if |ls| > 0 {
      var init, l := ls[..|ls| - 1], ls[|ls| - 1];
      InnerJoinMembers(init, rs, on, combine, o);
      assert ls == init + [l];
      assert forall x :: x in ls <==> x in init || x == l;
      var ms := Matches(l, rs, on);
      var tail := seq(|ms|, i requires 0 <= i < |ms| => combine(l, ms[i]));
      assert forall r :: r in ms <==> r in rs && on(l, r);
      if o in tail {
        var i :| 0 <= i < |ms| && tail[i] == o;
        assert ms[i] in ms;
      }
      if exists r :: r in rs && on(l, r) && o == combine(l, r) {
        var r :| r in rs && on(l, r) && o == combine(l, r);
        var i :| 0 <= i < |ms| && ms[i] == r;
        assert tail[i] == o;
      }
    }
  }

  /** Filtering distributes over concatenation. */
  lemma {:induction false} KeepConcat<T(!new)>(xs: seq<T>, ys: seq<T>, p: T -> bool)
    ensures Keep(xs + ys, p) == Keep(xs, p) + Keep(ys, p)
    decreases |ys|
  {
    if |ys| > 0 {
      var ys' := ys[..|ys| - 1];
      assert (xs + ys)[..|xs + ys| - 1] == xs + ys';
      KeepConcat(xs, ys', p);
    } else {
      assert xs + ys == xs;
    }
  }

  /** Appending rows the filter rejects does not change its result. */
  lemma {:induction false} KeepAppendNone<T(!new)>(xs: seq<T>, ys: seq<T>, p: T -> bool)
    requires forall i :: 0 <= i < |ys| ==> !p(ys[i])
    ensures Keep(xs + ys, p) == Keep(xs, p)
    decreases |ys|
  {
    if |ys| > 0 {
      var ys' := ys[..|ys| - 1];
      assert (xs + ys)[..|xs + ys| - 1] == xs + ys';
      KeepAppendNone(xs, ys', p);
    } else {
      assert xs + ys == xs;
    }
  }

  /** A filter that rejects everything returns nothing. */
  lemma {:induction false} KeepNone<T(!new)>(xs: seq<T>, p: T -> bool)
    requires forall i :: 0 <= i < |xs| ==> !p(xs[i])
    ensures Keep(xs, p) == []
  {
    KeepAppendNone([], xs, p);
    assert [] + xs == xs;
  }

  /** Filtering two frames that agree on every row the filter keeps. */
  lemma {:induction false} KeepAgree<T(!new)>(xs: seq<T>, ys: seq<T>, p: T -> bool)
    requires |xs| == |ys|
    requires forall i :: 0 <= i < |xs| ==> xs[i] == ys[i] || (!p(xs[i]) && !p(ys[i]))
    ensures Keep(xs, p) == Keep(ys, p)
  {
    if |xs| > 0 {
      KeepAgree(xs[..|xs| - 1], ys[..|ys| - 1], p);
    }
  }

  /** A per-row transformation (`df.apply(f, axis=1)` producing whole rows). */
  function MapSeq<T, U>(xs: seq<T>, f: T -> U): (ys: seq<U>)
    ensures |ys| == |xs| && forall i :: 0 <= i < |xs| ==> ys[i] == f(xs[i])
  {
    seq(|xs|, i requires 0 <= i < |xs| => f(xs[i]))
  }

  /** Mapping one more element appends its image. */
  lemma MapSeqSnoc<T, U>(xs: seq<T>, x: T, f: T -> U)
    ensures MapSeq(xs + [x], f) == MapSeq(xs, f) + [f(x)]
  {
  }

  /** Filtering one more element appends it exactly when it passes. */
  lemma KeepSnoc<T(!new)>(xs: seq<T>, x: T, p: T -> bool)
    ensures Keep(xs + [x], p) == if p(x) then Keep(xs, p) + [x] else Keep(xs, p)
  {
    assert (xs + [x])[..|xs|] == xs;
  }

  /** The images of the kept elements are exactly the images of the elements
      the filter keeps. */
  lemma MapKeepMembers<T(!new), U>(xs: seq<T>, p: T -> bool, f: T -> U, y: U)
    ensures y in MapSeq(Keep(xs, p), f) <==> exists x :: x in xs && p(x) && y == f(x)
  {
    var kept := Keep(xs, p);
    var ys := MapSeq(kept, f);
    if y in ys {
      var i :| 0 <= i < |kept| && ys[i] == y;
      assert kept[i] in kept;
    }
    if exists x :: x in xs && p(x) && y == f(x) {
      var x :| x in xs && p(x) && y == f(x);
      var i :| 0 <= i < |kept| && kept[i] == x;
      assert ys[i] == y;
    }
  }

  /** Filtering after a transformation that the filter does not see is
      filtering before it. */
  lemma {:induction false} KeepMapSeq<T(!new), U(!new)>(xs: seq<T>, f: T -> U, p: T -> bool, q: U -> bool)
    requires forall x :: q(f(x)) == p(x)
    ensures Keep(MapSeq(xs, f), q) == MapSeq(Keep(xs, p), f)
  {
    if |xs| > 0 {
      var init := xs[..|xs| - 1];
      KeepMapSeq(init, f, p, q);
      assert MapSeq(xs, f)[..|xs| - 1] == MapSeq(init, f);
    }
  }
}
