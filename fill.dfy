/**
 Filling missing cells of a column, as the rebasing step does with
 `df.groupby("country_code")[col].ffill().bfill()`: the forward fill runs
 within each country, the backward fill that follows runs over the whole
 column in frame order, so it can carry a value across a country boundary.
 */
module Fill {
  import opened Cells
  import opened Keys

  // ---------------------------------------------------------------------------
  // Specification

  /** The last non-missing cell of group g among the first n cells. */
  function PrevSeen(groups: seq<string>, a: seq<Cell>, n: nat, g: string): Cell
    requires |groups| == |a| && n <= |a|
  {
    if n == 0 then Missing
    else if groups[n - 1] == g && !a[n - 1].Missing? then a[n - 1]
    else PrevSeen(groups, a, n - 1, g)
  }

  /** `groupby(groups).ffill()`: each missing cell takes the last non-missing
      cell of its own group before it, if any. */
  function GroupFfill(groups: seq<string>, a: seq<Cell>): (r: seq<Cell>)
    requires |groups| == |a|
    ensures |r| == |a|
  {
    seq(|a|, i requires 0 <= i < |a| => PrevSeen(groups, a, i + 1, groups[i]))
  }

  /** The first non-missing cell at or after position i. */
  function NextSeen(a: seq<Cell>, i: nat): Cell
    requires i <= |a|
    decreases |a| - i
  {
    if i == |a| then Missing
    else if !a[i].Missing? then a[i]
    else NextSeen(a, i + 1)
  }

  /** `bfill()`: each missing cell takes the next non-missing cell after it. */
  function Bfill(a: seq<Cell>): (r: seq<Cell>)
    ensures |r| == |a|
  {
    seq(|a|, i requires 0 <= i < |a| => NextSeen(a, i))
  }

  // ---------------------------------------------------------------------------
  // What the fills mean

  /** PrevSeen finds exactly the latest non-missing cell of the group. */
  lemma {:induction false} PrevSeenFound(groups: seq<string>, a: seq<Cell>, n: nat, g: string)
    requires |groups| == |a| && n <= |a|
    ensures PrevSeen(groups, a, n, g).Missing? <==>
      forall j :: 0 <= j < n && groups[j] == g ==> a[j].Missing?
    ensures !PrevSeen(groups, a, n, g).Missing? ==>
      exists j :: 0 <= j < n && groups[j] == g && a[j] == PrevSeen(groups, a, n, g) &&
        forall m :: j < m < n && groups[m] == g ==> a[m].Missing?
  {
    if n > 0 {
      PrevSeenFound(groups, a, n - 1, g);
    }
  }

  /** NextSeen finds the first non-missing cell at or after i. */
  lemma {:induction false} NextSeenFirst(a: seq<Cell>, i: nat, j: nat)
    requires i <= j < |a| && !a[j].Missing?
    requires forall m :: i <= m < j ==> a[m].Missing?
    ensures NextSeen(a, i) == a[j]
    decreases j - i
  {
    if i < j {
      NextSeenFirst(a, i + 1, j);
    }
  }

  lemma {:induction false} NextSeenNone(a: seq<Cell>, i: nat)
    requires i <= |a|
    requires forall m :: i <= m < |a| ==> a[m].Missing?
    ensures NextSeen(a, i).Missing?
    decreases |a| - i
  {
    if i < |a| {
      NextSeenNone(a, i + 1);
    }
  }

  /** The forward fill leaves non-missing cells alone and fills a missing one
      from its own group only. */
  lemma GroupFfillMeaning(groups: seq<string>, a: seq<Cell>, i: nat)
    requires |groups| == |a| && i < |a|
    ensures !a[i].Missing? ==> GroupFfill(groups, a)[i] == a[i]
    ensures GroupFfill(groups, a)[i].Missing? <==> forall j :: 0 <= j <= i && groups[j] == groups[i] ==> a[j].Missing?
    ensures !GroupFfill(groups, a)[i].Missing? ==>
      exists j :: 0 <= j <= i && groups[j] == groups[i] && GroupFfill(groups, a)[i] == a[j]
  {
    PrevSeenFound(groups, a, i + 1, groups[i]);
  }

  /** After the backward fill a cell is missing only when every cell from it
      to the end is missing. */
  lemma BfillMeaning(a: seq<Cell>, i: nat)
    requires i < |a|
    ensures !a[i].Missing? ==> Bfill(a)[i] == a[i]
    ensures Bfill(a)[i].Missing? <==> forall j :: i <= j < |a| ==> a[j].Missing?
  {
    if Bfill(a)[i].Missing? {
      forall j | i <= j < |a| ensures a[j].Missing? {
        if !a[j].Missing? {
          var k := FirstPresent(a, i, j);
          NextSeenFirst(a, i, k);
        }
      }
    } else {
      if forall j :: i <= j < |a| ==> a[j].Missing? {
        NextSeenNone(a, i);
      }
    }
  }

  /** The first non-missing position in [i, j], given that j is one. */
  lemma {:induction false} FirstPresent(a: seq<Cell>, i: nat, j: nat) returns (k: nat)
    requires i <= j < |a| && !a[j].Missing?
    ensures i <= k <= j && !a[k].Missing? && forall m :: i <= m < k ==> a[m].Missing?
    decreases j - i
  {
    if !a[i].Missing? {
      k := i;
    } else {
      k := FirstPresent(a, i + 1, j);
    }
  }

  // ---------------------------------------------------------------------------
  // The scans

  /** The group-wise forward fill as one left-to-right scan that remembers the
      last non-missing value of each group. */
  method GroupForwardFill(groups: seq<string>, a: array<Cell>)
    requires |groups| == a.Length
    modifies a
    ensures a[..] == GroupFfill(groups, old(a[..]))
  {
    ghost var a0 := a[..];
    var last: map<string, Cell> := map[];
    for i := 0 to a.Length
      invariant a[i..] == a0[i..]
      invariant forall j :: 0 <= j < i ==> a[j] == GroupFfill(groups, a0)[j]
      invariant forall g :: PrevSeen(groups, a0, i, g) == if g in last then last[g] else Missing
    {
      assert a[i] == a0[i];
      var g := groups[i];
      if a[i].Missing? {
        if g in last {
          a[i] := last[g];
        }
      } else {
        last := last[g := a[i]];
      }
    }
    assert a[..] == GroupFfill(groups, a0);
  }

  /** The backward fill as one right-to-left scan that remembers the next
      non-missing value. */
  method BackFill(a: array<Cell>)
    modifies a
    ensures a[..] == Bfill(old(a[..]))
  {
    ghost var a0 := a[..];
    var next := Missing;
    var i := a.Length;
    while i > 0
      invariant 0 <= i <= a.Length
      invariant a[..i] == a0[..i]
      invariant forall j :: i <= j < a.Length ==> a[j] == NextSeen(a0, j)
      invariant next == NextSeen(a0, i)
    {
      i := i - 1;
      assert a[i] == a0[i];
      if a[i].Missing? {
        a[i] := next;
      } else {
        next := a[i];
      }
    }
    assert a[..] == Bfill(a0);
  }

  // ---------------------------------------------------------------------------
  // Rebasing at an anchor year

  /** The cells of the anchor-year rows, missing elsewhere (`row[col] if
      row["year"] == rebase_year else pd.NA`). */
  function AtYear(years: seq<int>, vals: seq<Cell>, anchor: int): (r: seq<Cell>)
    requires |years| == |vals|
    ensures |r| == |vals|
    ensures forall i :: 0 <= i < |vals| ==> r[i] == if years[i] == anchor then vals[i] else Missing
  {
    seq(|vals|, i requires 0 <= i < |vals| => if years[i] == anchor then vals[i] else Missing)
  }

  /** The rebase column once filled: per-country forward fill, then the
      ungrouped backward fill. */
  function Propagated(codes: seq<string>, years: seq<int>, vals: seq<Cell>, anchor: int): (r: seq<Cell>)
    requires |codes| == |years| == |vals|
    ensures |r| == |vals|
  {
    Bfill(GroupFfill(codes, AtYear(years, vals, anchor)))
  }

  /** An anchor-year row keeps its own present value through the fills, in any
      frame order. */
  lemma PropagatedAtAnchor(codes: seq<string>, years: seq<int>, vals: seq<Cell>, anchor: int, k: nat)
    requires |codes| == |years| == |vals| && k < |vals|
    requires years[k] == anchor && !vals[k].Missing?
    ensures Propagated(codes, years, vals, anchor)[k] == vals[k]
  {
    var r := AtYear(years, vals, anchor);
    GroupFfillMeaning(codes, r, k);
    BfillMeaning(GroupFfill(codes, r), k);
  }

  function FrameKeys(codes: seq<string>, years: seq<int>): (ks: seq<Key>)
    requires |codes| == |years|
    ensures |ks| == |codes| && forall i :: 0 <= i < |codes| ==> ks[i] == Key(codes[i], years[i])
  {
    seq(|codes|, i requires 0 <= i < |codes| => Key(codes[i], years[i]))
  }

  /** The frame is sorted by (country_code, year) without repeated keys. */
  ghost predicate SortedFrame(codes: seq<string>, years: seq<int>)
  {
    |codes| == |years| && StrictlySorted(FrameKeys(codes, years))
  }

  lemma CodesOrdered(codes: seq<string>, years: seq<int>, i: nat, j: nat)
    requires SortedFrame(codes, years) && i < j < |codes|
    ensures codes[i] == codes[j] || StrLt(codes[i], codes[j])
  {
    assert KeyLt(FrameKeys(codes, years)[i], FrameKeys(codes, years)[j]);
  }

  /** Rows of one country are contiguous. */
  lemma Contiguous(codes: seq<string>, years: seq<int>, i: nat, m: nat, j: nat)
    requires SortedFrame(codes, years) && i <= m <= j < |codes| && codes[i] == codes[j]
    ensures codes[m] == codes[i]
  {
    if i < m < j {
      CodesOrdered(codes, years, i, m);
      CodesOrdered(codes, years, m, j);
      if codes[m] != codes[i] {
        StrLtAsymmetric(codes[i], codes[m]);
      }
    }
  }

  /** A country has at most one row per year. */
  lemma OneRowPerYear(codes: seq<string>, years: seq<int>, i: nat, j: nat)
    requires SortedFrame(codes, years) && i < |codes| && j < |codes|
    requires codes[i] == codes[j] && years[i] == years[j]
    ensures i == j
  {
    if i != j {
      StrictlySortedDistinct(FrameKeys(codes, years), i, j);
    }
  }

  /** Within the forward fill of the anchor column, a country's cells are
      missing before its anchor row and hold the anchor value from it on. */
  lemma {:induction false} FfillAroundAnchor(codes: seq<string>, years: seq<int>, vals: seq<Cell>, anchor: int, k: nat, m: nat)
    requires SortedFrame(codes, years) && |vals| == |codes|
    requires k < |codes| && m < |codes| && codes[m] == codes[k] && years[k] == anchor && !vals[k].Missing?
    ensures GroupFfill(codes, AtYear(years, vals, anchor))[m] == if k <= m then vals[k] else Missing
  {
    var r := AtYear(years, vals, anchor);
    assert !r[k].Missing?;
    PrevSeenFound(codes, r, m + 1, codes[m]);
    var f := PrevSeen(codes, r, m + 1, codes[m]);
    if !f.Missing? {
      var j :| 0 <= j < m + 1 && codes[j] == codes[m] && r[j] == f &&
        forall n :: j < n < m + 1 && codes[n] == codes[m] ==> r[n].Missing?;
      OneRowPerYear(codes, years, j, k);
    }
  }

  /** Every row of a country whose anchor-year value is present carries that
      value after the fills. */
  lemma AnchorPropagates(codes: seq<string>, years: seq<int>, vals: seq<Cell>, anchor: int, k: nat, i: nat)
    requires SortedFrame(codes, years) && |vals| == |codes|
    requires k < |codes| && i < |codes| && codes[i] == codes[k] && years[k] == anchor && !vals[k].Missing?
    ensures Propagated(codes, years, vals, anchor)[i] == vals[k]
  {
    var f := GroupFfill(codes, AtYear(years, vals, anchor));
    FfillAroundAnchor(codes, years, vals, anchor, k, k);
    if i < k {
      forall m | i <= m < k ensures f[m].Missing? {
        Contiguous(codes, years, i, m, k);
        FfillAroundAnchor(codes, years, vals, anchor, k, m);
      }
      NextSeenFirst(f, i, k);
    } else {
      FfillAroundAnchor(codes, years, vals, anchor, k, i);
    }
  }

  /** A row of a country without a present anchor-year value takes, after the
      fills, the first present anchor-year value at or after it in frame order
      (missing if there is none). */
  lemma NoAnchorTakesNext(codes: seq<string>, years: seq<int>, vals: seq<Cell>, anchor: int, i: nat)
    requires SortedFrame(codes, years) && |vals| == |codes| && i < |codes|
    requires forall j :: 0 <= j < |codes| && codes[j] == codes[i] && years[j] == anchor ==> vals[j].Missing?
    ensures Propagated(codes, years, vals, anchor)[i] == NextSeen(AtYear(years, vals, anchor), i)
  {
    var r := AtYear(years, vals, anchor);
    var f := GroupFfill(codes, r);
    if forall j :: i <= j < |r| ==> r[j].Missing? {
      forall m | i <= m < |f| ensures f[m].Missing? {
        NotFilledBeforeNextAnchor(codes, years, vals, anchor, i, m);
      }
      NextSeenNone(f, i);
      NextSeenNone(r, i);
    } else {
      var j0 :| i <= j0 < |r| && !r[j0].Missing?;
      var j := FirstPresent(r, i, j0);
      forall m | i <= m < j ensures f[m].Missing? {
        NotFilledBeforeNextAnchor(codes, years, vals, anchor, i, m);
      }
      GroupFfillMeaning(codes, r, j);
      NextSeenFirst(f, i, j);
      NextSeenFirst(r, i, j);
    }
  }

  /** From a row of an anchorless country, a filled cell can only come from an
      anchor at or after that row. */
  lemma NotFilledBeforeNextAnchor(codes: seq<string>, years: seq<int>, vals: seq<Cell>, anchor: int, i: nat, m: nat)
    requires SortedFrame(codes, years) && |vals| == |codes| && i <= m < |codes|
    requires forall j :: 0 <= j < |codes| && codes[j] == codes[i] && years[j] == anchor ==> vals[j].Missing?
    ensures var r := AtYear(years, vals, anchor);
      (forall n :: i <= n <= m ==> r[n].Missing?) ==> GroupFfill(codes, r)[m].Missing?
  {
    var r := AtYear(years, vals, anchor);
    GroupFfillMeaning(codes, r, m);
    if !GroupFfill(codes, r)[m].Missing? {
      var k :| 0 <= k <= m && codes[k] == codes[m] && GroupFfill(codes, r)[m] == r[k];
      if k < i {
        CodesOrdered(codes, years, k, i);
        Contiguous(codes, years, k, i, m);
      }
    }
  }

  /** The value an anchorless country receives belongs to a later country. */
  lemma NextAnchorIsLater(codes: seq<string>, years: seq<int>, vals: seq<Cell>, anchor: int, i: nat)
    requires SortedFrame(codes, years) && |vals| == |codes| && i < |codes|
    requires forall j :: 0 <= j < |codes| && codes[j] == codes[i] && years[j] == anchor ==> vals[j].Missing?
    ensures var v := NextSeen(AtYear(years, vals, anchor), i);
      v.Missing? || exists j :: i < j < |codes| && StrLt(codes[i], codes[j]) && years[j] == anchor && v == vals[j]
  {
    var r := AtYear(years, vals, anchor);
    if !(forall j :: i <= j < |r| ==> r[j].Missing?) {
      var j0 :| i <= j0 < |r| && !r[j0].Missing?;
      var j := FirstPresent(r, i, j0);
      NextSeenFirst(r, i, j);
      assert codes[j] != codes[i];
      CodesOrdered(codes, years, i, j);
    } else {
      NextSeenNone(r, i);
    }
  }
}
