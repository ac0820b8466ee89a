/**
 The WEO reshape from the cleaned wide sheet to the country-year table: the
 melt to one row per (series, year column), the left merge with the
 estimate-start table and the estimate flag that is computed and dropped, the
 mean pivot on (country_code, year) with one column per subject code, and the
 final sort. `ProcessFile` runs the whole script on a sheet already read.
 */
module WeoReshape {
  import opened Options
  import opened Cells
  import opened Keys
  import opened Frames
  import opened Grouping
  import opened Rows
  import opened Decimal
  import opened WeoSheet

  // ---------------------------------------------------------------------------
  // Melt

  /** A melted row: the two id cells, the year column's name and its cell. */
  datatype MeltRow = MeltRow(code: Raw, subject: Raw, variable: string, value: Raw)

  /** One value column melted: one row per sheet row, in sheet order. */
  function MeltBlock(c: Column, code: seq<Raw>, subject: seq<Raw>, n: nat): (r: seq<MeltRow>)
    requires |c.cells| == n && |code| == n && |subject| == n
    ensures |r| == n
    ensures forall i :: 0 <= i < n ==> r[i] == MeltRow(code[i], subject[i], c.name, c.cells[i])
  {
    seq(n, i requires 0 <= i < n => MeltRow(code[i], subject[i], c.name, c.cells[i]))
  }

  /** The value columns melted one after the other, column-major. */
  function MeltColumns(vs: seq<Column>, code: seq<Raw>, subject: seq<Raw>, n: nat): (r: seq<MeltRow>)
    requires Rectangular(vs, n) && |code| == n && |subject| == n
    ensures |r| == |vs| * n
  {
    if |vs| == 0 then []
    else
      var init := vs[..|vs| - 1];
      assert |vs| * n == |init| * n + n;
      MeltColumns(init, code, subject, n) + MeltBlock(vs[|vs| - 1], code, subject, n)
  }

  lemma MulStep(j: nat, k: nat, n: nat, i: nat)
    requires j < k && i < n
    ensures j * n + i < k * n
  {
    assert (j + 1) * n <= k * n;
  }

  /** Melted row j * n + i holds sheet row i's id cells, the name of value
      column j and its cell in row i: exactly one long row per pair. */
  lemma {:induction false} MeltAt(vs: seq<Column>, code: seq<Raw>, subject: seq<Raw>, n: nat, j: nat, i: nat)
    requires Rectangular(vs, n) && |code| == n && |subject| == n
    requires j < |vs| && i < n
    ensures j * n + i < |vs| * n
    ensures MeltColumns(vs, code, subject, n)[j * n + i] == MeltRow(code[i], subject[i], vs[j].name, vs[j].cells[i])
    decreases |vs|
  {
    var k := |vs| - 1;
    var init := vs[..k];
    MulStep(j, |vs|, n, i);
    if j < k {
      MulStep(j, k, n, i);
      MeltAt(init, code, subject, n, j, i);
      assert init[j] == vs[j];
    } else {
      assert j * n + i - |init| * n == i;
    }
  }

  function IsValueColumn(c: Column): bool
  {
    c.name != CountryCode && c.name != SubjectCode
  }

  /** `melt(id_vars=["country_code", "weo_subject_code"])`: every other
      column is a value column; a missing id column is a KeyError. */
  function Melt(cols: seq<Column>, n: nat): (r: Option<seq<MeltRow>>)
    requires Rectangular(cols, n)
    ensures r.None? <==> Find(cols, CountryCode).None? || Find(cols, SubjectCode).None?
  {
    match (Find(cols, CountryCode), Find(cols, SubjectCode))
    case (Some(ci), Some(si)) =>
      var vs := Keep(cols, IsValueColumn);
      assert Rectangular(vs, n) by {
        forall j | 0 <= j < |vs| ensures |vs[j].cells| == n {
          assert vs[j] in vs;
        }
      }
      Some(MeltColumns(vs, cols[ci].cells, cols[si].cells, n))
    case _ => None
  }

  // ---------------------------------------------------------------------------
  // Year coercion, estimate merge and flag

  /** A long row once its year name is coerced to a number. */
  datatype LongRow = LongRow(code: Raw, subject: Raw, year: Cell, value: Raw)

  function CoerceYear(m: MeltRow): LongRow
  {
    LongRow(m.code, m.subject, ParseNum(m.variable), m.value)
  }

  /** The name of a year column is read back as that year. */
  lemma CoerceYearOfName(m: MeltRow, y: nat)
    requires m.variable == ShowNat(y)
    ensures CoerceYear(m).year == Num(y as real)
  {
    ParseNumShowNat(y);
  }

  /** A row of `df[["country_code", "weo_subject_code", "estimate_after"]]`. */
  datatype EstRow = EstRow(code: Raw, subject: Raw, after: Raw)

  /** The estimate table, one row per sheet row; None (a KeyError) when one of
      the three columns is missing. */
  function EstimateTable(cols: seq<Column>, n: nat): (r: Option<seq<EstRow>>)
    requires Rectangular(cols, n)
    ensures r.None? <==> Find(cols, CountryCode).None? || Find(cols, SubjectCode).None? || Find(cols, EstimateAfter).None?
    ensures r.Some? ==> |r.value| == n
  {
    match (Find(cols, CountryCode), Find(cols, SubjectCode), Find(cols, EstimateAfter))
    case (Some(ci), Some(si), Some(ei)) =>
      Some(seq(n, i requires 0 <= i < n => EstRow(cols[ci].cells[i], cols[si].cells[i], cols[ei].cells[i])))
    case _ => None
  }

  /** The merge condition: same country code and subject code (NaN matches NaN). */
  function SameSeries(l: LongRow, e: EstRow): bool
  {
    l.code == e.code && l.subject == e.subject
  }

  /** A merged row: the long row and its estimate_after, NaN when unmatched. */
  datatype Merged = Merged(row: LongRow, after: Raw)

  function Combine(l: LongRow, e: Option<EstRow>): Merged
  {
    Merged(l, if e.Some? then e.value.after else NaN)
  }

  /** pandas' `>` on numbers: false whenever either side is NaN. */
  predicate Greater(a: Cell, b: Cell)
  {
    match (a, b)
    case (Num(x), Num(y)) => x > y
    case (Inf(false), Num(_)) => true
    case (Num(_), Inf(true)) => true
    case (Inf(false), Inf(true)) => true
    case _ => false
  }

  /** The merged row with estimate_after coerced and is_an_estimate set. */
  datatype Flagged = Flagged(row: LongRow, after: Cell, isEstimate: bool)

  function Flag(m: Merged): (f: Flagged)
    ensures f.row == m.row
    ensures f.isEstimate <==> !f.after.Missing? && Greater(m.row.year, f.after)
  {
    var a := NumericCell(m.after).c;
    Flagged(m.row, a, !a.Missing? && Greater(m.row.year, a))
  }

  /** `drop(columns=["estimate_after", "is_an_estimate"])`. */
  function Unflag(f: Flagged): LongRow
  {
    f.row
  }

  /** Lines 58-75 as a whole: merge, flag, drop. */
  function MergedLong(long: seq<LongRow>, est: seq<EstRow>): seq<LongRow>
  {
    MapSeq(MapSeq(LeftJoin(long, est, SameSeries, Combine), Flag), Unflag)
  }

  /** The merge keeps every long row and adds no other. */
  lemma MergedLongMembers(long: seq<LongRow>, est: seq<EstRow>, x: LongRow)
    ensures x in MergedLong(long, est) <==> x in long
  {
    var j := LeftJoin(long, est, SameSeries, Combine);
    var out := MergedLong(long, est);
    MergedLongRows(long, est);
    if x in out {
      var i :| 0 <= i < |out| && out[i] == x;
      JoinedRowIsLong(long, est, j[i]);
    }
    if x in long {
      LongRowIsJoined(long, est, x);
      var i :| 0 <= i < |j| && j[i].row == x;
      assert out[i] == x;
    }
  }

  lemma JoinedRowIsLong(long: seq<LongRow>, est: seq<EstRow>, o: Merged)
    requires o in LeftJoin(long, est, SameSeries, Combine)
    ensures o.row in long
  {
    LeftJoinMembers(long, est, SameSeries, Combine, o);
  }

  lemma LongRowIsJoined(long: seq<LongRow>, est: seq<EstRow>, x: LongRow)
    requires x in long
    ensures var j := LeftJoin(long, est, SameSeries, Combine);
      exists i :: 0 <= i < |j| && j[i].row == x
  {
    var j := LeftJoin(long, est, SameSeries, Combine);
    var o: Merged;
    if forall r :: r in est ==> !SameSeries(x, r) {
      o := Combine(x, None);
    } else {
      var r :| r in est && SameSeries(x, r);
      o := Combine(x, Some(r));
    }
    LeftJoinMembers(long, est, SameSeries, Combine, o);
    var i :| 0 <= i < |j| && j[i] == o;
    assert j[i].row == x;
  }

  function RowOf(m: Merged): LongRow
  {
    m.row
  }

  /** The merged long rows are the long rows of the left merge, in turn. */
  lemma MergedLongRows(long: seq<LongRow>, est: seq<EstRow>)
    ensures MergedLong(long, est) == MapSeq(LeftJoin(long, est, SameSeries, Combine), RowOf)
  {
  }

  /** Two estimate tables whose rows name the same series in turn. */
  predicate SameSeriesColumns(a: seq<EstRow>, b: seq<EstRow>)
  {
    |a| == |b| && forall i :: 0 <= i < |a| ==> a[i].code == b[i].code && a[i].subject == b[i].subject
  }

  /** Two merged tables with the same long rows, row by row. */
  predicate SameRows(a: seq<Merged>, b: seq<Merged>)
  {
    |a| == |b| && forall i :: 0 <= i < |a| ==> a[i].row == b[i].row
  }

  lemma {:induction false} KeepSameLength<T(!new)>(xs: seq<T>, ys: seq<T>, p: T -> bool, q: T -> bool)
    requires |xs| == |ys| && forall i :: 0 <= i < |xs| ==> p(xs[i]) == q(ys[i])
    ensures |Keep(xs, p)| == |Keep(ys, q)|
  {
    if |xs| > 0 {
      KeepSameLength(xs[..|xs| - 1], ys[..|ys| - 1], p, q);
    }
  }

  lemma SameRowsJoinOne(l: LongRow, a: seq<EstRow>, b: seq<EstRow>)
    requires SameSeriesColumns(a, b)
    ensures SameRows(JoinOne(l, a, SameSeries, Combine), JoinOne(l, b, SameSeries, Combine))
  {
    KeepSameLength(a, b, MatchOf(l, SameSeries), MatchOf(l, SameSeries));
    var ma, mb := Matches(l, a, SameSeries), Matches(l, b, SameSeries);
    assert |ma| == |mb|;
    var ja, jb := JoinOne(l, a, SameSeries, Combine), JoinOne(l, b, SameSeries, Combine);
    if |ma| == 0 {
      assert ja == [Combine(l, None)] && jb == [Combine(l, None)];
    } else {
      assert |ja| == |ma| && |jb| == |mb|;
      forall i | 0 <= i < |ja| ensures ja[i].row == jb[i].row {
        assert ja[i] == Combine(l, Some(ma[i]));
        assert jb[i] == Combine(l, Some(mb[i]));
      }
    }
  }

  lemma SameRowsConcat(a: seq<Merged>, b: seq<Merged>, c: seq<Merged>, d: seq<Merged>)
    requires SameRows(a, b) && SameRows(c, d)
    ensures SameRows(a + c, b + d)
  {
  }

  lemma {:induction false} SameRowsJoin(ls: seq<LongRow>, a: seq<EstRow>, b: seq<EstRow>)
    requires SameSeriesColumns(a, b)
    ensures SameRows(LeftJoin(ls, a, SameSeries, Combine), LeftJoin(ls, b, SameSeries, Combine))
  {
    if |ls| > 0 {
      var init, l := ls[..|ls| - 1], ls[|ls| - 1];
      SameRowsJoin(init, a, b);
      SameRowsJoinOne(l, a, b);
      SameRowsConcat(LeftJoin(init, a, SameSeries, Combine), LeftJoin(init, b, SameSeries, Combine),
        JoinOne(l, a, SameSeries, Combine), JoinOne(l, b, SameSeries, Combine));
    }
  }

  /** The merge result does not depend on the estimate_after values. */
  lemma MergedLongIgnoresAfter(long: seq<LongRow>, a: seq<EstRow>, b: seq<EstRow>)
    requires SameSeriesColumns(a, b)
    ensures MergedLong(long, a) == MergedLong(long, b)
  {
    SameRowsJoin(long, a, b);
  }

  /** When no two estimate rows name the same series the merge is one to one,
      and the table after the drop is the long table itself. */
  lemma MergedLongOneToOne(long: seq<LongRow>, est: seq<EstRow>)
    requires forall i, j :: 0 <= i < j < |est| ==> !(est[i].code == est[j].code && est[i].subject == est[j].subject)
    ensures MergedLong(long, est) == long
  {
    forall i | 0 <= i < |long| ensures |Matches(long[i], est, SameSeries)| <= 1 {
      AtMostOneMatch(long[i], est);
    }
    LeftJoinOneToOne(long, est, SameSeries, Combine);
  }

  lemma {:induction false} AtMostOneMatch(l: LongRow, est: seq<EstRow>)
    requires forall i, j :: 0 <= i < j < |est| ==> !(est[i].code == est[j].code && est[i].subject == est[j].subject)
    ensures |Matches(l, est, SameSeries)| <= 1
  {
    var p := MatchOf(l, SameSeries);
    if |est| > 0 {
      var init := est[..|est| - 1];
      AtMostOneMatch(l, init);
      if p(est[|est| - 1]) {
        forall i | 0 <= i < |init| ensures !p(init[i]) {
          assert init[i] == est[i];
        }
        KeepNone(init, p);
      }
    }
  }

  // ---------------------------------------------------------------------------
  // Pivot

  /** `astype(str)` of an id cell: text as it is; a number or NaN is printed
      by `show`. */
  function AsText(r: Raw, show: Cell -> string): string
  {
    match r
    case Text(s) => s
    case Value(c) => show(c)
  }

  /** A long row with its id columns as strings. */
  datatype Obs = Obs(code: string, subject: string, year: Cell, value: Raw)

  function AsObs(show: Cell -> string): LongRow -> Obs
  {
    (l: LongRow) => Obs(AsText(l.code, show), AsText(l.subject, show), l.year, l.value)
  }

  /** A year that is a whole number. */
  function WholeYear(c: Cell): (r: Option<int>)
    ensures r.Some? <==> c.Num? && c.v.Floor as real == c.v
    ensures r.Some? ==> r.value as real == c.v
  {
    if c.Num? && c.v.Floor as real == c.v then Some(c.v.Floor) else None
  }

  /** A year column's name gives its year as the row key. */
  lemma WholeYearOfName(y: nat)
    ensures WholeYear(ParseNum(ShowNat(y))) == Some(y)
  {
    ParseNumShowNat(y);
  }

  /** An observation ready for the pivot. */
  datatype Point = Point(code: string, year: int, subject: string, value: Cell)

  function HasYear(o: Obs): bool
  {
    WholeYear(o.year).Some?
  }

  function ToPoint(o: Obs): Point
  {
    Point(o.code, match WholeYear(o.year) case Some(y) => y case None => 0, o.subject,
          match o.value case Value(c) => c case Text(_) => Missing)
  }

  /** The observations the pivot groups: rows whose year is not a number are
      not grouped; a text value makes the mean fail (None). */
  function Points(obs: seq<Obs>): (r: Option<seq<Point>>)
    ensures r.None? <==> exists o :: o in obs && o.value.Text?
  {
    if exists o :: o in obs && o.value.Text? then None
    else Some(MapSeq(Keep(obs, HasYear), ToPoint))
  }

  function PointKey(p: Point): Key
  {
    Key(p.code, p.year)
  }

  function InCell(k: Key, s: string): Point -> bool
  {
    (p: Point) => PointKey(p) == k && p.subject == s
  }

  /** The values of one (country_code, year, subject) group, in table order. */
  function GroupCells(ps: seq<Point>, k: Key, s: string): seq<Cell>
  {
    var g := Keep(ps, InCell(k, s));
    seq(|g|, i requires 0 <= i < |g| => g[i].value)
  }

  function CellMean(ps: seq<Point>, k: Key, s: string): Cell
  {
    Mean(GroupCells(ps, k, s))
  }

  /** The subjects that occur with key k. */
  function Subjects(ps: seq<Point>, k: Key): set<string>
  {
    set p | p in ps && PointKey(p) == k :: p.subject
  }

  /** After `dropna(how="all")` a key survives exactly when one of its subject
      means is a value. */
  predicate HasValue(ps: seq<Point>, k: Key)
  {
    exists s :: s in Subjects(ps, k) && CellMean(ps, k, s) != Missing
  }

  function PivotRow(ps: seq<Point>, k: Key): (r: Row)
    ensures KeyOf(r) == k
  {
    Row(k.name, k.year, map s | s in Subjects(ps, k) && CellMean(ps, k, s) != Missing :: CellMean(ps, k, s))
  }

  function PivotKeys(ps: seq<Point>): seq<Key>
  {
    Keep(SortKeys(MapSeq(ps, PointKey)), (k: Key) => HasValue(ps, k))
  }

  /** `pivot_table(values="value", index=["country_code", "year"],
      columns=["weo_subject_code"], aggfunc="mean").reset_index()`. */
  function Pivot(ps: seq<Point>): seq<Row>
  {
    MapSeq(PivotKeys(ps), (k: Key) => PivotRow(ps, k))
  }

  /** A subject that never occurs with k has an empty group. */
  lemma AbsentSubject(ps: seq<Point>, k: Key, s: string)
    requires s !in Subjects(ps, k)
    ensures CellMean(ps, k, s) == Missing
  {
    forall i | 0 <= i < |ps| ensures !InCell(k, s)(ps[i]) {
      assert ps[i] in ps;
    }
    KeepNone(ps, InCell(k, s));
  }

  /** Every cell of a pivot row is the NaN-skipping mean of its group. */
  lemma PivotRowCells(ps: seq<Point>, k: Key, s: string)
    ensures Get(PivotRow(ps, k), s) == CellMean(ps, k, s)
  {
    if s !in Subjects(ps, k) {
      AbsentSubject(ps, k, s);
    }
  }

  lemma {:induction false} KeepStrictlySorted(ks: seq<Key>, p: Key -> bool)
    requires StrictlySorted(ks)
    ensures StrictlySorted(Keep(ks, p))
  {
    if |ks| > 0 {
      var init, last := ks[..|ks| - 1], ks[|ks| - 1];
      assert StrictlySorted(init) by {
        forall i, j | 0 <= i < j < |init| ensures KeyLt(init[i], init[j]) {
          assert init[i] == ks[i] && init[j] == ks[j];
        }
      }
      KeepStrictlySorted(init, p);
      var r := Keep(init, p);
      forall x | x in r ensures KeyLt(x, last) {
        var i :| 0 <= i < |init| && init[i] == x;
        assert ks[i] == x;
      }
      if p(last) {
        forall i, j | 0 <= i < j < |r| + 1 ensures KeyLt((r + [last])[i], (r + [last])[j]) {
          if j == |r| {
            assert r[i] in r;
          } else {
            assert (r + [last])[i] == r[i] && (r + [last])[j] == r[j];
          }
        }
      }
    }
  }

  /** One row per (country_code, year), in ascending order: the keys that
      occur among the points and have a subject whose mean is a value; each
      row's subject columns are the NaN-skipping means of their groups. */
  lemma PivotMeaning(ps: seq<Point>)
    ensures StrictlySorted(RowKeys(Pivot(ps)))
    ensures forall k :: k in RowKeys(Pivot(ps)) <==> k in MapSeq(ps, PointKey) && HasValue(ps, k)
    ensures forall i, s :: 0 <= i < |Pivot(ps)| ==> Get(Pivot(ps)[i], s) == CellMean(ps, KeyOf(Pivot(ps)[i]), s)
  {
    var ks := PivotKeys(ps);
    var out := Pivot(ps);
    assert RowKeys(out) == ks;
    KeepStrictlySorted(SortKeys(MapSeq(ps, PointKey)), (k: Key) => HasValue(ps, k));
    forall i, s | 0 <= i < |out| ensures Get(out[i], s) == CellMean(ps, KeyOf(out[i]), s) {
      PivotRowCells(ps, ks[i], s);
    }
  }

  // ---------------------------------------------------------------------------
  // Sort

  /** Insert r after every row whose key is not above its own. */
  function InsertRow(r: Row, rows: seq<Row>): (out: seq<Row>)
    ensures multiset(out) == multiset(rows) + multiset{r}
    ensures forall x :: x in out <==> x in rows || x == r
  {
    if |rows| == 0 then [r]
    else if KeyLt(KeyOf(r), KeyOf(rows[0])) then [r] + rows
    else
      assert rows == [rows[0]] + rows[1..];
      [rows[0]] + InsertRow(r, rows[1..])
  }

  /** Ascending, ties allowed. */
  ghost predicate SortedRows(rows: seq<Row>)
  {
    forall i, j :: 0 <= i < j < |rows| ==> !KeyLt(KeyOf(rows[j]), KeyOf(rows[i]))
  }

  lemma {:induction false} InsertRowSorted(r: Row, rows: seq<Row>)
    requires SortedRows(rows)
    ensures SortedRows(InsertRow(r, rows))
    decreases |rows|
  {
    if |rows| > 0 {
      if KeyLt(KeyOf(r), KeyOf(rows[0])) {
        InsertFront(r, rows);
      } else {
        var tail := rows[1..];
        assert SortedRows(tail) by {
          forall i, j | 0 <= i < j < |tail| ensures !KeyLt(KeyOf(tail[j]), KeyOf(tail[i])) {
            assert tail[i] == rows[i + 1] && tail[j] == rows[j + 1];
          }
        }
        InsertRowSorted(r, tail);
        InsertBehind(rows[0], InsertRow(r, tail), r, tail);
      }
    }
  }

  /** A row whose key is below the head of a sorted table can go in front. */
  lemma InsertFront(r: Row, rows: seq<Row>)
    requires SortedRows(rows) && |rows| > 0 && KeyLt(KeyOf(r), KeyOf(rows[0]))
    ensures SortedRows([r] + rows)
  {
    forall j | 0 <= j < |rows| ensures !KeyLt(KeyOf(rows[j]), KeyOf(r)) {
      if KeyLt(KeyOf(rows[j]), KeyOf(r)) {
        if j > 0 {
          KeyLtTransitive(KeyOf(rows[j]), KeyOf(r), KeyOf(rows[0]));
        } else {
          KeyLtAsymmetric(KeyOf(r), KeyOf(rows[0]));
        }
      }
    }
    var out := [r] + rows;
    forall i, j | 0 <= i < j < |out| ensures !KeyLt(KeyOf(out[j]), KeyOf(out[i])) {
      if i > 0 {
        assert out[i] == rows[i - 1] && out[j] == rows[j - 1];
      } else {
        assert out[j] == rows[j - 1];
      }
    }
  }

  /** A head that no row of a sorted tail undercuts can stay in front. */
  lemma InsertBehind(h: Row, t: seq<Row>, r: Row, tail: seq<Row>)
    requires SortedRows(t) && SortedRows([h] + tail)
    requires forall x :: x in t <==> x in tail || x == r
    requires !KeyLt(KeyOf(r), KeyOf(h))
    ensures SortedRows([h] + t)
  {
    forall x | x in t ensures !KeyLt(KeyOf(x), KeyOf(h)) {
      if x != r {
        var j :| 0 <= j < |tail| && tail[j] == x;
        assert ([h] + tail)[0] == h && ([h] + tail)[j + 1] == x;
      }
    }
    var out := [h] + t;
    forall i, j | 0 <= i < j < |out| ensures !KeyLt(KeyOf(out[j]), KeyOf(out[i])) {
      if i == 0 {
        assert out[j] in t;
      } else {
        assert out[i] == t[i - 1] && out[j] == t[j - 1];
      }
    }
  }

  /** `sort_values(by=["country_code", "year"])`: a stable insertion sort. */
  function SortRows(rows: seq<Row>): (out: seq<Row>)
    ensures multiset(out) == multiset(rows)
  {
    if |rows| == 0 then []
    else
      assert rows == rows[..|rows| - 1] + [rows[|rows| - 1]];
      InsertRow(rows[|rows| - 1], SortRows(rows[..|rows| - 1]))
  }

  /** The sort leaves the rows ascending and is a permutation. */
  lemma {:induction false} SortRowsSorted(rows: seq<Row>)
    ensures SortedRows(SortRows(rows))
    ensures multiset(SortRows(rows)) == multiset(rows)
  {
    if |rows| > 0 {
      SortRowsSorted(rows[..|rows| - 1]);
      InsertRowSorted(rows[|rows| - 1], SortRows(rows[..|rows| - 1]));
    }
  }

  /** Inserting a row whose key is above every key appends it. */
  lemma {:induction false} InsertRowLast(r: Row, rows: seq<Row>)
    requires forall i :: 0 <= i < |rows| ==> KeyLt(KeyOf(rows[i]), KeyOf(r))
    ensures InsertRow(r, rows) == rows + [r]
  {
    if |rows| > 0 {
      var head, tail := rows[0], rows[1..];
      KeyLtAsymmetric(KeyOf(head), KeyOf(r));
      forall i | 0 <= i < |tail| ensures KeyLt(KeyOf(tail[i]), KeyOf(r)) {
        assert tail[i] == rows[i + 1];
      }
      InsertRowLast(r, tail);
      InsertRowStep(r, rows);
      assert rows == [head] + tail;
      assert [head] + (tail + [r]) == ([head] + tail) + [r];
    }
  }

  /** A row not below the first row is inserted into the rest. */
  lemma InsertRowStep(r: Row, rows: seq<Row>)
    requires |rows| > 0 && !KeyLt(KeyOf(r), KeyOf(rows[0]))
    ensures InsertRow(r, rows) == [rows[0]] + InsertRow(r, rows[1..])
  {
  }

  /** Sorting rows that are already strictly ascending changes nothing, so the
      sort after the pivot keeps the pivot's rows as they are. */
  lemma {:induction false} SortRowsOfSorted(rows: seq<Row>)
    requires StrictlySorted(RowKeys(rows))
    ensures SortRows(rows) == rows
  {
    if |rows| > 0 {
      var init, last := rows[..|rows| - 1], rows[|rows| - 1];
      SortedRowsInit(rows);
      SortRowsOfSorted(init);
      InsertRowLast(last, init);
      SortRowsSnoc(rows, init, last);
    }
  }

  lemma SortRowsSnoc(rows: seq<Row>, init: seq<Row>, last: Row)
    requires |rows| > 0 && init == rows[..|rows| - 1] && last == rows[|rows| - 1]
    ensures rows == init + [last]
    ensures SortRows(rows) == InsertRow(last, SortRows(init))
  {
  }

  /** Dropping the last of strictly ascending rows keeps them ascending, and
      the last one is above every other. */
  lemma SortedRowsInit(rows: seq<Row>)
    requires |rows| > 0 && StrictlySorted(RowKeys(rows))
    ensures StrictlySorted(RowKeys(rows[..|rows| - 1]))
    ensures forall i :: 0 <= i < |rows| - 1 ==> KeyLt(KeyOf(rows[i]), KeyOf(rows[|rows| - 1]))
  {
    var ks := RowKeys(rows);
    assert RowKeys(rows[..|rows| - 1]) == ks[..|rows| - 1];
    forall i | 0 <= i < |rows| - 1 ensures KeyLt(KeyOf(rows[i]), KeyOf(rows[|rows| - 1])) {
      assert ks[i] == KeyOf(rows[i]);
    }
  }

  // ---------------------------------------------------------------------------
  // The script

  lemma KeepRectangular(cols: seq<Column>, n: nat, p: Column -> bool)
    requires Rectangular(cols, n)
    ensures Rectangular(Keep(cols, p), n)
  {
    var r := Keep(cols, p);
    forall j | 0 <= j < |r| ensures |r[j].cells| == n {
      assert r[j] in r;
    }
  }

  /** Everything up to the pivot: the points it groups, or None where the
      script raises (a missing column, a text value in the mean). */
  function PivotInput(sheet: seq<Column>, n: nat, show: Cell -> string): Option<seq<Point>>
    requires Rectangular(sheet, n)
  {
    match NonEmptyCodes(Renamed(sheet), n)
    case None => None
    case Some((kept, m)) => FromFiltered(kept, m, show)
  }

  /** From the filtered sheet: the estimate table and the column drop. */
  function FromFiltered(kept: seq<Column>, m: nat, show: Cell -> string): Option<seq<Point>>
    requires Rectangular(kept, m)
  {
    match EstimateTable(kept, m)
    case None => None
    case Some(est) =>
      match DropColumns(kept, DropList(kept))
      case None => None
      case Some(dropped) =>
        KeepRectangular(kept, m, NotIn(DropList(kept)));
        FromDropped(dropped, m, est, show)
  }

  /** From the dropped sheet: cleaning, melt, year coercion, merge and flag,
      and the id columns as strings. */
  function FromDropped(dropped: seq<Column>, m: nat, est: seq<EstRow>, show: Cell -> string): Option<seq<Point>>
    requires Rectangular(dropped, m)
  {
    match Melt(CleanedColumns(Replaced(dropped)), m)
    case None => None
    case Some(melted) => Points(MapSeq(MergedLong(MapSeq(melted, CoerceYear), est), AsObs(show)))
  }

  /** `process_files` after the read: the pivot of the cleaned, melted sheet,
      sorted by (country_code, year). */
  function Reshape(sheet: seq<Column>, n: nat, show: Cell -> string): Option<seq<Row>>
    requires Rectangular(sheet, n)
  {
    match PivotInput(sheet, n, show)
    case None => None
    case Some(ps) => Some(SortRows(Pivot(ps)))
  }

  /** The script's output is the pivot, already in key order: strictly
      ascending by (country_code, year), one row per key that has some subject
      value, each subject cell the NaN-skipping mean of its group. */
  lemma ReshapeMeaning(sheet: seq<Column>, n: nat, show: Cell -> string)
    requires Rectangular(sheet, n)
    ensures Reshape(sheet, n, show).Some? <==> PivotInput(sheet, n, show).Some?
    ensures Reshape(sheet, n, show).Some? ==>
      var ps := PivotInput(sheet, n, show).value;
      var out := Reshape(sheet, n, show).value;
      out == Pivot(ps) && StrictlySorted(RowKeys(out)) &&
      (forall k :: k in RowKeys(out) <==> k in MapSeq(ps, PointKey) && HasValue(ps, k)) &&
      (forall i, s :: 0 <= i < |out| ==> Get(out[i], s) == CellMean(ps, KeyOf(out[i]), s))
  {
    if PivotInput(sheet, n, show).Some? {
      var ps := PivotInput(sheet, n, show).value;
      PivotMeaning(ps);
      SortRowsOfSorted(Pivot(ps));
    }
  }

  /** The script, with the sheet changed in place where it is: rename, then
      the row filter, the estimate table and the drop, then replace and the
      per-column cleaning loop on the dropped sheet, then melt, merge, pivot
      and sort. */
  method ProcessFile(sheet: seq<Column>, n: nat, show: Cell -> string) returns (out: Option<seq<Row>>)
    requires Rectangular(sheet, n)
    ensures out == Reshape(sheet, n, show)
  {
    var df := new Sheet(sheet);
    df.Rename();
    var filtered := NonEmptyCodes(df.columns, n);
    if filtered.None? {
      return None;
    }
    var (kept, m) := filtered.value;
    var est := EstimateTable(kept, m);
    var dropped := DropColumns(kept, DropList(kept));
    if est.None? || dropped.None? {
      return None;
    }
    KeepRectangular(kept, m, NotIn(DropList(kept)));
    var ps := ProcessDropped(dropped.value, m, est.value, show);
    if ps.None? {
      return None;
    }
    out := Some(SortRows(Pivot(ps.value)));
  }

  /** The script from the drop on: replace and the cleaning loop on the dropped
      sheet in place, then melt, year coercion, merge and flag. */
  method ProcessDropped(dropped: seq<Column>, m: nat, est: seq<EstRow>, show: Cell -> string)
    returns (ps: Option<seq<Point>>)
    requires Rectangular(dropped, m)
    ensures ps == FromDropped(dropped, m, est, show)
  {
    var df := new Sheet(dropped);
    df.Replace();
    CleanValueColumns(df);
    var melted := Melt(df.columns, m);
    if melted.None? {
      return None;
    }
    var long := MergedLong(MapSeq(melted.value, CoerceYear), est);
    ps := Points(MapSeq(long, AsObs(show)));
  }

  // ---------------------------------------------------------------------------
  // The output does not depend on estimate_after

  /** Two sheets that differ at most in the cells of the columns that the
      rename calls estimate_after. */
  predicate DifferOnlyInEstimates(a: seq<Column>, b: seq<Column>)
  {
    |a| == |b| &&
    forall i :: 0 <= i < |a| ==>
      a[i].name == b[i].name && (RenameName(a[i].name) != EstimateAfter ==> a[i].cells == b[i].cells)
  }

  predicate AgreeOffEstimates(a: seq<Column>, b: seq<Column>)
  {
    |a| == |b| &&
    forall i :: 0 <= i < |a| ==> a[i].name == b[i].name && (a[i].name != EstimateAfter ==> a[i].cells == b[i].cells)
  }

  lemma NamesAgree(a: seq<Column>, b: seq<Column>)
    requires AgreeOffEstimates(a, b)
    ensures ColumnNames(a) == ColumnNames(b)
  {
  }

  lemma NonEmptyCodesAgree(a: seq<Column>, b: seq<Column>, n: nat)
    requires Rectangular(a, n) && Rectangular(b, n) && AgreeOffEstimates(a, b)
    ensures NonEmptyCodes(a, n).None? <==> NonEmptyCodes(b, n).None?
    ensures NonEmptyCodes(a, n).Some? ==>
      NonEmptyCodes(a, n).value.1 == NonEmptyCodes(b, n).value.1 &&
      AgreeOffEstimates(NonEmptyCodes(a, n).value.0, NonEmptyCodes(b, n).value.0)
  {
    FindByNames(a, b, CountryCode);
    if Find(a, CountryCode).Some? {
      var c := Find(a, CountryCode).value;
      assert a[c].cells == b[c].cells;
      var idx := KeptRows(a[c].cells);
      assert forall j :: 0 <= j < |idx| ==> idx[j] in idx;
      var ka, kb := SelectRows(a, n, idx), SelectRows(b, n, idx);
      forall i | 0 <= i < |a| && a[i].name != EstimateAfter ensures ka[i].cells == kb[i].cells {
        assert a[i].cells == b[i].cells;
      }
    }
  }

  lemma EstimateTableAgree(a: seq<Column>, b: seq<Column>, n: nat)
    requires Rectangular(a, n) && Rectangular(b, n) && AgreeOffEstimates(a, b)
    ensures EstimateTable(a, n).None? <==> EstimateTable(b, n).None?
    ensures EstimateTable(a, n).Some? ==> SameSeriesColumns(EstimateTable(a, n).value, EstimateTable(b, n).value)
  {
    FindByNames(a, b, CountryCode);
    FindByNames(a, b, SubjectCode);
    FindByNames(a, b, EstimateAfter);
    if EstimateTable(a, n).Some? {
      var ci, si := Find(a, CountryCode).value, Find(a, SubjectCode).value;
      assert a[ci].cells == b[ci].cells && a[si].cells == b[si].cells;
    }
  }

  lemma DropAgree(a: seq<Column>, b: seq<Column>)
    requires AgreeOffEstimates(a, b)
    ensures DropList(a) == DropList(b)
    ensures DropColumns(a, DropList(a)) == DropColumns(b, DropList(b))
  {
    NamesAgree(a, b);
    var names := DropList(a);
    assert EstimateAfter in names by {
      assert MetadataColumns[7] == EstimateAfter;
    }
    forall i | 0 <= i < |a| ensures a[i] == b[i] || (!NotIn(names)(a[i]) && !NotIn(names)(b[i])) {
      if a[i].name != EstimateAfter {
        assert a[i].cells == b[i].cells;
      }
    }
    KeepAgree(a, b, NotIn(names));
  }

  /** The estimate_after column is read, merged in, turned into the
      is_an_estimate flag and dropped again: whatever its cells hold, the
      script's output is the same. */
  lemma ReshapeIgnoresEstimates(a: seq<Column>, b: seq<Column>, n: nat, show: Cell -> string)
    requires Rectangular(a, n) && Rectangular(b, n) && DifferOnlyInEstimates(a, b)
    ensures Reshape(a, n, show) == Reshape(b, n, show)
  {
    var ra, rb := Renamed(a), Renamed(b);
    assert AgreeOffEstimates(ra, rb);
    NonEmptyCodesAgree(ra, rb, n);
    if NonEmptyCodes(ra, n).Some? {
      var (ka, m) := NonEmptyCodes(ra, n).value;
      var kb := NonEmptyCodes(rb, n).value.0;
      FromFilteredAgree(ka, kb, m, show);
    }
  }

  lemma FromFilteredAgree(ka: seq<Column>, kb: seq<Column>, m: nat, show: Cell -> string)
    requires Rectangular(ka, m) && Rectangular(kb, m) && AgreeOffEstimates(ka, kb)
    ensures FromFiltered(ka, m, show) == FromFiltered(kb, m, show)
  {
    EstimateTableAgree(ka, kb, m);
    DropAgree(ka, kb);
    if EstimateTable(ka, m).Some? && DropColumns(ka, DropList(ka)).Some? {
      KeepRectangular(ka, m, NotIn(DropList(ka)));
      FromDroppedIgnoresAfter(DropColumns(ka, DropList(ka)).value, m, EstimateTable(ka, m).value, EstimateTable(kb, m).value, show);
    }
  }

  lemma FromDroppedIgnoresAfter(dropped: seq<Column>, m: nat, ea: seq<EstRow>, eb: seq<EstRow>, show: Cell -> string)
    requires Rectangular(dropped, m) && SameSeriesColumns(ea, eb)
    ensures FromDropped(dropped, m, ea, show) == FromDropped(dropped, m, eb, show)
  {
    var cleaned := CleanedColumns(Replaced(dropped));
    if Melt(cleaned, m).Some? {
      MergedLongIgnoresAfter(MapSeq(Melt(cleaned, m).value, CoerceYear), ea, eb);
    }
  }
}
