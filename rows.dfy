/**
 Wide country-year tables: each row carries its `country_code` and `year`
 and a set of named value columns. A column a row does not have reads as
 missing, as it does after a merge that found no partner. A `Frame` is a
 table changed in place by whole-column assignment (`df[c] = ...`).
 */
module Rows {
  import opened Cells
  import opened Keys
  import opened Frames
  import opened Grouping

  datatype Row = Row(code: string, year: int, cols: map<string, Cell>)

  /** `row[c]`, missing when the row has no such column. */
  function Get(r: Row, c: string): Cell
  {
    if c in r.cols then r.cols[c] else Missing
  }

  function KeyOf(r: Row): Key
  {
    Key(r.code, r.year)
  }

  function Column(rows: seq<Row>, c: string): (vs: seq<Cell>)
    ensures |vs| == |rows| && forall i :: 0 <= i < |rows| ==> vs[i] == Get(rows[i], c)
  {
    seq(|rows|, i requires 0 <= i < |rows| => Get(rows[i], c))
  }

  function Codes(rows: seq<Row>): (cs: seq<string>)
    ensures |cs| == |rows| && forall i :: 0 <= i < |rows| ==> cs[i] == rows[i].code
  {
    seq(|rows|, i requires 0 <= i < |rows| => rows[i].code)
  }

  function Years(rows: seq<Row>): (ys: seq<int>)
    ensures |ys| == |rows| && forall i :: 0 <= i < |rows| ==> ys[i] == rows[i].year
  {
    seq(|rows|, i requires 0 <= i < |rows| => rows[i].year)
  }

  /** `df[c] = vs`: row i gets column c set to vs[i]; nothing else changes. */
  function Assigned(rows: seq<Row>, c: string, vs: seq<Cell>): (r: seq<Row>)
    requires |vs| == |rows|
    ensures |r| == |rows|
  {
    seq(|rows|, i requires 0 <= i < |rows| => rows[i].(cols := rows[i].cols[c := vs[i]]))
  }

  /** Reading back an assigned column gives the assigned values, every other
      column and the index columns are as before. */
  lemma AssignedColumns(rows: seq<Row>, c: string, vs: seq<Cell>, d: string)
    requires |vs| == |rows|
    ensures Column(Assigned(rows, c, vs), d) == if d == c then vs else Column(rows, d)
    ensures Codes(Assigned(rows, c, vs)) == Codes(rows)
    ensures Years(Assigned(rows, c, vs)) == Years(rows)
  {
  }

  /** `df[["country_code", "year"] + cs]`: the index columns and the columns cs. */
  function Project(rows: seq<Row>, cs: set<string>): (r: seq<Row>)
    ensures |r| == |rows|
    ensures forall i :: 0 <= i < |rows| ==> KeyOf(r[i]) == KeyOf(rows[i]) && r[i].cols.Keys <= cs
    ensures forall i, c :: 0 <= i < |rows| && c in cs ==> Get(r[i], c) == Get(rows[i], c)
  {
    seq(|rows|, i requires 0 <= i < |rows| => Row(rows[i].code, rows[i].year, map c | c in rows[i].cols && c in cs :: rows[i].cols[c]))
  }

  /** A table whose value is changed in place, one whole column at a time. */
  class Frame {
    var rows: seq<Row>

    constructor (rows: seq<Row>)
      ensures this.rows == rows
    {
      this.rows := rows;
    }

    /** `df[c] = vs`. */
    method Assign(c: string, vs: seq<Cell>)
      requires |vs| == |rows|
      modifies this
      ensures rows == Assigned(old(rows), c, vs)
    {
      rows := Assigned(rows, c, vs);
    }
  }

  // ---------------------------------------------------------------------------
  // Outer merge on (country_code, year)

  function RowKeys(rows: seq<Row>): seq<Key>
  {
    MapSeq(rows, KeyOf)
  }

  /** The rows with key k, in table order. */
  function RowsWith(rows: seq<Row>, k: Key): seq<Row>
  {
    Keep(rows, InGroup(KeyOf, k))
  }

  /** A left row widened by a right row's columns. */
  function Widen(l: Row, r: Row): (w: Row)
    ensures KeyOf(w) == KeyOf(l)
    ensures forall c :: Get(w, c) == if c in r.cols then Get(r, c) else Get(l, c)
  {
    Row(l.code, l.year, l.cols + r.cols)
  }

  /** One left row widened by each right row in turn. */
  function WidenAll(l: Row, rs: seq<Row>): (out: seq<Row>)
    ensures |out| == |rs| && forall j :: 0 <= j < |rs| ==> out[j] == Widen(l, rs[j])
  {
    seq(|rs|, j requires 0 <= j < |rs| => Widen(l, rs[j]))
  }

  /** Every left row with every right row, left-major. */
  function Cross(ls: seq<Row>, rs: seq<Row>): (out: seq<Row>)
    ensures |ls| > 0 && |rs| > 0 ==> |out| > 0
  {
    if |ls| == 0 then []
    else Cross(ls[..|ls| - 1], rs) + WidenAll(ls[|ls| - 1], rs)
  }

  /** The cross product holds exactly the widened pairs. */
  lemma {:induction false} CrossMembers(ls: seq<Row>, rs: seq<Row>, o: Row)
    ensures o in Cross(ls, rs) <==> exists l, r :: l in ls && r in rs && o == Widen(l, r)
  {
    if |ls| > 0 {
      var init, l := ls[..|ls| - 1], ls[|ls| - 1];
      CrossMembers(init, rs, o);
      WidenAllMembers(l, rs, o);
      assert ls == init + [l];
      assert forall x :: x in ls <==> x in init || x == l;
    }
  }

  lemma WidenAllMembers(l: Row, rs: seq<Row>, o: Row)
    ensures o in WidenAll(l, rs) <==> exists r :: r in rs && o == Widen(l, r)
  {
    var tail := WidenAll(l, rs);
    if o in tail {
      var j :| 0 <= j < |rs| && tail[j] == o;
      assert rs[j] in rs;
    }
    if exists r :: r in rs && o == Widen(l, r) {
      var r :| r in rs && o == Widen(l, r);
      var j :| 0 <= j < |rs| && rs[j] == r;
      assert tail[j] == o;
    }
  }

  /** The merged rows of one key: the cross product when both sides have it,
      otherwise the one side's rows as they are. */
  function MergeKey(ls: seq<Row>, rs: seq<Row>, k: Key): seq<Row>
  {
    var l, r := RowsWith(ls, k), RowsWith(rs, k);
    if |r| == 0 then l else if |l| == 0 then r else Cross(l, r)
  }

  function MergeKeys(ls: seq<Row>, rs: seq<Row>, ks: seq<Key>): seq<Row>
  {
    if |ks| == 0 then [] else MergeKeys(ls, rs, ks[..|ks| - 1]) + MergeKey(ls, rs, ks[|ks| - 1])
  }

  /** `pd.merge(ls, rs, on=["country_code", "year"], how="outer")`: the union of
      the keys in ascending order, each with its merged rows. */
  function OuterJoin(ls: seq<Row>, rs: seq<Row>): seq<Row>
  {
    MergeKeys(ls, rs, SortKeys(RowKeys(ls) + RowKeys(rs)))
  }

  lemma RowsWithKey(rows: seq<Row>, k: Key)
    ensures forall x :: x in RowsWith(rows, k) <==> x in rows && KeyOf(x) == k
  {
  }

  /** Every merged row of key k has key k. */
  lemma MergeKeyKeys(ls: seq<Row>, rs: seq<Row>, k: Key)
    ensures forall i :: 0 <= i < |MergeKey(ls, rs, k)| ==> KeyOf(MergeKey(ls, rs, k)[i]) == k
  {
    var l, r := RowsWith(ls, k), RowsWith(rs, k);
    RowsWithKey(ls, k);
    RowsWithKey(rs, k);
    assert forall i :: 0 <= i < |l| ==> l[i] in l;
    assert forall i :: 0 <= i < |r| ==> r[i] in r;
    if |r| > 0 && |l| > 0 {
      var out := Cross(l, r);
      forall n | 0 <= n < |out| ensures KeyOf(out[n]) == k {
        CrossMembers(l, r, out[n]);
      }
    }
  }

  /** Selecting key k from a merged block of key k' gives the block or nothing. */
  lemma RowsWithMergeKey(ls: seq<Row>, rs: seq<Row>, k': Key, k: Key)
    ensures RowsWith(MergeKey(ls, rs, k'), k) == if k == k' then MergeKey(ls, rs, k) else []
  {
    var b := MergeKey(ls, rs, k');
    MergeKeyKeys(ls, rs, k');
    if k == k' {
      KeepAll(b, InGroup(KeyOf, k));
    } else {
      KeepNone(b, InGroup(KeyOf, k));
    }
  }

  /** With the key list free of repeats, the rows of key k are the merged block
      of k if k is listed, and none otherwise. */
  lemma {:induction false} RowsWithMergeKeys(ls: seq<Row>, rs: seq<Row>, ks: seq<Key>, k: Key)
    requires forall i, j :: 0 <= i < j < |ks| ==> ks[i] != ks[j]
    ensures RowsWith(MergeKeys(ls, rs, ks), k) == if k in ks then MergeKey(ls, rs, k) else []
  {
    if |ks| > 0 {
      var init, last := ks[..|ks| - 1], ks[|ks| - 1];
      DistinctInit(ks);
      RowsWithMergeKeys(ls, rs, init, k);
      var a, b := MergeKeys(ls, rs, init), MergeKey(ls, rs, last);
      assert MergeKeys(ls, rs, ks) == a + b;
      KeepConcat(a, b, InGroup(KeyOf, k));
      RowsWithMergeKey(ls, rs, last, k);
      assert k in ks <==> k in init || k == last;
    }
  }

  /** The outer merge's rows with key k: present exactly when either side has
      k, and then the cross product of both sides' rows, or the one side's rows
      unchanged when only it has k. */
  lemma OuterJoinGroup(ls: seq<Row>, rs: seq<Row>, k: Key)
    ensures RowsWith(OuterJoin(ls, rs), k) ==
      if k in RowKeys(ls) || k in RowKeys(rs) then MergeKey(ls, rs, k) else []
  {
    var ks := SortKeys(RowKeys(ls) + RowKeys(rs));
    forall i, j | 0 <= i < j < |ks| ensures ks[i] != ks[j] {
      StrictlySortedDistinct(ks, i, j);
    }
    RowsWithMergeKeys(ls, rs, ks, k);
    assert k in RowKeys(ls) + RowKeys(rs) <==> k in RowKeys(ls) || k in RowKeys(rs);
  }

  /** The outer merge's keys are the union of the two sides' keys. */
  lemma OuterJoinKeys(ls: seq<Row>, rs: seq<Row>, k: Key)
    ensures k in RowKeys(OuterJoin(ls, rs)) <==> k in RowKeys(ls) || k in RowKeys(rs)
  {
    var out := OuterJoin(ls, rs);
    OuterJoinGroup(ls, rs, k);
    KeyPresent(out, k);
    KeyPresent(ls, k);
    KeyPresent(rs, k);
    var l, r := RowsWith(ls, k), RowsWith(rs, k);
  }

  /** A key on one side only keeps that side's rows unchanged: the other side
      contributes no row and so none of its columns. */
  lemma OuterJoinOneSided(ls: seq<Row>, rs: seq<Row>, k: Key)
    ensures k !in RowKeys(rs) ==> RowsWith(OuterJoin(ls, rs), k) == RowsWith(ls, k)
    ensures k !in RowKeys(ls) ==> RowsWith(OuterJoin(ls, rs), k) == RowsWith(rs, k)
  {
    OuterJoinGroup(ls, rs, k);
    KeyPresent(ls, k);
    KeyPresent(rs, k);
  }

  /** A merged row whose key only the left side has is a left row, and
      symmetrically for the right side. */
  lemma OuterJoinOneSidedRow(ls: seq<Row>, rs: seq<Row>, x: Row)
    requires x in OuterJoin(ls, rs)
    ensures KeyOf(x) !in RowKeys(rs) ==> x in ls
    ensures KeyOf(x) !in RowKeys(ls) ==> x in rs
  {
    var k := KeyOf(x);
    RowsWithKey(OuterJoin(ls, rs), k);
    OuterJoinOneSided(ls, rs, k);
    RowsWithKey(ls, k);
    RowsWithKey(rs, k);
  }

  /** Every column of a table's rows is among cs. */
  predicate ColumnsWithin(rows: seq<Row>, cs: set<string>)
  {
    forall x :: x in rows ==> x.cols.Keys <= cs
  }

  /** The outer merge brings in no column absent from both sides. */
  lemma OuterJoinColumns(ls: seq<Row>, rs: seq<Row>, cl: set<string>, cr: set<string>)
    requires ColumnsWithin(ls, cl) && ColumnsWithin(rs, cr)
    ensures ColumnsWithin(OuterJoin(ls, rs), cl + cr)
  {
    var out := OuterJoin(ls, rs);
    forall x | x in out ensures x.cols.Keys <= cl + cr {
      var k := KeyOf(x);
      RowsWithKey(out, k);
      OuterJoinGroup(ls, rs, k);
      var l, r := RowsWith(ls, k), RowsWith(rs, k);
      RowsWithKey(ls, k);
      RowsWithKey(rs, k);
      assert x in MergeKey(ls, rs, k);
      if |r| > 0 && |l| > 0 {
        CrossMembers(l, r, x);
      }
    }
  }

  /** A key occurs in a table exactly when its row selection is non-empty. */
  lemma KeyPresent(rows: seq<Row>, k: Key)
    ensures k in RowKeys(rows) <==> |RowsWith(rows, k)| > 0
  {
    RowsWithKey(rows, k);
    if k in RowKeys(rows) {
      var i :| 0 <= i < |rows| && RowKeys(rows)[i] == k;
      assert rows[i] in RowsWith(rows, k);
    }
    if |RowsWith(rows, k)| > 0 {
      var x := RowsWith(rows, k)[0];
      assert x in RowsWith(rows, k);
      var i :| 0 <= i < |rows| && rows[i] == x;
      assert RowKeys(rows)[i] == k;
    }
  }

  /** Column bounds stated row by row give the table's bound. */
  lemma ColumnsWithinByIndex(rows: seq<Row>, cs: set<string>)
    requires forall i :: 0 <= i < |rows| ==> rows[i].cols.Keys <= cs
    ensures ColumnsWithin(rows, cs)
  {
    forall x | x in rows ensures x.cols.Keys <= cs {
      var i :| 0 <= i < |rows| && rows[i] == x;
    }
  }

  /** Two tables whose rows match key by key have the same key column. */
  lemma SameRowKeys(a: seq<Row>, b: seq<Row>)
    requires |a| == |b| && forall i :: 0 <= i < |a| ==> KeyOf(a[i]) == KeyOf(b[i])
    ensures RowKeys(a) == RowKeys(b)
  {
  }

  /** A key of a sub-table is a key of the table. */
  lemma SubTableKey(sub: seq<Row>, rows: seq<Row>, k: Key)
    requires forall x :: x in sub ==> x in rows
    requires k in RowKeys(sub)
    ensures k in RowKeys(rows)
  {
    var i :| 0 <= i < |sub| && RowKeys(sub)[i] == k;
    assert sub[i] in sub;
    var j :| 0 <= j < |rows| && rows[j] == sub[i];
    assert RowKeys(rows)[j] == k;
  }

  /** Two one-column tables agreeing in keys and in that column are equal. */
  lemma OneColumnTablesEqual(ta: seq<Row>, tb: seq<Row>, c: string)
    requires |ta| == |tb|
    requires forall i :: 0 <= i < |ta| ==> KeyOf(ta[i]) == KeyOf(tb[i])
    requires forall i :: 0 <= i < |ta| ==> ta[i].cols.Keys == {c} == tb[i].cols.Keys
    requires forall i :: 0 <= i < |ta| ==> ta[i].cols[c] == tb[i].cols[c]
    ensures ta == tb
  {
    forall i | 0 <= i < |ta| ensures ta[i] == tb[i] {
      assert ta[i].cols == tb[i].cols;
    }
  }
}
