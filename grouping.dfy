/**
 `df.groupby(key)[column].mean()` as the pipelines use it: one entry per
 distinct key, in ascending key order, holding the NaN-skipping mean of the
 column over the rows of that group. A group-by series is a sequence of
 entries; `.items()` walks it front to back.
 */
module Grouping {
  import opened Options
  import opened Cells
  import opened Keys
  import opened Frames

  datatype Entry = Entry(key: Key, value: Cell)

  function KeyColumn(es: seq<Entry>): (ks: seq<Key>)
    ensures |ks| == |es| && forall i :: 0 <= i < |es| ==> ks[i] == es[i].key
  {
    seq(|es|, i requires 0 <= i < |es| => es[i].key)
  }

  /** Membership of group k. */
  function InGroup<T>(key: T -> Key, k: Key): T -> bool
  {
    (r: T) => key(r) == k
  }

  /** The column values of the rows of group k, in frame order. */
  function GroupValues<T(!new)>(rows: seq<T>, key: T -> Key, value: T -> Cell, k: Key): seq<Cell>
  {
    var g := Keep(rows, InGroup(key, k));
    seq(|g|, i requires 0 <= i < |g| => value(g[i]))
  }

  /** The group-by mean series: the keys are exactly the keys that occur, in
      strictly ascending order, each with the mean of its group. */
  function GroupMeans<T(!new)>(rows: seq<T>, key: T -> Key, value: T -> Cell): (r: seq<Entry>)
    ensures StrictlySorted(KeyColumn(r))
    ensures forall k :: k in KeyColumn(r) <==> k in MapSeq(rows, key)
    ensures forall i :: 0 <= i < |r| ==> r[i].value == Mean(GroupValues(rows, key, value, r[i].key))
  {
    var ks := SortKeys(MapSeq(rows, key));
    var r := seq(|ks|, i requires 0 <= i < |ks| => Entry(ks[i], Mean(GroupValues(rows, key, value, ks[i]))));
    assert KeyColumn(r) == ks;
    r
  }

  /** The names occurring in a series' keys. */
  function Names(es: seq<Entry>): set<string>
  {
    if |es| == 0 then {} else Names(es[..|es| - 1]) + {es[|es| - 1].key.name}
  }

  /** The value of the last entry with key k, as repeated dict assignment leaves it. */
  function LastValue(es: seq<Entry>, k: Key): Option<Cell>
  {
    if |es| == 0 then None
    else if es[|es| - 1].key == k then Some(es[|es| - 1].value)
    else LastValue(es[..|es| - 1], k)
  }

  lemma {:induction false} NamesOfKeyColumn(es: seq<Entry>)
    ensures forall c :: c in Names(es) <==> exists i :: 0 <= i < |es| && es[i].key.name == c
  {
    if |es| > 0 {
      NamesOfKeyColumn(es[..|es| - 1]);
      assert forall i :: 0 <= i < |es| - 1 ==> es[..|es| - 1][i] == es[i];
    }
  }

  lemma {:induction false} LastValueFound(es: seq<Entry>, k: Key)
    ensures LastValue(es, k).Some? <==> k in KeyColumn(es)
    ensures LastValue(es, k).Some? ==> exists i :: 0 <= i < |es| && es[i] == Entry(k, LastValue(es, k).value)
  {
    if |es| > 0 {
      LastValueFound(es[..|es| - 1], k);
      assert KeyColumn(es) == KeyColumn(es[..|es| - 1]) + [es[|es| - 1].key];
      assert forall i :: 0 <= i < |es| - 1 ==> es[..|es| - 1][i] == es[i];
    }
  }

  /** With distinct keys, the last entry with a key is its only entry. */
  lemma {:induction false} LastValueDistinct(es: seq<Entry>, i: nat)
    requires i < |es| && StrictlySorted(KeyColumn(es))
    ensures LastValue(es, es[i].key) == Some(es[i].value)
  {
    var n := |es| - 1;
    if i < n {
      StrictlySortedDistinct(KeyColumn(es), i, n);
      var init := es[..n];
      assert KeyColumn(init) == KeyColumn(es)[..n];
      assert init[i] == es[i];
      LastValueDistinct(init, i);
    }
  }

  /** Looking a key up in a group-by series: present exactly when some row has
      the key, and then it holds the mean of that group. */
  lemma GroupMeansLookup<T(!new)>(rows: seq<T>, key: T -> Key, value: T -> Cell, k: Key)
    ensures var s := GroupMeans(rows, key, value);
      LastValue(s, k) == if k in MapSeq(rows, key) then Some(Mean(GroupValues(rows, key, value, k))) else None
  {
    var s := GroupMeans(rows, key, value);
    LastValueFound(s, k);
    if k in MapSeq(rows, key) {
      var i :| 0 <= i < |s| && s[i].key == k;
      LastValueDistinct(s, i);
    }
  }

  /** The names of a group-by series are the names of the rows' keys. */
  lemma GroupMeansNames<T(!new)>(rows: seq<T>, key: T -> Key, value: T -> Cell, c: string)
    ensures c in Names(GroupMeans(rows, key, value)) <==> exists i :: 0 <= i < |rows| && key(rows[i]).name == c
  {
    var s := GroupMeans(rows, key, value);
    var ks := KeyColumn(s);
    NamesOfKeyColumn(s);
    if exists i :: 0 <= i < |rows| && key(rows[i]).name == c {
      var i :| 0 <= i < |rows| && key(rows[i]).name == c;
      RowKeyInSeries(rows, key, value, i);
    }
    if c in Names(s) {
      var j :| 0 <= j < |s| && s[j].key.name == c;
      SeriesKeyInRows(rows, key, value, j);
    }
  }

  lemma RowKeyInSeries<T(!new)>(rows: seq<T>, key: T -> Key, value: T -> Cell, i: nat)
    requires i < |rows|
    ensures exists j :: 0 <= j < |GroupMeans(rows, key, value)| && GroupMeans(rows, key, value)[j].key == key(rows[i])
  {
    var s := GroupMeans(rows, key, value);
    assert MapSeq(rows, key)[i] == key(rows[i]);
    assert key(rows[i]) in KeyColumn(s);
    var j :| 0 <= j < |s| && KeyColumn(s)[j] == key(rows[i]);
  }

  lemma SeriesKeyInRows<T(!new)>(rows: seq<T>, key: T -> Key, value: T -> Cell, j: nat)
    requires j < |GroupMeans(rows, key, value)|
    ensures exists i :: 0 <= i < |rows| && key(rows[i]) == GroupMeans(rows, key, value)[j].key
  {
    var s := GroupMeans(rows, key, value);
    assert KeyColumn(s)[j] in KeyColumn(s);
    var i :| 0 <= i < |rows| && MapSeq(rows, key)[i] == s[j].key;
  }
}
