/**
 Row keys `(name, year)` and their order. pandas orders string keys as Python
 does, lexicographically by code point, and tuple keys field by field; the
 group-by, pivot and outer-merge steps emit their groups in this order.
 */
module Keys {

  /** Python's `<` on strings: lexicographic by code point, a proper prefix first. */
  predicate StrLt(a: string, b: string)
    decreases |a|
  {
    if |a| == 0 then |b| > 0
    else if |b| == 0 then false
    else if a[0] != b[0] then a[0] < b[0]
    else StrLt(a[1..], b[1..])
  }

  lemma {:induction false} StrLtIrreflexive(a: string)
    ensures !StrLt(a, a)
    decreases |a|
  {
    if |a| > 0 {
      StrLtIrreflexive(a[1..]);
    }
  }

  lemma {:induction false} StrLtTransitive(a: string, b: string, c: string)
    requires StrLt(a, b) && StrLt(b, c)
    ensures StrLt(a, c)
    decreases |a|
  {
    if |a| > 0 && a[0] == b[0] && b[0] == c[0] {
      StrLtTransitive(a[1..], b[1..], c[1..]);
    }
  }

  lemma {:induction false} StrLtTotal(a: string, b: string)
    requires a != b
    ensures StrLt(a, b) || StrLt(b, a)
    decreases |a|
  {
    if |a| > 0 && |b| > 0 && a[0] == b[0] {
      assert a == [a[0]] + a[1..] && b == [b[0]] + b[1..];
      StrLtTotal(a[1..], b[1..]);
    }
  }

  lemma {:induction false} StrLtAsymmetric(a: string, b: string)
    requires StrLt(a, b)
    ensures !StrLt(b, a)
  {
    if StrLt(b, a) {
      StrLtTransitive(a, b, a);
      StrLtIrreflexive(a);
    }
  }

  /** A group key: a country code, country or region name and a year. */
  datatype Key = Key(name: string, year: int)

  /** Python's `<` on `(name, year)` tuples. */
  predicate KeyLt(a: Key, b: Key)
  {
    StrLt(a.name, b.name) || (a.name == b.name && a.year < b.year)
  }

  lemma KeyLtIrreflexive(a: Key)
    ensures !KeyLt(a, a)
  {
    StrLtIrreflexive(a.name);
  }

  lemma KeyLtTransitive(a: Key, b: Key, c: Key)
    requires KeyLt(a, b) && KeyLt(b, c)
    ensures KeyLt(a, c)
  {
    if StrLt(a.name, b.name) && StrLt(b.name, c.name) {
      StrLtTransitive(a.name, b.name, c.name);
    }
  }

  lemma KeyLtTotal(a: Key, b: Key)
    requires a != b
    ensures KeyLt(a, b) || KeyLt(b, a)
  {
    if a.name != b.name {
      StrLtTotal(a.name, b.name);
    }
  }

  lemma KeyLtAsymmetric(a: Key, b: Key)
    requires KeyLt(a, b)
    ensures !KeyLt(b, a)
  {
    if KeyLt(b, a) {
      KeyLtTransitive(a, b, a);
      KeyLtIrreflexive(a);
    }
  }

  /** Ascending without repetition. */
  ghost predicate StrictlySorted(ks: seq<Key>)
  {
    forall i, j :: 0 <= i < j < |ks| ==> KeyLt(ks[i], ks[j])
  }

  lemma StrictlySortedDistinct(ks: seq<Key>, i: int, j: int)
    requires StrictlySorted(ks)
    requires 0 <= i < |ks| && 0 <= j < |ks| && i != j
    ensures ks[i] != ks[j]
  {
    if i < j { KeyLtIrreflexive(ks[i]); } else { KeyLtIrreflexive(ks[j]); }
  }

  /** Insert `k` into a strictly sorted sequence, unless it is there already. */
  function Insert(k: Key, ks: seq<Key>): (r: seq<Key>)
    requires StrictlySorted(ks)
    ensures StrictlySorted(r)
    ensures forall x :: x in r <==> x == k || x in ks
  {
    if |ks| == 0 then [k]
    else if k == ks[0] then ks
    else if KeyLt(k, ks[0]) then
      assert forall j :: 0 < j < |ks| ==> KeyLt(k, ks[j]) by {
        forall j | 0 < j < |ks| ensures KeyLt(k, ks[j]) { KeyLtTransitive(k, ks[0], ks[j]); }
      }
      [k] + ks
    else
      KeyLtTotal(k, ks[0]);
      var rest := Insert(k, ks[1..]);
      assert forall x :: x in rest ==> KeyLt(ks[0], x) by {
        forall x | x in rest ensures KeyLt(ks[0], x) {
          if x != k {
            var j :| 0 <= j < |ks[1..]| && ks[1..][j] == x;
            assert ks[j + 1] == x;
          }
        }
      }
      [ks[0]] + rest
  }

  /** The distinct keys of `ks` in ascending order (the order of a pandas group-by). */
  function SortKeys(ks: seq<Key>): (r: seq<Key>)
    ensures StrictlySorted(r)
    ensures forall x :: x in r <==> x in ks
  {
    if |ks| == 0 then []
    else
      var r := Insert(ks[|ks| - 1], SortKeys(ks[..|ks| - 1]));
      assert forall x :: x in ks <==> x == ks[|ks| - 1] || x in ks[..|ks| - 1] by {
        assert ks == ks[..|ks| - 1] + [ks[|ks| - 1]];
      }
      r
  }

  lemma ElementAt(ks: seq<Key>, i: int)
    ensures 0 <= i < |ks| ==> ks[i] in ks
  {
  }

  /** A sorted selection of keys drawn from `init`, followed by a key above all
      of `init`, is sorted and drawn from `init + [k]`. */
  lemma SortedSelectionSnoc(sub: seq<Key>, init: seq<Key>, k: Key)
    requires StrictlySorted(init + [k]) && StrictlySorted(sub)
    requires forall x :: x in sub ==> x in init
    ensures StrictlySorted(sub + [k])
    ensures forall x :: x in sub + [k] ==> x in init + [k]
  {
    var all := init + [k];
    forall x | x in sub ensures KeyLt(x, k) {
      var j :| 0 <= j < |init| && init[j] == x;
      assert all[j] == x && all[|init|] == k;
    }
    var t := sub + [k];
    forall i, j | 0 <= i < j < |t| ensures KeyLt(t[i], t[j]) {
      if j < |sub| {
        assert t[i] == sub[i] && t[j] == sub[j];
      } else {
        assert t[i] == sub[i] && sub[i] in sub;
      }
    }
  }

  /** The first element of a strictly sorted sequence is below every other one. */
  lemma HeadIsLeast(ks: seq<Key>, x: Key)
    requires StrictlySorted(ks) && x in ks && x != ks[0]
    ensures KeyLt(ks[0], x)
  {
  }

  /** Two strictly sorted sequences with the same elements are equal; in
      particular, re-sorting an already sorted key column changes nothing. */
  lemma {:induction false} SortedUnique(a: seq<Key>, b: seq<Key>)
    requires StrictlySorted(a) && StrictlySorted(b)
    requires forall x :: x in a <==> x in b
    ensures a == b
    decreases |a|
  {
    if |a| == 0 || |b| == 0 {
      if |a| != |b| {
        ElementAt(a, 0);
        ElementAt(b, 0);
        assert false;
      }
    } else {
      assert a[0] in a && b[0] in b;
      if a[0] != b[0] {
        HeadIsLeast(a, b[0]);
        HeadIsLeast(b, a[0]);
        KeyLtAsymmetric(a[0], b[0]);
        assert false;
      }
      forall x ensures x in a[1..] <==> x in b[1..] {
        if x in a[1..] {
          var i :| 1 <= i < |a| && a[i] == x;
          StrictlySortedDistinct(a, 0, i);
          assert x in a;
          var j :| 0 <= j < |b| && b[j] == x;
          assert b[1..][j - 1] == x;
        }
        if x in b[1..] {
          var i :| 1 <= i < |b| && b[i] == x;
          StrictlySortedDistinct(b, 0, i);
          assert x in b;
          var j :| 0 <= j < |a| && a[j] == x;
          assert a[1..][j - 1] == x;
        }
      }
      SortedUnique(a[1..], b[1..]);
      assert a == [a[0]] + a[1..] && b == [b[0]] + b[1..];
    }
  }

  /** Dropping the last of distinct keys leaves distinct keys without it. */
  lemma DistinctInit(ks: seq<Key>)
    requires |ks| > 0 && forall i, j :: 0 <= i < j < |ks| ==> ks[i] != ks[j]
    ensures var init := ks[..|ks| - 1];
      && (forall i, j :: 0 <= i < j < |init| ==> init[i] != init[j])
      && ks[|ks| - 1] !in init
      && ks == init + [ks[|ks| - 1]]
  {
    var init := ks[..|ks| - 1];
    forall i | 0 <= i < |init| ensures init[i] != ks[|ks| - 1] {
      assert init[i] == ks[i];
    }
  }
}
