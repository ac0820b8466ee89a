/**
 The required-columns stage over the country-year WEO table: expenditure net
 of interest payments as a base-2023 index in local currency, the same amount
 per head in constant 2024 US dollars, the DTP1 zero-dose count of 2022, and
 the outer merges that put the three together on (country_code, year).

 Both indicator steps add their helper columns to the caller's frame in
 place; the US-dollar step runs on the frame the index step has already
 widened.
 */
module RequiredColumns {
  import opened Cells
  import opened Keys
  import opened Frames
  import opened Rows
  import opened Fill

  // Input columns of the WEO table
  const GgxNgdp := "GGX_NGDP"
  const PrimaryNetLending := "GGXONLB_NGDP"
  const NetLending := "GGXCNL_NGDP"
  const RealPerCapita := "NGDPRPC"
  const LcuPerCapita := "NGDPPC"
  const UsdPerCapita := "NGDPDPC"
  const Deflator := "NGDP_D"

  // Columns the steps add
  const MinusInterestNgdp := "GGX_MinusInterestPayments_NGDP"
  const MinusInterestRpc := "GGX_MinusInterestPayments_NGDPRPC"
  const LcuIndexColumn := "GGX_MinusInterestPayments_LCU_index"
  const MinusInterestPc := "GGX_MinusInterestPayments_NGDPPC"
  const DeflatorRebase := "NGDP_D_Rebase"
  const RebaserCoefficient := "Rebaser_Coefficient"
  const NcuRebased := "GGX_MinusInterestPayments_NCU_percapita_rebased"
  const ImpliedFx := "Implied_FX"
  const ImpliedFxRebase := "Implied_FX_Rebase"
  const ConstantUsd := "GGX_MinusInterestPayments_ConstantUSD_percapita_rebased"

  // Zero-dose columns
  const TargetNumber := "TARGETNUMBER"
  const Dtpcv1 := "DTPCV1"
  const ZeroDoseColumn := "zerodose"

  const BaseYear := 2023
  const RebaseYear := 2024
  const ZeroDoseYear := 2022

  // ---------------------------------------------------------------------------
  // Cell arithmetic

  /** Expenditure less interest payments, in % of GDP: expenditure minus
      (primary net lending - net lending). */
  function MinusInterest(ggx: Cell, primary: Cell, net: Cell): Cell
  {
    Sub(ggx, Sub(primary, net))
  }

  lemma MinusInterestMeaning(ggx: Cell, primary: Cell, net: Cell)
    ensures ggx.Num? && primary.Num? && net.Num? ==> MinusInterest(ggx, primary, net) == Num(ggx.v - primary.v + net.v)
    ensures ggx.Missing? || primary.Missing? || net.Missing? ==> MinusInterest(ggx, primary, net).Missing?
  {
  }

  /** A share of GDP in percent turned into an amount per head. */
  function PerCapita(share: Cell, perHead: Cell): Cell
  {
    Mul(Div(share, Num(100.0)), perHead)
  }

  lemma PerCapitaMeaning(share: Cell, perHead: Cell)
    ensures share.Num? && perHead.Num? ==> PerCapita(share, perHead) == Num(share.v / 100.0 * perHead.v)
    ensures share.Missing? || perHead.Missing? ==> PerCapita(share, perHead).Missing?
  {
  }

  function Ratio(a: seq<Cell>, b: seq<Cell>): (r: seq<Cell>)
    requires |a| == |b|
    ensures |r| == |a|
  {
    seq(|a|, i requires 0 <= i < |a| => Div(a[i], b[i]))
  }

  function Product(a: seq<Cell>, b: seq<Cell>): (r: seq<Cell>)
    requires |a| == |b|
    ensures |r| == |a|
  {
    seq(|a|, i requires 0 <= i < |a| => Mul(a[i], b[i]))
  }

  function MinusInterestColumn(rows: seq<Row>): (r: seq<Cell>)
    ensures |r| == |rows|
  {
    seq(|rows|, i requires 0 <= i < |rows| =>
      MinusInterest(Get(rows[i], GgxNgdp), Get(rows[i], PrimaryNetLending), Get(rows[i], NetLending)))
  }

  function PerCapitaColumn(shares: seq<Cell>, perHead: seq<Cell>): (r: seq<Cell>)
    requires |shares| == |perHead|
    ensures |r| == |shares|
  {
    seq(|shares|, i requires 0 <= i < |shares| => PerCapita(shares[i], perHead[i]))
  }

  // ---------------------------------------------------------------------------
  // Base-2023 index in local currency

  /** The two columns the index step adds to a row. */
  function WithLcuColumns(r: Row): Row
  {
    var m := MinusInterest(Get(r, GgxNgdp), Get(r, PrimaryNetLending), Get(r, NetLending));
    r.(cols := r.cols[MinusInterestNgdp := m][MinusInterestRpc := PerCapita(m, Get(r, RealPerCapita))])
  }

  /** The caller's frame after the index step. */
  function LcuFrame(rows: seq<Row>): seq<Row>
  {
    MapSeq(rows, WithLcuColumns)
  }

  function InBaseWindow(r: Row): bool
  {
    r.year >= BaseYear
  }

  /** The per-head amount the index is built on. */
  function LcuAmount(r: Row): Cell
  {
    PerCapita(MinusInterest(Get(r, GgxNgdp), Get(r, PrimaryNetLending), Get(r, NetLending)), Get(r, RealPerCapita))
  }

  /** The value of the first row of country c (`x.iloc[0]` of its group). */
  function FirstOf(codes: seq<string>, vals: seq<Cell>, c: string): Cell
    requires |codes| == |vals|
  {
    if |codes| == 0 then Missing
    else if codes[0] == c then vals[0]
    else FirstOf(codes[1..], vals[1..], c)
  }

  /** `groupby(code).transform(lambda x: 100 * (x / x.iloc[0]))`. */
  function IndexColumn(codes: seq<string>, vals: seq<Cell>): (r: seq<Cell>)
    requires |codes| == |vals|
    ensures |r| == |vals|
  {
    seq(|vals|, i requires 0 <= i < |vals| => Mul(Num(100.0), Div(vals[i], FirstOf(codes, vals, codes[i]))))
  }

  /** The index step's result table. */
  function LcuTable(rows: seq<Row>): seq<Row>
  {
    var temp := Keep(LcuFrame(rows), InBaseWindow);
    Project(Assigned(temp, LcuIndexColumn, IndexColumn(Codes(temp), Column(temp, MinusInterestRpc))), {LcuIndexColumn})
  }

  /** The index step: widens the caller's frame with two columns and returns the
      index of the rows from 2023 on. */
  method LcuIndex(df: Frame) returns (out: seq<Row>)
    modifies df
    ensures df.rows == LcuFrame(old(df.rows))
    ensures out == LcuTable(old(df.rows))
  {
    ghost var rows := df.rows;
    df.Assign(MinusInterestNgdp, MinusInterestColumn(df.rows));
    df.Assign(MinusInterestRpc, PerCapitaColumn(Column(df.rows, MinusInterestNgdp), Column(df.rows, RealPerCapita)));
    assert df.rows == LcuFrame(rows) by {
      forall i | 0 <= i < |rows| ensures df.rows[i] == WithLcuColumns(rows[i]) {
      }
    }
    var temp := new Frame(Keep(df.rows, InBaseWindow));
    temp.Assign(LcuIndexColumn, IndexColumn(Codes(temp.rows), Column(temp.rows, MinusInterestRpc)));
    out := Project(temp.rows, {LcuIndexColumn});
  }

  /** The first row of a country is the anchor: its index is exactly 100 when
      its amount is finite and non-zero. */
  lemma {:induction false} FirstOfIsFirst(codes: seq<string>, vals: seq<Cell>, j: nat)
    requires |codes| == |vals| && j < |codes|
    requires forall m :: 0 <= m < j ==> codes[m] != codes[j]
    ensures FirstOf(codes, vals, codes[j]) == vals[j]
  {
    if j > 0 {
      FirstOfIsFirst(codes[1..], vals[1..], j - 1);
    }
  }

  lemma IndexAnchor(codes: seq<string>, vals: seq<Cell>, j: nat)
    requires |codes| == |vals| && j < |codes|
    requires forall m :: 0 <= m < j ==> codes[m] != codes[j]
    requires vals[j].Num? && vals[j].v != 0.0
    ensures IndexColumn(codes, vals)[j] == Num(100.0)
  {
    FirstOfIsFirst(codes, vals, j);
    DivSelf(vals[j]);
  }

  /** Removing a row of another country leaves a country's anchor alone. */
  lemma {:induction false} FirstOfWithout(codes: seq<string>, vals: seq<Cell>, c: string, j: nat)
    requires |codes| == |vals| && j < |codes| && codes[j] != c
    ensures FirstOf(codes[..j] + codes[j + 1..], vals[..j] + vals[j + 1..], c) == FirstOf(codes, vals, c)
  {
    if j > 0 {
      if codes[0] != c {
        FirstOfWithout(codes[1..], vals[1..], c, j - 1);
        assert (codes[..j] + codes[j + 1..])[1..] == codes[1..][..j - 1] + codes[1..][j..];
        assert (vals[..j] + vals[j + 1..])[1..] == vals[1..][..j - 1] + vals[1..][j..];
      }
    } else {
      assert codes[..j] + codes[j + 1..] == codes[1..];
      assert vals[..j] + vals[j + 1..] == vals[1..];
    }
  }

  /** One country's rows never affect another's index: dropping row j of some
      other country leaves the index of row i as it was. */
  lemma IndexIgnoresOtherCountries(codes: seq<string>, vals: seq<Cell>, i: nat, j: nat)
    requires |codes| == |vals| && i < |codes| && j < |codes| && codes[j] != codes[i]
    ensures var i' := if i < j then i else i - 1;
      0 <= i' < |codes| - 1 &&
      IndexColumn(codes[..j] + codes[j + 1..], vals[..j] + vals[j + 1..])[i'] == IndexColumn(codes, vals)[i]
  {
    var cs, vs := codes[..j] + codes[j + 1..], vals[..j] + vals[j + 1..];
    var i' := if i < j then i else i - 1;
    assert cs[i'] == codes[i] && vs[i'] == vals[i];
    FirstOfWithout(codes, vals, codes[i], j);
    IndexAtAgree(codes, vals, cs, vs, i, i');
  }

  /** A row with the same code, amount and anchor has the same index. */
  lemma IndexAtAgree(codes: seq<string>, vals: seq<Cell>, cs: seq<string>, vs: seq<Cell>, i: nat, i': nat)
    requires |codes| == |vals| && |cs| == |vs| && i < |codes| && i' < |cs|
    requires cs[i'] == codes[i] && vs[i'] == vals[i]
    requires FirstOf(cs, vs, codes[i]) == FirstOf(codes, vals, codes[i])
    ensures IndexColumn(cs, vs)[i'] == IndexColumn(codes, vals)[i]
  {
  }

  /** The frame filtered to the base window is the filtered input, widened. */
  lemma LcuWindowRows(rows: seq<Row>)
    ensures Keep(LcuFrame(rows), InBaseWindow) == MapSeq(Keep(rows, InBaseWindow), WithLcuColumns)
  {
    KeepMapSeq(rows, WithLcuColumns, InBaseWindow, InBaseWindow);
  }

  lemma LcuWindow(rows: seq<Row>)
    ensures var kept := Keep(rows, InBaseWindow);
      var temp := Keep(LcuFrame(rows), InBaseWindow);
      Codes(temp) == Codes(kept) && RowKeys(temp) == RowKeys(kept) &&
      Column(temp, MinusInterestRpc) == MapSeq(kept, LcuAmount)
  {
    LcuWindowRows(rows);
    LcuColumnsOf(Keep(rows, InBaseWindow));
  }

  /** The index step's per-head column, row by row, is the amount the index
      is built on; codes and years stay. */
  lemma LcuColumnsOf(kept: seq<Row>)
    ensures var temp := MapSeq(kept, WithLcuColumns);
      Codes(temp) == Codes(kept) && RowKeys(temp) == RowKeys(kept) &&
      Column(temp, MinusInterestRpc) == MapSeq(kept, LcuAmount)
  {
    var temp := MapSeq(kept, WithLcuColumns);
    forall i | 0 <= i < |kept|
      ensures temp[i].code == kept[i].code && temp[i].year == kept[i].year
      ensures Get(temp[i], MinusInterestRpc) == LcuAmount(kept[i])
    {
      WithLcuColumnsGet(kept[i]);
    }
    SameRowKeys(temp, kept);
  }

  lemma WithLcuColumnsGet(r: Row)
    ensures WithLcuColumns(r).code == r.code && WithLcuColumns(r).year == r.year
    ensures Get(WithLcuColumns(r), MinusInterestRpc) == LcuAmount(r)
  {
  }

  /** The index table has exactly the rows from 2023 on, in frame order, only
      the index column, and each index is 100 x amount / the country's first
      amount in that window. */
  lemma LcuTableMeaning(rows: seq<Row>)
    ensures var kept := Keep(rows, InBaseWindow);
      var out := LcuTable(rows);
      && RowKeys(out) == RowKeys(kept)
      && (forall i :: 0 <= i < |out| ==> out[i].cols.Keys <= {LcuIndexColumn})
      && Column(out, LcuIndexColumn) == IndexColumn(Codes(kept), MapSeq(kept, LcuAmount))
  {
    LcuWindow(rows);
    var temp := Keep(LcuFrame(rows), InBaseWindow);
    IndexTableOf(temp, IndexColumn(Codes(temp), Column(temp, MinusInterestRpc)));
  }

  /** Writing a column and projecting onto it keeps the keys and leaves only
      that column. */
  lemma IndexTableOf(temp: seq<Row>, index: seq<Cell>)
    requires |index| == |temp|
    ensures var out := Project(Assigned(temp, LcuIndexColumn, index), {LcuIndexColumn});
      && RowKeys(out) == RowKeys(temp)
      && (forall i :: 0 <= i < |out| ==> out[i].cols.Keys <= {LcuIndexColumn})
      && Column(out, LcuIndexColumn) == index
  {
    var wide := Assigned(temp, LcuIndexColumn, index);
    AssignedColumns(temp, LcuIndexColumn, index, LcuIndexColumn);
    assert RowKeys(wide) == RowKeys(temp) by {
      assert forall i :: 0 <= i < |temp| ==> KeyOf(wide[i]) == KeyOf(temp[i]);
    }
    var out := Project(wide, {LcuIndexColumn});
    assert RowKeys(out) == RowKeys(wide) by {
      assert forall i :: 0 <= i < |out| ==> KeyOf(out[i]) == KeyOf(wide[i]);
    }
  }

  // ---------------------------------------------------------------------------
  // Constant 2024 US dollars per head

  /** Lines 34-38 and 48-53: the source column on the 2024 rows written to dst,
      then dst filled forward per country and backward over the frame. */
  function Rebased(rows: seq<Row>, src: string, dst: string): seq<Row>
  {
    var r1 := Assigned(rows, dst, AtYear(Years(rows), Column(rows, src), RebaseYear));
    Assigned(r1, dst, Bfill(GroupFfill(Codes(r1), Column(r1, dst))))
  }

  /** The frame after lines 25-38 of the US-dollar step, just before the
      deflator division. */
  function DeflatorFrame(rows: seq<Row>): seq<Row>
  {
    var r1 := Assigned(rows, MinusInterestNgdp, MinusInterestColumn(rows));
    var r2 := Assigned(r1, MinusInterestPc, PerCapitaColumn(Column(r1, MinusInterestNgdp), Column(r1, LcuPerCapita)));
    Rebased(r2, Deflator, DeflatorRebase)
  }

  /** The `df.apply` at lines 34-37 returns `pd.NA` on every row whose year
      is not 2024, and the column it builds is then of object dtype; when
      every row is a 2024 row it is float64. */
  predicate RebaseColumnIsObject(years: seq<int>)
  {
    exists i :: 0 <= i < |years| && years[i] != RebaseYear
  }

  predicate HasZero(den: seq<Cell>)
  {
    exists i :: 0 <= i < |den| && den[i] == Num(0.0)
  }

  /** Line 39 divides the rebase column by NGDP_D. On an object column every
      cell is a Python float after the fills at line 38 (the cells left
      unfilled become a float NaN), so any zero NGDP_D raises
      ZeroDivisionError; on a float64 column the division is numpy's and
      never raises. */
  predicate DeflatorDivisionFails(rows: seq<Row>)
  {
    RebaseColumnIsObject(Years(rows)) && HasZero(Column(rows, Deflator))
  }

  /** The frame after the US-dollar step, column assignment by column
      assignment, when the deflator division does not fail. */
  function UsdFrame(rows: seq<Row>): seq<Row>
  {
    var r3 := DeflatorFrame(rows);
    var r4 := Assigned(r3, RebaserCoefficient, Ratio(Column(r3, DeflatorRebase), Column(r3, Deflator)));
    var r5 := Assigned(r4, NcuRebased, Product(Column(r4, MinusInterestPc), Column(r4, RebaserCoefficient)));
    var r6 := Assigned(r5, ImpliedFx, Ratio(Column(r5, UsdPerCapita), Column(r5, LcuPerCapita)));
    var r7 := Rebased(r6, ImpliedFx, ImpliedFxRebase);
    Assigned(r7, ConstantUsd, Product(Column(r7, NcuRebased), Column(r7, ImpliedFxRebase)))
  }

  /** The US-dollar step's result table. */
  function UsdTable(rows: seq<Row>): seq<Row>
  {
    Project(UsdFrame(rows), {ConstantUsd})
  }

  method RebaseInPlace(df: Frame, src: string, dst: string)
    modifies df
    ensures df.rows == Rebased(old(df.rows), src, dst)
  {
    df.Assign(dst, AtYear(Years(df.rows), Column(df.rows, src), RebaseYear));
    var column := Column(df.rows, dst);
    var a := new Cell[|column|](i requires 0 <= i < |column| => column[i]);
    assert a[..] == column;
    GroupForwardFill(Codes(df.rows), a);
    BackFill(a);
    df.Assign(dst, a[..]);
  }

  /** The US-dollar step: widens the caller's frame with eight columns and
      returns the constant-dollar amount of every row. */
  method ConstantUsdRebased(df: Frame) returns (ok: bool, out: seq<Row>)
    modifies df
    ensures ok <==> !DeflatorDivisionFails(old(df.rows))
    ensures !ok ==> df.rows == DeflatorFrame(old(df.rows)) && out == []
    ensures ok ==> df.rows == UsdFrame(old(df.rows)) && out == UsdTable(old(df.rows))
  {
    df.Assign(MinusInterestNgdp, MinusInterestColumn(df.rows));
    df.Assign(MinusInterestPc, PerCapitaColumn(Column(df.rows, MinusInterestNgdp), Column(df.rows, LcuPerCapita)));
    RebaseInPlace(df, Deflator, DeflatorRebase);
    DeflatorFrameColumns(old(df.rows));
    if RebaseColumnIsObject(Years(df.rows)) && HasZero(Column(df.rows, Deflator)) {
      return false, [];
    }
    ok := true;
    df.Assign(RebaserCoefficient, Ratio(Column(df.rows, DeflatorRebase), Column(df.rows, Deflator)));
    df.Assign(NcuRebased, Product(Column(df.rows, MinusInterestPc), Column(df.rows, RebaserCoefficient)));
    df.Assign(ImpliedFx, Ratio(Column(df.rows, UsdPerCapita), Column(df.rows, LcuPerCapita)));
    RebaseInPlace(df, ImpliedFx, ImpliedFxRebase);
    df.Assign(ConstantUsd, Product(Column(df.rows, NcuRebased), Column(df.rows, ImpliedFxRebase)));
    out := Project(df.rows, {ConstantUsd});
  }

  /** The rebase column holds the propagated anchor-year values; nothing else
      changes. */
  lemma RebasedColumns(rows: seq<Row>, src: string, dst: string, d: string)
    ensures Codes(Rebased(rows, src, dst)) == Codes(rows) && Years(Rebased(rows, src, dst)) == Years(rows)
    ensures Column(Rebased(rows, src, dst), d) ==
      if d == dst then Propagated(Codes(rows), Years(rows), Column(rows, src), RebaseYear) else Column(rows, d)
  {
    var r1 := Assigned(rows, dst, AtYear(Years(rows), Column(rows, src), RebaseYear));
    AssignedColumns(rows, dst, AtYear(Years(rows), Column(rows, src), RebaseYear), dst);
    AssignedColumns(rows, dst, AtYear(Years(rows), Column(rows, src), RebaseYear), d);
    AssignedColumns(r1, dst, Bfill(GroupFfill(Codes(r1), Column(r1, dst))), d);
  }

  /** Before the deflator division the frame holds the propagated rebase
      column beside the untouched deflator column. */
  lemma DeflatorFrameColumns(rows: seq<Row>)
    ensures Codes(DeflatorFrame(rows)) == Codes(rows) && Years(DeflatorFrame(rows)) == Years(rows)
    ensures Column(DeflatorFrame(rows), DeflatorRebase) ==
      Propagated(Codes(rows), Years(rows), Column(rows, Deflator), RebaseYear)
    ensures Column(DeflatorFrame(rows), Deflator) == Column(rows, Deflator)
  {
    var m := MinusInterestColumn(rows);
    var r1 := Assigned(rows, MinusInterestNgdp, m);
    AssignedColumns(rows, MinusInterestNgdp, m, Deflator);
    var amount := PerCapitaColumn(Column(r1, MinusInterestNgdp), Column(r1, LcuPerCapita));
    AssignedColumns(r1, MinusInterestPc, amount, Deflator);
    var r2 := Assigned(r1, MinusInterestPc, amount);
    RebasedColumns(r2, Deflator, DeflatorRebase, DeflatorRebase);
    RebasedColumns(r2, Deflator, DeflatorRebase, Deflator);
  }

  /** A zero NGDP_D makes the step fail as soon as one row of the frame,
      of any country, is not a 2024 row. */
  lemma ZeroDeflatorFails(rows: seq<Row>, i: nat, j: nat)
    requires i < |rows| && rows[i].year != RebaseYear
    requires j < |rows| && Get(rows[j], Deflator) == Num(0.0)
    ensures DeflatorDivisionFails(rows)
  {
  }

  /** A frame of 2024 rows only keeps a float64 rebase column: a zero NGDP_D
      there gives NaN and the step does not fail. */
  lemma AnchorYearFrameDoesNotFail(rows: seq<Row>)
    requires forall i :: 0 <= i < |rows| ==> rows[i].year == RebaseYear
    ensures !DeflatorDivisionFails(rows)
  {
  }

  /** With no zero NGDP_D the step does not fail, whatever the years. */
  lemma NonZeroDeflatorsDoNotFail(rows: seq<Row>)
    requires forall i :: 0 <= i < |rows| ==> Get(rows[i], Deflator) != Num(0.0)
    ensures !DeflatorDivisionFails(rows)
  {
  }

  /** The US-dollar step's columns in terms of the input columns. */
  lemma {:induction false} UsdFrameColumns(rows: seq<Row>)
    ensures var codes, years := Codes(rows), Years(rows);
      var d := Column(rows, Deflator);
      var amount := PerCapitaColumn(MinusInterestColumn(rows), Column(rows, LcuPerCapita));
      var dRebase := Propagated(codes, years, d, RebaseYear);
      var coefficient := Ratio(dRebase, d);
      var fxRebase := Propagated(codes, years, Ratio(Column(rows, UsdPerCapita), Column(rows, LcuPerCapita)), RebaseYear);
      && Codes(UsdFrame(rows)) == codes && Years(UsdFrame(rows)) == years
      && Column(UsdFrame(rows), DeflatorRebase) == dRebase
      && Column(UsdFrame(rows), RebaserCoefficient) == coefficient
      && Column(UsdFrame(rows), ImpliedFxRebase) == fxRebase
      && Column(UsdFrame(rows), ConstantUsd) == Product(Product(amount, coefficient), fxRebase)
  {
    var m := MinusInterestColumn(rows);
    var r1 := Assigned(rows, MinusInterestNgdp, m);
    AssignedColumns(rows, MinusInterestNgdp, m, MinusInterestNgdp);
    AssignedColumns(rows, MinusInterestNgdp, m, LcuPerCapita);
    AssignedColumns(rows, MinusInterestNgdp, m, Deflator);
    AssignedColumns(rows, MinusInterestNgdp, m, UsdPerCapita);
    var amount := PerCapitaColumn(Column(r1, MinusInterestNgdp), Column(r1, LcuPerCapita));
    var r2 := Assigned(r1, MinusInterestPc, amount);
    AssignedColumns(r1, MinusInterestPc, amount, Deflator);
    AssignedColumns(r1, MinusInterestPc, amount, MinusInterestPc);
    AssignedColumns(r1, MinusInterestPc, amount, LcuPerCapita);
    AssignedColumns(r1, MinusInterestPc, amount, UsdPerCapita);
    var r3 := Rebased(r2, Deflator, DeflatorRebase);
    RebasedColumns(r2, Deflator, DeflatorRebase, DeflatorRebase);
    RebasedColumns(r2, Deflator, DeflatorRebase, Deflator);
    RebasedColumns(r2, Deflator, DeflatorRebase, MinusInterestPc);
    RebasedColumns(r2, Deflator, DeflatorRebase, LcuPerCapita);
    RebasedColumns(r2, Deflator, DeflatorRebase, UsdPerCapita);
    var coefficient := Ratio(Column(r3, DeflatorRebase), Column(r3, Deflator));
    var r4 := Assigned(r3, RebaserCoefficient, coefficient);
    AssignedColumns(r3, RebaserCoefficient, coefficient, RebaserCoefficient);
    AssignedColumns(r3, RebaserCoefficient, coefficient, MinusInterestPc);
    AssignedColumns(r3, RebaserCoefficient, coefficient, DeflatorRebase);
    AssignedColumns(r3, RebaserCoefficient, coefficient, LcuPerCapita);
    AssignedColumns(r3, RebaserCoefficient, coefficient, UsdPerCapita);
    var ncu := Product(Column(r4, MinusInterestPc), Column(r4, RebaserCoefficient));
    var r5 := Assigned(r4, NcuRebased, ncu);
    AssignedColumns(r4, NcuRebased, ncu, NcuRebased);
    AssignedColumns(r4, NcuRebased, ncu, DeflatorRebase);
    AssignedColumns(r4, NcuRebased, ncu, RebaserCoefficient);
    AssignedColumns(r4, NcuRebased, ncu, LcuPerCapita);
    AssignedColumns(r4, NcuRebased, ncu, UsdPerCapita);
    var fx := Ratio(Column(r5, UsdPerCapita), Column(r5, LcuPerCapita));
    var r6 := Assigned(r5, ImpliedFx, fx);
    AssignedColumns(r5, ImpliedFx, fx, ImpliedFx);
    AssignedColumns(r5, ImpliedFx, fx, NcuRebased);
    AssignedColumns(r5, ImpliedFx, fx, DeflatorRebase);
    AssignedColumns(r5, ImpliedFx, fx, RebaserCoefficient);
    var r7 := Rebased(r6, ImpliedFx, ImpliedFxRebase);
    RebasedColumns(r6, ImpliedFx, ImpliedFxRebase, ImpliedFxRebase);
    RebasedColumns(r6, ImpliedFx, ImpliedFxRebase, NcuRebased);
    RebasedColumns(r6, ImpliedFx, ImpliedFxRebase, DeflatorRebase);
    RebasedColumns(r6, ImpliedFx, ImpliedFxRebase, RebaserCoefficient);
    var usd := Product(Column(r7, NcuRebased), Column(r7, ImpliedFxRebase));
    AssignedColumns(r7, ConstantUsd, usd, ConstantUsd);
    AssignedColumns(r7, ConstantUsd, usd, ImpliedFxRebase);
    AssignedColumns(r7, ConstantUsd, usd, DeflatorRebase);
    AssignedColumns(r7, ConstantUsd, usd, RebaserCoefficient);
  }

  /** On a country's 2024 row with a non-zero deflator the coefficient is 1. */
  lemma CoefficientAtAnchor(rows: seq<Row>, k: nat)
    requires k < |rows| && rows[k].year == RebaseYear
    requires Get(rows[k], Deflator).Num? && Get(rows[k], Deflator).v != 0.0
    ensures Column(UsdFrame(rows), RebaserCoefficient)[k] == Num(1.0)
  {
    UsdFrameColumns(rows);
    PropagatedAtAnchor(Codes(rows), Years(rows), Column(rows, Deflator), RebaseYear, k);
    DivSelf(Get(rows[k], Deflator));
  }

  /** On the 2024 row the constant-dollar amount is the share of GDP per head
      in current dollars: (expenditure less interest) / 100 x NGDPDPC. */
  lemma ConstantUsdAtAnchor(rows: seq<Row>, k: nat)
    requires k < |rows| && rows[k].year == RebaseYear
    requires Get(rows[k], Deflator).Num? && Get(rows[k], Deflator).v != 0.0
    requires Get(rows[k], LcuPerCapita).Num? && Get(rows[k], LcuPerCapita).v != 0.0
    requires Get(rows[k], UsdPerCapita).Num?
    requires Get(rows[k], GgxNgdp).Num? && Get(rows[k], PrimaryNetLending).Num? && Get(rows[k], NetLending).Num?
    ensures var m := MinusInterest(Get(rows[k], GgxNgdp), Get(rows[k], PrimaryNetLending), Get(rows[k], NetLending));
      k < |UsdTable(rows)| && Get(UsdTable(rows)[k], ConstantUsd) == Num(m.v / 100.0 * Get(rows[k], UsdPerCapita).v)
  {
    UsdTableRows(rows);
    ConstantUsdColumnAtAnchor(rows, k);
  }

  lemma ConstantUsdColumnAtAnchor(rows: seq<Row>, k: nat)
    requires k < |rows| && rows[k].year == RebaseYear
    requires Get(rows[k], Deflator).Num? && Get(rows[k], Deflator).v != 0.0
    requires Get(rows[k], LcuPerCapita).Num? && Get(rows[k], LcuPerCapita).v != 0.0
    requires Get(rows[k], UsdPerCapita).Num?
    requires Get(rows[k], GgxNgdp).Num? && Get(rows[k], PrimaryNetLending).Num? && Get(rows[k], NetLending).Num?
    ensures var m := MinusInterest(Get(rows[k], GgxNgdp), Get(rows[k], PrimaryNetLending), Get(rows[k], NetLending));
      k < |UsdFrame(rows)| && Column(UsdFrame(rows), ConstantUsd)[k] == Num(m.v / 100.0 * Get(rows[k], UsdPerCapita).v)
  {
    var d := Column(rows, Deflator);
    var coefficient := Ratio(Propagated(Codes(rows), Years(rows), d, RebaseYear), d);
    UsdFrameColumns(rows);
    CoefficientAtAnchor(rows, k);
    UsdAtAnchorFromColumns(rows, k, coefficient, Column(UsdFrame(rows), ConstantUsd));
  }

  /** The same, given the constant-dollar column in terms of the inputs. */
  lemma UsdAtAnchorFromColumns(rows: seq<Row>, k: nat, coefficient: seq<Cell>, usd: seq<Cell>)
    requires k < |rows| && rows[k].year == RebaseYear && |coefficient| == |rows| && coefficient[k] == Num(1.0)
    requires Get(rows[k], LcuPerCapita).Num? && Get(rows[k], LcuPerCapita).v != 0.0
    requires Get(rows[k], UsdPerCapita).Num?
    requires Get(rows[k], GgxNgdp).Num? && Get(rows[k], PrimaryNetLending).Num? && Get(rows[k], NetLending).Num?
    requires var amount := PerCapitaColumn(MinusInterestColumn(rows), Column(rows, LcuPerCapita));
      var fx := Ratio(Column(rows, UsdPerCapita), Column(rows, LcuPerCapita));
      usd == Product(Product(amount, coefficient), Propagated(Codes(rows), Years(rows), fx, RebaseYear))
    ensures var m := MinusInterest(Get(rows[k], GgxNgdp), Get(rows[k], PrimaryNetLending), Get(rows[k], NetLending));
      k < |usd| && usd[k] == Num(m.v / 100.0 * Get(rows[k], UsdPerCapita).v)
  {
    var amount := PerCapitaColumn(MinusInterestColumn(rows), Column(rows, LcuPerCapita));
    var fx := Ratio(Column(rows, UsdPerCapita), Column(rows, LcuPerCapita));
    var fxRebase := Propagated(Codes(rows), Years(rows), fx, RebaseYear);
    PropagatedAtAnchor(Codes(rows), Years(rows), fx, RebaseYear, k);
    var m := MinusInterest(Get(rows[k], GgxNgdp), Get(rows[k], PrimaryNetLending), Get(rows[k], NetLending));
    var p, q := Get(rows[k], LcuPerCapita).v, Get(rows[k], UsdPerCapita).v;
    MinusInterestMeaning(Get(rows[k], GgxNgdp), Get(rows[k], PrimaryNetLending), Get(rows[k], NetLending));
    assert amount[k] == PerCapita(m, Get(rows[k], LcuPerCapita));
    PerCapitaMeaning(m, Get(rows[k], LcuPerCapita));
    assert fx[k] == Div(Get(rows[k], UsdPerCapita), Get(rows[k], LcuPerCapita));
    assert fxRebase[k] == Num(q / p);
    AnchorProduct(amount, coefficient, fxRebase, k, m.v, p, q);
  }

  /** The arithmetic at the anchor row: (a / 100 x p) x 1 x (q / p) = a / 100 x q. */
  lemma AnchorProduct(amount: seq<Cell>, coefficient: seq<Cell>, fxRebase: seq<Cell>, k: nat, a: real, p: real, q: real)
    requires |amount| == |coefficient| == |fxRebase| && k < |amount| && p != 0.0
    requires amount[k] == Num(a / 100.0 * p) && coefficient[k] == Num(1.0) && fxRebase[k] == Num(q / p)
    ensures Product(Product(amount, coefficient), fxRebase)[k] == Num(a / 100.0 * q)
  {
    ProductAt(amount, coefficient, fxRebase, k, a / 100.0 * p, q / p);
    CancelDivision(a / 100.0, p, q);
  }

  lemma ProductAt(amount: seq<Cell>, coefficient: seq<Cell>, fxRebase: seq<Cell>, k: nat, u: real, w: real)
    requires |amount| == |coefficient| == |fxRebase| && k < |amount|
    requires amount[k] == Num(u) && coefficient[k] == Num(1.0) && fxRebase[k] == Num(w)
    ensures Product(Product(amount, coefficient), fxRebase)[k] == Num(u * w)
  {
    assert Product(amount, coefficient)[k] == Num(u);
  }

  lemma CancelDivision(x: real, p: real, q: real)
    requires p != 0.0
    ensures x * p * (q / p) == x * q
  {
    assert p * (q / p) == q;
    assert x * p * (q / p) == x * (p * (q / p));
  }

  /** The US-dollar step reads only the index columns and seven input
      columns. */
  lemma UsdReadsInputs(a: seq<Row>, b: seq<Row>)
    requires Codes(a) == Codes(b) && Years(a) == Years(b)
    requires Column(a, GgxNgdp) == Column(b, GgxNgdp)
    requires Column(a, PrimaryNetLending) == Column(b, PrimaryNetLending)
    requires Column(a, NetLending) == Column(b, NetLending)
    requires Column(a, LcuPerCapita) == Column(b, LcuPerCapita)
    requires Column(a, UsdPerCapita) == Column(b, UsdPerCapita)
    requires Column(a, Deflator) == Column(b, Deflator)
    ensures UsdTable(a) == UsdTable(b)
  {
    UsdColumnReadsInputs(a, b);
    UsdTableRows(a);
    UsdTableRows(b);
    UsdTablesEqual(a, b, UsdTable(a), UsdTable(b), Column(UsdFrame(a), ConstantUsd), Column(UsdFrame(b), ConstantUsd));
  }

  lemma UsdTablesEqual(a: seq<Row>, b: seq<Row>, ta: seq<Row>, tb: seq<Row>, ca: seq<Cell>, cb: seq<Cell>)
    requires Codes(a) == Codes(b) && Years(a) == Years(b) && ca == cb && |ca| == |a|
    requires |ta| == |a| && forall i :: 0 <= i < |a| ==>
      KeyOf(ta[i]) == KeyOf(a[i]) && ta[i].cols.Keys == {ConstantUsd} && ta[i].cols[ConstantUsd] == ca[i]
    requires |tb| == |b| && forall i :: 0 <= i < |b| ==>
      KeyOf(tb[i]) == KeyOf(b[i]) && tb[i].cols.Keys == {ConstantUsd} && tb[i].cols[ConstantUsd] == cb[i]
    ensures ta == tb
  {
    forall i | 0 <= i < |ta| ensures KeyOf(ta[i]) == KeyOf(tb[i]) {
      assert Codes(a)[i] == Codes(b)[i] && Years(a)[i] == Years(b)[i];
    }
    OneColumnTablesEqual(ta, tb, ConstantUsd);
  }

  lemma UsdColumnReadsInputs(a: seq<Row>, b: seq<Row>)
    requires Codes(a) == Codes(b) && Years(a) == Years(b)
    requires Column(a, GgxNgdp) == Column(b, GgxNgdp)
    requires Column(a, PrimaryNetLending) == Column(b, PrimaryNetLending)
    requires Column(a, NetLending) == Column(b, NetLending)
    requires Column(a, LcuPerCapita) == Column(b, LcuPerCapita)
    requires Column(a, UsdPerCapita) == Column(b, UsdPerCapita)
    requires Column(a, Deflator) == Column(b, Deflator)
    ensures Column(UsdFrame(a), ConstantUsd) == Column(UsdFrame(b), ConstantUsd)
  {
    assert MinusInterestColumn(a) == MinusInterestColumn(b);
    UsdFrameColumns(a);
    UsdFrameColumns(b);
  }

  /** The index step's columns are not read by the US-dollar step: its result
      is the same whether or not the index step ran first on the frame. */
  lemma UsdIgnoresLcu(rows: seq<Row>)
    ensures UsdTable(LcuFrame(rows)) == UsdTable(rows)
  {
    var wide := LcuFrame(rows);
    assert Codes(wide) == Codes(rows) && Years(wide) == Years(rows);
    assert Column(wide, GgxNgdp) == Column(rows, GgxNgdp);
    assert Column(wide, PrimaryNetLending) == Column(rows, PrimaryNetLending);
    assert Column(wide, NetLending) == Column(rows, NetLending);
    assert Column(wide, LcuPerCapita) == Column(rows, LcuPerCapita);
    assert Column(wide, UsdPerCapita) == Column(rows, UsdPerCapita);
    assert Column(wide, Deflator) == Column(rows, Deflator);
    UsdReadsInputs(wide, rows);
  }

  /** The index step leaves the columns the deflator division reads, so it
      cannot change whether that division fails. */
  lemma LcuKeepsDeflator(rows: seq<Row>)
    ensures DeflatorDivisionFails(LcuFrame(rows)) <==> DeflatorDivisionFails(rows)
  {
    var wide := LcuFrame(rows);
    assert Codes(wide) == Codes(rows) && Years(wide) == Years(rows);
    assert Column(wide, Deflator) == Column(rows, Deflator);
  }

  /** The US-dollar table has one row per input row, same keys, and exactly the
      constant-dollar column. */
  lemma UsdTableRows(rows: seq<Row>)
    ensures |UsdTable(rows)| == |rows|
    ensures forall i :: 0 <= i < |rows| ==>
      KeyOf(UsdTable(rows)[i]) == KeyOf(rows[i]) && UsdTable(rows)[i].cols.Keys == {ConstantUsd} &&
      UsdTable(rows)[i].cols[ConstantUsd] == Column(UsdFrame(rows), ConstantUsd)[i]
  {
    var f := UsdFrame(rows);
    UsdFrameColumns(rows);
    forall i | 0 <= i < |rows| ensures ConstantUsd in f[i].cols {
    }
  }

  // ---------------------------------------------------------------------------
  // Zero-dose children, 2022

  /** A row of the AD_COVERAGES extracts. */
  datatype AdCoverage = AdCoverage(
    country: string, year: int, vaccineCode: string, coverageCategory: string,
    percentage: Cell, targetNumber: Cell)

  function IsDtp1Estimate(r: AdCoverage): bool
  {
    r.year == ZeroDoseYear && r.vaccineCode == "DTPCV1" && r.coverageCategory == "WUENIC"
  }

  /** Children not reached by the first DTP dose, rounded to whole children. */
  function ZeroDose(percentage: Cell, target: Cell): Cell
  {
    RoundCell(Unvaccinated(percentage, target), 0)
  }

  /** The unrounded count: the uncovered share of the target population. */
  function Unvaccinated(percentage: Cell, target: Cell): Cell
  {
    Mul(Div(Sub(Num(100.0), percentage), Num(100.0)), target)
  }

  function ZeroDoseRow(r: AdCoverage): Row
  {
    Row(r.country, r.year, map[TargetNumber := r.targetNumber, Dtpcv1 := r.percentage,
      ZeroDoseColumn := ZeroDose(r.percentage, r.targetNumber)])
  }

  function ZeroDoseTable(rs: seq<AdCoverage>): seq<Row>
  {
    MapSeq(Keep(rs, IsDtp1Estimate), ZeroDoseRow)
  }

  /** Full coverage leaves nobody unvaccinated. */
  lemma ZeroDoseFullCoverage(target: Cell)
    requires target.Num?
    ensures ZeroDose(Num(100.0), target) == Num(0.0)
  {
    RoundHalfEvenOnGrid(0.0, 0);
  }

  /** The uncovered share of the target population, for finite inputs. */
  lemma UnvaccinatedOf(percentage: Cell, target: Cell)
    requires percentage.Num? && target.Num?
    ensures Unvaccinated(percentage, target) == Num((100.0 - percentage.v) / 100.0 * target.v)
  {
  }

  /** A whole uncovered count needs no rounding. */
  lemma ZeroDoseExact(percentage: Cell, target: Cell, n: int)
    requires percentage.Num? && target.Num? && (100.0 - percentage.v) / 100.0 * target.v == n as real
    ensures ZeroDose(percentage, target) == Num(n as real)
  {
    UnvaccinatedOf(percentage, target);
    IntegerOnGrid(n, 0);
    RoundCellOnGrid(Num(n as real), 0);
  }

  /** No coverage leaves the whole target population unvaccinated, when that is
      a whole number. */
  lemma ZeroDoseNoCoverage(n: int)
    ensures ZeroDose(Num(0.0), Num(n as real)) == Num(n as real)
  {
    ZeroDoseExact(Num(0.0), Num(n as real), n);
  }

  /** With both inputs finite the count is a whole number within half a
      child of the exact share; it is missing when either input is. */
  lemma ZeroDoseBound(percentage: Cell, target: Cell)
    ensures percentage.Missing? || target.Missing? ==> ZeroDose(percentage, target).Missing?
    ensures percentage.Num? && target.Num? ==>
      var z := ZeroDose(percentage, target);
      z.Num? && OnGrid(z.v, 0) && -0.5 <= z.v - (100.0 - percentage.v) / 100.0 * target.v <= 0.5
  {
    if percentage.Num? && target.Num? {
      var u := Unvaccinated(percentage, target);
      assert u == Num((100.0 - percentage.v) / 100.0 * target.v);
    }
  }

  /** The zero-dose table holds exactly the 2022 DTPCV1 WUENIC rows. */
  lemma ZeroDoseTableMeaning(rs: seq<AdCoverage>, x: Row)
    ensures x in ZeroDoseTable(rs) <==> exists r :: r in rs && IsDtp1Estimate(r) && x == ZeroDoseRow(r)
  {
    MapKeepMembers(rs, IsDtp1Estimate, ZeroDoseRow, x);
  }

  // ---------------------------------------------------------------------------
  // The stage as a whole

  /** `cy_ie`: the two outer merges of the three tables. */
  function CyIe(weo: seq<Row>, coverage: seq<AdCoverage>): seq<Row>
  {
    OuterJoin(OuterJoin(LcuTable(weo), UsdTable(weo)), ZeroDoseTable(coverage))
  }

  /** `main`: both indicator steps on one shared frame, then the merges. */
  method RequiredColumnsStage(weo: seq<Row>, coverage: seq<AdCoverage>) returns (ok: bool, cyIe: seq<Row>)
    ensures ok <==> !DeflatorDivisionFails(weo)
    ensures ok ==> cyIe == CyIe(weo, coverage)
    ensures !ok ==> cyIe == []
  {
    var cyImfWeo := new Frame(weo);
    var lcu := LcuIndex(cyImfWeo);
    LcuKeepsDeflator(weo);
    var usd;
    ok, usd := ConstantUsdRebased(cyImfWeo);
    if !ok {
      return false, [];
    }
    UsdIgnoresLcu(weo);
    var zerodose := ZeroDoseTable(coverage);
    var df1 := OuterJoin(lcu, usd);
    cyIe := OuterJoin(df1, zerodose);
  }

  /** The first merge's keys are the WEO keys. */
  lemma WeoMergeKeys(weo: seq<Row>, k: Key)
    ensures k in RowKeys(OuterJoin(LcuTable(weo), UsdTable(weo))) <==> k in RowKeys(weo)
  {
    var lcu, usd := LcuTable(weo), UsdTable(weo);
    var kept := Keep(weo, InBaseWindow);
    OuterJoinKeys(lcu, usd, k);
    LcuTableMeaning(weo);
    UsdTableRows(weo);
    SameRowKeys(usd, weo);
    if k in RowKeys(kept) {
      SubTableKey(kept, weo, k);
    }
  }

  /** The merged table's keys are the WEO keys and the zero-dose keys. */
  lemma CyIeKeys(weo: seq<Row>, coverage: seq<AdCoverage>, k: Key)
    ensures k in RowKeys(CyIe(weo, coverage)) <==> k in RowKeys(weo) || k in RowKeys(ZeroDoseTable(coverage))
  {
    OuterJoinKeys(OuterJoin(LcuTable(weo), UsdTable(weo)), ZeroDoseTable(coverage), k);
    WeoMergeKeys(weo, k);
  }

  /** The first merge holds only the index and the constant-dollar columns. */
  lemma WeoMergeColumns(weo: seq<Row>)
    ensures ColumnsWithin(OuterJoin(LcuTable(weo), UsdTable(weo)), {LcuIndexColumn, ConstantUsd})
  {
    LcuTableMeaning(weo);
    UsdTableRows(weo);
    MergeColumnsOf(weo, LcuTable(weo), UsdTable(weo));
  }

  lemma MergeColumnsOf(weo: seq<Row>, lcu: seq<Row>, usd: seq<Row>)
    requires forall i :: 0 <= i < |lcu| ==> lcu[i].cols.Keys <= {LcuIndexColumn}
    requires |usd| == |weo| && forall i :: 0 <= i < |weo| ==> usd[i].cols.Keys == {ConstantUsd}
    ensures ColumnsWithin(OuterJoin(lcu, usd), {LcuIndexColumn, ConstantUsd})
  {
    ColumnsWithinByIndex(lcu, {LcuIndexColumn});
    ColumnsWithinByIndex(usd, {ConstantUsd});
    OuterJoinColumns(lcu, usd, {LcuIndexColumn}, {ConstantUsd});
    assert {LcuIndexColumn} + {ConstantUsd} == {LcuIndexColumn, ConstantUsd};
  }

  /** A merged row outside the coverage keys reads no zero-dose column. */
  lemma MergedWeoOnly(df1: seq<Row>, zd: seq<Row>, x: Row)
    requires ColumnsWithin(df1, {LcuIndexColumn, ConstantUsd})
    requires x in OuterJoin(df1, zd) && KeyOf(x) !in RowKeys(zd)
    ensures Get(x, TargetNumber).Missing? && Get(x, Dtpcv1).Missing? && Get(x, ZeroDoseColumn).Missing?
  {
    OuterJoinOneSidedRow(df1, zd, x);
  }

  /** A country-year the coverage table lacks has its zero-dose columns missing. */
  lemma CyIeWeoOnly(weo: seq<Row>, coverage: seq<AdCoverage>, x: Row)
    requires x in CyIe(weo, coverage) && KeyOf(x) !in RowKeys(ZeroDoseTable(coverage))
    ensures Get(x, TargetNumber).Missing? && Get(x, Dtpcv1).Missing? && Get(x, ZeroDoseColumn).Missing?
  {
    WeoMergeColumns(weo);
    MergedWeoOnly(OuterJoin(LcuTable(weo), UsdTable(weo)), ZeroDoseTable(coverage), x);
  }

  /** A merged row outside the first table's keys is a zero-dose row. */
  lemma MergedCoverageOnly(df1: seq<Row>, coverage: seq<AdCoverage>, x: Row)
    requires x in OuterJoin(df1, ZeroDoseTable(coverage)) && KeyOf(x) !in RowKeys(df1)
    ensures Get(x, LcuIndexColumn).Missing? && Get(x, ConstantUsd).Missing?
  {
    OuterJoinOneSidedRow(df1, ZeroDoseTable(coverage), x);
    ZeroDoseTableMeaning(coverage, x);
    var r :| r in coverage && IsDtp1Estimate(r) && x == ZeroDoseRow(r);
    ZeroDoseRowColumns(r);
  }

  /** A zero-dose row has neither indicator column. */
  lemma ZeroDoseRowColumns(r: AdCoverage)
    ensures Get(ZeroDoseRow(r), LcuIndexColumn).Missing? && Get(ZeroDoseRow(r), ConstantUsd).Missing?
  {
  }

  /** A country-year the WEO table lacks has its indicator columns missing. */
  lemma CyIeCoverageOnly(weo: seq<Row>, coverage: seq<AdCoverage>, x: Row)
    requires x in CyIe(weo, coverage) && KeyOf(x) !in RowKeys(weo)
    ensures Get(x, LcuIndexColumn).Missing? && Get(x, ConstantUsd).Missing?
  {
    WeoMergeKeys(weo, KeyOf(x));
    MergedCoverageOnly(OuterJoin(LcuTable(weo), UsdTable(weo)), coverage, x);
  }
}
