/**
 The WEO sheet as read with every column as text, and the column-level steps
 applied to it before it is melted: the header rename, the removal of rows
 with an empty country code, the column drop, and the cell cleaning that turns
 the year columns into numbers. A sheet is a sequence of named columns of
 one common height, in header order.
 */
module WeoSheet {
  import opened Options
  import opened Cells
  import opened Frames
  import opened Decimal

  /** A cell: text, or a number once coerced. `Value(Missing)` is NaN. */
  datatype Raw = Text(s: string) | Value(c: Cell)

  const NaN: Raw := Value(Missing)

  datatype Column = Column(name: string, cells: seq<Raw>)

  /** Every column holds exactly n cells. */
  predicate Rectangular(cols: seq<Column>, n: nat)
  {
    forall i :: 0 <= i < |cols| ==> |cols[i].cells| == n
  }

  const CountryCode := "country_code"
  const SubjectCode := "weo_subject_code"
  const EstimateAfter := "estimate_after"

  // ---------------------------------------------------------------------------
  // Header rename and column lookup

  /** The rename table: ISO, "Estimates Start After" and "WEO Subject Code". */
  function RenameName(c: string): string
  {
    if c == "ISO" then CountryCode
    else if c == "Estimates Start After" then EstimateAfter
    else if c == "WEO Subject Code" then SubjectCode
    else c
  }

  function Renamed(cols: seq<Column>): (r: seq<Column>)
    ensures |r| == |cols|
    ensures forall i :: 0 <= i < |cols| ==> r[i].cells == cols[i].cells
  {
    seq(|cols|, i requires 0 <= i < |cols| => Column(RenameName(cols[i].name), cols[i].cells))
  }

  /** The rename only changes names: every column keeps its cells and place, a
      column is called country_code, estimate_after or weo_subject_code
      afterwards exactly when it had that name or its source name before, and
      every other name is unchanged. */
  lemma RenamedColumns(cols: seq<Column>, i: nat)
    requires i < |cols|
    ensures Renamed(cols)[i].cells == cols[i].cells
    ensures Renamed(cols)[i].name == CountryCode <==> cols[i].name in {"ISO", CountryCode}
    ensures Renamed(cols)[i].name == EstimateAfter <==> cols[i].name in {"Estimates Start After", EstimateAfter}
    ensures Renamed(cols)[i].name == SubjectCode <==> cols[i].name in {"WEO Subject Code", SubjectCode}
    ensures cols[i].name !in {"ISO", "Estimates Start After", "WEO Subject Code"} ==> Renamed(cols)[i].name == cols[i].name
  {
  }

  /** `df[name]`: the first column with that name, if any. */
  function Find(cols: seq<Column>, name: string): (r: Option<nat>)
    ensures r.None? <==> forall j :: 0 <= j < |cols| ==> cols[j].name != name
    ensures r.Some? ==> r.value < |cols| && cols[r.value].name == name
    ensures r.Some? ==> forall j :: 0 <= j < r.value ==> cols[j].name != name
  {
    if |cols| == 0 then None
    else if cols[0].name == name then Some(0)
    else match Find(cols[1..], name)
      case None => None
      case Some(j) => Some(j + 1)
  }

  /** Two sheets with the same names in the same places find the same column. */
  lemma FindByNames(a: seq<Column>, b: seq<Column>, name: string)
    requires |a| == |b| && forall i :: 0 <= i < |a| ==> a[i].name == b[i].name
    ensures Find(a, name) == Find(b, name)
  {
  }

  // ---------------------------------------------------------------------------
  // Row filter: `df[df["country_code"] != ""]`

  /** The positions of the cells that are not exactly the empty text, in order.
      A NaN code is not equal to "" and so is kept. */
  function KeptRows(code: seq<Raw>): (idx: seq<nat>)
    ensures forall i: int :: i in idx <==> 0 <= i < |code| && code[i] != Text("")
    ensures forall j, k :: 0 <= j < k < |idx| ==> idx[j] < idx[k]
  {
    if |code| == 0 then []
    else
      var n := |code| - 1;
      var rest := KeptRows(code[..n]);
      assert forall i :: 0 <= i < n ==> code[..n][i] == code[i];
      assert forall j :: 0 <= j < |rest| ==> rest[j] in rest;
      if code[n] != Text("") then rest + [n] else rest
  }

  /** The rows at positions idx, in that order, in every column. */
  function SelectRows(cols: seq<Column>, n: nat, idx: seq<nat>): (r: seq<Column>)
    requires Rectangular(cols, n)
    requires forall j :: 0 <= j < |idx| ==> idx[j] < n
    ensures |r| == |cols| && Rectangular(r, |idx|)
    ensures forall i :: 0 <= i < |cols| ==> r[i].name == cols[i].name
    ensures forall i, j :: 0 <= i < |cols| && 0 <= j < |idx| ==> r[i].cells[j] == cols[i].cells[idx[j]]
  {
    seq(|cols|, i requires 0 <= i < |cols| =>
      Column(cols[i].name, seq(|idx|, j requires 0 <= j < |idx| => cols[i].cells[idx[j]])))
  }

  /** Row j of a sheet, across its columns. */
  function RowAt(cols: seq<Column>, n: nat, j: nat): (row: seq<Raw>)
    requires Rectangular(cols, n) && j < n
    ensures |row| == |cols| && forall d :: 0 <= d < |cols| ==> row[d] == cols[d].cells[j]
  {
    seq(|cols|, d requires 0 <= d < |cols| => cols[d].cells[j])
  }

  /** The rows whose country_code cell is not "", or None (a KeyError) when
      the sheet has no country_code column. */
  function NonEmptyCodes(cols: seq<Column>, n: nat): (r: Option<(seq<Column>, nat)>)
    requires Rectangular(cols, n)
    ensures r.Some? ==> |r.value.0| == |cols| && Rectangular(r.value.0, r.value.1)
    ensures r.None? <==> Find(cols, CountryCode).None?
  {
    match Find(cols, CountryCode)
    case None => None
    case Some(c) =>
      var idx := KeptRows(cols[c].cells);
      assert forall j :: 0 <= j < |idx| ==> idx[j] in idx;
      Some((SelectRows(cols, n, idx), |idx|))
  }

  /** After the filter no row has the empty text as its code, and every row
      of the sheet whose code is something else (NaN included) survives whole,
      in every column. */
  lemma NonEmptyCodesMeaning(cols: seq<Column>, n: nat, i: nat)
    requires Rectangular(cols, n) && Find(cols, CountryCode).Some? && i < n
    ensures var c := Find(cols, CountryCode).value;
      var (kept, m) := NonEmptyCodes(cols, n).value;
      (forall j :: 0 <= j < m ==> kept[c].cells[j] != Text("")) &&
      (cols[c].cells[i] != Text("") ==>
        exists j :: 0 <= j < m && RowAt(kept, m, j) == RowAt(cols, n, i))
  {
    var c := Find(cols, CountryCode).value;
    var idx := KeptRows(cols[c].cells);
    assert forall j :: 0 <= j < |idx| ==> idx[j] in idx;
    var kept := SelectRows(cols, n, idx);
    if cols[c].cells[i] != Text("") {
      assert i in idx;
      var j :| 0 <= j < |idx| && idx[j] == i;
      assert RowAt(kept, |idx|, j) == RowAt(cols, n, i);
    }
  }

  // ---------------------------------------------------------------------------
  // Column drop

  /** Python's `sub in s` on strings. */
  predicate Contains(s: string, sub: string)
    decreases |s|
  {
    sub <= s || (|s| > 0 && Contains(s[1..], sub))
  }

  /** A name that starts with "Unnamed" contains it, and a name made of
      digits, such as a year column, never does. */
  lemma {:induction false} ContainsUnnamed(s: string)
    ensures Contains("Unnamed" + s, "Unnamed")
    ensures AllDigits(s) ==> !Contains(s, "Unnamed")
    decreases |s|
  {
    assert "Unnamed" <= "Unnamed" + s;
    if AllDigits(s) && |s| > 0 {
      assert !("Unnamed" <= s) by {
        if |s| >= 7 {
          assert s[0] != 'U';
        }
      }
      assert AllDigits(s[1..]) by {
        forall i | 0 <= i < |s[1..]| ensures IsDigit(s[1..][i]) {
          assert s[1..][i] == s[i + 1];
        }
      }
      ContainsUnnamed(s[1..]);
    }
  }

  const MetadataColumns: seq<string> := [
    "WEO Country Code", "Country", "Subject Descriptor", "Subject Notes",
    "Country/Series-specific Notes", "Units", "Scale", EstimateAfter]

  /** `[str(year) for year in range(lo, hi)]`. */
  function YearNames(lo: nat, hi: nat): (ys: seq<string>)
    ensures |ys| == if lo <= hi then hi - lo else 0
    ensures forall i :: 0 <= i < |ys| ==> ys[i] == ShowNat(lo + i)
  {
    if lo < hi then seq(hi - lo, i requires 0 <= i < hi - lo => ShowNat(lo + i)) else []
  }

  /** A name is listed exactly when it is the text of a year in [lo, hi). */
  lemma YearNamesMembers(lo: nat, hi: nat, name: string)
    ensures name in YearNames(lo, hi) <==> exists y: nat :: lo <= y < hi && name == ShowNat(y)
  {
    var ys := YearNames(lo, hi);
    if name in ys {
      var i :| 0 <= i < |ys| && ys[i] == name;
      YearNameAt(lo, hi, i);
    }
    if exists y: nat :: lo <= y < hi && name == ShowNat(y) {
      var y: nat :| lo <= y < hi && name == ShowNat(y);
      var i := y - lo;
      assert 0 <= i < |ys| && ys[i] == ShowNat(lo + i);
      assert lo + i == y;
    }
  }

  lemma YearNameAt(lo: nat, hi: nat, i: nat)
    requires i < |YearNames(lo, hi)|
    ensures lo + i < hi && exists y: nat :: lo <= y < hi && YearNames(lo, hi)[i] == ShowNat(y)
  {
    var y: nat := lo + i;
    assert lo <= y < hi && YearNames(lo, hi)[i] == ShowNat(y);
  }

  /** The year columns the script drops: 1980 to 2010. */
  function DropYears(): seq<string>
  {
    YearNames(1980, 2011)
  }

  function ColumnNames(cols: seq<Column>): (ns: seq<string>)
    ensures |ns| == |cols| && forall i :: 0 <= i < |cols| ==> ns[i] == cols[i].name
  {
    seq(|cols|, i requires 0 <= i < |cols| => cols[i].name)
  }

  function IsUnnamed(name: string): bool
  {
    Contains(name, "Unnamed")
  }

  /** `[col for col in df.columns if "Unnamed" in col]`. */
  function UnnamedColumns(cols: seq<Column>): (ns: seq<string>)
    ensures forall x :: x in ns <==> exists i :: 0 <= i < |cols| && cols[i].name == x && Contains(x, "Unnamed")
  {
    Keep(ColumnNames(cols), IsUnnamed)
  }

  /** The script's drop list, with the dropped years [lo, hi) left open. */
  function DropListFor(cols: seq<Column>, lo: nat, hi: nat): seq<string>
  {
    MetadataColumns + UnnamedColumns(cols) + YearNames(lo, hi)
  }

  function DropList(cols: seq<Column>): seq<string>
  {
    DropListFor(cols, 1980, 2011)
  }

  function NotIn(names: seq<string>): Column -> bool
  {
    (c: Column) => c.name !in names
  }

  /** `df.drop(columns=names)`: every column whose name is listed goes, the
      others stay in order; a listed name the sheet lacks is a KeyError (None). */
  function DropColumns(cols: seq<Column>, names: seq<string>): (r: Option<seq<Column>>)
    ensures r.None? <==> exists x :: x in names && x !in ColumnNames(cols)
  {
    if forall x :: x in names ==> x in ColumnNames(cols) then Some(Keep(cols, NotIn(names)))
    else None
  }

  lemma DropListMembers(cols: seq<Column>, lo: nat, hi: nat, x: string)
    ensures x in DropListFor(cols, lo, hi) <==>
      x in MetadataColumns || x in UnnamedColumns(cols) || exists y: nat :: lo <= y < hi && x == ShowNat(y)
  {
    YearNamesMembers(lo, hi, x);
  }

  /** The drop fails exactly when a metadata column or the text of a dropped
      year is not a column name; "Unnamed" columns are present by construction. */
  lemma DropFailsFor(cols: seq<Column>, lo: nat, hi: nat)
    ensures DropColumns(cols, DropListFor(cols, lo, hi)).None? <==>
      (exists m :: m in MetadataColumns && m !in ColumnNames(cols)) ||
      (exists y: nat :: lo <= y < hi && ShowNat(y) !in ColumnNames(cols))
  {
    var names := DropListFor(cols, lo, hi);
    var un := UnnamedColumns(cols);
    forall x | x in un ensures x in ColumnNames(cols) {
      var i :| 0 <= i < |cols| && cols[i].name == x && Contains(x, "Unnamed");
    }
    if exists x :: x in names && x !in ColumnNames(cols) {
      var x :| x in names && x !in ColumnNames(cols);
      DropListMembers(cols, lo, hi, x);
    }
    if exists m :: m in MetadataColumns && m !in ColumnNames(cols) {
      var m :| m in MetadataColumns && m !in ColumnNames(cols);
      DropListMembers(cols, lo, hi, m);
      assert m in names && m !in ColumnNames(cols);
    }
    if exists y: nat :: lo <= y < hi && ShowNat(y) !in ColumnNames(cols) {
      var y: nat :| lo <= y < hi && ShowNat(y) !in ColumnNames(cols);
      DropListMembers(cols, lo, hi, ShowNat(y));
      assert ShowNat(y) in names && ShowNat(y) !in ColumnNames(cols);
    }
  }

  /** When the drop succeeds, the columns left are exactly those that are not
      metadata, whose name does not contain "Unnamed" and is not the text of a
      dropped year, in their order. */
  lemma DropKeepsFor(cols: seq<Column>, lo: nat, hi: nat, c: Column)
    requires DropColumns(cols, DropListFor(cols, lo, hi)).Some?
    ensures c in DropColumns(cols, DropListFor(cols, lo, hi)).value <==>
      c in cols && c.name !in MetadataColumns && !Contains(c.name, "Unnamed") &&
      forall y: nat :: lo <= y < hi ==> c.name != ShowNat(y)
  {
    DropListMembers(cols, lo, hi, c.name);
    if c in cols && Contains(c.name, "Unnamed") {
      var i :| 0 <= i < |cols| && cols[i] == c;
      assert c.name in UnnamedColumns(cols);
    }
  }

  /** The drop of the WEO script fails exactly when a metadata column or a year
      column of 1980 to 2010 is missing; otherwise the columns left are exactly
      those that are none of these and whose name does not contain "Unnamed". */
  lemma DropMeaning(cols: seq<Column>, c: Column)
    ensures DropColumns(cols, DropList(cols)).None? <==>
      (exists m :: m in MetadataColumns && m !in ColumnNames(cols)) ||
      (exists y: nat :: 1980 <= y <= 2010 && ShowNat(y) !in ColumnNames(cols))
    ensures DropColumns(cols, DropList(cols)).Some? ==>
      (c in DropColumns(cols, DropList(cols)).value <==>
        c in cols && c.name !in MetadataColumns && !Contains(c.name, "Unnamed") &&
        forall y: nat :: 1980 <= y <= 2010 ==> c.name != ShowNat(y))
  {
    DropFailsFor(cols, 1980, 2011);
    if DropColumns(cols, DropList(cols)).Some? {
      DropKeepsFor(cols, 1980, 2011, c);
    }
  }

  // ---------------------------------------------------------------------------
  // Cell cleaning

  /** `replace({"n/a": NaN, "NA": NaN, "--": "0"})`: whole-cell matches only. */
  function ReplaceCell(r: Raw): Raw
  {
    match r
    case Text(s) => if s == "n/a" || s == "NA" then NaN else if s == "--" then Text("0") else r
    case Value(_) => r
  }

  function Replaced(cols: seq<Column>): (r: seq<Column>)
    ensures |r| == |cols|
    ensures forall i :: 0 <= i < |cols| ==> r[i].name == cols[i].name && |r[i].cells| == |cols[i].cells|
  {
    seq(|cols|, i requires 0 <= i < |cols| => Column(cols[i].name, MapSeq(cols[i].cells, ReplaceCell)))
  }

  /** `.str.replace(",", "")`: NaN stays NaN. */
  function StripCell(r: Raw): Raw
  {
    match r
    case Text(s) => Text(StripCommas(s))
    case Value(_) => r
  }

  /** `pd.to_numeric(..., errors="coerce")`: text that does not parse is NaN. */
  function NumericCell(r: Raw): (v: Raw)
    ensures v.Value?
  {
    match r
    case Text(s) => Value(ParseNum(s))
    case Value(_) => r
  }

  /** The cell cleaning in full: "n/a" and "NA" become NaN, "--" becomes 0, and
      any other text is read as a number once its commas are gone, NaN when it
      is not one; NaN stays NaN. */
  lemma CleanCellMeaning(s: string)
    ensures NumericCell(StripCell(ReplaceCell(Text(s)))) ==
      Value(if s == "n/a" || s == "NA" then Missing
            else if s == "--" then Num(0.0)
            else ParseNum(StripCommas(s)))
    ensures NumericCell(StripCell(ReplaceCell(NaN))) == NaN
  {
    if s == "--" {
      assert ShowNat(0) == "0";
      ParseNumShowNat(0);
    }
  }

  /** The sheet after the loop over `columns[2:]`: those columns are cleaned,
      the first two are left as they are. */
  function CleanedColumns(cols: seq<Column>): (r: seq<Column>)
    ensures |r| == |cols|
    ensures forall i :: 0 <= i < |cols| ==> r[i].name == cols[i].name && |r[i].cells| == |cols[i].cells|
    ensures forall i, j :: 2 <= i < |cols| && 0 <= j < |cols[i].cells| ==> r[i].cells[j].Value?
  {
    seq(|cols|, i requires 0 <= i < |cols| =>
      if i < 2 then cols[i] else Column(cols[i].name, MapSeq(MapSeq(cols[i].cells, StripCell), NumericCell)))
  }

  /** A sheet changed in place: `rename(..., inplace=True)`,
      `replace(..., inplace=True)` and `df[col] = ...`. */
  class Sheet {
    var columns: seq<Column>

    constructor (columns: seq<Column>)
      ensures this.columns == columns
    {
      this.columns := columns;
    }

    method Rename()
      modifies this
      ensures columns == Renamed(old(columns))
    {
      columns := Renamed(columns);
    }

    method Replace()
      modifies this
      ensures columns == Replaced(old(columns))
    {
      columns := Replaced(columns);
    }

    /** `df[columns[i].name] = cells`. */
    method SetCells(i: nat, cells: seq<Raw>)
      requires i < |columns|
      modifies this
      ensures columns == old(columns)[i := Column(old(columns)[i].name, cells)]
    {
      columns := columns[i := Column(columns[i].name, cells)];
    }
  }

  /** The loop over `columns[2:]`: each column has its commas stripped, then is
      coerced to numbers. */
  method CleanValueColumns(df: Sheet)
    modifies df
    ensures df.columns == CleanedColumns(old(df.columns))
  {
    var i := 2;
    while i < |df.columns|
      invariant |df.columns| == |old(df.columns)|
      invariant forall j :: 0 <= j < |df.columns| ==>
        df.columns[j] == if 2 <= j < i then CleanedColumns(old(df.columns))[j] else old(df.columns)[j]
      decreases |df.columns| - i
    {
      df.SetCells(i, MapSeq(df.columns[i].cells, StripCell));
      df.SetCells(i, MapSeq(df.columns[i].cells, NumericCell));
      i := i + 1;
    }
  }
}
