/**
 The vaccine-spending gold table of the WHDH pipeline: coverage rows of the
 total vaccine expenditure (TEV) and routine immunisation (TERI) series are
 joined with surviving-infant populations, turned into spending per infant,
 relabelled, rounded, pivoted to one row per (country, year) with a TEV and a
 TERI column, joined back to the country's dimensions, stripped of zero
 spending and joined with two GNI tables. The parquet and CSV inputs are
 parameters of the model.
 */
module GoldData {
  import opened Options
  import opened Cells
  import opened Keys
  import opened Frames
  import opened Grouping

  // ---------------------------------------------------------------------------
  // Coverage

  /** A row of the MT_AD_IA2030 coverage files: the columns the pipeline reads. */
  datatype CoverageRecord = CoverageRecord(
    country: string, nameWorkEn: string, whoRegionC: string, gaviIncomeStatus: string,
    year: int, kind: string, valueTransformed: Cell)

  /** The seven canonical columns the coverage table is projected to. */
  datatype Expenditure = Expenditure(
    countryCode: string, country: string, whoRegion: string, gavi: string,
    year: int, vaccine: string, expenditure: Cell)

  predicate IsSpendingType(c: CoverageRecord)
  {
    c.kind == "TEV" || c.kind == "TERI"
  }

  /** The rename of COUNTRY, NAMEWORKEN, WHOREGIONC, GAVI_INCOME_STATUS, YEAR,
      TYPE and VALUE_TRANSFORMED followed by the projection. */
  function Canonical(c: CoverageRecord): (e: Expenditure)
    ensures e.countryCode == c.country && e.country == c.nameWorkEn && e.whoRegion == c.whoRegionC
    ensures e.gavi == c.gaviIncomeStatus && e.year == c.year && e.vaccine == c.kind && e.expenditure == c.valueTransformed
  {
    Expenditure(c.country, c.nameWorkEn, c.whoRegionC, c.gaviIncomeStatus, c.year, c.kind, c.valueTransformed)
  }

  /** The coverage rows of type TEV or TERI, renamed and projected, in order. */
  function SelectCoverage(cs: seq<CoverageRecord>): (r: seq<Expenditure>)
    ensures |r| <= |cs|
    ensures forall c :: c in cs && IsSpendingType(c) ==> Canonical(c) in r
    ensures forall e :: e in r ==> (e.vaccine == "TEV" || e.vaccine == "TERI")
    ensures forall e :: e in r ==> exists c :: c in cs && Canonical(c) == e
    ensures r == MapSeq(Keep(cs, IsSpendingType), Canonical)
  {
    if |cs| == 0 then []
    else
      var init, c := cs[..|cs| - 1], cs[|cs| - 1];
      assert cs == init + [c];
      var rest := SelectCoverage(init);
      KeepSnoc(init, c, IsSpendingType);
      MapSeqSnoc(Keep(init, IsSpendingType), c, Canonical);
      if IsSpendingType(c) then rest + [Canonical(c)] else rest
  }

  // ---------------------------------------------------------------------------
  // Population

  /** A row of the REF_POPULATION files: the columns the pipeline reads. */
  datatype PopulationRecord = PopulationRecord(
    countryFk: string, year: int, value: Cell,
    popSourceFk: string, genderFk: string, popTypeFk: string)

  datatype InfantCount = InfantCount(countryCode: string, year: int, infant: Cell)

  predicate IsSurvivingInfants(p: PopulationRecord)
  {
    p.popSourceFk == "UNPD2022" && p.genderFk == "BOTH" && p.year > 2010 && p.popTypeFk == "SURVIVING_INFANT"
  }

  function Infants(p: PopulationRecord): InfantCount
  {
    InfantCount(p.countryFk, p.year, p.value)
  }

  /** The UNPD 2022 surviving-infant counts for both sexes after 2010, in order. */
  function SelectPopulation(ps: seq<PopulationRecord>): (r: seq<InfantCount>)
    ensures |r| <= |ps|
    ensures forall p :: p in ps && IsSurvivingInfants(p) ==> Infants(p) in r
    ensures forall q :: q in r ==> q.year > 2010 && exists p :: p in ps && IsSurvivingInfants(p) && Infants(p) == q
    ensures r == MapSeq(Keep(ps, IsSurvivingInfants), Infants)
  {
    if |ps| == 0 then []
    else
      var init, p := ps[..|ps| - 1], ps[|ps| - 1];
      assert ps == init + [p];
      var rest := SelectPopulation(init);
      KeepSnoc(init, p, IsSurvivingInfants);
      MapSeqSnoc(Keep(init, IsSurvivingInfants), p, Infants);
      if IsSurvivingInfants(p) then rest + [Infants(p)] else rest
  }

  // ---------------------------------------------------------------------------
  // Spending per infant

  datatype Immunisation = Immunisation(
    countryCode: string, country: string, whoRegion: string, gavi: string,
    year: int, vaccine: string, expenditure: Cell, infant: Cell, perInfant: Cell)

  predicate SameCountryYear(e: Expenditure, q: InfantCount)
  {
    e.countryCode == q.countryCode && e.year == q.year
  }

  /** A merged row, with `expenditure_per_infant = expenditure / infant`. */
  function WithInfants(e: Expenditure, q: Option<InfantCount>): (r: Immunisation)
    ensures q.None? ==> r.infant.Missing? && r.perInfant.Missing?
    ensures q.Some? ==> r.infant == q.value.infant
    ensures r.perInfant == Div(e.expenditure, r.infant)
    ensures r.vaccine == e.vaccine && r.year == e.year && r.expenditure == e.expenditure
  {
    var infant := if q.Some? then q.value.infant else Missing;
    Immunisation(e.countryCode, e.country, e.whoRegion, e.gavi, e.year, e.vaccine, e.expenditure, infant,
                 Div(e.expenditure, infant))
  }

  function JoinPopulation(es: seq<Expenditure>, qs: seq<InfantCount>): seq<Immunisation>
  {
    LeftJoin(es, qs, SameCountryYear, WithInfants)
  }

  /** The left join keeps every coverage row: once per population row of its
      country and year, or once with a missing infant count and a missing
      spending per infant when there is none. */
  lemma JoinPopulationKeepsCoverage(es: seq<Expenditure>, qs: seq<InfantCount>, e: Expenditure)
    requires e in es
    ensures (forall q :: q in qs ==> !SameCountryYear(e, q)) ==>
      var r := WithInfants(e, None);
      r in JoinPopulation(es, qs) && r.infant.Missing? && r.perInfant.Missing?
    ensures forall q :: q in qs && SameCountryYear(e, q) ==> WithInfants(e, Some(q)) in JoinPopulation(es, qs)
  {
    LeftJoinMembers(es, qs, SameCountryYear, WithInfants, WithInfants(e, None));
    forall q | q in qs && SameCountryYear(e, q) ensures WithInfants(e, Some(q)) in JoinPopulation(es, qs) {
      LeftJoinMembers(es, qs, SameCountryYear, WithInfants, WithInfants(e, Some(q)));
    }
  }

  /** When the population table has at most one row per country and year, the
      join neither adds nor drops rows. */
  lemma JoinPopulationOneToOne(es: seq<Expenditure>, qs: seq<InfantCount>)
    requires forall i :: 0 <= i < |es| ==> |Matches(es[i], qs, SameCountryYear)| <= 1
    ensures |JoinPopulation(es, qs)| == |es|
    ensures forall i :: 0 <= i < |es| ==> JoinPopulation(es, qs)[i].expenditure == es[i].expenditure
  {
    LeftJoinOneToOne(es, qs, SameCountryYear, WithInfants);
  }

  // ---------------------------------------------------------------------------
  // Relabelling and rounding

  /** The region and income labels substituted by `replace`. */
  const UpdateNames: map<string, string> := map[
    "Gavi low income" := "Low Income",
    "non-Gavi middle income" := "MIC (GAVI ineligible)",
    "High income" := "High Income",
    "Gavi low-middle income" := "MIC (GAVI eligible)",
    "AFRO" := "African Region",
    "AMRO" := "Americas Region",
    "EMRO" := "Eastern Mediterranean Region",
    "EURO" := "European Region",
    "SEARO" := "South-East Asian Region",
    "WPRO" := "Western Pacific Region",
    "AFR" := "African Region",
    "AMR" := "Americas Region",
    "EMR" := "Eastern Mediterranean Region",
    "EUR" := "European Region",
    "SEAR" := "South-East Asian Region",
    "WPR" := "Western Pacific Region"
  ]

  /** One text cell under `replace(keys, values)`. */
  function Relabel(s: string): (r: string)
    ensures s in UpdateNames ==> r == UpdateNames[s]
    ensures s !in UpdateNames ==> r == s
  {
    if s in UpdateNames then UpdateNames[s] else s
  }

  /** No label is itself a key, so relabelling is idempotent. */
  lemma RelabelIdempotent(s: string)
    ensures Relabel(Relabel(s)) == Relabel(s)
  {
    if s in UpdateNames {
      LabelsAreNotKeys();
    }
  }

  /** The ten labels, and the two vaccine codes, are not keys of `update_names`. */
  lemma LabelsAreNotKeys()
    ensures forall k :: k in UpdateNames ==> UpdateNames[k] in Labels
    ensures forall v :: v in Labels ==> v !in UpdateNames
    ensures "TEV" !in UpdateNames && "TERI" !in UpdateNames
  {
    ValuesAreLabels();
    NotAKey("Low Income");
    NotAKey("MIC (GAVI ineligible)");
    NotAKey("High Income");
    NotAKey("MIC (GAVI eligible)");
    NotAKey("African Region");
    NotAKey("Americas Region");
    NotAKey("Eastern Mediterranean Region");
    NotAKey("European Region");
    NotAKey("South-East Asian Region");
    NotAKey("Western Pacific Region");
    NotAKey("TEV");
    NotAKey("TERI");
  }

  lemma ValuesAreLabels()
    ensures forall k :: k in UpdateNames ==> UpdateNames[k] in Labels
  {
  }

  lemma NotAKey(v: string)
    requires v in Labels || v == "TEV" || v == "TERI"
    ensures v !in UpdateNames
  {
    if v in IncomeLabels {
      IncomeLabelNotAKey(v);
    } else if v in RegionLabels {
      RegionLabelNotAKey(v);
    }
  }

  lemma IncomeLabelNotAKey(v: string)
    requires v in IncomeLabels
    ensures v !in UpdateNames
  {
  }

  lemma RegionLabelNotAKey(v: string)
    requires v in RegionLabels
    ensures v !in UpdateNames
  {
  }

  const IncomeLabels: set<string> := {"Low Income", "MIC (GAVI ineligible)", "High Income", "MIC (GAVI eligible)"}

  const RegionLabels: set<string> := {"African Region", "Americas Region", "Eastern Mediterranean Region",
    "European Region", "South-East Asian Region", "Western Pacific Region"}

  const Labels: set<string> := IncomeLabels + RegionLabels

  /** `astype({"year": int}).replace(...).round(3)` on one row: every text cell
      relabelled, every numeric cell rounded to three decimals. */
  function Tidy(r: Immunisation): (t: Immunisation)
    ensures t.year == r.year
    ensures t.countryCode == Relabel(r.countryCode) && t.country == Relabel(r.country)
    ensures t.whoRegion == Relabel(r.whoRegion) && t.gavi == Relabel(r.gavi) && t.vaccine == Relabel(r.vaccine)
    ensures t.expenditure == RoundCell(r.expenditure, 3) && t.infant == RoundCell(r.infant, 3)
    ensures t.perInfant == RoundCell(r.perInfant, 3)
  {
    Immunisation(Relabel(r.countryCode), Relabel(r.country), Relabel(r.whoRegion), Relabel(r.gavi), r.year,
                 Relabel(r.vaccine), RoundCell(r.expenditure, 3), RoundCell(r.infant, 3), RoundCell(r.perInfant, 3))
  }

  function TidyAll(rs: seq<Immunisation>): (ts: seq<Immunisation>)
    ensures |ts| == |rs| && forall i :: 0 <= i < |rs| ==> ts[i] == Tidy(rs[i])
  {
    seq(|rs|, i requires 0 <= i < |rs| => Tidy(rs[i]))
  }

  /** Tidying is idempotent: labels are stable and a rounded value is on the grid. */
  lemma TidyIdempotent(r: Immunisation)
    ensures Tidy(Tidy(r)) == Tidy(r)
  {
    RelabelIdempotent(r.countryCode);
    RelabelIdempotent(r.country);
    RelabelIdempotent(r.whoRegion);
    RelabelIdempotent(r.gavi);
    RelabelIdempotent(r.vaccine);
    RoundCellIdempotent(r.expenditure, 3);
    RoundCellIdempotent(r.infant, 3);
    RoundCellIdempotent(r.perInfant, 3);
  }

  lemma RoundCellIdempotent(c: Cell, digits: nat)
    ensures RoundCell(RoundCell(c, digits), digits) == RoundCell(c, digits)
  {
    if c.Num? {
      RoundHalfEvenIdempotent(c.v, digits);
    }
  }

  /** The only vaccine labels left after relabelling are TEV and TERI. */
  lemma TidyVaccines(es: seq<Expenditure>, qs: seq<InfantCount>, r: Immunisation)
    requires r in TidyAll(JoinPopulation(es, qs))
    requires forall e :: e in es ==> (e.vaccine == "TEV" || e.vaccine == "TERI")
    ensures r.vaccine == "TEV" || r.vaccine == "TERI"
  {
    var joined := JoinPopulation(es, qs);
    var i :| 0 <= i < |joined| && TidyAll(joined)[i] == r;
    var o := joined[i];
    assert o in joined;
    LeftJoinMembers(es, qs, SameCountryYear, WithInfants, o);
    var e :| e in es && o.vaccine == e.vaccine;
    NotAKey("TEV");
    NotAKey("TERI");
    assert r.vaccine == Relabel(e.vaccine);
  }

  // ---------------------------------------------------------------------------
  // Dimensions, pivot and the spending table

  datatype Dimension = Dimension(country: string, countryCode: string, whoRegion: string, gavi: string)

  function DimensionOf(r: Immunisation): Dimension
  {
    Dimension(r.country, r.countryCode, r.whoRegion, r.gavi)
  }

  /** `drop_duplicates()`: the first occurrence of each row, in order. */
  function DropDuplicates(ds: seq<Dimension>): (r: seq<Dimension>)
    ensures forall d :: d in r <==> d in ds
    ensures forall i, j :: 0 <= i < j < |r| ==> r[i] != r[j]
    ensures forall i, j, k :: 0 <= i < j < |r| && 0 <= k < |ds| && ds[k] == r[j] ==> r[i] in ds[..k]
  {
    if |ds| == 0 then []
    else
      var init, d := ds[..|ds| - 1], ds[|ds| - 1];
      assert ds == init + [d];
      var rest := DropDuplicates(init);
      if d in rest then rest else rest + [d]
  }

  /** Dropping duplicates from a duplicate-free table changes nothing. */
  lemma {:induction false} DropDuplicatesDistinct(ds: seq<Dimension>)
    requires forall i, j :: 0 <= i < j < |ds| ==> ds[i] != ds[j]
    ensures DropDuplicates(ds) == ds
  {
    if |ds| > 0 {
      var init := ds[..|ds| - 1];
      DropDuplicatesDistinct(init);
      assert ds[|ds| - 1] !in init;
      assert ds == init + [ds[|ds| - 1]];
    }
  }

  function Dimensions(rs: seq<Immunisation>): seq<Dimension>
  {
    DropDuplicates(seq(|rs|, i requires 0 <= i < |rs| => DimensionOf(rs[i])))
  }

  /** One row of the pivot table: a country and year with the mean spending
      per infant of each vaccine column. */
  datatype PivotRow = PivotRow(country: string, year: int, tev: Cell, teri: Cell)

  function CountryYear(r: Immunisation): Key
  {
    Key(r.country, r.year)
  }

  /** The spending per infant of the rows of one (country, year) and vaccine. */
  function SpendValues(rs: seq<Immunisation>, k: Key, vaccine: string): seq<Cell>
  {
    var g := Keep(rs, (r: Immunisation) => CountryYear(r) == k && r.vaccine == vaccine);
    seq(|g|, i requires 0 <= i < |g| => g[i].perInfant)
  }

  function PivotRowAt(rs: seq<Immunisation>, k: Key): PivotRow
  {
    PivotRow(k.name, k.year, Mean(SpendValues(rs, k, "TEV")), Mean(SpendValues(rs, k, "TERI")))
  }

  /** The pivot rows of the given keys, skipping those whose every mean is NaN. */
  function PivotRows(rs: seq<Immunisation>, ks: seq<Key>): (ps: seq<PivotRow>)
    ensures forall p :: p in ps ==> !(p.tev.Missing? && p.teri.Missing?)
    ensures forall p :: p in ps <==> exists k :: k in ks && p == PivotRowAt(rs, k) && !(p.tev.Missing? && p.teri.Missing?)
  {
    if |ks| == 0 then []
    else
      var init, k := ks[..|ks| - 1], ks[|ks| - 1];
      assert ks == init + [k];
      var rest := PivotRows(rs, init);
      var p := PivotRowAt(rs, k);
      if p.tev.Missing? && p.teri.Missing? then rest else rest + [p]
  }

  /** `pivot_table(values="expenditure_per_infant", index=["country", "year"],
      columns="vaccine").reset_index()`: groups in ascending key order; a group
      whose mean is NaN is dropped before unstacking, so a (country, year) is
      kept exactly when one of its vaccine means is not NaN. */
  function Pivot(rs: seq<Immunisation>): (ps: seq<PivotRow>)
    ensures StrictlySorted(PivotKeys(ps))
    ensures forall p :: p in ps ==> !(p.tev.Missing? && p.teri.Missing?)
  {
    PivotRowsSorted(rs, SortKeys(RowKeys(rs)));
    PivotRows(rs, SortKeys(RowKeys(rs)))
  }

  function RowKeys(rs: seq<Immunisation>): (ks: seq<Key>)
    ensures |ks| == |rs| && forall i :: 0 <= i < |rs| ==> ks[i] == CountryYear(rs[i])
  {
    seq(|rs|, i requires 0 <= i < |rs| => CountryYear(rs[i]))
  }

  function PivotKeys(ps: seq<PivotRow>): seq<Key>
  {
    seq(|ps|, i requires 0 <= i < |ps| => Key(ps[i].country, ps[i].year))
  }

  /** The pivot rows come in strictly ascending (country, year) order. */
  lemma {:induction false} PivotRowsSorted(rs: seq<Immunisation>, ks: seq<Key>)
    requires StrictlySorted(ks)
    ensures StrictlySorted(PivotKeys(PivotRows(rs, ks)))
    ensures forall k :: k in PivotKeys(PivotRows(rs, ks)) ==> k in ks
  {
    if |ks| > 0 {
      var init, k := ks[..|ks| - 1], ks[|ks| - 1];
      assert ks == init + [k];
      assert StrictlySorted(init);
      PivotRowsSorted(rs, init);
      PivotRowsSortedStep(rs, init, k);
    }
  }

  lemma PivotRowsSortedStep(rs: seq<Immunisation>, init: seq<Key>, k: Key)
    requires StrictlySorted(init + [k])
    requires StrictlySorted(PivotKeys(PivotRows(rs, init)))
    requires forall x :: x in PivotKeys(PivotRows(rs, init)) ==> x in init
    ensures StrictlySorted(PivotKeys(PivotRows(rs, init + [k])))
    ensures forall x :: x in PivotKeys(PivotRows(rs, init + [k])) ==> x in init + [k]
  {
    var p := PivotRowAt(rs, k);
    PivotRowsSnoc(rs, init, k);
    if !(p.tev.Missing? && p.teri.Missing?) {
      PivotKeysSnoc(PivotRows(rs, init), p, init, k);
    }
  }

  /** One more key adds its pivot row unless every mean of it is NaN. */
  lemma PivotRowsSnoc(rs: seq<Immunisation>, init: seq<Key>, k: Key)
    ensures var p := PivotRowAt(rs, k);
      PivotRows(rs, init + [k]) == if p.tev.Missing? && p.teri.Missing? then PivotRows(rs, init) else PivotRows(rs, init) + [p]
  {
    var ks := init + [k];
    assert ks[..|ks| - 1] == init && ks[|ks| - 1] == k;
  }

  lemma PivotKeysSnoc(rest: seq<PivotRow>, p: PivotRow, init: seq<Key>, k: Key)
    requires Key(p.country, p.year) == k
    requires StrictlySorted(init + [k]) && StrictlySorted(PivotKeys(rest))
    requires forall x :: x in PivotKeys(rest) ==> x in init
    ensures StrictlySorted(PivotKeys(rest + [p]))
    ensures forall x :: x in PivotKeys(rest + [p]) ==> x in init + [k]
  {
    assert PivotKeys(rest + [p]) == PivotKeys(rest) + [k];
    SortedSelectionSnoc(PivotKeys(rest), init, k);
  }

  /** What the pivot holds: one row per (country, year) that has a spending row
      and a vaccine mean that is not NaN, in ascending order, with the means. */
  lemma PivotMeaning(rs: seq<Immunisation>)
    ensures StrictlySorted(PivotKeys(Pivot(rs)))
    ensures forall p :: p in Pivot(rs) <==>
      (exists i :: 0 <= i < |rs| && p == PivotRowAt(rs, CountryYear(rs[i]))) && !(p.tev.Missing? && p.teri.Missing?)
  {
    var ks := SortKeys(RowKeys(rs));
    PivotRowsSorted(rs, ks);
    forall p ensures p in Pivot(rs) <==>
      (exists i :: 0 <= i < |rs| && p == PivotRowAt(rs, CountryYear(rs[i]))) && !(p.tev.Missing? && p.teri.Missing?)
    {
      PivotMember(rs, ks, p);
    }
  }

  lemma PivotMember(rs: seq<Immunisation>, ks: seq<Key>, p: PivotRow)
    requires ks == SortKeys(RowKeys(rs))
    ensures p in PivotRows(rs, ks) <==>
      (exists i :: 0 <= i < |rs| && p == PivotRowAt(rs, CountryYear(rs[i]))) && !(p.tev.Missing? && p.teri.Missing?)
  {
    var rk := RowKeys(rs);
    if p in PivotRows(rs, ks) {
      var k :| k in ks && p == PivotRowAt(rs, k);
      assert k in rk;
      var i :| 0 <= i < |rs| && rk[i] == k;
    }
    if exists i :: 0 <= i < |rs| && p == PivotRowAt(rs, CountryYear(rs[i])) {
      var i :| 0 <= i < |rs| && p == PivotRowAt(rs, CountryYear(rs[i]));
      assert rk[i] in rk;
    }
  }

  /** A row of the spending table: dimensions, year, the two vaccine columns
      and, after the GNI joins, the two GNI columns. */
  datatype Spending = Spending(
    country: string, countryCode: string, whoRegion: string, gavi: string,
    year: int, tev: Cell, teri: Cell)

  predicate SameCountry(d: Dimension, p: PivotRow)
  {
    d.country == p.country
  }

  function Combine(d: Dimension, p: PivotRow): Spending
  {
    Spending(d.country, d.countryCode, d.whoRegion, d.gavi, p.year, p.tev, p.teri)
  }

  /** `pd.merge(dimension_df, pivot_df, on=["country"])`. */
  function JoinDimensions(ds: seq<Dimension>, ps: seq<PivotRow>): seq<Spending>
  {
    InnerJoin(ds, ps, SameCountry, Combine)
  }

  /** Every merged row pairs a dimension row with a pivot row of the same country. */
  lemma JoinDimensionsMeaning(ds: seq<Dimension>, ps: seq<PivotRow>, s: Spending)
    ensures s in JoinDimensions(ds, ps) <==> exists d, p :: d in ds && p in ps && d.country == p.country && s == Combine(d, p)
  {
    InnerJoinMembers(ds, ps, SameCountry, Combine, s);
  }

  /** `x != 0` in pandas: NaN is not equal to zero. */
  predicate NonZero(c: Cell)
  {
    c != Num(0.0)
  }

  predicate SpendsSomething(s: Spending)
  {
    NonZero(s.tev) && NonZero(s.teri)
  }

  /** The rows whose TEV and TERI are both different from zero, in order. */
  function DropZeroSpending(ss: seq<Spending>): (r: seq<Spending>)
    ensures forall s :: s in r <==> s in ss && s.tev != Num(0.0) && s.teri != Num(0.0)
    ensures forall s :: s in ss && s.tev.Missing? && s.teri.Missing? ==> s in r
  {
    Keep(ss, SpendsSomething)
  }

  // ---------------------------------------------------------------------------
  // GNI

  datatype GniRecord = GniRecord(countryCode: string, year: int, value: Cell)

  datatype Gold = Gold(spending: Spending, currentGni: Cell, constantGni: Cell)

  predicate GniMatches(s: Spending, g: GniRecord)
  {
    s.countryCode == g.countryCode && s.year == g.year
  }

  predicate GoldGniMatches(s: Gold, g: GniRecord)
  {
    GniMatches(s.spending, g)
  }

  function GniValue(g: Option<GniRecord>): (c: Cell)
    ensures g.None? ==> c.Missing?
  {
    if g.Some? then g.value.value else Missing
  }

  function WithCurrentGni(s: Spending, g: Option<GniRecord>): Gold
  {
    Gold(s, GniValue(g), Missing)
  }

  function WithConstantGni(s: Gold, g: Option<GniRecord>): Gold
  {
    s.(constantGni := GniValue(g))
  }

  /** The two left merges with the current and the constant-2015 GNI tables. */
  function JoinGni(ss: seq<Spending>, current: seq<GniRecord>, constant: seq<GniRecord>): seq<Gold>
  {
    LeftJoin(LeftJoin(ss, current, GniMatches, WithCurrentGni), constant, GoldGniMatches, WithConstantGni)
  }

  /** A spending row with no GNI row for its country and year survives the
      joins once, with both GNI columns missing. */
  lemma JoinGniUnmatched(ss: seq<Spending>, current: seq<GniRecord>, constant: seq<GniRecord>, s: Spending)
    requires s in ss
    requires forall g :: g in current ==> !GniMatches(s, g)
    requires forall g :: g in constant ==> !GniMatches(s, g)
    ensures Gold(s, Missing, Missing) in JoinGni(ss, current, constant)
  {
    var mid := LeftJoin(ss, current, GniMatches, WithCurrentGni);
    LeftJoinMembers(ss, current, GniMatches, WithCurrentGni, Gold(s, Missing, Missing));
    LeftJoinMembers(mid, constant, GoldGniMatches, WithConstantGni, Gold(s, Missing, Missing));
    assert WithConstantGni(Gold(s, Missing, Missing), None) == Gold(s, Missing, Missing);
  }

  /** The GNI joins never invent spending: each of their rows carries a row of the input. */
  lemma JoinGniKeepsSpending(ss: seq<Spending>, current: seq<GniRecord>, constant: seq<GniRecord>, o: Gold)
    requires o in JoinGni(ss, current, constant)
    ensures o.spending in ss
  {
    var mid := LeftJoin(ss, current, GniMatches, WithCurrentGni);
    LeftJoinMembers(mid, constant, GoldGniMatches, WithConstantGni, o);
    var m :| m in mid && (o == WithConstantGni(m, None) ||
      exists g :: g in constant && GoldGniMatches(m, g) && o == WithConstantGni(m, Some(g)));
    LeftJoinMembers(ss, current, GniMatches, WithCurrentGni, m);
  }

  // ---------------------------------------------------------------------------
  // The whole table

  /** `pivot_table` drops a vaccine column whose every mean is NaN, so the
      pivot has a TEV and a TERI column exactly when some row of it has a TEV
      mean and some row has a TERI mean. */
  predicate HasSpendingColumns(ps: seq<PivotRow>)
  {
    (exists p :: p in ps && !p.tev.Missing?) && (exists p :: p in ps && !p.teri.Missing?)
  }

  /** The rows `immune_exp_df` holds before the zero filter. */
  function Immune(coverage: seq<CoverageRecord>, population: seq<PopulationRecord>): seq<Immunisation>
  {
    TidyAll(JoinPopulation(SelectCoverage(coverage), SelectPopulation(population)))
  }

  /** The table `immune_exp_df` holds when the comparator series are built,
      or `None` when the zero filter's `immune_exp_df["TEV"]` or
      `immune_exp_df["TERI"]` raises a KeyError because the pivot lacks that
      column. */
  function SpendingTable(coverage: seq<CoverageRecord>, population: seq<PopulationRecord>,
                         current: seq<GniRecord>, constant: seq<GniRecord>): (r: Option<seq<Gold>>)
    ensures r.Some? <==> HasSpendingColumns(Pivot(Immune(coverage, population)))
  {
    var immune := Immune(coverage, population);
    var pivot := Pivot(immune);
    if !HasSpendingColumns(pivot) then None
    else
      var spending := DropZeroSpending(JoinDimensions(Dimensions(immune), pivot));
      Some(JoinGni(spending, current, constant))
  }

  /** No row of the spending table has a zero TEV or a zero TERI. */
  lemma SpendingTableNoZeros(coverage: seq<CoverageRecord>, population: seq<PopulationRecord>,
                             current: seq<GniRecord>, constant: seq<GniRecord>)
    ensures var t := SpendingTable(coverage, population, current, constant);
      t.Some? ==> forall o :: o in t.value ==> o.spending.tev != Num(0.0) && o.spending.teri != Num(0.0)
  {
    var t := SpendingTable(coverage, population, current, constant);
    if t.Some? {
      var immune := Immune(coverage, population);
      var spending := DropZeroSpending(JoinDimensions(Dimensions(immune), Pivot(immune)));
      forall o | o in t.value ensures o.spending.tev != Num(0.0) && o.spending.teri != Num(0.0) {
        JoinGniKeepsSpending(spending, current, constant, o);
      }
    }
  }

  /** Without a coverage row of the given vaccine no pivot row has a mean for
      it: its spending values are empty for every (country, year). */
  lemma PivotLacksVaccine(coverage: seq<CoverageRecord>, population: seq<PopulationRecord>,
                          vaccine: string)
    requires vaccine == "TEV" || vaccine == "TERI"
    requires forall c :: c in coverage ==> c.kind != vaccine
    ensures forall p :: p in Pivot(Immune(coverage, population)) ==>
      (vaccine == "TEV" ==> p.tev.Missing?) && (vaccine == "TERI" ==> p.teri.Missing?)
  {
    var es := SelectCoverage(coverage);
    var immune := Immune(coverage, population);
    forall e | e in es ensures e.vaccine != vaccine {
      var c :| c in coverage && Canonical(c) == e;
    }
    forall r | r in immune ensures r.vaccine != vaccine {
      TidyKeepsVaccine(es, SelectPopulation(population), vaccine, r);
    }
    forall p | p in Pivot(immune)
      ensures (vaccine == "TEV" ==> p.tev.Missing?) && (vaccine == "TERI" ==> p.teri.Missing?)
    {
      var k :| k in SortKeys(RowKeys(immune)) && p == PivotRowAt(immune, k);
      NoSpendValues(immune, k, vaccine);
    }
  }

  lemma NoSpendValues(rs: seq<Immunisation>, k: Key, vaccine: string)
    requires forall r :: r in rs ==> r.vaccine != vaccine
    ensures SpendValues(rs, k, vaccine) == []
  {
    var f := (r: Immunisation) => CountryYear(r) == k && r.vaccine == vaccine;
    KeepNone(rs, f);
  }

  /** Relabelling never turns another vaccine label into TEV or TERI. */
  lemma TidyKeepsVaccine(es: seq<Expenditure>, qs: seq<InfantCount>, vaccine: string, r: Immunisation)
    requires vaccine == "TEV" || vaccine == "TERI"
    requires forall e :: e in es ==> e.vaccine != vaccine
    requires r in TidyAll(JoinPopulation(es, qs))
    ensures r.vaccine != vaccine
  {
    var joined := JoinPopulation(es, qs);
    var i :| 0 <= i < |joined| && TidyAll(joined)[i] == r;
    var o := joined[i];
    assert o in joined;
    LeftJoinMembers(es, qs, SameCountryYear, WithInfants, o);
    var e :| e in es && o.vaccine == e.vaccine;
    RelabelOnlyFixesVaccine(e.vaccine, vaccine);
  }

  lemma RelabelOnlyFixesVaccine(s: string, vaccine: string)
    requires vaccine == "TEV" || vaccine == "TERI"
    ensures Relabel(s) == vaccine ==> s == vaccine
  {
    if s in UpdateNames {
      ValuesAreLabels();
      VaccineNotALabel(vaccine);
    }
  }

  lemma VaccineNotALabel(vaccine: string)
    requires vaccine == "TEV" || vaccine == "TERI"
    ensures vaccine !in Labels
  {
    assert vaccine !in IncomeLabels;
    assert vaccine !in RegionLabels;
  }

  /** Coverage without a TEV row, or without a TERI row, makes the zero filter
      fail. */
  lemma SpendingTableNeedsBothVaccines(coverage: seq<CoverageRecord>, population: seq<PopulationRecord>,
                                       current: seq<GniRecord>, constant: seq<GniRecord>)
    requires (forall c :: c in coverage ==> c.kind != "TEV") || (forall c :: c in coverage ==> c.kind != "TERI")
    ensures SpendingTable(coverage, population, current, constant).None?
  {
    var vaccine := if forall c :: c in coverage ==> c.kind != "TEV" then "TEV" else "TERI";
    PivotLacksVaccine(coverage, population, vaccine);
  }

  function RegionYear(g: Gold): Key
  {
    Key(g.spending.whoRegion, g.spending.year)
  }

  function CountryYearOf(g: Gold): Key
  {
    Key(g.spending.country, g.spending.year)
  }

  function Tev(g: Gold): Cell
  {
    g.spending.tev
  }

  /** `groupby(["WHO_region", "year"])["TEV"].mean()`. */
  function RegionSeries(gold: seq<Gold>): seq<Entry>
  {
    GroupMeans(gold, RegionYear, Tev)
  }

  /** `groupby(["country", "year"])["TEV"].mean()`. */
  function CountrySeries(gold: seq<Gold>): seq<Entry>
  {
    GroupMeans(gold, CountryYearOf, Tev)
  }
}
