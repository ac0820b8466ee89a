/**
 The two nested dictionaries the WHDH gold step writes as JSON: region → year
 → rounded mean TEV, built from the years that have data, and country → year
 → rounded mean TEV, where every country starts from its own copy of a
 default dictionary holding NaN for 2018..2023.
 */
module GoldMaps {
  import opened Options
  import opened Cells
  import opened Keys
  import opened Frames
  import opened Grouping
  import opened GoldData

  /** `nan_or_round(val, multiply100, round_val)`: NaN stays NaN (an infinity
      stays an infinity, as `round` leaves it); a number is scaled by 100 when
      asked and rounded half-to-even to `round_val` decimals. */
  function NanOrRound(val: Cell, multiply100: bool, roundVal: nat): (r: Cell)
    ensures r.Missing? <==> val.Missing?
    ensures val.Inf? ==> r == val
    ensures val.Num? ==> r.Num? && OnGrid(r.v, roundVal)
    ensures val.Num? ==> WithinHalfStep(r.v, if multiply100 then val.v * 100.0 else val.v, roundVal)
  {
    match val
    case Missing => Missing
    case Inf(_) => val
    case Num(x) =>
      var scaled := if multiply100 then x * 100.0 else x;
      RoundCell(Num(scaled), roundVal)
  }

  /** A value already on the grid comes back unchanged (times 100 if asked). */
  lemma NanOrRoundOnGrid(x: real, multiply100: bool, roundVal: nat)
    requires OnGrid(if multiply100 then x * 100.0 else x, roundVal)
    ensures NanOrRound(Num(x), multiply100, roundVal) == Num(if multiply100 then x * 100.0 else x)
  {
    RoundHalfEvenOnGrid(if multiply100 then x * 100.0 else x, roundVal);
  }

  /** Rounding keeps order. */
  lemma NanOrRoundMonotone(x: real, y: real, multiply100: bool, roundVal: nat)
    requires x <= y
    ensures NanOrRound(Num(x), multiply100, roundVal).v <= NanOrRound(Num(y), multiply100, roundVal).v
  {
    if multiply100 {
      RoundHalfEvenMonotone(x * 100.0, y * 100.0, roundVal);
    } else {
      RoundHalfEvenMonotone(x, y, roundVal);
    }
  }

  // ---------------------------------------------------------------------------
  // The specification of both loops

  type YearMap = map<int, Cell>

  /** What the loop over `series.items()` leaves: for each entry `(name, year)`,
      the name's dictionary (created from `init` the first time the name is
      seen) gets `year := nan_or_round(value)`. */
  function Nested(series: seq<Entry>, init: YearMap): map<string, YearMap>
  {
    if |series| == 0 then map[]
    else
      var m := Nested(series[..|series| - 1], init);
      var e := series[|series| - 1];
      var inner := if e.key.name in m then m[e.key.name] else init;
      m[e.key.name := inner[e.key.year := NanOrRound(e.value, false, 2)]]
  }

  /** Reading the nested map: a name is present exactly when it occurs in the
      series; its years are those of `init` and those of its entries; a year
      with an entry holds the rounded value of its last entry, any other year
      keeps the value of `init`. */
  lemma {:induction false} NestedLookup(series: seq<Entry>, init: YearMap, c: string, y: int)
    ensures c in Nested(series, init) <==> c in Names(series)
    ensures c in Nested(series, init) ==>
      (y in Nested(series, init)[c] <==> y in init || LastValue(series, Key(c, y)).Some?)
    ensures c in Nested(series, init) && y in Nested(series, init)[c] ==>
      Nested(series, init)[c][y] ==
        if LastValue(series, Key(c, y)).Some? then NanOrRound(LastValue(series, Key(c, y)).value, false, 2) else init[y]
  {
    if |series| > 0 {
      var init' := series[..|series| - 1];
      NestedLookup(init', init, c, y);
      LastValueName(init', Key(c, y));
    }
  }

  lemma {:induction false} LastValueName(es: seq<Entry>, k: Key)
    ensures LastValue(es, k).Some? ==> k.name in Names(es)
  {
    if |es| > 0 {
      LastValueName(es[..|es| - 1], k);
    }
  }

  /** The default dictionary: NaN for each year of `range(2018, 2024)`. */
  function Window(): (w: YearMap)
    ensures forall y :: y in w <==> 2018 <= y <= 2023
    ensures forall y :: y in w ==> w[y].Missing?
  {
    WindowBelow(2024)
  }

  /** NaN for each year from 2018 up to, not including, `end`. */
  function WindowBelow(end: int): (w: YearMap)
    ensures forall y :: y in w <==> 2018 <= y < end
    ensures forall y :: y in w ==> w[y].Missing?
    decreases end - 2018
  {
    if end <= 2018 then map[] else WindowBelow(end - 1)[end - 1 := Missing]
  }

  // ---------------------------------------------------------------------------
  // The comparator (region) dictionary

  /** The comparator loop: a new empty inner dictionary per region, then one
      assignment per entry of the series. */
  method BuildRegionMap(series: seq<Entry>) returns (comparator: map<string, YearMap>)
    ensures comparator == Nested(series, map[])
  {
    comparator := map[];
    for i := 0 to |series|
      invariant comparator == Nested(series[..i], map[])
    {
      var region, year, meanTev := series[i].key.name, series[i].key.year, series[i].value;
      if region !in comparator {
        comparator := comparator[region := map[]];
      }
      comparator := comparator[region := comparator[region][year := NanOrRound(meanTev, false, 2)]];
      assert series[..i + 1][..i] == series[..i];
    }
    assert series[..|series|] == series;
  }

  /** The region dictionary: one key per region with rows, whose years are
      exactly that region's years with rows, each holding the rounded
      NaN-skipping mean TEV of those rows. */
  lemma RegionMapMeaning(gold: seq<Gold>, region: string, year: int)
    ensures var m := Nested(RegionSeries(gold), map[]);
      && (region in m <==> exists i :: 0 <= i < |gold| && gold[i].spending.whoRegion == region)
      && (region in m ==> (year in m[region] <==> Key(region, year) in MapSeq(gold, RegionYear)))
      && (region in m && year in m[region] ==>
            m[region][year] == NanOrRound(Mean(GroupValues(gold, RegionYear, Tev, Key(region, year))), false, 2))
  {
    var s := RegionSeries(gold);
    NestedLookup(s, map[], region, year);
    GroupMeansLookup(gold, RegionYear, Tev, Key(region, year));
    GroupMeansNames(gold, RegionYear, Tev, region);
  }

  // ---------------------------------------------------------------------------
  // The country dictionary

  /** A Python dict from years to values, updated in place. */
  class YearDict {
    var entries: YearMap

    constructor ()
      ensures entries == map[]
    {
      entries := map[];
    }

    method Set(year: int, value: Cell)
      modifies this
      ensures entries == old(entries)[year := value]
    {
      entries := entries[year := value];
    }

    /** `dict.copy()`: a new dictionary with the same entries. */
    method Copy() returns (d: YearDict)
      ensures fresh(d) && d.entries == entries
    {
      d := new YearDict();
      d.entries := entries;
    }
  }

  /** `default_dict`: NaN for 2018..2023, set one year at a time. */
  method DefaultDict() returns (d: YearDict)
    ensures fresh(d) && d.entries == Window()
  {
    d := new YearDict();
    for year := 2018 to 2024
      invariant d.entries == WindowBelow(year)
    {
      d.Set(year, Missing);
    }
  }

  /** The country loop. Each country's dictionary is its own fresh copy of the
      default, so one country's assignments never reach another's. */
  method BuildCountryMap(series: seq<Entry>) returns (countryDict: map<string, YearDict>)
    ensures forall c :: c in countryDict ==> fresh(countryDict[c])
    ensures forall c, d :: c in countryDict && d in countryDict && c != d ==> countryDict[c] != countryDict[d]
    ensures countryDict.Keys == Nested(series, Window()).Keys
    ensures forall c :: c in countryDict ==> countryDict[c].entries == Nested(series, Window())[c]
  {
    var defaultDict := DefaultDict();
    countryDict := map[];
    for i := 0 to |series|
      invariant defaultDict.entries == Window()
      invariant forall c :: c in countryDict ==> fresh(countryDict[c]) && countryDict[c] != defaultDict
      invariant forall c, d :: c in countryDict && d in countryDict && c != d ==> countryDict[c] != countryDict[d]
      invariant countryDict.Keys == Nested(series[..i], Window()).Keys
      invariant forall c :: c in countryDict ==> countryDict[c].entries == Nested(series[..i], Window())[c]
    {
      var country, year, tev := series[i].key.name, series[i].key.year, series[i].value;
      if country !in countryDict {
        var copy := defaultDict.Copy();
        countryDict := countryDict[country := copy];
      }
      countryDict[country].Set(year, NanOrRound(tev, false, 2));
      assert series[..i + 1][..i] == series[..i];
    }
    assert series[..|series|] == series;
  }

  /** The country dictionary: one key per country with rows; every inner map
      holds all of 2018..2023; a year with rows (inside the window or not)
      holds the rounded NaN-skipping mean TEV of those rows, and a window year
      without rows stays NaN. */
  lemma CountryMapMeaning(gold: seq<Gold>, country: string, year: int)
    ensures var m := Nested(CountrySeries(gold), Window());
      && (country in m <==> exists i :: 0 <= i < |gold| && gold[i].spending.country == country)
      && (country in m ==> (year in m[country] <==> 2018 <= year <= 2023 || Key(country, year) in MapSeq(gold, CountryYearOf)))
      && (country in m && Key(country, year) in MapSeq(gold, CountryYearOf) ==>
            m[country][year] == NanOrRound(Mean(GroupValues(gold, CountryYearOf, Tev, Key(country, year))), false, 2))
      && (country in m && 2018 <= year <= 2023 && Key(country, year) !in MapSeq(gold, CountryYearOf) ==>
            m[country][year].Missing?)
  {
    var s := CountrySeries(gold);
    NestedLookup(s, Window(), country, year);
    GroupMeansLookup(gold, CountryYearOf, Tev, Key(country, year));
    GroupMeansNames(gold, CountryYearOf, Tev, country);
  }

  /** Per-group independence: a country's dictionary depends only on that
      country's rows, so adding rows of other countries leaves it unchanged. */
  lemma CountryMapLocal(gold: seq<Gold>, other: seq<Gold>, country: string)
    requires forall i :: 0 <= i < |other| ==> other[i].spending.country != country
    requires exists i :: 0 <= i < |gold| && gold[i].spending.country == country
    ensures var m, m' := Nested(CountrySeries(gold), Window()), Nested(CountrySeries(gold + other), Window());
      country in m && country in m' && m[country] == m'[country]
  {
    var m, m' := Nested(CountrySeries(gold), Window()), Nested(CountrySeries(gold + other), Window());
    CountryMapLocalYear(gold, other, country, 0);
    forall y ensures (y in m[country] <==> y in m'[country]) && (y in m[country] ==> m[country][y] == m'[country][y]) {
      CountryMapLocalYear(gold, other, country, y);
    }
    YearMapsEqual(m[country], m'[country]);
  }

  lemma YearMapsEqual(a: YearMap, b: YearMap)
    requires forall y :: y in a <==> y in b
    requires forall y :: y in a ==> a[y] == b[y]
    ensures a == b
  {
    forall y | y in a ensures a[y] == b[y] {
    }
    forall y ensures y in a <==> y in b {
    }
  }

  lemma CountryMapLocalYear(gold: seq<Gold>, other: seq<Gold>, country: string, year: int)
    requires forall i :: 0 <= i < |other| ==> other[i].spending.country != country
    requires exists i :: 0 <= i < |gold| && gold[i].spending.country == country
    ensures var m, m' := Nested(CountrySeries(gold), Window()), Nested(CountrySeries(gold + other), Window());
      country in m && country in m' &&
      (year in m[country] <==> year in m'[country]) && (year in m[country] ==> m[country][year] == m'[country][year])
  {
    var i :| 0 <= i < |gold| && gold[i].spending.country == country;
    assert (gold + other)[i] == gold[i];
    CountryMapMeaning(gold, country, year);
    CountryMapMeaning(gold + other, country, year);
    GroupValuesLocal(gold, other, country, year);
  }

  lemma GroupValuesLocal(gold: seq<Gold>, other: seq<Gold>, country: string, year: int)
    requires forall i :: 0 <= i < |other| ==> other[i].spending.country != country
    ensures Key(country, year) in MapSeq(gold, CountryYearOf) <==> Key(country, year) in MapSeq(gold + other, CountryYearOf)
    ensures GroupValues(gold, CountryYearOf, Tev, Key(country, year)) == GroupValues(gold + other, CountryYearOf, Tev, Key(country, year))
  {
    var k := Key(country, year);
    var p := InGroup(CountryYearOf, k);
    forall i | 0 <= i < |other| ensures !p(other[i]) {
      assert CountryYearOf(other[i]).name != country;
    }
    KeepAppendNone(gold, other, p);
    var ks, ks' := MapSeq(gold, CountryYearOf), MapSeq(gold + other, CountryYearOf);
    if k in ks' {
      var i :| 0 <= i < |gold + other| && ks'[i] == k;
      assert i < |gold| ==> ks[i] == k;
    }
    if k in ks {
      var i :| 0 <= i < |gold| && ks[i] == k;
      assert ks'[i] == k;
    }
  }

  // ---------------------------------------------------------------------------
  // The whole step

  /** `vaccine_spent_process`: the spending table, then the two dictionaries
      that are written to vaccine_spent_region.json and vaccine_spent_country.json.
      `ok` is false, and nothing is written, when the spending table fails. */
  method VaccineSpentProcess(coverage: seq<CoverageRecord>, population: seq<PopulationRecord>,
                             current: seq<GniRecord>, constant: seq<GniRecord>)
    returns (ok: bool, comparator: map<string, YearMap>, countryDict: map<string, YearDict>)
    ensures ok <==> SpendingTable(coverage, population, current, constant).Some?
    ensures !ok ==> comparator == map[] && countryDict == map[]
    ensures ok ==> var gold := SpendingTable(coverage, population, current, constant).value;
      && comparator == Nested(RegionSeries(gold), map[])
      && countryDict.Keys == Nested(CountrySeries(gold), Window()).Keys
      && (forall c :: c in countryDict ==> countryDict[c].entries == Nested(CountrySeries(gold), Window())[c])
    ensures forall c, d :: c in countryDict && d in countryDict && c != d ==> countryDict[c] != countryDict[d]
  {
    var table := SpendingTable(coverage, population, current, constant);
    if table.None? {
      return false, map[], map[];
    }
    ok := true;
    comparator := BuildRegionMap(RegionSeries(table.value));
    countryDict := BuildCountryMap(CountrySeries(table.value));
  }
}
