/**
 * The analyzer of analyzer.py: the historical table held by an `Analyzer`
 * object, the operations that read and update it, the month-over-month and
 * year-to-date comparison, and the alerts raised on large moves.
 */
module Analysis {
  import opened Wrappers
  import opened Calendar
  import opened Dicts
  import opened Config
  import opened Utils
  import opened Store

  // --------------------------------------------------------------- alerts

  datatype Period = MonthOverMonth | YearToDate
  datatype Direction = Hausse | Baisse

  /** One alert line: its period, the maturity, the direction and the move in basis points. */
  datatype Alert = Alert(period: Period, maturity: nat, direction: Direction, bps: real)

  function Abs(x: real): real {
    if x < 0.0 then -x else x
  }

  /** "hausse" for a strictly positive move, "baisse" otherwise (a zero move only alerts under a zero threshold). */
  function DirectionOf(bps: real): Direction {
    if bps > 0.0 then Hausse else Baisse
  }

  /** The alerts of one period, in the order of its change dictionary; the VA entry never alerts. */
  function AlertsFor(period: Period, changes: Dict<DeltaKey, real>, threshold: real): seq<Alert> {
    if changes == [] then []
    else
      var n := |changes| - 1;
      AlertsFor(period, changes[..n], threshold)
      + if changes[n].0.MaturityKey? && Abs(changes[n].1) >= threshold
        then [Alert(period, changes[n].0.maturity, DirectionOf(changes[n].1), changes[n].1)]
        else []
  }

  /** `_detect_alerts`: the month-over-month alerts, then the year-to-date alerts. */
  function AlertsOf(s: Summary, cfg: Config): seq<Alert> {
    AlertsFor(MonthOverMonth, s.changesMom, cfg.alertThresholdMom) + AlertsFor(YearToDate, s.changesYtd, cfg.alertThresholdYtd)
  }

  /** An alert is raised exactly for a maturity move at or beyond the threshold, pointing the way the rate moved. */
  lemma {:induction false} AlertsForExactly(period: Period, changes: Dict<DeltaKey, real>, threshold: real, a: Alert)
    ensures a in AlertsFor(period, changes, threshold)
        <==> && a.period == period
             && (MaturityKey(a.maturity), a.bps) in changes
             && Abs(a.bps) >= threshold
             && a.direction == (if a.bps > 0.0 then Hausse else Baisse)
  {
    if changes != [] {
      var n := |changes| - 1;
      AlertsForExactly(period, changes[..n], threshold, a);
      assert changes == changes[..n] + [changes[n]];
    }
  }

  /** Every month-over-month alert comes before every year-to-date alert. */
  lemma MomAlertsFirst(s: Summary, cfg: Config)
    ensures forall i, j :: 0 <= i < j < |AlertsOf(s, cfg)| && AlertsOf(s, cfg)[i].period == YearToDate
              ==> AlertsOf(s, cfg)[j].period == YearToDate
  {
    var mom := AlertsFor(MonthOverMonth, s.changesMom, cfg.alertThresholdMom);
    var ytd := AlertsFor(YearToDate, s.changesYtd, cfg.alertThresholdYtd);
    var all := mom + ytd;
    forall i | 0 <= i < |all|
      ensures i < |mom| ==> all[i].period == MonthOverMonth
      ensures i >= |mom| ==> all[i].period == YearToDate
    {
      if i < |mom| {
        assert all[i] == mom[i] && mom[i] in mom;
        AlertsForExactly(MonthOverMonth, s.changesMom, cfg.alertThresholdMom, all[i]);
      } else {
        assert all[i] == ytd[i - |mom|] && ytd[i - |mom|] in ytd;
        AlertsForExactly(YearToDate, s.changesYtd, cfg.alertThresholdYtd, all[i]);
      }
    }
  }

  // ------------------------------------------------------------- analysis

  /** The `analyze` result: the summary, the dates of the two anchors used, and the alerts. */
  datatype AnalysisResult = AnalysisResult(summary: Summary, previousDate: Option<Date>, ytdDate: Option<Date>, alerts: seq<Alert>)

  function RatesOf(o: Option<Observation>): Option<Dict<nat, real>> {
    if o.Some? then Some(o.value.rates) else None
  }

  function VaOf(o: Option<Observation>): Option<real> {
    if o.Some? then o.value.va else None
  }

  function DateOf(o: Option<Observation>): Option<Date> {
    if o.Some? then Some(o.value.referenceDate) else None
  }

  /** What `analyze` builds from the current record and the two anchor records it found. */
  function AnalysisOf(current: Observation, previous: Option<Observation>, ytd: Option<Observation>, cfg: Config)
    : Result<AnalysisResult, SummaryError>
  {
    match SummaryOf(current.referenceDate, current.country, current.rates, current.va,
                    RatesOf(previous), VaOf(previous), RatesOf(ytd), VaOf(ytd))
    case Err(e) => Err(e)
    case Ok(s) => Ok(AnalysisResult(s, DateOf(previous), DateOf(ytd), AlertsOf(s, cfg)))
  }

  /** With no anchor in either window the analysis has no deltas and no alerts. */
  lemma FirstRunAnalysis(current: Observation, cfg: Config)
    ensures AnalysisOf(current, None, None, cfg)
         == Ok(AnalysisResult(Summary(current.referenceDate, current.country, current.rates, current.va, [], []), None, None, []))
  {
    var s := Summary(current.referenceDate, current.country, current.rates, current.va, [], []);
    assert SummaryOf(current.referenceDate, current.country, current.rates, current.va, None, None, None, None) == Ok(s);
    assert AlertsOf(s, cfg) == [];
  }

  /**
   * A month-over-month alert names a maturity quoted both now and at the previous
   * anchor whose move reaches the threshold; a year-to-date alert likewise.
   */
  lemma AnalysisAlertsSound(current: Observation, previous: Option<Observation>, ytd: Option<Observation>, cfg: Config, a: Alert)
    requires AnalysisOf(current, previous, ytd, cfg).Ok?
    requires a in AnalysisOf(current, previous, ytd, cfg).value.alerts
    ensures var anchor := if a.period == MonthOverMonth then previous else ytd;
      && anchor.Some?
      && HasKey(current.rates, a.maturity) && HasKey(anchor.value.rates, a.maturity)
      && Abs(a.bps) >= (if a.period == MonthOverMonth then cfg.alertThresholdMom else cfg.alertThresholdYtd)
  {
    var r := AnalysisOf(current, previous, ytd, cfg).value;
    var s := r.summary;
    var mom := AlertsFor(MonthOverMonth, s.changesMom, cfg.alertThresholdMom);
    var ytdAlerts := AlertsFor(YearToDate, s.changesYtd, cfg.alertThresholdYtd);
    assert r.alerts == mom + ytdAlerts;
    if a in mom {
      AlertsForExactly(MonthOverMonth, s.changesMom, cfg.alertThresholdMom, a);
      AlertsForExactly(YearToDate, s.changesYtd, cfg.alertThresholdYtd, a);
      ChangesKeys(current.rates, current.va, RatesOf(previous), VaOf(previous), a.maturity);
      assert HasKey(s.changesMom, MaturityKey(a.maturity));
    } else {
      assert a in ytdAlerts;
      AlertsForExactly(YearToDate, s.changesYtd, cfg.alertThresholdYtd, a);
      ChangesKeys(current.rates, current.va, RatesOf(ytd), VaOf(ytd), a.maturity);
      assert HasKey(s.changesYtd, MaturityKey(a.maturity));
    }
  }

  /**
   * The record rebuilt from a stored row, as `get_historical_data` and the two
   * anchor lookups do: the loop over the maturities keeps the non-null cells.
   */
  method ReadObservation(row: Row, maturities: seq<nat>) returns (o: Observation)
    requires |row.cells| == |maturities|
    ensures o == RowObservation(row, maturities)
  {
    var rates: Dict<nat, real> := [];
    for i := 0 to |maturities|
      invariant rates == NonNullRates(maturities[..i], row.cells[..i])
    {
      assert maturities[..i + 1][..i] == maturities[..i];
      assert row.cells[..i + 1][..i] == row.cells[..i];
      if row.cells[i].Some? {
        rates := rates + [(maturities[i], row.cells[i].value)];
      }
    }
    assert maturities[..|maturities|] == maturities;
    assert row.cells[..|maturities|] == row.cells;
    o := Observation(row.date, row.country, rates, row.va);
  }

  // ------------------------------------------------------------ the store

  /** `EIOPAAnalyzer`: the historical table and the state of its backing file. */
  class Analyzer {
    const config: Config
    /** `historical_data`. */
    var rows: seq<Row>
    /** The table last written to the backing file; `None` while no file exists. */
    var persisted: Option<seq<Row>>

    ghost predicate Valid()
      reads this
    {
      ValidConfig(config) && StoreInvariant(rows, config.maturities)
    }

    /** A new analyzer over a backing file that does not exist yet: the empty table. */
    constructor (config: Config)
      requires ValidConfig(config)
      ensures Valid()
      ensures this.config == config && rows == [] && persisted == None
    {
      this.config := config;
      rows := [];
      persisted := None;
    }

    /** `save_historical`: the write either replaces the file's contents or fails and leaves them. */
    method SaveHistorical(writeSucceeded: bool)
      modifies this`persisted
      ensures persisted == if writeSucceeded then Some(rows) else old(persisted)
    {
      if writeSucceeded {
        persisted := Some(rows);
      }
    }

    /** `add_to_historical`: upsert the record by (date, country), keep the table in date order, save it. */
    method AddToHistorical(obs: Observation, writeSucceeded: bool)
      requires Valid()
      modifies this
      ensures Valid()
      ensures rows == Upsert(old(rows), config.maturities, obs)
      ensures persisted == if writeSucceeded then Some(rows) else old(persisted)
    {
      var maturities := config.maturities;
      var cells: seq<Option<real>> := [];
      for m := 0 to |maturities|
        invariant cells == NewCells(maturities, obs.rates)[..m]
      {
        cells := cells + [Get(obs.rates, maturities[m])];
      }
      assert cells == NewCells(maturities, obs.rates);
      UpsertPreservesInvariant(rows, maturities, obs);

      var i := 0;
      while i < |rows| && !HasKeyOf(rows[i], obs.referenceDate, obs.country)
        invariant 0 <= i <= |rows|
        invariant forall j :: 0 <= j < i ==> !HasKeyOf(rows[j], obs.referenceDate, obs.country)
      {
        i := i + 1;
      }
      if i < |rows| {
        assert FindKey(rows, obs.referenceDate, obs.country) == Some(i);
        rows := rows[i := rows[i].(cells := cells, va := obs.va)];
      } else {
        var row := Row(obs.referenceDate, obs.country, cells, obs.va, map[]);
        var k := |rows|;
        assert rows[..k] == rows;
        while k > 0 && Ordinal(rows[k - 1].date) > Ordinal(row.date)
          invariant 0 <= k <= |rows|
          invariant InsertPos(rows, row.date) == InsertPos(rows[..k], row.date)
        {
          assert rows[..k][..k - 1] == rows[..k - 1];
          k := k - 1;
        }
        InsertByDateAt(rows, row);
        rows := rows[..k] + [row] + rows[k..];
      }
      SaveHistorical(writeSucceeded);
    }

    /** `get_historical_data`: the record stored under exactly this key. */
    method GetHistoricalData(country: string, date: Date) returns (r: Option<Observation>)
      requires Valid()
      ensures r == HistoricalData(rows, config.maturities, country, date)
      ensures r.Some? ==> r.value.referenceDate == date && r.value.country == country
    {
      for i := 0 to |rows|
        invariant forall j :: 0 <= j < i ==> !HasKeyOf(rows[j], date, country)
      {
        if HasKeyOf(rows[i], date, country) {
          assert FindKey(rows, date, country) == Some(i);
          var o := ReadObservation(rows[i], config.maturities);
          return Some(o);
        }
      }
      return None;
    }

    /** The row of the country closest to the anchor day, within `tolerance` days either side. */
    method ClosestInWindow(country: string, anchor: int, tolerance: nat) returns (r: Option<Observation>)
      requires Valid()
      ensures ResolvesAnchor(rows, config.maturities, country, anchor, tolerance, r)
    {
      var best: Option<nat> := None;
      for j := 0 to |rows|
        invariant best.None? <==> forall k :: 0 <= k < j ==> !InWindow(rows[k], country, anchor, tolerance)
        invariant best.Some? ==> best.value < j && InWindow(rows[best.value], country, anchor, tolerance)
        invariant best.Some? ==> forall k :: 0 <= k < j && InWindow(rows[k], country, anchor, tolerance)
                                   ==> Distance(rows[best.value], anchor) <= Distance(rows[k], anchor)
      {
        if InWindow(rows[j], country, anchor, tolerance) && (best.None? || Distance(rows[j], anchor) < Distance(rows[best.value], anchor)) {
          best := Some(j);
        }
      }
      if best.None? {
        return None;
      }
      assert IsClosest(rows, country, anchor, tolerance, best.value);
      var o := ReadObservation(rows[best.value], config.maturities);
      return Some(o);
    }

    /** `get_previous_month_data`: the closest record within the month-over-month window around the previous month-end. */
    method GetPreviousMonthData(currentDate: Date, country: string) returns (r: Option<Observation>)
      requires Valid()
      ensures ResolvesAnchor(rows, config.maturities, country, Ordinal(PreviousMonthEnd(currentDate)), config.momWindow, r)
    {
      var target := PreviousMonthEnd(currentDate);
      r := ClosestInWindow(country, Ordinal(target), config.momWindow);
    }

    /** `get_ytd_data`: the closest record within the year-to-date window around January 1. */
    method GetYtdData(currentDate: Date, country: string) returns (r: Option<Observation>)
      requires Valid()
      ensures ResolvesAnchor(rows, config.maturities, country, Ordinal(YearStart(currentDate)), config.ytdWindow, r)
    {
      var target := YearStart(currentDate);
      r := ClosestInWindow(country, Ordinal(target), config.ytdWindow);
    }

    /** `_detect_alerts`, over the two change dictionaries of a summary. */
    method DetectAlerts(summary: Summary) returns (alerts: seq<Alert>)
      ensures alerts == AlertsOf(summary, config)
    {
      alerts := [];
      var mom := summary.changesMom;
      for i := 0 to |mom|
        invariant alerts == AlertsFor(MonthOverMonth, mom[..i], config.alertThresholdMom)
      {
        assert mom[..i + 1][..i] == mom[..i];
        var (key, bps) := mom[i];
        if key.MaturityKey? && Abs(bps) >= config.alertThresholdMom {
          alerts := alerts + [Alert(MonthOverMonth, key.maturity, DirectionOf(bps), bps)];
        }
      }
      assert mom[..|mom|] == mom;
      var momAlerts := alerts;
      var ytd := summary.changesYtd;
      for i := 0 to |ytd|
        invariant alerts == momAlerts + AlertsFor(YearToDate, ytd[..i], config.alertThresholdYtd)
      {
        assert ytd[..i + 1][..i] == ytd[..i];
        var (key, bps) := ytd[i];
        if key.MaturityKey? && Abs(bps) >= config.alertThresholdYtd {
          alerts := alerts + [Alert(YearToDate, key.maturity, DirectionOf(bps), bps)];
        }
      }
      assert ytd[..|ytd|] == ytd;
    }

    /**
     * `analyze`: find both anchors in the table, summarise the deltas against
     * them and raise the alerts. The table is only read.
     */
    method Analyze(current: Observation) returns (r: Result<AnalysisResult, SummaryError>)
      requires Valid()
      ensures exists previous, ytd ::
        && ResolvesAnchor(rows, config.maturities, current.country, Ordinal(PreviousMonthEnd(current.referenceDate)), config.momWindow, previous)
        && ResolvesAnchor(rows, config.maturities, current.country, Ordinal(YearStart(current.referenceDate)), config.ytdWindow, ytd)
        && r == AnalysisOf(current, previous, ytd, config)
    {
      var previous := GetPreviousMonthData(current.referenceDate, current.country);
      var ytd := GetYtdData(current.referenceDate, current.country);
      var summary := CreateSummaryDict(current.referenceDate, current.country, current.rates, current.va,
                                       RatesOf(previous), VaOf(previous), RatesOf(ytd), VaOf(ytd));
      if summary.Err? {
        r := Err(summary.error);
      } else {
        var alerts := DetectAlerts(summary.value);
        r := Ok(AnalysisResult(summary.value, DateOf(previous), DateOf(ytd), alerts));
      }
      AnalyzedFrom(current, previous, ytd, r);
    }

    /** The witness step of `Analyze`'s postcondition. */
    lemma AnalyzedFrom(current: Observation, previous: Option<Observation>, ytd: Option<Observation>, r: Result<AnalysisResult, SummaryError>)
      requires Valid()
      requires ResolvesAnchor(rows, config.maturities, current.country, Ordinal(PreviousMonthEnd(current.referenceDate)), config.momWindow, previous)
      requires ResolvesAnchor(rows, config.maturities, current.country, Ordinal(YearStart(current.referenceDate)), config.ytdWindow, ytd)
      requires r == AnalysisOf(current, previous, ytd, config)
      ensures exists previous, ytd ::
        && ResolvesAnchor(rows, config.maturities, current.country, Ordinal(PreviousMonthEnd(current.referenceDate)), config.momWindow, previous)
        && ResolvesAnchor(rows, config.maturities, current.country, Ordinal(YearStart(current.referenceDate)), config.ytdWindow, ytd)
        && r == AnalysisOf(current, previous, ytd, config)
    {
    }

    /** `get_time_series`: the country's non-null rates for one maturity, optionally bounded, in date order. */
    method GetTimeSeries(country: string, maturity: nat, start: Option<Date>, end: Option<Date>) returns (series: seq<(Date, real)>)
      requires Valid()
      ensures series == TimeSeries(rows, config.maturities, country, maturity, start, end)
      ensures Ascending(series)
    {
      var c := IndexOf(config.maturities, maturity);
      if c.None? {
        return [];
      }
      SeriesOfAscending(rows, c.value, country, start, end);
      series := [];
      for i := 0 to |rows|
        invariant series == SeriesOf(rows[..i], c.value, country, start, end)
      {
        assert rows[..i + 1][..i] == rows[..i];
        var row := rows[i];
        var selected := InRange(row, country, start, end) && c.value < |row.cells| && row.cells[c.value].Some?;
        assert SeriesOf(rows[..i + 1], c.value, country, start, end)
            == SeriesOf(rows[..i], c.value, country, start, end) + if selected then [(row.date, row.cells[c.value].value)] else [];
        if selected {
          series := series + [(row.date, row.cells[c.value].value)];
        }
      }
      assert rows[..|rows|] == rows;
    }
  }
}
