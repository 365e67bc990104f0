/**
 * Worked examples of the analyzer's behaviour on concrete records: the
 * closest-anchor choice, exact basis-point deltas, the inclusive alert
 * threshold, and a three-month run from an empty store to an alert.
 */
module Scenarios {
  import opened Wrappers
  import opened Calendar
  import opened Dicts
  import opened Config
  import opened Utils
  import opened Store
  import opened Analysis

  const Feb29: Date := YMD(2024, 2, 29)
  const Jan31: Date := YMD(2024, 1, 31)
  const Mar31: Date := YMD(2024, 3, 31)

  function FrRow(d: Date, oneYear: real): Row {
    Row(d, "FR", [Some(oneYear), None, None, None, None], None, map[])
  }

  /** Day numbers of the dates used below, as `date.toordinal` gives them. */
  lemma Ordinals2024()
    ensures Ordinal(YMD(2024, 1, 1)) == 738886
    ensures Ordinal(Jan31) == 738916
    ensures Ordinal(YMD(2024, 2, 22)) == 738938
    ensures Ordinal(YMD(2024, 2, 26)) == 738942
    ensures Ordinal(Feb29) == 738945
    ensures Ordinal(YMD(2024, 3, 2)) == 738947
    ensures Ordinal(YMD(2024, 3, 6)) == 738951
  {
    assert DaysBeforeYear(2024) == 738885;
  }

  /** The cells written for a record quoting only the 1-year rate. */
  lemma OneYearCells(x: real)
    ensures NewCells(DefaultConfig().maturities, [(1, x)]) == [Some(x), None, None, None, None]
  {
    var mats := DefaultConfig().maturities;
    assert mats == [1, 5, 10, 20, 30];
    assert Get([(1, x)], 1) == Some(x);
    assert Get([(1, x)], 5) == None;
    assert Get([(1, x)], 10) == None;
    assert Get([(1, x)], 20) == None;
    assert Get([(1, x)], 30) == None;
  }

  /** The rates read back from such a row. */
  lemma OneYearRates(x: real)
    ensures NonNullRates(DefaultConfig().maturities, [Some(x), None, None, None, None]) == [(1, x)]
  {
    var mats: seq<nat> := [1, 5, 10, 20, 30];
    assert DefaultConfig().maturities == mats;
    var cells := [Some(x), None, None, None, None];
    assert mats[..1] == [1] && cells[..1] == [Some(x)];
    assert NonNullRates(mats[..1], cells[..1]) == [(1, x)];
    assert mats[..2][..1] == mats[..1] && cells[..2][..1] == cells[..1];
    assert NonNullRates(mats[..2], cells[..2]) == [(1, x)];
    assert mats[..3][..2] == mats[..2] && cells[..3][..2] == cells[..2];
    assert NonNullRates(mats[..3], cells[..3]) == [(1, x)];
    assert mats[..4][..3] == mats[..3] && cells[..4][..3] == cells[..3];
    assert NonNullRates(mats[..4], cells[..4]) == [(1, x)];
    assert mats[..5][..4] == mats[..4] && cells[..5][..4] == cells[..4];
    assert mats[..5] == mats && cells[..5] == cells;
  }

  /** Records 7 and 3 days before, 2 and 6 days after the anchor day of February 29, 2024. */
  function AroundFeb29(): seq<Row> {
    [FrRow(YMD(2024, 2, 22), 0.01), FrRow(YMD(2024, 2, 26), 0.02), FrRow(YMD(2024, 3, 2), 0.03), FrRow(YMD(2024, 3, 6), 0.04)]
  }

  /** Of those records, the one two days after the anchor is in the five-day window and strictly closer than every other one there. */
  lemma AroundFeb29Window()
    ensures Schema(AroundFeb29(), DefaultConfig().maturities)
    ensures InWindow(AroundFeb29()[2], "FR", Ordinal(Feb29), 5)
    ensures forall j :: 0 <= j < 4 && j != 2 && InWindow(AroundFeb29()[j], "FR", Ordinal(Feb29), 5) ==>
              Distance(AroundFeb29()[2], Ordinal(Feb29)) < Distance(AroundFeb29()[j], Ordinal(Feb29))
  {
    var rows := AroundFeb29();
    Ordinals2024();
    assert Ordinal(rows[0].date) == 738938 && Ordinal(rows[1].date) == 738942;
    assert Ordinal(rows[2].date) == 738947 && Ordinal(rows[3].date) == 738951;
  }

  /** Within a five-day window the record two days after the anchor wins over the one three days before; the ones seven and six days away are ignored. */
  lemma ClosestAnchorExample(r: Option<Observation>)
    requires ResolvesAnchor(AroundFeb29(), DefaultConfig().maturities, "FR", Ordinal(Feb29), 5, r)
    ensures r == Some(Observation(YMD(2024, 3, 2), "FR", [(1, 0.03)], None))
  {
    AroundFeb29Window();
    UniqueClosestResolves(AroundFeb29(), DefaultConfig().maturities, "FR", Ordinal(Feb29), 5, 2, r);
    OneYearRates(0.03);
  }

  /** The two delta examples: +45 bps month over month, -100 bps year to date. */
  lemma DeltaExamples()
    ensures CalculateBpsChange(0.0265, 0.0310) == 45.0
    ensures CalculateBpsChange(0.0300, 0.0200) == -100.0
  {
  }

  /** A move of exactly the threshold alerts; one just under it does not. */
  lemma ThresholdIsInclusive()
    ensures AlertsFor(MonthOverMonth, [(MaturityKey(10), 50.0)], DefaultConfig().alertThresholdMom)
         == [Alert(MonthOverMonth, 10, Hausse, 50.0)]
    ensures AlertsFor(MonthOverMonth, [(MaturityKey(10), 49.9)], DefaultConfig().alertThresholdMom) == []
  {
  }

  function Jan31Record(): Observation { Observation(Jan31, "FR", [(1, 0.0280)], None) }
  function Feb29Record(): Observation { Observation(Feb29, "FR", [(1, 0.0290)], None) }
  function Mar31Record(): Observation { Observation(Mar31, "FR", [(1, 0.0350)], None) }

  /** The table after the January 31 and February 29 records. */
  function JanFebRows(): seq<Row> {
    [FrRow(Jan31, 0.0280), FrRow(Feb29, 0.0290)]
  }

  /** For March 31 the month-over-month window holds only February 29 and the year-start window holds nothing. */
  lemma MarchWindows()
    ensures PreviousMonthEnd(Mar31) == Feb29 && YearStart(Mar31) == YMD(2024, 1, 1)
    ensures Schema(JanFebRows(), DefaultConfig().maturities)
    ensures InWindow(JanFebRows()[1], "FR", Ordinal(Feb29), 5) && !InWindow(JanFebRows()[0], "FR", Ordinal(Feb29), 5)
    ensures forall j :: 0 <= j < |JanFebRows()| ==> !InWindow(JanFebRows()[j], "FR", Ordinal(YMD(2024, 1, 1)), 10)
  {
    Ordinals2024();
    assert PreviousMonthEnd(Mar31) == Feb29;
    assert YearStart(Mar31) == YMD(2024, 1, 1);
  }

  /** Against the stored January 31 and February 29 rows, March 31 resolves to February 29 and to no year-start record. */
  lemma MarchAnchors(rows: seq<Row>, previous: Option<Observation>, ytd: Option<Observation>)
    requires rows == JanFebRows()
    requires ResolvesAnchor(rows, DefaultConfig().maturities, "FR", Ordinal(PreviousMonthEnd(Mar31)), DefaultConfig().momWindow, previous)
    requires ResolvesAnchor(rows, DefaultConfig().maturities, "FR", Ordinal(YearStart(Mar31)), DefaultConfig().ytdWindow, ytd)
    ensures previous == Some(Feb29Record()) && ytd == None
  {
    MarchWindows();
    UniqueClosestResolves(rows, DefaultConfig().maturities, "FR", Ordinal(Feb29), 5, 1, previous);
    OneYearRates(0.0290);
  }

  lemma MarchRateChanges()
    ensures RateChanges([(1, 0.0350)], [(1, 0.0290)]) == [(MaturityKey(1), 60.0)]
  {
    var cur: Dict<nat, real> := [(1, 0.0350)];
    assert cur[..0] == [];
    assert Get([(1, 0.0290)], 1) == Some(0.0290);
    assert CalculateBpsChange(0.0290, 0.0350) == 60.0;
  }

  lemma MarchAlerts(s: Summary)
    requires s.changesMom == [(MaturityKey(1), 60.0)] && s.changesYtd == []
    ensures AlertsOf(s, DefaultConfig()) == [Alert(MonthOverMonth, 1, Hausse, 60.0)]
  {
    var mom := s.changesMom;
    assert mom[..0] == [];
    assert AlertsFor(MonthOverMonth, mom, 50.0) == [Alert(MonthOverMonth, 1, Hausse, 60.0)];
  }

  /** Compared with February 29 alone, March 31 moves the 1-year rate by +60 bps: one month-over-month alert. */
  lemma MarchSummary()
    ensures AnalysisOf(Mar31Record(), Some(Feb29Record()), None, DefaultConfig())
         == Ok(AnalysisResult(Summary(Mar31, "FR", [(1, 0.0350)], None, [(MaturityKey(1), 60.0)], []),
                              Some(Feb29), None, [Alert(MonthOverMonth, 1, Hausse, 60.0)]))
  {
    MarchRateChanges();
    var s := Summary(Mar31, "FR", [(1, 0.0350)], None, [(MaturityKey(1), 60.0)], []);
    assert SummaryOf(Mar31, "FR", [(1, 0.0350)], None, Some([(1, 0.0290)]), None, None, None) == Ok(s);
    MarchAlerts(s);
  }

  /**
   * The same run through the analyzer object: start from no backing file, add
   * the January and February records, then analyze March.
   */
  method MarchRun() returns (r: Result<AnalysisResult, SummaryError>)
    ensures r.Ok? && r.value.alerts == [Alert(MonthOverMonth, 1, Hausse, 60.0)]
    ensures r.value.previousDate == Some(Feb29) && r.value.ytdDate == None
  {
    var analyzer := new Analyzer(DefaultConfig());
    analyzer.AddToHistorical(Jan31Record(), true);
    analyzer.AddToHistorical(Feb29Record(), true);
    var mats := DefaultConfig().maturities;
    Ordinals2024();
    OneYearCells(0.0280);
    OneYearCells(0.0290);
    assert Upsert([], mats, Jan31Record()) == [FrRow(Jan31, 0.0280)];
    assert FindKey([FrRow(Jan31, 0.0280)], Feb29, "FR") == None;
    assert analyzer.rows == JanFebRows();
    r := analyzer.Analyze(Mar31Record());
    ghost var previous, ytd :|
      && ResolvesAnchor(analyzer.rows, mats, "FR", Ordinal(PreviousMonthEnd(Mar31)), DefaultConfig().momWindow, previous)
      && ResolvesAnchor(analyzer.rows, mats, "FR", Ordinal(YearStart(Mar31)), DefaultConfig().ytdWindow, ytd)
      && r == AnalysisOf(Mar31Record(), previous, ytd, DefaultConfig());
    MarchAnchors(analyzer.rows, previous, ytd);
    MarchSummary();
  }
}
