/**
 * How the processing step and the historical table fit together: the rates the
 * processor extracts are exactly what the table stores and gives back.
 */
module Pipeline {
  import opened Wrappers
  import opened Calendar
  import opened Dicts
  import opened Config
  import opened Store
  import opened Processor

  /** One entry per configured maturity, in their order. */
  function EntryCells(p: Pivot, c: nat, maturities: seq<nat>, cfg: Config): (cells: seq<Option<real>>)
    requires WellFormed(p) && c < |p.columns|
    ensures |cells| == |maturities|
  {
    seq(|maturities|, k requires 0 <= k < |maturities| => Entry(p, c, maturities[k], cfg))
  }

  /** Reading back the non-null entries rebuilds the extracted rates. */
  lemma {:induction false} EntryCellsRates(p: Pivot, c: nat, maturities: seq<nat>, cfg: Config)
    requires WellFormed(p) && c < |p.columns|
    ensures NonNullRates(maturities, EntryCells(p, c, maturities, cfg)) == ExtractedRates(p, c, maturities, cfg)
  {
    if maturities != [] {
      var n := |maturities| - 1;
      EntryCellsRates(p, c, maturities[..n], cfg);
      assert EntryCells(p, c, maturities, cfg)[..n] == EntryCells(p, c, maturities[..n], cfg);
    }
  }

  /** The extracted rates are already in the table's shape: storing and reading them changes nothing. */
  lemma ExtractedReadsBack(p: Pivot, c: nat, cfg: Config)
    requires WellFormed(p) && c < |p.columns| && ValidConfig(cfg)
    ensures Projected(cfg.maturities, ExtractedRates(p, c, cfg.maturities, cfg)) == ExtractedRates(p, c, cfg.maturities, cfg)
  {
    var mats := cfg.maturities;
    var rates := ExtractedRates(p, c, mats, cfg);
    forall k | 0 <= k < |mats|
      ensures NewCells(mats, rates)[k] == EntryCells(p, c, mats, cfg)[k]
    {
      GetExtracted(p, c, mats, cfg, mats[k]);
    }
    assert NewCells(mats, rates) == EntryCells(p, c, mats, cfg);
    EntryCellsRates(p, c, mats, cfg);
  }

  /**
   * A processed archive with a date in its name, added to a consistent table,
   * is read back under its key exactly as the processor produced it.
   */
  lemma ProcessedReadsBack(rows: seq<Row>, p: Pivot, cfg: Config, d: Date, rates: Dict<nat, real>)
    requires WellFormed(p) && ValidConfig(cfg)
    requires StoreInvariant(rows, cfg.maturities)
    requires CountryRates(p, cfg.targetCountry, cfg) == Some(rates)
    ensures StoreInvariant(Upsert(rows, cfg.maturities, Observation(d, cfg.targetCountry, rates, None)), cfg.maturities)
    ensures HistoricalData(Upsert(rows, cfg.maturities, Observation(d, cfg.targetCountry, rates, None)), cfg.maturities, cfg.targetCountry, d)
         == Some(Observation(d, cfg.targetCountry, rates, None))
  {
    var c := ColumnSearch(p.columns, CountryAliases(cfg.targetCountry), None).value;
    ExtractedReadsBack(p, c, cfg);
    UpsertThenGet(rows, cfg.maturities, Observation(d, cfg.targetCountry, rates, None));
  }
}
