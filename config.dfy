/** The configuration surface read by the core (config.py), passed as a value. */
module Config {

  datatype Config = Config(
    targetCountry: string,
    maturities: seq<nat>,          // TARGET_MATURITIES, in years
    alertThresholdMom: real,       // ALERT_THRESHOLD_MOM, in basis points
    alertThresholdYtd: real,       // ALERT_THRESHOLD_YTD, in basis points
    minRate: real, maxRate: real,  // MIN_RATE, MAX_RATE
    minVa: real, maxVa: real,      // MIN_VA, MAX_VA
    momWindow: nat,                // tolerance around the previous month-end, in days
    ytdWindow: nat,                // tolerance around January 1, in days
    excelPatterns: seq<string>     // EXPECTED_EXCEL_FILES
  )

  /** The maturity list is a list of distinct column names. */
  predicate ValidConfig(c: Config) {
    forall i, j :: 0 <= i < j < |c.maturities| ==> c.maturities[i] != c.maturities[j]
  }

  /** The values shipped in config.py and the windows hard-coded in analyzer.py. */
  function DefaultConfig(): (c: Config)
    ensures ValidConfig(c)
  {
    Config(
      "FR",
      [1, 5, 10, 20, 30],
      50.0, 100.0,
      -0.05, 0.15,
      0.0, 0.02,
      5, 10,
      ["EIOPA_RFR_*_Term_Structures.xlsx", "EIOPA_RFR_Term_Structures.xlsx", "*Term_Structures.xlsx"])
  }
}
