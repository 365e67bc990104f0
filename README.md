# EIOPA risk-free-rate monitoring, modelled in Dafny

The modelled system watches the risk-free interest rate term structures that
EIOPA publishes each month. It has four parts:

- The downloader reads EIOPA's listing page. It keeps the links to dated
  `EIOPA_RFR_YYYYMMDD` archives and sorts them newest first. It then picks
  either the latest archive or the archive closest to a target date.
- The processor opens an archive and chooses the rate workbook. It finds the
  target country's column in the spot-rate sheet and extracts the configured
  maturities as decimal rates.
- The analyzer (`EIOPAAnalyzer`) keeps a historical table with one row per
  (reference date, country), in date order. It upserts new records, looks
  records up by exact key, and finds the records closest to the previous
  month-end and to January 1. It summarises the month-over-month and
  year-to-date moves in basis points, raises alerts on large moves and
  returns time series.
- The utilities cover date parsing and formatting, validation bounds, the
  basis-point conversion, column-name normalisation and the summary
  dictionary.

Modules, one per concern:

- `Calendar`: the proleptic Gregorian calendar, with `Ordinal` as Python's
  `date.toordinal`.
- `Dicts`: Python dicts as association lists.
- `Strings`: prefix, suffix and substring tests.
- `Sequences`: generic sequence facts.
- `Config`: the constants of config.py.
- `Utils`: src/utils.py.
- `Store`: the historical table and the specification functions of its
  operations.
- `Analysis`: the `Analyzer` class of analyzer.py, whose `rows` field is the
  table the source mutates in place.
- `Processor`: src/processor.py.
- `Pipeline`: processor output stored and read back.
- `Downloader`: downloader.py.
- `Scenarios`: worked examples that end in exact values.

Each loop of the modelled operations is a Dafny `method` proved equal to a
specification function, including the loop over the maturities that rebuilds a
record from a stored row. The properties of those functions are proved as
lemmas. Library calls such as `str.strip` and `re.search` are modelled as
functions.

## Model

| member | source | states |
|---|---|---|
| Config.DefaultConfig | config.py:48-49 | the shipped configuration (FR, maturities 1, 5, 10, 20, 30) has no repeated maturity, so each maturity owns one rate column |
| Calendar.DaysInMonth | src/utils.py:239-240 | every month has 28 to 31 days |
| Calendar.YearStep | src/utils.py:239-240 | the day count before year y+1 exceeds the one before y by exactly the length of y (365 or 366) |
| Calendar.MonthStep | src/utils.py:239-240 | the days before month m+1 are the days before m plus the length of m |
| Calendar.OrdinalMonotone | analyzer.py:103 | a date earlier in (year, month, day) order has a strictly smaller day number, so ordering by day number is Python's datetime ordering |
| Calendar.OrdinalInjective | analyzer.py:82-86 | two dates with the same day number are the same date, so comparing day numbers is date equality |
| Calendar.PreviousMonthEnd | src/utils.py:229-241 | the result is the day just before the first of the given month, is the last day of its own month, and lies 1 to 31 days before the input |
| Calendar.YearStart | src/utils.py:244-254 | the result is January 1 of the same year, at most one year's length before the input |
| Dicts.Get | src/utils.py:317-319 | a lookup fails exactly when the key is absent, and otherwise returns the value of the first pair holding the key |
| Dicts.GetAt | src/utils.py:317-319 | with distinct keys, looking up any stored key returns its stored value |
| Strings.ContainsExactly | src/processor.py:175 | Python's `sub in s` holds exactly when `sub` occurs at some position of `s` |
| Utils.CalculateBpsChange | src/utils.py:129-140 | the old rate plus bps/10000 gives the new rate; the change is zero iff the rates are equal and positive iff the rate rose |
| Utils.BpsAntisymmetric | src/utils.py:129-140 | swapping the two rates negates the change |
| Utils.ValidationBounds | src/utils.py:103-126 | with the shipped bounds a rate is valid iff it is in [-5%, 15%] and a VA iff it is in [0, 2%], bounds included |
| Utils.FirstDigitRunFrom | src/utils.py:60-61 | the result is the leftmost position where eight digits in a row start, and none exists when the result is None |
| Utils.StrptimeIsStrict | src/utils.py:66 | on eight digits, strptime's `%Y%m%d` (with its one-or-two-digit month and day) accepts exactly the dates the plain 4+2+2 split gives |
| Utils.StrptimeOnlyStrict | src/utils.py:66 | whatever date strptime returns on eight digits is the one the 4+2+2 split reads |
| Utils.StrictIsStrptime | src/utils.py:66 | a valid 4+2+2 reading of eight digits is what strptime returns |
| Utils.ParseDateFromFilename | src/utils.py:50-69 | a name without eight consecutive digits gives None; otherwise the result is the strict year-month-day reading of the first such run, None when that is not a valid date; any date returned has a four-digit year |
| Utils.FormatDateEiopa | src/utils.py:72-82 | formatting gives exactly eight digits |
| Utils.FormatStrptimeRoundTrip | src/utils.py:66-82 | strptime reads back every formatted date |
| Utils.ParseEmbeddedDate | src/utils.py:50-82 | a formatted date placed after a digit-free prefix, whatever follows it, is parsed back to that date (as in `EIOPA_RFR_20241231.zip`) |
| Utils.FormatParseRoundTrip | src/utils.py:50-82 | parsing a formatted date returns the date |
| Utils.StripLeft | src/utils.py:202 | the result is the input minus a prefix made only of whitespace, and it does not start with whitespace |
| Utils.StripRight | src/utils.py:202 | the result is the input minus a suffix made only of whitespace, and it does not end with whitespace |
| Utils.Strip | src/utils.py:202 | the result is a slice of the input with only whitespace removed before and after it, and it neither starts nor ends with whitespace |
| Utils.NormalizeColumnName | src/utils.py:192-203 | a normalised label is the stripped label character by character, lower-cased, with each space turned into `_`; so it has no space, no capital and no whitespace at either end |
| Utils.AllSpaceExactly | src/utils.py:202 | the whitespace test on a removed piece holds exactly when each of its characters is whitespace |
| Utils.CharwiseNormalizedExactly | src/utils.py:202 | the character-by-character rewrite holds exactly when the lengths agree and each character is lower-cased, with a space turned into `_` |
| Utils.NormalizeIdempotent | src/utils.py:192-203 | normalising twice is the same as normalising once |
| Utils.NormalizeColumnNames | src/utils.py:202 | normalisation keeps one label per column |
| Utils.FirstIndexOf | src/utils.py:221-223 | the first position holding the name, and None iff no position holds it |
| Utils.ColumnMatchesNormalized | src/utils.py:217-221 | a candidate matches a column exactly when the candidate, lower-cased with spaces as `_`, equals that column's normalised label |
| Utils.FindColumn | src/utils.py:206-226 | None iff no candidate name equals any normalised column; otherwise the original label of the first column matched by the first candidate that matches anything |
| Utils.ComputeChanges | src/utils.py:314-323 | the loop computes the change dictionary of the specification `ChangesAgainst` |
| Utils.CreateSummaryDict | src/utils.py:279-336 | the method computes the summary of the specification `SummaryOf` |
| Utils.RateChangesExactly | src/utils.py:315-320 | a maturity carries a move iff it is quoted now and at the anchor, and the move is the bps change from the anchor rate; the rate changes never hold the VA key |
| Utils.ChangesKeys | src/utils.py:314-334 | a maturity gets a delta iff the anchor is non-empty and both sides quote it; the VA gets a delta iff the anchor is non-empty and has a VA; an absent or empty anchor gives no deltas |
| Utils.ChangesFailure | src/utils.py:322-323 | the summary fails (a VA move against a missing current VA) exactly when the anchor is non-empty and has a VA while the current VA is missing |
| Store.FindKey | analyzer.py:82-87 | the index returned holds the key and no earlier row does; None means that no row holds it |
| Store.NewCells | analyzer.py:73-76 | a new row has one cell per configured maturity |
| Store.NonNullRatesExactly | analyzer.py:140-143 | a (maturity, rate) pair is read back iff that maturity's cell holds that rate |
| Store.InsertByDateAt | analyzer.py:98-103 | appending then sorting by date places the new row after every row dated on or before it and before the later ones |
| Store.UpsertPreservesInvariant | analyzer.py:59-107 | upserting keeps the table sorted by date, with one row per (date, country) and one cell per maturity |
| Store.UpdateKeepsInvariant | analyzer.py:87-91 | overwriting a row's rates and VA keeps the invariant |
| Store.InsertionKeepsInvariant | analyzer.py:98-103 | inserting a new key at its date position keeps the invariant |
| Store.UpsertLocates | analyzer.py:59-107 | after an upsert the key is found, holding the new rates and VA |
| Store.UpsertIdempotent | analyzer.py:59-107 | adding the same record twice is adding it once |
| Store.UpsertThenGet | analyzer.py:59-150 | after adding a record, the exact lookup returns that record, with its rates limited to the configured maturities |
| Store.UpsertOverwrites | analyzer.py:87-91 | a second record for the same key replaces the first |
| Store.FindKeyAfterInsert | analyzer.py:98-103 | inserting a row with another key does not change what a key lookup finds |
| Store.UpsertOthersUnchanged | analyzer.py:59-150 | an upsert leaves the lookup of every other key unchanged |
| Store.UpsertUpdatesInPlace | analyzer.py:87-91 | an existing key is updated in place: same length, same metadata, only that row changes |
| Store.UpsertInsertsOne | analyzer.py:92-103 | a new key adds exactly one row, the new one, and keeps all the others |
| Store.UniqueClosestResolves | analyzer.py:173-186 | when one row in the window is strictly closer than all others, every valid anchor answer is that row's record |
| Store.IndexOf | analyzer.py:345-347 | the rate column of a configured maturity; None iff the maturity is not configured |
| Store.SeriesOfExactly | analyzer.py:349-365 | a (date, rate) point is in the series iff some row of the country within the bounds holds that rate on that date |
| Store.SeriesOfSound | analyzer.py:349-362 | every point of the series comes from a selected row |
| Store.SeriesOfComplete | analyzer.py:349-362 | every selected row with a rate gives a point |
| Store.SeriesOfAscending | analyzer.py:365 | over a table that keeps the invariant, the series is in strictly increasing date order |
| Store.TimeSeriesSpec | analyzer.py:323-366 | an unconfigured maturity gives the empty series; otherwise the points are exactly the selected non-null rates, in strictly increasing date order |
| Analysis.AlertsForExactly | analyzer.py:298-309 | an alert is raised iff a maturity (never the VA) moved by at least the threshold in absolute value; its direction is hausse iff the move is positive |
| Analysis.MomAlertsFirst | analyzer.py:285-321 | all month-over-month alerts come before all year-to-date alerts |
| Analysis.FirstRunAnalysis | analyzer.py:245-283 | without any anchor record the analysis has no deltas, no anchor dates and no alerts |
| Analysis.AnalysisAlertsSound | analyzer.py:245-321 | each alert names a maturity quoted both now and at the anchor of its period, and a move that reaches that period's threshold |
| Analysis.ReadObservation | analyzer.py:136-149 | the loop over the maturities rebuilds the row's record: its date, country and VA, and exactly the non-null rate cells keyed by maturity |
| Analysis.Analyzer.constructor | analyzer.py:24-41 | a fresh analyzer with no backing file starts from the empty table, which meets the invariant |
| Analysis.Analyzer.SaveHistorical | analyzer.py:51-57 | a successful save records the current table as the file contents; a failed one leaves them |
| Analysis.Analyzer.AddToHistorical | analyzer.py:59-107 | the new table is the upsert of the old one, the invariant holds again, and the file holds the new table iff the save succeeded |
| Analysis.Analyzer.GetHistoricalData | analyzer.py:110-150 | returns the record stored under exactly this (date, country), and None when there is none |
| Analysis.Analyzer.ClosestInWindow | analyzer.py:173-199 | None iff no row of the country lies within the tolerance of the anchor; otherwise the record of a row at minimal distance |
| Analysis.Analyzer.GetPreviousMonthData | analyzer.py:152-199 | the closest record within 5 days of the previous month-end, None iff there is none |
| Analysis.Analyzer.GetYtdData | analyzer.py:201-243 | the closest record within 10 days of January 1, None iff there is none |
| Analysis.Analyzer.DetectAlerts | analyzer.py:285-321 | the loops compute the alerts of the specification `AlertsOf` |
| Analysis.Analyzer.Analyze | analyzer.py:245-283 | the result is the analysis against anchors that are valid answers of the two window lookups |
| Analysis.Analyzer.GetTimeSeries | analyzer.py:323-366 | the loop computes the specification `TimeSeries`, in strictly increasing date order |
| Processor.FindExcelFile | src/processor.py:46-72 | None iff no member is an Excel name that matches a pattern; otherwise the first member matching the first pattern that any member matches |
| Processor.CountryAliases | src/processor.py:159-170 | the column labels tried for a code always include the code itself |
| Processor.FirstMatching | src/processor.py:174-178 | the first column whose label contains the alias, case-insensitively |
| Processor.ColumnSearchFirstAlias | src/processor.py:171-185 | the country column is None iff no alias occurs in any label; otherwise it is the first column of the first alias that matches |
| Processor.FindCountryColumn | src/processor.py:171-185 | the nested loop computes the specification `ColumnSearch` |
| Processor.FirstRowFor | src/processor.py:192-199 | the first sheet row labelled with the maturity, None iff there is none |
| Processor.Entry | src/processor.py:199-211 | every extracted rate passes the rate validation |
| Processor.EntryMeaning | src/processor.py:190-211 | a maturity yields rate x iff its first row holds x percent in the country column and x is a valid rate |
| Processor.ExtractedRatesExactly | src/processor.py:188-211 | a (maturity, rate) pair is extracted iff the maturity is configured and its entry gives that rate |
| Processor.GetExtracted | src/processor.py:188-211 | the extracted dictionary answers a lookup of any configured maturity with its entry |
| Processor.CountryRatesSpec | src/processor.py:143-217 | None iff no country column is found or no configured maturity yields a valid rate; otherwise exactly the valid rates of the configured maturities |
| Processor.ExtractCountryRatesFromPivot | src/processor.py:143-217 | the method computes the specification `CountryRates` |
| Processor.Process | src/processor.py:220-265 | None iff no workbook matches, extraction fails, the sheet is unreadable or no rate is extracted; otherwise the record carries the archive's date, the target country, the extracted rates, no VA and the archive name |
| Pipeline.EntryCellsRates | src/processor.py:188-211 | reading the stored cells of an extraction back gives the extracted rates |
| Pipeline.ExtractedReadsBack | analyzer.py:73-76 | storing extracted rates in the configured columns loses nothing |
| Pipeline.ProcessedReadsBack | analyzer.py:59-150 | a record produced by the processor, once added, is read back unchanged by the exact lookup |
| Downloader.UpToAmpersand | downloader.py:60-61 | the captured value is the longest prefix without `&` |
| Downloader.FilenameParamFromSpec | downloader.py:60-61 | the filename is found iff some `filename=` is followed by a non-`&`; the value is the run after the leftmost such occurrence |
| Downloader.LinkToFileSpec | downloader.py:53-72 | a kept link contains both markers, carries a non-empty name without `&` whose parsed date is the listed date, and has an absolute URL (the site root is prefixed to relative links) |
| Downloader.ListedExactly | downloader.py:53-72 | a record is listed iff some link of the page yields it |
| Downloader.InsertDescSorted | downloader.py:75 | inserting into a newest-first list keeps it newest first |
| Downloader.InsertDescPermutes | downloader.py:75 | insertion adds exactly the new entry |
| Downloader.InsertDescStable | downloader.py:75 | the entries of each date keep their order, the new one last |
| Downloader.SortDescSorted | downloader.py:75 | the sorted listing is newest first |
| Downloader.SortDescPermutes | downloader.py:75 | the sorted listing is a permutation of the page's records |
| Downloader.SortDescStable | downloader.py:75 | the sort is stable: entries of the same date stay in page order |
| Downloader.GetAvailableFiles | downloader.py:28-78 | the result is the page's dated archive links, sorted newest first |
| Downloader.LatestIsMaximal | downloader.py:80-95 | the head of a newest-first permutation is listed and no listed archive is newer |
| Downloader.OnDateHead | downloader.py:80-95 | the head of a list is the first entry of its own date |
| Downloader.GetLatestFile | downloader.py:80-95 | None iff nothing is listed; otherwise a listed archive of the newest date, the first of that date on the page |
| Downloader.GetFileByDate | downloader.py:97-135 | the first archive of the target date if there is one; otherwise None iff every archive is more than 5 days away, else the first archive of minimal distance |
| Scenarios.ClosestAnchorExample | analyzer.py:152-199 | with records on Feb 22, Feb 26, Mar 2 and Mar 6, 2024, the anchor at Feb 29 resolves to the Mar 2 record |
| Scenarios.DeltaExamples | src/utils.py:129-140 | 2.65% to 3.10% is +45 bps and 3% to 2% is -100 bps |
| Scenarios.ThresholdIsInclusive | analyzer.py:302 | a 50 bps move triggers the month-over-month alert; a 49.9 bps move does not |
| Scenarios.MarchAnchors | analyzer.py:152-243 | after the Jan 31 and Feb 29, 2024 records, the March 31 analysis anchors on Feb 29 and finds no year-start record |
| Scenarios.MarchSummary | src/utils.py:279-336 | 2.90% on Feb 29 to 3.50% on Mar 31 is a +60 bps month-over-month move with one hausse alert and no year-to-date deltas |
| Scenarios.MarchRun | analyzer.py:59-283 | adding the Jan 31 and Feb 29 records then analysing Mar 31 yields exactly one hausse alert of 60 bps, anchored on Feb 29 |

## Left out

- Network access (the listing request and its retries, archive downloads) is left out. The listing page is a parameter: the sequence of the `href` values of its anchors.
- ZIP and Excel reading are left out. An archive is its member names plus, for the chosen workbook, whether extraction succeeded and the parsed spot-rate sheet. A corrupt archive is the empty member list. `excel_date_to_datetime` and `read_excel_robust` are not part of this model.
- Shell-style matching (`fnmatch`) is a parameter `glob`. Its pattern syntax is not modelled.
- CSV persistence is left out. `_load_historical` is modelled only in its branch where no file exists. Loading an existing file, and the branch that returns an empty frame on a read error, are not modelled. A save is modelled by whether it succeeds.
- Logging, alert message wording, and the report, app and command-line layers (reporter, app, main) are left out.
- Rates are exact reals, not IEEE doubles. A NaN cell is `None`. The parsing of strings in `safe_float_conversion` is left out: a sheet cell is already `Option<real>`.
- The `meta` map of a row stands for extra metadata columns, which `add_to_historical` keeps on an update. Their contents are not modelled.
- Utils.Lower: lower-cases ASCII letters only; Unicode case mapping is not modelled.
- Utils.IsDigit: accepts the ASCII digits only. Python's `\d` in `re.search` and the `%Y`, `%m`, `%d` fields of `strptime` also accept other Unicode decimal digits, so a name such as `EIOPA_RFR_٢٠٢٤١٢٣١.zip` gives a date in the source but None in the model.
- Dates are not limited to `datetime`'s years 1 to 9999, except where parsing and formatting need four-digit years.
- Analysis.Analyzer.ClosestInWindow: when two rows are equally close to the anchor, the source's unstable `sort_values('diff')` picks one of them unpredictably. The contract allows any row at minimal distance.
- Store.InsertByDate: rows with equal dates are kept in a fixed order, with the new row after existing rows of the same date. The source's `sort_values` without a stable kind does not promise that order.
- Store.Upsert: the source's mask updates every row with the key. Under the table invariant there is at most one such row, so the model updates the first one.
- Utils.FindColumn: candidate names are not stripped before matching, as in the source.
- Analysis.Analyzer.DetectAlerts: alerts come in the insertion order of the change dictionary, which is the order of the current rates dictionary.
- Processor.ExtractCountryRatesFromPivot: duplicate column labels and non-numeric index labels that compare equal to a maturity are not modelled.
- Downloader.GetFileByDate: the target is a date, so the time of day of the source's `datetime` target is not modelled. Distances are whole days, as `.days` gives them for midnight timestamps.
- Analysis.Analyzer.ClosestInWindow: a tie between equally close records is not broken in favour of the earlier date.
- With records at T-7, T-3, T+2 and T+6 around an anchor T and a 5-day window, the code picks T+2 (Scenarios.ClosestAnchorExample).
