/**
 * The processor of src/processor.py: choosing the workbook inside a published
 * archive, reading one country's rates out of the pivot-shaped rate sheet,
 * and the record the processing step hands on.
 */
module Processor {
  import opened Wrappers
  import opened Calendar
  import opened Dicts
  import opened Config
  import opened Utils
  import opened Strings

  // ------------------------------------------------------ workbook choice

  /** `filename.lower().endswith(('.xlsx', '.xls'))`. */
  predicate IsExcelName(f: string) {
    EndsWith(Lower(f), ".xlsx") || EndsWith(Lower(f), ".xls")
  }

  /**
   * A member accepted for a pattern: an Excel name matching the pattern itself or
   * the pattern with a leading `*`; `glob` stands for `fnmatch.fnmatch`.
   */
  predicate ExcelCandidate(f: string, pattern: string, glob: (string, string) -> bool) {
    IsExcelName(f) && (glob(f, pattern) || glob(f, "*" + pattern))
  }

  /** Member `j` is chosen: pattern `i` is the first pattern any member satisfies, and `j` the first member satisfying it. */
  ghost predicate FirstExcelMatch(files: seq<string>, patterns: seq<string>, glob: (string, string) -> bool, i: int, j: int) {
    && 0 <= i < |patterns| && 0 <= j < |files|
    && ExcelCandidate(files[j], patterns[i], glob)
    && (forall i', j' :: 0 <= i' < i && 0 <= j' < |files| ==> !ExcelCandidate(files[j'], patterns[i'], glob))
    && (forall j' :: 0 <= j' < j ==> !ExcelCandidate(files[j'], patterns[i], glob))
  }

  /**
   * `find_excel_file` over the archive's member names (`[]` for a corrupt
   * archive): patterns take priority over member order.
   */
  method FindExcelFile(patterns: seq<string>, files: seq<string>, glob: (string, string) -> bool) returns (r: Option<string>)
    ensures r.None? <==> forall i, j :: 0 <= i < |patterns| && 0 <= j < |files| ==> !ExcelCandidate(files[j], patterns[i], glob)
    ensures r.Some? ==> exists i, j :: FirstExcelMatch(files, patterns, glob, i, j) && r.value == files[j]
  {
    for i := 0 to |patterns|
      invariant forall i', j' :: 0 <= i' < i && 0 <= j' < |files| ==> !ExcelCandidate(files[j'], patterns[i'], glob)
    {
      for j := 0 to |files|
        invariant forall j' :: 0 <= j' < j ==> !ExcelCandidate(files[j'], patterns[i], glob)
      {
        if !IsExcelName(files[j]) {
          continue;
        }
        if glob(files[j], patterns[i]) || glob(files[j], "*" + patterns[i]) {
          assert FirstExcelMatch(files, patterns, glob, i, j);
          return Some(files[j]);
        }
      }
    }
    return None;
  }

  // ---------------------------------------------------- the country column

  /** The column test: `possible_name.lower() in str(col).lower()`. */
  predicate MatchesAlias(column: string, alias: string) {
    Contains(Lower(column), Lower(alias))
  }

  /** The column labels tried for a country code, most specific first; an unknown code is tried as itself. */
  function CountryAliases(code: string): (aliases: seq<string>)
    ensures code in aliases
  {
    match code
    case "FR" => ["France", "French", "FR"]
    case "DE" => ["Germany", "German", "DE"]
    case "IT" => ["Italy", "Italian", "IT"]
    case "ES" => ["Spain", "Spanish", "ES"]
    case "EUR" => ["Euro", "EUR", "Eurozone"]
    case "GB" => ["United Kingdom", "UK", "GB", "GBP"]
    case "US" => ["United States", "USA", "US", "USD"]
    case _ => [code]
  }

  /** The first column matching an alias. */
  function FirstMatching(columns: seq<string>, alias: string): (r: Option<nat>)
    ensures r.Some? ==> r.value < |columns| && MatchesAlias(columns[r.value], alias)
    ensures r.Some? ==> forall j :: 0 <= j < r.value ==> !MatchesAlias(columns[j], alias)
    ensures r.None? ==> forall j :: 0 <= j < |columns| ==> !MatchesAlias(columns[j], alias)
  {
    if columns == [] then None
    else if MatchesAlias(columns[0], alias) then Some(0)
    else match FirstMatching(columns[1..], alias)
      case None => None
      case Some(k) => Some(k + 1)
  }

  /**
   * The alias loop: each alias that matches overwrites the chosen column, and the
   * search stops at a chosen label that is truthy (non-empty).
   */
  function ColumnSearch(columns: seq<string>, aliases: seq<string>, found: Option<nat>): (r: Option<nat>)
    requires found.Some? ==> found.value < |columns|
    ensures r.Some? ==> r.value < |columns|
  {
    if aliases == [] then found
    else match FirstMatching(columns, aliases[0])
      case None => ColumnSearch(columns, aliases[1..], found)
      case Some(j) => if columns[j] != "" then Some(j) else ColumnSearch(columns, aliases[1..], Some(j))
  }

  /** Column `j` is the first match of alias `i`, and no earlier alias matches any column. */
  ghost predicate FirstAliasMatch(columns: seq<string>, aliases: seq<string>, i: int, j: int) {
    && 0 <= i < |aliases| && 0 <= j < |columns|
    && MatchesAlias(columns[j], aliases[i])
    && (forall i', j' :: 0 <= i' < i && 0 <= j' < |columns| ==> !MatchesAlias(columns[j'], aliases[i']))
    && (forall j' :: 0 <= j' < j ==> !MatchesAlias(columns[j'], aliases[i]))
  }

  /**
   * With non-empty labels the search picks the first column of the first alias
   * that matches anything, and finds nothing exactly when no alias matches.
   */
  lemma {:induction false} ColumnSearchFirstAlias(columns: seq<string>, aliases: seq<string>)
    requires forall j :: 0 <= j < |columns| ==> columns[j] != ""
    ensures ColumnSearch(columns, aliases, None).None?
        <==> forall i, j :: 0 <= i < |aliases| && 0 <= j < |columns| ==> !MatchesAlias(columns[j], aliases[i])
    ensures ColumnSearch(columns, aliases, None).Some?
        ==> exists i :: FirstAliasMatch(columns, aliases, i, ColumnSearch(columns, aliases, None).value)
  {
    if aliases != [] {
      var rest := aliases[1..];
      ColumnSearchFirstAlias(columns, rest);
      match FirstMatching(columns, aliases[0]) {
        case Some(j) =>
          assert FirstAliasMatch(columns, aliases, 0, j);
        case None =>
          var r := ColumnSearch(columns, rest, None);
          assert ColumnSearch(columns, aliases, None) == r;
          if r.Some? {
            var i :| FirstAliasMatch(columns, rest, i, r.value);
            assert aliases[i + 1] == rest[i];
            forall i', j' | 0 <= i' < i + 1 && 0 <= j' < |columns|
              ensures !MatchesAlias(columns[j'], aliases[i'])
            {
              if i' > 0 {
                assert aliases[i'] == rest[i' - 1];
              }
            }
            assert FirstAliasMatch(columns, aliases, i + 1, r.value);
          } else {
            forall i, j | 0 <= i < |aliases| && 0 <= j < |columns|
              ensures !MatchesAlias(columns[j], aliases[i])
            {
              if i > 0 {
                assert aliases[i] == rest[i - 1];
              }
            }
          }
      }
    }
  }

  /** The column loop of `extract_country_rates_from_pivot`, returning the chosen column's position. */
  method FindCountryColumn(columns: seq<string>, aliases: seq<string>) returns (r: Option<nat>)
    ensures r == ColumnSearch(columns, aliases, None)
  {
    r := None;
    for i := 0 to |aliases|
      invariant r.Some? ==> r.value < |columns|
      invariant ColumnSearch(columns, aliases, None) == ColumnSearch(columns, aliases[i..], r)
    {
      assert aliases[i..][1..] == aliases[i + 1..];
      var hit: Option<nat> := None;
      for j := 0 to |columns|
        invariant forall j' :: 0 <= j' < j ==> !MatchesAlias(columns[j'], aliases[i])
      {
        if MatchesAlias(columns[j], aliases[i]) {
          hit := Some(j);
          break;
        }
      }
      assert hit == FirstMatching(columns, aliases[i]);
      if hit.Some? {
        r := hit;
        if columns[hit.value] != "" {
          return;
        }
      }
    }
  }

  // ------------------------------------------------------- the rate sheet

  /** A label of the sheet's index column (the maturity column). */
  datatype IndexLabel = Number(value: real) | Text(text: string) | Blank

  /**
   * The `RFR_spot_no_VA` sheet as read with header row 1 and index column 1:
   * column labels, one index label per row, and one cell per row and column
   * (`None` where `safe_float_conversion` gives None).
   */
  datatype Pivot = Pivot(columns: seq<string>, index: seq<IndexLabel>, cells: seq<seq<Option<real>>>)

  predicate WellFormed(p: Pivot) {
    |p.cells| == |p.index| && forall i :: 0 <= i < |p.cells| ==> |p.cells[i]| == |p.columns|
  }

  /** `df.index == maturity` for one label. */
  predicate IsMaturityRow(tag: IndexLabel, m: nat) {
    tag.Number? && tag.value == m as real
  }

  /** The first row labelled with the maturity (`df.loc[mask, ...].iloc[0]`). */
  function FirstRowFor(index: seq<IndexLabel>, m: nat): (r: Option<nat>)
    ensures r.Some? ==> r.value < |index| && IsMaturityRow(index[r.value], m)
    ensures r.Some? ==> forall i :: 0 <= i < r.value ==> !IsMaturityRow(index[i], m)
    ensures r.None? ==> forall i :: 0 <= i < |index| ==> !IsMaturityRow(index[i], m)
  {
    if index == [] then None
    else if IsMaturityRow(index[0], m) then Some(0)
    else match FirstRowFor(index[1..], m)
      case None => None
      case Some(k) => Some(k + 1)
  }

  /** The rate kept for one maturity: the percentage in its first row, divided by 100, if it passes `validate_rate`. */
  function Entry(p: Pivot, c: nat, m: nat, cfg: Config): (r: Option<real>)
    requires WellFormed(p) && c < |p.columns|
    ensures r.Some? ==> ValidateRate(r.value, cfg)
  {
    match FirstRowFor(p.index, m)
    case None => None
    case Some(i) =>
      match p.cells[i][c]
      case None => None
      case Some(v) => if ValidateRate(v / 100.0, cfg) then Some(v / 100.0) else None
  }

  /** The `rates` dictionary built over the maturities, in their order. */
  function ExtractedRates(p: Pivot, c: nat, maturities: seq<nat>, cfg: Config): Dict<nat, real>
    requires WellFormed(p) && c < |p.columns|
  {
    if maturities == [] then []
    else
      var n := |maturities| - 1;
      ExtractedRates(p, c, maturities[..n], cfg)
      + match Entry(p, c, maturities[n], cfg)
        case None => []
        case Some(x) => [(maturities[n], x)]
  }

  /** `extract_country_rates_from_pivot`: None without a matching column or without a single valid rate. */
  function CountryRates(p: Pivot, code: string, cfg: Config): Option<Dict<nat, real>>
    requires WellFormed(p)
  {
    match ColumnSearch(p.columns, CountryAliases(code), None)
    case None => None
    case Some(c) =>
      var rates := ExtractedRates(p, c, cfg.maturities, cfg);
      if rates == [] then None else Some(rates)
  }

  /** A pair is extracted exactly for a configured maturity whose entry holds that rate. */
  lemma {:induction false} ExtractedRatesExactly(p: Pivot, c: nat, maturities: seq<nat>, cfg: Config, m: nat, x: real)
    requires WellFormed(p) && c < |p.columns|
    ensures (m, x) in ExtractedRates(p, c, maturities, cfg) <==> m in maturities && Entry(p, c, m, cfg) == Some(x)
  {
    if maturities != [] {
      var n := |maturities| - 1;
      ExtractedRatesExactly(p, c, maturities[..n], cfg, m, x);
      if m in maturities && Entry(p, c, m, cfg) == Some(x) && m != maturities[n] {
        var k :| 0 <= k < |maturities| && maturities[k] == m;
        assert maturities[..n][k] == m;
      }
    }
  }

  /** On distinct maturities, looking a maturity up in the extracted rates gives its entry. */
  lemma {:induction false} GetExtracted(p: Pivot, c: nat, maturities: seq<nat>, cfg: Config, m: nat)
    requires WellFormed(p) && c < |p.columns|
    requires forall i, j :: 0 <= i < j < |maturities| ==> maturities[i] != maturities[j]
    ensures Get(ExtractedRates(p, c, maturities, cfg), m) == if m in maturities then Entry(p, c, m, cfg) else None
  {
    if maturities != [] {
      var n := |maturities| - 1;
      var init := maturities[..n];
      GetExtracted(p, c, init, cfg, m);
      var rs := ExtractedRates(p, c, init, cfg);
      var last := match Entry(p, c, maturities[n], cfg) case None => [] case Some(x) => [(maturities[n], x)];
      assert maturities == init + [maturities[n]];
      GetAppend(rs, last, m);
      if m == maturities[n] {
        assert m !in init;
      }
    }
  }

  /** `get` on a concatenation looks in the second part only when the first lacks the key. */
  lemma {:induction false} GetAppend<V>(a: Dict<nat, V>, b: Dict<nat, V>, k: nat)
    ensures Get(a + b, k) == if HasKey(a, k) then Get(a, k) else Get(b, k)
  {
    if a != [] {
      assert (a + b)[1..] == a[1..] + b;
      GetAppend(a[1..], b, k);
      if a[0].0 != k && HasKey(a, k) {
        var i :| 0 <= i < |a| && a[i].0 == k;
        assert a[1..][i - 1].0 == k;
      }
    } else {
      assert a + b == b;
    }
  }

  /** A kept rate is the percentage in the maturity's first row over 100, and passes `validate_rate`. */
  lemma EntryMeaning(p: Pivot, c: nat, m: nat, cfg: Config, x: real)
    requires WellFormed(p) && c < |p.columns|
    ensures Entry(p, c, m, cfg) == Some(x)
        <==> FirstRowFor(p.index, m).Some? && p.cells[FirstRowFor(p.index, m).value][c] == Some(x * 100.0) && ValidateRate(x, cfg)
  {
  }

  /**
   * What the extraction promises: a rate is returned for a configured maturity
   * exactly when its entry holds it, and nothing is returned exactly when no
   * column matches or no maturity yields a valid rate.
   */
  lemma CountryRatesSpec(p: Pivot, code: string, cfg: Config, m: nat, x: real)
    requires WellFormed(p)
    ensures CountryRates(p, code, cfg).None?
        <==> || ColumnSearch(p.columns, CountryAliases(code), None).None?
             || forall k :: 0 <= k < |cfg.maturities| ==> Entry(p, ColumnSearch(p.columns, CountryAliases(code), None).value, cfg.maturities[k], cfg).None?
    ensures CountryRates(p, code, cfg).Some?
        ==> ((m, x) in CountryRates(p, code, cfg).value
             <==> m in cfg.maturities && Entry(p, ColumnSearch(p.columns, CountryAliases(code), None).value, m, cfg) == Some(x))
  {
    var col := ColumnSearch(p.columns, CountryAliases(code), None);
    if col.Some? {
      var rates := ExtractedRates(p, col.value, cfg.maturities, cfg);
      ExtractedRatesExactly(p, col.value, cfg.maturities, cfg, m, x);
      if rates == [] {
        forall k | 0 <= k < |cfg.maturities|
          ensures Entry(p, col.value, cfg.maturities[k], cfg).None?
        {
          var e := Entry(p, col.value, cfg.maturities[k], cfg);
          if e.Some? {
            ExtractedRatesExactly(p, col.value, cfg.maturities, cfg, cfg.maturities[k], e.value);
            assert false;
          }
        }
      } else {
        var k0 := rates[0];
        assert k0 in rates;
        ExtractedRatesExactly(p, col.value, cfg.maturities, cfg, k0.0, k0.1);
        var k :| 0 <= k < |cfg.maturities| && cfg.maturities[k] == k0.0;
        assert Entry(p, col.value, cfg.maturities[k], cfg).Some?;
      }
    }
  }

  /** The extraction, with its two loops. */
  method ExtractCountryRatesFromPivot(p: Pivot, code: string, cfg: Config) returns (r: Option<Dict<nat, real>>)
    requires WellFormed(p)
    ensures r == CountryRates(p, code, cfg)
  {
    var col := FindCountryColumn(p.columns, CountryAliases(code));
    if col.None? {
      return None;
    }
    var c := col.value;
    var maturities := cfg.maturities;
    var rates: Dict<nat, real> := [];
    for k := 0 to |maturities|
      invariant rates == ExtractedRates(p, c, maturities[..k], cfg)
    {
      assert maturities[..k + 1][..k] == maturities[..k];
      var m := maturities[k];
      var i := 0;
      while i < |p.index| && !IsMaturityRow(p.index[i], m)
        invariant 0 <= i <= |p.index|
        invariant forall i' :: 0 <= i' < i ==> !IsMaturityRow(p.index[i'], m)
      {
        i := i + 1;
      }
      if i < |p.index| {
        assert FirstRowFor(p.index, m) == Some(i);
        var cell := p.cells[i][c];
        if cell.Some? {
          var x := cell.value / 100.0;
          if ValidateRate(x, cfg) {
            rates := rates + [(m, x)];
          }
        }
      }
    }
    assert maturities[..|maturities|] == maturities;
    if rates == [] {
      return None;
    }
    return Some(rates);
  }

  // ----------------------------------------------------------- processing

  /** The record `process` returns. */
  datatype Processed = Processed(referenceDate: Option<Date>, country: string, rates: Dict<nat, real>, va: Option<real>, sourceFile: string)

  /** The archive contents `process` reads, supplied by the caller: member names, whether the extraction succeeded, the sheet read (None when missing or unreadable). */
  datatype ArchiveContents = ArchiveContents(members: seq<string>, extracted: bool, sheet: Option<Pivot>)

  /** `read_excel_robust`'s result: an empty frame counts as no sheet. */
  function SheetOf(a: ArchiveContents): Option<Pivot> {
    if a.sheet.Some? && WellFormed(a.sheet.value) && a.sheet.value.index != [] && a.sheet.value.columns != [] then a.sheet else None
  }

  /** `process`: the first step that fails ends it with None; the VA is never read. */
  method Process(zipName: string, archive: ArchiveContents, glob: (string, string) -> bool, cfg: Config) returns (r: Option<Processed>)
    ensures r.None? <==>
      || (forall i, j :: 0 <= i < |cfg.excelPatterns| && 0 <= j < |archive.members| ==> !ExcelCandidate(archive.members[j], cfg.excelPatterns[i], glob))
      || !archive.extracted
      || SheetOf(archive).None?
      || CountryRates(SheetOf(archive).value, cfg.targetCountry, cfg).None?
    ensures r.Some? ==> r.value == Processed(ParseDateFromFilename(zipName), cfg.targetCountry,
                                             CountryRates(SheetOf(archive).value, cfg.targetCountry, cfg).value, None, zipName)
  {
    var excel := FindExcelFile(cfg.excelPatterns, archive.members, glob);
    if excel.None? || !archive.extracted {
      return None;
    }
    var sheet := SheetOf(archive);
    if sheet.None? {
      return None;
    }
    var rates := ExtractCountryRatesFromPivot(sheet.value, cfg.targetCountry, cfg);
    if rates.None? || rates.value == [] {
      return None;
    }
    var date := ParseDateFromFilename(zipName);
    return Some(Processed(date, cfg.targetCountry, rates.value, None, zipName));
  }
}
