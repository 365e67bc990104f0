/**
 * The historical table of analyzer.py as values: its rows, the upsert that
 * `add_to_historical` performs, the exact-key lookup, the closest-date anchor
 * search and the time-series query, with the invariants they keep.
 */
module Store {
  import opened Wrappers
  import opened Calendar
  import opened Sequences
  import opened Dicts

  /** A record handed to the store and returned by its lookups (the `data` dictionaries of analyzer.py). */
  datatype Observation = Observation(referenceDate: Date, country: string, rates: Dict<nat, real>, va: Option<real>)

  /**
   * A row of `historical_data`: the key columns, one cell per `rate_{m}y` column
   * in maturity order (`None` is NaN), the `va` cell, and the descriptive columns
   * (llp, alpha, ufr, ...) that the core carries without reading.
   */
  datatype Row = Row(date: Date, country: string, cells: seq<Option<real>>, va: Option<real>, meta: map<string, real>)

  predicate HasKeyOf(r: Row, date: Date, country: string) {
    r.date == date && r.country == country
  }

  ghost predicate SortedByDate(rows: seq<Row>) {
    forall i, j :: 0 <= i < j < |rows| ==> Ordinal(rows[i].date) <= Ordinal(rows[j].date)
  }

  ghost predicate UniqueKeys(rows: seq<Row>) {
    forall i, j :: 0 <= i < j < |rows| ==> !HasKeyOf(rows[j], rows[i].date, rows[i].country)
  }

  ghost predicate Schema(rows: seq<Row>, maturities: seq<nat>) {
    forall i :: 0 <= i < |rows| ==> |rows[i].cells| == |maturities|
  }

  /** At most one row per (reference_date, country), rows in date order, one cell per rate column. */
  ghost predicate StoreInvariant(rows: seq<Row>, maturities: seq<nat>) {
    SortedByDate(rows) && UniqueKeys(rows) && Schema(rows, maturities)
  }

  // ------------------------------------------------------------ exact key

  /** The first row with the key, as the boolean mask of analyzer.py selects it. */
  function FindKey(rows: seq<Row>, date: Date, country: string): (r: Option<nat>)
    ensures r.Some? ==> r.value < |rows| && HasKeyOf(rows[r.value], date, country)
    ensures r.Some? ==> forall j :: 0 <= j < r.value ==> !HasKeyOf(rows[j], date, country)
    ensures r.None? ==> forall j :: 0 <= j < |rows| ==> !HasKeyOf(rows[j], date, country)
  {
    if rows == [] then None
    else if HasKeyOf(rows[0], date, country) then Some(0)
    else
      match FindKey(rows[1..], date, country)
      case None => None
      case Some(k) => Some(k + 1)
  }

  /** The rate cells written for an observation: `data['rates'].get(m)` for every maturity column. */
  function NewCells(maturities: seq<nat>, rates: Dict<nat, real>): (cells: seq<Option<real>>)
    ensures |cells| == |maturities|
  {
    seq(|maturities|, i requires 0 <= i < |maturities| => Get(rates, maturities[i]))
  }

  /** The row appended for a new key; its descriptive columns are NaN. */
  function NewRow(maturities: seq<nat>, obs: Observation): Row {
    Row(obs.referenceDate, obs.country, NewCells(maturities, obs.rates), obs.va, map[])
  }

  /** The rates read back from a row: the non-null cells, keyed by their maturity, in column order. */
  function NonNullRates(maturities: seq<nat>, cells: seq<Option<real>>): Dict<nat, real>
    requires |cells| == |maturities|
  {
    if maturities == [] then []
    else
      var n := |maturities| - 1;
      NonNullRates(maturities[..n], cells[..n]) + if cells[n].Some? then [(maturities[n], cells[n].value)] else []
  }

  /** The record `get_historical_data` and the anchor lookups rebuild from a row. */
  function RowObservation(row: Row, maturities: seq<nat>): Observation
    requires |row.cells| == |maturities|
  {
    Observation(row.date, row.country, NonNullRates(maturities, row.cells), row.va)
  }

  /** `get_historical_data`: the record stored under exactly this key, if any. */
  function HistoricalData(rows: seq<Row>, maturities: seq<nat>, country: string, date: Date): Option<Observation>
    requires Schema(rows, maturities)
  {
    match FindKey(rows, date, country)
    case None => None
    case Some(i) => Some(RowObservation(rows[i], maturities))
  }

  /** A rate is read back exactly where its column holds a value. */
  lemma {:induction false} NonNullRatesExactly(maturities: seq<nat>, cells: seq<Option<real>>, m: nat, v: real)
    requires |cells| == |maturities|
    ensures (m, v) in NonNullRates(maturities, cells) <==> exists i :: 0 <= i < |maturities| && maturities[i] == m && cells[i] == Some(v)
  {
    if maturities != [] {
      var n := |maturities| - 1;
      NonNullRatesExactly(maturities[..n], cells[..n], m, v);
      if (m, v) in NonNullRates(maturities, cells) && (m, v) !in NonNullRates(maturities[..n], cells[..n]) {
        assert maturities[n] == m && cells[n] == Some(v);
      }
      if exists i :: 0 <= i < |maturities| && maturities[i] == m && cells[i] == Some(v) {
        var i :| 0 <= i < |maturities| && maturities[i] == m && cells[i] == Some(v);
        if i < n {
          assert maturities[..n][i] == m && cells[..n][i] == Some(v);
        }
      }
    }
  }

  /**
   * The rates of an observation as the store keeps them: the maturities it quotes,
   * in column order. Rates outside the configured maturities are not stored.
   */
  function Projected(maturities: seq<nat>, rates: Dict<nat, real>): Dict<nat, real> {
    NonNullRates(maturities, NewCells(maturities, rates))
  }

  // --------------------------------------------------------------- upsert

  /** Append the row, then sort by date: the row lands after every row dated on or before it. */
  function InsertByDate(rows: seq<Row>, r: Row): seq<Row> {
    if rows == [] then [r]
    else if Ordinal(rows[|rows| - 1].date) > Ordinal(r.date) then InsertByDate(rows[..|rows| - 1], r) + [rows[|rows| - 1]]
    else rows + [r]
  }

  /** Where `InsertByDate` places the row. */
  function InsertPos(rows: seq<Row>, d: Date): (k: nat)
    ensures k <= |rows|
  {
    if rows == [] then 0
    else if Ordinal(rows[|rows| - 1].date) > Ordinal(d) then InsertPos(rows[..|rows| - 1], d)
    else |rows|
  }

  /** The row goes after the last row dated on or before it: every row from there on is later. */
  lemma InsertPosBounds(rows: seq<Row>, d: Date)
    ensures forall j :: InsertPos(rows, d) <= j < |rows| ==> Ordinal(rows[j].date) > Ordinal(d)
    ensures InsertPos(rows, d) > 0 ==> Ordinal(rows[InsertPos(rows, d) - 1].date) <= Ordinal(d)
  {
    InsertPosLater(rows, d);
    InsertPosEarlier(rows, d);
  }

  lemma {:induction false} InsertPosLater(rows: seq<Row>, d: Date)
    ensures forall j :: InsertPos(rows, d) <= j < |rows| ==> Ordinal(rows[j].date) > Ordinal(d)
  {
    if rows != [] && Ordinal(rows[|rows| - 1].date) > Ordinal(d) {
      var init := rows[..|rows| - 1];
      InsertPosLater(init, d);
      assert InsertPos(rows, d) == InsertPos(init, d);
      forall j | InsertPos(rows, d) <= j < |init|
        ensures Ordinal(rows[j].date) > Ordinal(d)
      {
        assert rows[j] == init[j];
      }
    }
  }

  lemma {:induction false} InsertPosEarlier(rows: seq<Row>, d: Date)
    ensures InsertPos(rows, d) > 0 ==> Ordinal(rows[InsertPos(rows, d) - 1].date) <= Ordinal(d)
  {
    if rows != [] && Ordinal(rows[|rows| - 1].date) > Ordinal(d) {
      var init := rows[..|rows| - 1];
      InsertPosEarlier(init, d);
      assert InsertPos(rows, d) == InsertPos(init, d);
      if InsertPos(init, d) > 0 {
        assert rows[InsertPos(init, d) - 1] == init[InsertPos(init, d) - 1];
      }
    }
  }

  lemma {:induction false} InsertByDateAt(rows: seq<Row>, r: Row)
    ensures var k := InsertPos(rows, r.date); InsertByDate(rows, r) == rows[..k] + [r] + rows[k..]
  {
    if rows == [] {
    } else if Ordinal(rows[|rows| - 1].date) > Ordinal(r.date) {
      var init, last := rows[..|rows| - 1], rows[|rows| - 1];
      InsertByDateAt(init, r);
      assert init + [last] == rows;
      InsertedBeforeLast(init, last, InsertPos(init, r.date), r);
    } else {
      InsertedAtEnd(rows, r);
    }
  }

  /** `add_to_historical`: overwrite the rate and VA cells of the row with the key, or insert a new row by date. */
  function Upsert(rows: seq<Row>, maturities: seq<nat>, obs: Observation): seq<Row> {
    match FindKey(rows, obs.referenceDate, obs.country)
    case Some(i) => rows[i := rows[i].(cells := NewCells(maturities, obs.rates), va := obs.va)]
    case None => InsertByDate(rows, NewRow(maturities, obs))
  }

  /** Upserting keeps the table keyed, sorted and shaped. */
  lemma UpsertPreservesInvariant(rows: seq<Row>, maturities: seq<nat>, obs: Observation)
    requires StoreInvariant(rows, maturities)
    ensures StoreInvariant(Upsert(rows, maturities, obs), maturities)
  {
    match FindKey(rows, obs.referenceDate, obs.country) {
      case Some(i) =>
        UpdateKeepsInvariant(rows, maturities, i, NewCells(maturities, obs.rates), obs.va);
      case None =>
        var r := NewRow(maturities, obs);
        InsertByDateAt(rows, r);
        InsertPosBounds(rows, r.date);
        InsertionKeepsInvariant(rows, maturities, r, InsertPos(rows, r.date));
    }
  }

  /** Rewriting the cells and VA of one row, with as many cells as columns, keeps the invariant. */
  lemma UpdateKeepsInvariant(rows: seq<Row>, maturities: seq<nat>, i: nat, cells: seq<Option<real>>, va: Option<real>)
    requires StoreInvariant(rows, maturities) && i < |rows| && |cells| == |maturities|
    ensures StoreInvariant(rows[i := rows[i].(cells := cells, va := va)], maturities)
  {
    var u := rows[i := rows[i].(cells := cells, va := va)];
    assert forall j :: 0 <= j < |u| ==> u[j].date == rows[j].date && u[j].country == rows[j].country;
  }

  /** A row with a new key, placed after every row dated on or before it and before every later one, keeps the invariant. */
  lemma InsertionKeepsInvariant(rows: seq<Row>, maturities: seq<nat>, r: Row, k: nat)
    requires StoreInvariant(rows, maturities) && |r.cells| == |maturities|
    requires forall j :: 0 <= j < |rows| ==> !HasKeyOf(rows[j], r.date, r.country)
    requires k <= |rows|
    requires forall j :: k <= j < |rows| ==> Ordinal(rows[j].date) > Ordinal(r.date)
    requires k > 0 ==> Ordinal(rows[k - 1].date) <= Ordinal(r.date)
    ensures StoreInvariant(rows[..k] + [r] + rows[k..], maturities)
  {
    var u := rows[..k] + [r] + rows[k..];
    forall i | 0 <= i < k
      ensures Ordinal(rows[i].date) <= Ordinal(r.date)
    {
      if i < k - 1 {
        assert Ordinal(rows[i].date) <= Ordinal(rows[k - 1].date);
      }
    }
    forall i, j | 0 <= i < j < |u|
      ensures Ordinal(u[i].date) <= Ordinal(u[j].date) && !HasKeyOf(u[j], u[i].date, u[i].country)
    {
      InsertedAt(rows, k, r, i);
      InsertedAt(rows, k, r, j);
      if j < k {
        assert u[i] == rows[i] && u[j] == rows[j];
      } else if j == k {
        assert u[i] == rows[i] && u[j] == r;
      } else if i < k {
        assert u[i] == rows[i] && u[j] == rows[j - 1];
      } else if i == k {
        assert u[i] == r && u[j] == rows[j - 1];
      } else {
        assert u[i] == rows[i - 1] && u[j] == rows[j - 1];
      }
    }
    forall i | 0 <= i < |u|
      ensures |u[i].cells| == |maturities|
    {
      InsertedAt(rows, k, r, i);
    }
  }

  /** After an upsert the key holds exactly the written cells and VA. */
  lemma UpsertLocates(rows: seq<Row>, maturities: seq<nat>, obs: Observation)
    ensures var u := Upsert(rows, maturities, obs);
      && FindKey(u, obs.referenceDate, obs.country).Some?
      && var i := FindKey(u, obs.referenceDate, obs.country).value;
         u[i].cells == NewCells(maturities, obs.rates) && u[i].va == obs.va
  {
    var u := Upsert(rows, maturities, obs);
    match FindKey(rows, obs.referenceDate, obs.country) {
      case Some(i) =>
        assert HasKeyOf(u[i], obs.referenceDate, obs.country);
      case None =>
        var r := NewRow(maturities, obs);
        var k := InsertPos(rows, r.date);
        InsertByDateAt(rows, r);
        forall j | 0 <= j < k
          ensures !HasKeyOf(u[j], obs.referenceDate, obs.country)
        {
          InsertedAt(rows, k, r, j);
        }
        assert HasKeyOf(u[k], obs.referenceDate, obs.country);
    }
  }

  /** Adding the same record twice leaves the table as adding it once. */
  lemma UpsertIdempotent(rows: seq<Row>, maturities: seq<nat>, obs: Observation)
    ensures Upsert(Upsert(rows, maturities, obs), maturities, obs) == Upsert(rows, maturities, obs)
  {
    UpsertLocates(rows, maturities, obs);
  }

  /**
   * Reading a key back after writing it gives the written record, restricted to
   * the configured maturities; nothing of the row it replaced shows through.
   */
  lemma UpsertThenGet(rows: seq<Row>, maturities: seq<nat>, obs: Observation)
    requires StoreInvariant(rows, maturities)
    ensures StoreInvariant(Upsert(rows, maturities, obs), maturities)
    ensures HistoricalData(Upsert(rows, maturities, obs), maturities, obs.country, obs.referenceDate)
         == Some(obs.(rates := Projected(maturities, obs.rates)))
  {
    UpsertPreservesInvariant(rows, maturities, obs);
    UpsertLocates(rows, maturities, obs);
  }

  /** Writing two records under one key: the second wins entirely. */
  lemma UpsertOverwrites(rows: seq<Row>, maturities: seq<nat>, first: Observation, second: Observation)
    requires StoreInvariant(rows, maturities)
    requires first.referenceDate == second.referenceDate && first.country == second.country
    ensures var u := Upsert(Upsert(rows, maturities, first), maturities, second);
      StoreInvariant(u, maturities)
      && HistoricalData(u, maturities, second.country, second.referenceDate) == Some(second.(rates := Projected(maturities, second.rates)))
  {
    UpsertPreservesInvariant(rows, maturities, first);
    UpsertThenGet(Upsert(rows, maturities, first), maturities, second);
  }

  /** The first row holding the key is found again after a row with another key is inserted anywhere. */
  lemma FindKeyAfterInsert(rows: seq<Row>, k: nat, r: Row, date: Date, country: string)
    requires k <= |rows| && !HasKeyOf(r, date, country)
    ensures var u := rows[..k] + [r] + rows[k..];
      var f := FindKey(rows, date, country);
      var g := FindKey(u, date, country);
      && f.None? == g.None?
      && (f.Some? ==> u[g.value] == rows[f.value])
  {
    var u := rows[..k] + [r] + rows[k..];
    forall j | 0 <= j < |u|
      ensures j < k ==> u[j] == rows[j]
      ensures j == k ==> u[j] == r
      ensures j > k ==> u[j] == rows[j - 1]
    {
      InsertedAt(rows, k, r, j);
    }
    match FindKey(rows, date, country) {
      case None =>
        assert forall j :: 0 <= j < |u| ==> !HasKeyOf(u[j], date, country);
      case Some(p) =>
        var q := if p < k then p else p + 1;
        assert HasKeyOf(u[q], date, country) && u[q] == rows[p];
        assert forall j :: 0 <= j < q ==> !HasKeyOf(u[j], date, country);
    }
  }

  /** Every other key reads the same record before and after an upsert. */
  lemma UpsertOthersUnchanged(rows: seq<Row>, maturities: seq<nat>, obs: Observation, country: string, date: Date)
    requires Schema(rows, maturities)
    requires date != obs.referenceDate || country != obs.country
    ensures Schema(Upsert(rows, maturities, obs), maturities)
    ensures HistoricalData(Upsert(rows, maturities, obs), maturities, country, date) == HistoricalData(rows, maturities, country, date)
  {
    var u := Upsert(rows, maturities, obs);
    match FindKey(rows, obs.referenceDate, obs.country) {
      case Some(i) =>
        assert forall j :: 0 <= j < |u| ==> (HasKeyOf(u[j], date, country) <==> HasKeyOf(rows[j], date, country));
      case None =>
        var r := NewRow(maturities, obs);
        var k := InsertPos(rows, r.date);
        InsertByDateAt(rows, r);
        forall j | 0 <= j < |u|
          ensures |u[j].cells| == |maturities|
        {
          InsertedAt(rows, k, r, j);
        }
        FindKeyAfterInsert(rows, k, r, date, country);
    }
  }

  /** An existing key is updated in place: same position, same key and descriptive columns, every other row as it was. */
  lemma UpsertUpdatesInPlace(rows: seq<Row>, maturities: seq<nat>, obs: Observation, i: nat)
    requires i < |rows| && HasKeyOf(rows[i], obs.referenceDate, obs.country)
    requires UniqueKeys(rows)
    ensures |Upsert(rows, maturities, obs)| == |rows|
    ensures Upsert(rows, maturities, obs)[i] == Row(rows[i].date, rows[i].country, NewCells(maturities, obs.rates), obs.va, rows[i].meta)
    ensures forall j :: 0 <= j < |rows| && j != i ==> Upsert(rows, maturities, obs)[j] == rows[j]
  {
    assert forall j :: 0 <= j < i ==> !HasKeyOf(rows[i], rows[j].date, rows[j].country);
  }

  /** A new key adds exactly one row and keeps every existing one: the table grows by the new row. */
  lemma UpsertInsertsOne(rows: seq<Row>, maturities: seq<nat>, obs: Observation)
    requires forall j :: 0 <= j < |rows| ==> !HasKeyOf(rows[j], obs.referenceDate, obs.country)
    ensures multiset(Upsert(rows, maturities, obs)) == multiset(rows) + multiset{NewRow(maturities, obs)}
  {
    var r := NewRow(maturities, obs);
    var k := InsertPos(rows, r.date);
    InsertByDateAt(rows, r);
    InsertedMultiset(rows, k, r);
  }

  // ------------------------------------------------------- anchor search

  function Distance(row: Row, anchor: int): nat {
    var d := Ordinal(row.date) - anchor;
    if d < 0 then -d else d
  }

  /** The mask of `get_previous_month_data` / `get_ytd_data`: the country, within `tolerance` days of the anchor, bounds included. */
  predicate InWindow(row: Row, country: string, anchor: int, tolerance: nat) {
    row.country == country && anchor - tolerance <= Ordinal(row.date) <= anchor + tolerance
  }

  /** Row `i` is in the window and no row in the window is closer to the anchor. */
  ghost predicate IsClosest(rows: seq<Row>, country: string, anchor: int, tolerance: nat, i: int) {
    && 0 <= i < |rows|
    && InWindow(rows[i], country, anchor, tolerance)
    && forall j :: 0 <= j < |rows| && InWindow(rows[j], country, anchor, tolerance) ==> Distance(rows[i], anchor) <= Distance(rows[j], anchor)
  }

  /**
   * What an anchor lookup may answer: nothing exactly when the window is empty,
   * otherwise the record of a row of minimal distance (which one among equally
   * close rows is not fixed, as the unstable sort of the source leaves it).
   */
  ghost predicate ResolvesAnchor(rows: seq<Row>, maturities: seq<nat>, country: string, anchor: int, tolerance: nat, r: Option<Observation>)
    requires Schema(rows, maturities)
  {
    && (r.None? <==> forall j :: 0 <= j < |rows| ==> !InWindow(rows[j], country, anchor, tolerance))
    && (r.Some? ==> exists i :: IsClosest(rows, country, anchor, tolerance, i) && r.value == RowObservation(rows[i], maturities))
  }

  /** A row of the window strictly closer to the anchor than every other row of the window is the answer. */
  lemma UniqueClosestResolves(rows: seq<Row>, maturities: seq<nat>, country: string, anchor: int, tolerance: nat, k: int, r: Option<Observation>)
    requires Schema(rows, maturities)
    requires ResolvesAnchor(rows, maturities, country, anchor, tolerance, r)
    requires 0 <= k < |rows| && InWindow(rows[k], country, anchor, tolerance)
    requires forall j :: 0 <= j < |rows| && j != k && InWindow(rows[j], country, anchor, tolerance) ==> Distance(rows[k], anchor) < Distance(rows[j], anchor)
    ensures r == Some(RowObservation(rows[k], maturities))
  {
    assert r.Some?;
    var i :| IsClosest(rows, country, anchor, tolerance, i) && r.value == RowObservation(rows[i], maturities);
    assert Distance(rows[i], anchor) <= Distance(rows[k], anchor);
  }

  // ---------------------------------------------------------- time series

  function IndexOf(maturities: seq<nat>, m: nat): (r: Option<nat>)
    ensures r.Some? ==> r.value < |maturities| && maturities[r.value] == m
    ensures r.None? ==> m !in maturities
  {
    if maturities == [] then None
    else if maturities[0] == m then Some(0)
    else match IndexOf(maturities[1..], m)
      case None => None
      case Some(k) => Some(k + 1)
  }

  /** The row filter of `get_time_series`: the country, and each bound that is given, inclusive. */
  predicate InRange(row: Row, country: string, start: Option<Date>, end: Option<Date>) {
    && row.country == country
    && (start.Some? ==> Ordinal(start.value) <= Ordinal(row.date))
    && (end.Some? ==> Ordinal(row.date) <= Ordinal(end.value))
  }

  /** The selected rows whose rate column `c` is not NaN, as (date, rate) pairs in table order. */
  function SeriesOf(rows: seq<Row>, c: nat, country: string, start: Option<Date>, end: Option<Date>): seq<(Date, real)> {
    if rows == [] then []
    else
      var last := rows[|rows| - 1];
      SeriesOf(rows[..|rows| - 1], c, country, start, end)
      + if InRange(last, country, start, end) && c < |last.cells| && last.cells[c].Some? then [(last.date, last.cells[c].value)] else []
  }

  /** `get_time_series`: empty when the maturity has no column, the selected points otherwise. */
  function TimeSeries(rows: seq<Row>, maturities: seq<nat>, country: string, maturity: nat, start: Option<Date>, end: Option<Date>): seq<(Date, real)> {
    match IndexOf(maturities, maturity)
    case None => []
    case Some(c) => SeriesOf(rows, c, country, start, end)
  }

  /** Row `row` is selected and holds `v`, dated `d`, in rate column `c`. */
  predicate GivesPoint(row: Row, c: nat, country: string, start: Option<Date>, end: Option<Date>, d: Date, v: real) {
    row.date == d && InRange(row, country, start, end) && c < |row.cells| && row.cells[c] == Some(v)
  }

  /** Some selected row is dated `d` and holds `v` in rate column `c`. */
  ghost predicate HasPoint(rows: seq<Row>, c: nat, country: string, start: Option<Date>, end: Option<Date>, d: Date, v: real) {
    exists i :: 0 <= i < |rows| && GivesPoint(rows[i], c, country, start, end, d, v)
  }

  /** Every point comes from a selected row holding that rate, and every such row gives a point. */
  lemma SeriesOfExactly(rows: seq<Row>, c: nat, country: string, start: Option<Date>, end: Option<Date>, d: Date, v: real)
    ensures (d, v) in SeriesOf(rows, c, country, start, end) <==> HasPoint(rows, c, country, start, end, d, v)
  {
    if (d, v) in SeriesOf(rows, c, country, start, end) {
      SeriesOfSound(rows, c, country, start, end, d, v);
    }
    if HasPoint(rows, c, country, start, end, d, v) {
      var i :| 0 <= i < |rows| && GivesPoint(rows[i], c, country, start, end, d, v);
      SeriesOfComplete(rows, c, country, start, end, i);
    }
  }

  /** The last row's contribution to the series. */
  function PointOf(row: Row, c: nat, country: string, start: Option<Date>, end: Option<Date>): seq<(Date, real)> {
    if InRange(row, country, start, end) && c < |row.cells| && row.cells[c].Some? then [(row.date, row.cells[c].value)] else []
  }

  lemma SeriesOfLast(rows: seq<Row>, c: nat, country: string, start: Option<Date>, end: Option<Date>)
    requires rows != []
    ensures SeriesOf(rows, c, country, start, end)
         == SeriesOf(rows[..|rows| - 1], c, country, start, end) + PointOf(rows[|rows| - 1], c, country, start, end)
  {
  }

  lemma {:induction false} SeriesOfSound(rows: seq<Row>, c: nat, country: string, start: Option<Date>, end: Option<Date>, d: Date, v: real)
    requires (d, v) in SeriesOf(rows, c, country, start, end)
    ensures HasPoint(rows, c, country, start, end, d, v)
  {
    var n := |rows| - 1;
    var init := rows[..n];
    SeriesOfLast(rows, c, country, start, end);
    if (d, v) in SeriesOf(init, c, country, start, end) {
      SeriesOfSound(init, c, country, start, end, d, v);
      var i :| 0 <= i < |init| && GivesPoint(init[i], c, country, start, end, d, v);
      assert rows[i] == init[i];
    } else {
      assert GivesPoint(rows[n], c, country, start, end, d, v);
    }
  }

  lemma {:induction false} SeriesOfComplete(rows: seq<Row>, c: nat, country: string, start: Option<Date>, end: Option<Date>, i: nat)
    requires i < |rows| && InRange(rows[i], country, start, end) && c < |rows[i].cells| && rows[i].cells[c].Some?
    ensures (rows[i].date, rows[i].cells[c].value) in SeriesOf(rows, c, country, start, end)
  {
    var n := |rows| - 1;
    var init := rows[..n];
    SeriesOfLast(rows, c, country, start, end);
    if i < n {
      assert init[i] == rows[i];
      SeriesOfComplete(init, c, country, start, end, i);
    }
  }

  /** Points in strictly increasing date order. */
  predicate Ascending(s: seq<(Date, real)>) {
    forall i, j :: 0 <= i < j < |s| ==> Ordinal(s[i].0) < Ordinal(s[j].0)
  }

  predicate DatesBelow(s: seq<(Date, real)>, bound: int) {
    forall i :: 0 <= i < |s| ==> Ordinal(s[i].0) < bound
  }

  /** A bound above every row of the country is above every point of its series. */
  lemma {:induction false} SeriesOfBelow(rows: seq<Row>, c: nat, country: string, start: Option<Date>, end: Option<Date>, bound: int)
    requires forall k :: 0 <= k < |rows| && rows[k].country == country ==> Ordinal(rows[k].date) < bound
    ensures DatesBelow(SeriesOf(rows, c, country, start, end), bound)
  {
    if rows != [] {
      var n := |rows| - 1;
      var last := rows[n];
      var init := rows[..n];
      assert forall k :: 0 <= k < n ==> init[k] == rows[k];
      SeriesOfBelow(init, c, country, start, end, bound);
      var s0 := SeriesOf(init, c, country, start, end);
      if InRange(last, country, start, end) && c < |last.cells| && last.cells[c].Some? {
        var s := s0 + [(last.date, last.cells[c].value)];
        assert SeriesOf(rows, c, country, start, end) == s;
        forall i | 0 <= i < |s|
          ensures Ordinal(s[i].0) < bound
        {
          if i < |s0| {
            assert s[i] == s0[i];
            assert Ordinal(s0[i].0) < bound;
          } else {
            assert s[i].0 == last.date;
            assert last.country == country;
            assert Ordinal(last.date) < bound;
          }
        }
      } else {
        assert SeriesOf(rows, c, country, start, end) == s0;
        forall i | 0 <= i < |s0|
          ensures Ordinal(s0[i].0) < bound
        {
        }
      }
    }
  }

  /** On a keyed, sorted table a country's series is strictly increasing in date, so the final sort leaves it as it is. */
  lemma {:induction false} SeriesOfAscending(rows: seq<Row>, c: nat, country: string, start: Option<Date>, end: Option<Date>)
    requires SortedByDate(rows) && UniqueKeys(rows)
    ensures Ascending(SeriesOf(rows, c, country, start, end))
  {
    if rows != [] {
      var n := |rows| - 1;
      var last := rows[n];
      var init := rows[..n];
      assert SortedByDate(init) && UniqueKeys(init);
      SeriesOfAscending(init, c, country, start, end);
      if InRange(last, country, start, end) && c < |last.cells| && last.cells[c].Some? {
        forall k | 0 <= k < n && init[k].country == country
          ensures Ordinal(init[k].date) < Ordinal(last.date)
        {
          assert init[k] == rows[k];
          if Ordinal(init[k].date) == Ordinal(last.date) {
            OrdinalInjective(init[k].date, last.date);
          }
        }
        SeriesOfBelow(init, c, country, start, end, Ordinal(last.date));
        var s0 := SeriesOf(init, c, country, start, end);
        var s := s0 + [(last.date, last.cells[c].value)];
        assert SeriesOf(rows, c, country, start, end) == s;
        forall i, j | 0 <= i < j < |s|
          ensures Ordinal(s[i].0) < Ordinal(s[j].0)
        {
          assert s[i] == s0[i];
          if j < |s0| {
            assert s[j] == s0[j];
          } else {
            assert s[j].0 == last.date;
          }
        }
      }
    }
  }

  /** The query's promises: the series of exactly the matching rows, in strictly increasing date order. */
  lemma TimeSeriesSpec(rows: seq<Row>, maturities: seq<nat>, country: string, maturity: nat, start: Option<Date>, end: Option<Date>, d: Date, v: real)
    requires StoreInvariant(rows, maturities)
    ensures var s := TimeSeries(rows, maturities, country, maturity, start, end);
      && (maturity !in maturities ==> s == [])
      && ((d, v) in s <==> maturity in maturities && HasPoint(rows, IndexOf(maturities, maturity).value, country, start, end, d, v))
      && Ascending(s)
  {
    match IndexOf(maturities, maturity) {
      case None =>
      case Some(c) =>
        SeriesOfExactly(rows, c, country, start, end, d, v);
        SeriesOfAscending(rows, c, country, start, end);
    }
  }
}
