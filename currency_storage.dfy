/** CurrencyStorageService: the write path (dedup against the latest stored
    rows, then one batched upsert at a shared timestamp) and the read path
    (inclusive date-range query folded into currency -> date -> spot). The
    database is the `exchangeRates` field; the caller's rates map, which the
    dedup pass edits in place, is a RatesMap object. */
module CurrencyStorage {
  import opened Wrappers
  import opened BigDecimals
  import opened ExchangeRatesTable

  /** A snapshot: currency code -> rate, as fetched for one moment. */
  type Rates = map<Currency, Decimal>

  /** What the read path returns: currency -> (date -> spot). */
  type Series = map<Currency, map<Timestamp, Decimal>>

  /** The failures the component itself raises. A null new value in the dedup
      pass throws when it is formatted for the debug log; a null start date
      throws in Timestamp.valueOf. */
  datatype StorageError = NullNewValue(currency: Currency) | NullStartDate

  // ---------------------------------------------------------------- write path

  /** State of the caller's map during the dedup pass: either every row was
      processed, or a row found its currency missing from the map, which throws
      and leaves the map as far as it had been edited. */
  datatype DedupOutcome = Completed(rates: Rates) | NewValueMissing(rates: Rates, currency: Currency)

  /** filterDuplicateValues for one latest row: the stored spot is stripped of
      trailing zeros and compared with `equals` (value and scale) to the new
      value; on equality the currency is dropped from the snapshot. */
  function DedupStep(rates: Rates, row: Row): (o: DedupOutcome)
    ensures o.NewValueMissing? <==> row.currency !in rates
    ensures o.NewValueMissing? ==> o.rates == rates && o.currency == row.currency
    ensures o.Completed? ==> o.rates.Keys <= rates.Keys
    ensures o.Completed? ==> forall c :: c in o.rates ==> o.rates[c] == rates[c]
    ensures o.Completed? ==> forall c :: c in rates ==>
              (c in o.rates <==> c != row.currency || StripTrailingZeros(row.spot) != rates[c])
  {
    if row.currency !in rates then NewValueMissing(rates, row.currency)
    else if StripTrailingZeros(row.spot) == rates[row.currency] then Completed(rates - {row.currency})
    else Completed(rates)
  }

  /** The dedup loop over the latest rows, in result-set order; the first
      failing row stops it. */
  function FilterAll(rates: Rates, rows: seq<Row>): DedupOutcome
    decreases |rows|
  {
    if rows == [] then Completed(rates)
    else
      var prev := FilterAll(rates, rows[..|rows| - 1]);
      if prev.Completed? then DedupStep(prev.rates, rows[|rows| - 1]) else prev
  }

  /** The rows of the batch: every rate of the filtered snapshot at time now. */
  function BatchRows(rates: Rates, now: Timestamp): (rows: set<Row>)
    ensures forall r :: r in rows <==> r.currency in rates && r.date == now && r.spot == rates[r.currency]
  {
    set c | c in rates :: Row(c, now, rates[c])
  }

  /** The effect of the batch on the table: every surviving currency is written
      at the one shared timestamp, nothing is deleted, nothing else changes. */
  function Upsert(t: Table, rates: Rates, now: Timestamp): (t': Table)
    ensures t'.Keys == t.Keys + (set c | c in rates :: Key(c, now))
    ensures forall c :: c in rates ==> t'[Key(c, now)] == rates[c]
    ensures forall k :: k in t && !(k.date == now && k.currency in rates) ==> t'[k] == t[k]
  {
    t + (map c | c in rates :: Key(c, now) := rates[c])
  }

  /** The keys of a listed batch are the surviving currencies at time now. */
  lemma BatchKeys(batch: seq<Row>, rates: Rates, now: Timestamp, k: Key)
    requires IsListing(batch, BatchRows(rates, now))
    ensures HasKey(batch, k) <==> k.date == now && k.currency in rates
  {
    if HasKey(batch, k) {
      var i :| 0 <= i < |batch| && KeyOf(batch[i]) == k;
      assert batch[i] in BatchRows(rates, now);
    }
    if k.date == now && k.currency in rates {
      var r := Row(k.currency, now, rates[k.currency]);
      assert r in batch;
      var i :| 0 <= i < |batch| && batch[i] == r;
      assert KeyOf(batch[i]) == k;
    }
  }

  /** In a listed batch no key occurs twice. */
  lemma BatchKeysDistinct(batch: seq<Row>, rates: Rates, now: Timestamp, i: int)
    requires IsListing(batch, BatchRows(rates, now))
    requires 0 <= i < |batch|
    ensures LastWithKey(batch, i)
  {
    forall j | i < j < |batch| ensures KeyOf(batch[j]) != KeyOf(batch[i]) {
      assert batch[j] in BatchRows(rates, now);
      assert batch[i] in BatchRows(rates, now);
    }
  }

  /** Executing the batch built from the filtered snapshot, in whatever order
      the entries were iterated, is the upsert. */
  lemma ApplyBatchOfListing(t: Table, batch: seq<Row>, rates: Rates, now: Timestamp)
    requires IsListing(batch, BatchRows(rates, now))
    ensures ApplyBatch(t, batch) == Upsert(t, rates, now)
  {
    ApplyBatchLastWins(t, batch);
    var a := ApplyBatch(t, batch);
    var u := Upsert(t, rates, now);
    forall k ensures k in a <==> k in u {
      BatchKeys(batch, rates, now, k);
    }
    forall k | k in a ensures a[k] == u[k] {
      BatchKeys(batch, rates, now, k);
      if HasKey(batch, k) {
        var i :| 0 <= i < |batch| && KeyOf(batch[i]) == k;
        BatchKeysDistinct(batch, rates, now, i);
        assert batch[i] in BatchRows(rates, now);
      }
    }
  }

  // ----------------------------------------------------------------- read path

  /** fetchRowFromResultSet: a currency seen for the first time gets a new
      inner map; the row's date is then put into that currency's map,
      replacing an earlier entry for the same date. */
  function FetchRow(result: Series, row: Row): (r: Series)
    ensures r.Keys == result.Keys + {row.currency}
    ensures forall c :: c in result && c != row.currency ==> r[c] == result[c]
    ensures row.currency in result ==> r[row.currency].Keys == result[row.currency].Keys + {row.date}
    ensures row.currency !in result ==> r[row.currency].Keys == {row.date}
    ensures r[row.currency][row.date] == row.spot
    ensures row.currency in result ==> forall d :: d in result[row.currency] && d != row.date ==>
              r[row.currency][d] == result[row.currency][d]
  {
    if row.currency !in result then result[row.currency := map[row.date := row.spot]]
    else result[row.currency := result[row.currency][row.date := row.spot]]
  }

  /** The read loop: the rows folded into the result one by one, in order. */
  function FoldRows(rows: seq<Row>): Series
    decreases |rows|
  {
    if rows == [] then map[]
    else FetchRow(FoldRows(rows[..|rows| - 1]), rows[|rows| - 1])
  }

  ghost predicate HasCurrency(rows: seq<Row>, c: Currency)
  {
    exists i :: 0 <= i < |rows| && rows[i].currency == c
  }

  /** A currency is in the fold exactly when some row carries it. */
  lemma {:induction false} FoldRowsCurrency(rows: seq<Row>, c: Currency)
    ensures c in FoldRows(rows) <==> HasCurrency(rows, c)
    decreases |rows|
  {
    if rows != [] {
      var p := rows[..|rows| - 1];
      var r := rows[|rows| - 1];
      FoldRowsCurrency(p, c);
      if c != r.currency {
        if HasCurrency(rows, c) {
          var i :| 0 <= i < |rows| && rows[i].currency == c;
          assert i < |p| && p[i] == rows[i];
        }
        if HasCurrency(p, c) {
          var i :| 0 <= i < |p| && p[i].currency == c;
          assert rows[i] == p[i];
        }
      } else {
        assert rows[|rows| - 1].currency == c;
      }
    }
  }

  /** A date is under a currency of the fold exactly when some row carries both. */
  lemma {:induction false} FoldRowsDate(rows: seq<Row>, c: Currency, d: Timestamp)
    requires c in FoldRows(rows)
    ensures d in FoldRows(rows)[c] <==> HasKey(rows, Key(c, d))
    decreases |rows|
  {
    var p := rows[..|rows| - 1];
    var r := rows[|rows| - 1];
    var fp := FoldRows(p);
    if Key(c, d) == KeyOf(r) {
      assert KeyOf(rows[|rows| - 1]) == Key(c, d);
    } else {
      if c in fp {
        FoldRowsDate(p, c, d);
      } else {
        FoldRowsCurrency(p, c);
      }
      if HasKey(rows, Key(c, d)) {
        var i :| 0 <= i < |rows| && KeyOf(rows[i]) == Key(c, d);
        assert i < |p| && p[i] == rows[i];
        assert p[i].currency == c;
      }
      if HasKey(p, Key(c, d)) {
        var i :| 0 <= i < |p| && KeyOf(p[i]) == Key(c, d);
        assert rows[i] == p[i];
      }
    }
  }

  /** The row at position i is in the fold, and its spot is there when no later
      row has the same (currency, date). */
  lemma {:induction false} FoldRowsLast(rows: seq<Row>, i: int)
    requires 0 <= i < |rows|
    ensures rows[i].currency in FoldRows(rows) && rows[i].date in FoldRows(rows)[rows[i].currency]
    ensures LastWithKey(rows, i) ==> FoldRows(rows)[rows[i].currency][rows[i].date] == rows[i].spot
    decreases |rows|
  {
    var p := rows[..|rows| - 1];
    var r := rows[|rows| - 1];
    if i < |p| {
      assert rows[i] == p[i];
      FoldRowsLast(p, i);
      if LastWithKey(rows, i) {
        assert LastWithKey(p, i);
        assert KeyOf(r) != KeyOf(rows[i]);
      }
    }
  }

  /** The shape of the fold: its keys are the currencies of the rows, no inner
      map is empty, an inner map holds exactly the dates of that currency's
      rows, and for a repeated (currency, date) the last row wins. */
  lemma FoldRowsShape(rows: seq<Row>)
    ensures forall c :: c in FoldRows(rows) <==> HasCurrency(rows, c)
    ensures forall c :: c in FoldRows(rows) ==> |FoldRows(rows)[c]| > 0
    ensures forall c, d :: c in FoldRows(rows) ==> (d in FoldRows(rows)[c] <==> HasKey(rows, Key(c, d)))
    ensures forall i :: 0 <= i < |rows| ==>
              rows[i].currency in FoldRows(rows) && rows[i].date in FoldRows(rows)[rows[i].currency]
    ensures forall i :: 0 <= i < |rows| && LastWithKey(rows, i) ==>
              FoldRows(rows)[rows[i].currency][rows[i].date] == rows[i].spot
  {
    var f := FoldRows(rows);
    forall c ensures c in f <==> HasCurrency(rows, c) {
      FoldRowsCurrency(rows, c);
    }
    forall c, d | c in f ensures d in f[c] <==> HasKey(rows, Key(c, d)) {
      FoldRowsDate(rows, c, d);
    }
    forall i | 0 <= i < |rows|
      ensures rows[i].currency in f && rows[i].date in f[rows[i].currency]
      ensures LastWithKey(rows, i) ==> f[rows[i].currency][rows[i].date] == rows[i].spot
    {
      FoldRowsLast(rows, i);
    }
    forall c | c in f ensures |f[c]| > 0 {
      var i :| 0 <= i < |rows| && rows[i].currency == c;
      assert rows[i].date in f[c];
    }
  }

  /** result is what the range query returns from table t: its keys are the
      currencies that have a selected row, each inner map holds exactly the
      dates of that currency's selected rows, with their stored spots. */
  ghost predicate Reflects(result: Series, t: Table, start: Timestamp, end: Timestamp, currency: Option<Currency>)
  {
    && (forall c :: c in result <==> exists k :: k in t && Selected(k, start, end, currency) && k.currency == c)
    && (forall c, d :: c in result ==>
          (d in result[c] <==> Key(c, d) in t && Selected(Key(c, d), start, end, currency)))
    && (forall c, d :: c in result && d in result[c] ==> result[c][d] == t[Key(c, d)])
  }

  /** Folding a result set of the range query gives the series it reflects,
      whatever order the server sent the rows in. */
  lemma FoldOfResultSet(t: Table, start: Timestamp, end: Timestamp, currency: Option<Currency>, rows: seq<Row>)
    requires IsListing(rows, SelectedRows(t, start, end, currency))
    ensures Reflects(FoldRows(rows), t, start, end, currency)
  {
    var f := FoldRows(rows);
    var sel := SelectedRows(t, start, end, currency);
    FoldRowsShape(rows);
    forall c | c in f ensures exists k :: k in t && Selected(k, start, end, currency) && k.currency == c {
      var i :| 0 <= i < |rows| && rows[i].currency == c;
      assert rows[i] in sel;
      assert KeyOf(rows[i]) in t;
    }
    forall k | k in t && Selected(k, start, end, currency) ensures k.currency in f && k.date in f[k.currency] {
      assert RowAt(t, k) in sel;
      var i :| 0 <= i < |rows| && rows[i] == RowAt(t, k);
    }
    forall c, d | c in f && d in f[c]
      ensures Key(c, d) in t && Selected(Key(c, d), start, end, currency) && f[c][d] == t[Key(c, d)]
    {
      var i :| 0 <= i < |rows| && KeyOf(rows[i]) == Key(c, d);
      assert rows[i] in sel;
      assert LastWithKey(rows, i) by {
        forall j | i < j < |rows| ensures KeyOf(rows[j]) != KeyOf(rows[i]) {
          assert rows[j] in sel;
        }
      }
    }
  }

  /** The loop that adds one INSERT per entry of the filtered map to the batch,
      in the map's iteration order, which HashMap leaves unspecified. */
  method BuildBatch(rates: Rates, now: Timestamp) returns (batch: seq<Row>)
    ensures IsListing(batch, BatchRows(rates, now))
  {
    batch := [];
    var pending := rates.Keys;
    while pending != {}
      invariant pending <= rates.Keys
      invariant forall r :: r in batch <==> r in BatchRows(rates, now) && r.currency !in pending
      invariant forall a, b :: 0 <= a < b < |batch| ==> batch[a] != batch[b]
      decreases |pending|
    {
      var c :| c in pending;
      batch := batch + [Row(c, now, rates[c])];
      pending := pending - {c};
    }
  }

  // ------------------------------------------------------------------ service

  /** The caller's HashMap<String, BigDecimal>: saveData edits it in place. */
  class RatesMap {
    var rates: Rates

    constructor (rates: Rates)
      ensures this.rates == rates
    {
      this.rates := rates;
    }
  }

  class CurrencyStorageService {
    /** The rows of the exchange_rates table reached through the connection. */
    var exchangeRates: Table

    /** Opening the connection finds the table, or not; initTable then makes
        sure it exists without touching rows already stored. */
    constructor (existing: Option<Table>)
      ensures exchangeRates == CreateTableIfNotExists(existing)
    {
      exchangeRates := CreateTableIfNotExists(existing);
    }

    /** filterDuplicateValues: ok is false when the new value is null, which
        throws; otherwise the currency is removed when the stripped stored spot
        equals the new value. */
    method FilterDuplicateValues(ratesMap: RatesMap, row: Row) returns (ok: bool)
      modifies ratesMap
      ensures DedupStep(old(ratesMap.rates), row)
           == if ok then Completed(ratesMap.rates) else NewValueMissing(ratesMap.rates, row.currency)
    {
      var currency := row.currency;
      var oldValue := StripTrailingZeros(row.spot);
      if currency !in ratesMap.rates {
        return false;
      }
      var newValue := ratesMap.rates[currency];
      if oldValue == newValue {
        ratesMap.rates := ratesMap.rates - {currency};
      }
      ok := true;
    }

    /** saveData. `latest` is the order in which the server returned the
        latest-points query. On success the caller's map holds the filtered
        snapshot and the table has it upserted at `now`; when a latest row's
        currency is not (or no longer) in the map the call throws, the map keeps
        the removals made so far and nothing is written. */
    method SaveData(ratesMap: RatesMap, now: Timestamp) returns (thrown: Option<StorageError>, ghost latest: seq<Row>)
      modifies this, ratesMap
      ensures IsListing(latest, LatestRows(old(exchangeRates)))
      ensures FilterAll(old(ratesMap.rates), latest).Completed? ==>
                && thrown == None
                && ratesMap.rates == FilterAll(old(ratesMap.rates), latest).rates
                && exchangeRates == Upsert(old(exchangeRates), ratesMap.rates, now)
      ensures FilterAll(old(ratesMap.rates), latest).NewValueMissing? ==>
                && thrown == Some(NullNewValue(FilterAll(old(ratesMap.rates), latest).currency))
                && ratesMap.rates == FilterAll(old(ratesMap.rates), latest).rates
                && exchangeRates == old(exchangeRates)
    {
      var rows := ResultSet(LatestRows(exchangeRates));
      latest := rows;
      var i := 0;
      while i < |rows|
        invariant 0 <= i <= |rows|
        invariant FilterAll(old(ratesMap.rates), rows[..i]) == Completed(ratesMap.rates)
        invariant exchangeRates == old(exchangeRates)
      {
        var ok := FilterDuplicateValues(ratesMap, rows[i]);
        assert rows[..i + 1][..i] == rows[..i];
        if !ok {
          FailureIsFinal(old(ratesMap.rates), rows, i + 1);
          return Some(NullNewValue(rows[i].currency)), latest;
        }
        i := i + 1;
      }
      assert rows[..|rows|] == rows;

      var batch := BuildBatch(ratesMap.rates, now);
      ApplyBatchOfListing(exchangeRates, batch, ratesMap.rates, now);
      exchangeRates := ApplyBatch(exchangeRates, batch);
      thrown := None;
    }

    /** retrieveData(startDate, endDate, currency): a null end date means now,
        a null currency means every currency, a null start date throws. */
    method RetrieveData(startDate: Option<Timestamp>, endDate: Option<Timestamp>, currency: Option<Currency>, now: Timestamp)
      returns (r: Result<Series, StorageError>)
      ensures startDate.None? <==> r.Failure?
      ensures r.Failure? ==> r.error == NullStartDate
      ensures r.Success? ==> Reflects(r.value, exchangeRates, startDate.value, endDate.GetOr(now), currency)
    {
      var end := if endDate.None? then now else endDate.value;
      if startDate.None? {
        return Failure(NullStartDate);
      }
      var rows := ResultSet(SelectedRows(exchangeRates, startDate.value, end, currency));
      var result: Series := map[];
      var i := 0;
      while i < |rows|
        invariant 0 <= i <= |rows|
        invariant result == FoldRows(rows[..i])
      {
        assert rows[..i + 1][..i] == rows[..i];
        result := FetchRow(result, rows[i]);
        i := i + 1;
      }
      assert rows[..|rows|] == rows;
      FoldOfResultSet(exchangeRates, startDate.value, end, currency, rows);
      return Success(result);
    }

    /** retrieveData(startDate, endDate): the three-argument call with a null
        currency. */
    method RetrieveDataAllCurrencies(startDate: Option<Timestamp>, endDate: Option<Timestamp>, now: Timestamp)
      returns (r: Result<Series, StorageError>)
      ensures startDate.None? <==> r.Failure?
      ensures r.Failure? ==> r.error == NullStartDate
      ensures r.Success? ==> Reflects(r.value, exchangeRates, startDate.value, endDate.GetOr(now), None)
    {
      r := RetrieveData(startDate, endDate, None, now);
    }
  }

  /** Once the dedup pass has failed it stays failed: later rows change nothing. */
  lemma {:induction false} FailureIsFinal(rates: Rates, rows: seq<Row>, n: nat)
    requires n <= |rows|
    requires FilterAll(rates, rows[..n]).NewValueMissing?
    ensures FilterAll(rates, rows) == FilterAll(rates, rows[..n])
    decreases |rows| - n
  {
    if n < |rows| {
      assert rows[..n + 1][..n] == rows[..n];
      FailureIsFinal(rates, rows, n + 1);
    } else {
      assert rows[..n] == rows;
    }
  }
}
