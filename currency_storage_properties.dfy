/** What the storage component guarantees, and where it does not: the dedup
    pass characterised for every result-set order, its failure condition,
    idempotence of a repeated save, the upsert's effect per currency, and the
    read path's range, filter and round trip. */
module CurrencyStorageProperties {
  import opened Wrappers
  import opened BigDecimals
  import opened ExchangeRatesTable
  import opened CurrencyStorage

  // ------------------------------------------------------------ dedup pass

  /** Row r's stored spot, stripped of trailing zeros, equals the new value
      for its currency. */
  ghost predicate Unchanged(rates: Rates, r: Row)
  {
    r.currency in rates && StripTrailingZeros(r.spot) == rates[r.currency]
  }

  /** The currencies that some row reports unchanged. */
  ghost function UnchangedCurrencies(rates: Rates, rows: seq<Row>): set<Currency>
  {
    set r | r in rows && Unchanged(rates, r) :: r.currency
  }

  /** Processing rows[i] throws: its currency was never in the snapshot, or an
      earlier row of the same currency already removed it. */
  ghost predicate ThrowsAt(rates: Rates, rows: seq<Row>, i: int)
    requires 0 <= i < |rows|
  {
    || rows[i].currency !in rates
    || exists j :: 0 <= j < i && rows[j].currency == rows[i].currency && Unchanged(rates, rows[j])
  }

  ghost predicate DedupThrows(rates: Rates, rows: seq<Row>)
  {
    exists i :: 0 <= i < |rows| && ThrowsAt(rates, rows, i)
  }

  lemma ThrowsAtPrefix(rates: Rates, rows: seq<Row>, n: nat, i: int)
    requires n <= |rows| && 0 <= i < n
    ensures ThrowsAt(rates, rows[..n], i) <==> ThrowsAt(rates, rows, i)
  {
    var p := rows[..n];
    assert forall j :: 0 <= j <= i ==> p[j] == rows[j];
    if ThrowsAt(rates, rows, i) && rows[i].currency in rates {
      var j :| 0 <= j < i && rows[j].currency == rows[i].currency && Unchanged(rates, rows[j]);
      assert p[j] == rows[j];
    }
  }

  lemma UnchangedCurrenciesSnoc(rates: Rates, p: seq<Row>, r: Row)
    ensures UnchangedCurrencies(rates, p + [r])
         == UnchangedCurrencies(rates, p) + (if Unchanged(rates, r) then {r.currency} else {})
  {
    var rows := p + [r];
    forall q | q in rows ensures q in p || q == r {
    }
    forall q | q in p ensures q in rows {
    }
  }

  /** The last row throws iff its currency is gone from the map left by the
      rows before it. */
  lemma LastRowThrows(rates: Rates, rows: seq<Row>)
    requires rows != []
    ensures var n := |rows| - 1;
            rows[n].currency !in rates - UnchangedCurrencies(rates, rows[..n]) <==> ThrowsAt(rates, rows, n)
  {
    var n := |rows| - 1;
    var p := rows[..n];
    var r := rows[n];
    var m := rates - UnchangedCurrencies(rates, p);
    if r.currency in rates && r.currency !in m {
      var q :| q in p && Unchanged(rates, q) && q.currency == r.currency;
      var j :| 0 <= j < n && p[j] == q;
      assert rows[j] == q;
    }
    if r.currency in rates && ThrowsAt(rates, rows, n) {
      var j :| 0 <= j < n && rows[j].currency == r.currency && Unchanged(rates, rows[j]);
      assert rows[j] == p[j];
      assert p[j] in p;
    }
  }

  lemma FilterAllSnoc(rates: Rates, p: seq<Row>, r: Row)
    ensures FilterAll(rates, p + [r])
         == if FilterAll(rates, p).Completed? then DedupStep(FilterAll(rates, p).rates, r) else FilterAll(rates, p)
  {
    assert (p + [r])[..|p|] == p;
  }

  lemma RemoveOneMore(rates: Rates, u: set<Currency>, c: Currency)
    ensures (rates - u) - {c} == rates - (u + {c})
  {
  }

  /** One more row on a completed pass whose currency is still in the map
      removes it exactly when that row reports it unchanged. */
  lemma CompletedStep(rates: Rates, p: seq<Row>, r: Row)
    requires FilterAll(rates, p) == Completed(rates - UnchangedCurrencies(rates, p))
    requires r.currency in rates - UnchangedCurrencies(rates, p)
    ensures FilterAll(rates, p + [r]) == Completed(rates - UnchangedCurrencies(rates, p + [r]))
  {
    var u := UnchangedCurrencies(rates, p);
    FilterAllSnoc(rates, p, r);
    UnchangedCurrenciesSnoc(rates, p, r);
    if Unchanged(rates, r) {
      RemoveOneMore(rates, u, r.currency);
    }
  }

  /** rows[i] is the first row whose processing throws. */
  ghost predicate FirstThrow(rates: Rates, rows: seq<Row>, i: int)
  {
    0 <= i < |rows| && ThrowsAt(rates, rows, i) && forall j :: 0 <= j < i ==> !ThrowsAt(rates, rows, j)
  }

  /** Appending a row keeps the first throw of the prefix, or adds the last
      row as the first throw when the prefix has none. */
  lemma ThrowsSnoc(rates: Rates, rows: seq<Row>)
    requires rows != []
    ensures var n := |rows| - 1;
            && (DedupThrows(rates, rows) <==> DedupThrows(rates, rows[..n]) || ThrowsAt(rates, rows, n))
            && (forall i :: FirstThrow(rates, rows[..n], i) ==> FirstThrow(rates, rows, i))
            && (!DedupThrows(rates, rows[..n]) && ThrowsAt(rates, rows, n) ==> FirstThrow(rates, rows, n))
  {
    var n := |rows| - 1;
    forall i | 0 <= i < n ensures ThrowsAt(rates, rows[..n], i) <==> ThrowsAt(rates, rows, i) {
      ThrowsAtPrefix(rates, rows, n, i);
    }
  }

  /** The dedup pass, exactly. It throws iff some row throws; then the first
      such row names the currency and the caller's map has lost the currencies
      the rows before it reported unchanged. Otherwise the map loses exactly
      the currencies some row reports unchanged, and keeps every other entry
      with its value. */
  lemma {:induction false} FilterAllCharacterized(rates: Rates, rows: seq<Row>)
    ensures FilterAll(rates, rows).NewValueMissing? <==> DedupThrows(rates, rows)
    ensures FilterAll(rates, rows).Completed? ==>
              FilterAll(rates, rows).rates == rates - UnchangedCurrencies(rates, rows)
    ensures FilterAll(rates, rows).NewValueMissing? ==>
              exists i :: FirstThrow(rates, rows, i)
                && FilterAll(rates, rows).currency == rows[i].currency
                && FilterAll(rates, rows).rates == rates - UnchangedCurrencies(rates, rows[..i])
    decreases |rows|
  {
    if rows == [] {
      assert UnchangedCurrencies(rates, rows) == {};
    } else {
      var n := |rows| - 1;
      var p := rows[..n];
      var r := rows[n];
      assert rows == p + [r];
      FilterAllCharacterized(rates, p);
      FilterAllSnoc(rates, p, r);
      ThrowsSnoc(rates, rows);
      var prev := FilterAll(rates, p);
      if prev.NewValueMissing? {
        var i :| FirstThrow(rates, p, i)
          && prev.currency == p[i].currency
          && prev.rates == rates - UnchangedCurrencies(rates, p[..i]);
        assert p[..i] == rows[..i];
      } else {
        LastRowThrows(rates, rows);
        if r.currency in prev.rates {
          CompletedStep(rates, p, r);
        }
      }
    }
  }

  /** A currency that no latest row mentions is never removed and keeps its
      value, whether the dedup pass completes or throws part way (the caller's
      map then keeps only the removals made before the throw). */
  lemma DedupKeepsUnmentioned(rates: Rates, rows: seq<Row>, c: Currency)
    requires c in rates && forall i :: 0 <= i < |rows| ==> rows[i].currency != c
    ensures c in FilterAll(rates, rows).rates && FilterAll(rates, rows).rates[c] == rates[c]
  {
    FilterAllCharacterized(rates, rows);
  }

  /** When the dedup pass completes, a currency is removed exactly when it has
      a latest row denoting the same number as the new value and the new value
      carries no trailing zero; a new value written with trailing zeros
      (1.0850) is never taken as unchanged. */
  lemma DedupRemovesBySameValue(rates: Rates, rows: seq<Row>, c: Currency)
    requires FilterAll(rates, rows).Completed?
    requires c in rates
    ensures c !in FilterAll(rates, rows).rates
        <==> IsStripped(rates[c])
             && exists i :: 0 <= i < |rows| && rows[i].currency == c && Value(rows[i].spot) == Value(rates[c])
  {
    FilterAllCharacterized(rates, rows);
    if c !in FilterAll(rates, rows).rates {
      var r :| r in rows && Unchanged(rates, r) && r.currency == c;
      StripEqualsIff(r.spot, rates[c]);
      var i :| 0 <= i < |rows| && rows[i] == r;
    }
    if IsStripped(rates[c]) && exists i :: 0 <= i < |rows| && rows[i].currency == c && Value(rows[i].spot) == Value(rates[c]) {
      var i :| 0 <= i < |rows| && rows[i].currency == c && Value(rows[i].spot) == Value(rates[c]);
      StripEqualsIff(rows[i].spot, rates[c]);
      assert rows[i] in rows;
    }
  }

  /** A snapshot whose values carry no trailing zero, as the rate fetcher
      builds it, is deduplicated on numbers alone: a completed pass removes c
      exactly when some latest row of c denotes the same number. */
  lemma StrippedSnapshotDedupsByValue(rates: Rates, rows: seq<Row>, c: Currency)
    requires forall c' :: c' in rates ==> IsStripped(rates[c'])
    requires FilterAll(rates, rows).Completed?
    requires c in rates
    ensures c !in FilterAll(rates, rows).rates
        <==> exists i :: 0 <= i < |rows| && rows[i].currency == c && Value(rows[i].spot) == Value(rates[c])
  {
    DedupRemovesBySameValue(rates, rows, c);
  }

  /** With one latest row per currency (what the latest-points query is
      meant to return) and every stored currency present in the snapshot, the
      dedup pass never throws. */
  lemma DedupCompletesOnOneRowPerCurrency(rates: Rates, rows: seq<Row>)
    requires forall i :: 0 <= i < |rows| ==> rows[i].currency in rates
    requires forall i, j :: 0 <= i < j < |rows| ==> rows[i].currency != rows[j].currency
    ensures FilterAll(rates, rows).Completed?
  {
    FilterAllCharacterized(rates, rows);
  }

  // ------------------------------------------------------ latest-row query

  /** Among finitely many keys there is one with the greatest date. */
  lemma {:induction false} GreatestDateExists(s: set<Key>)
    requires s != {}
    ensures exists k :: k in s && forall k' :: k' in s ==> k'.date <= k.date
    decreases |s|
  {
    var k0 :| k0 in s;
    if s != {k0} {
      var rest := s - {k0};
      GreatestDateExists(rest);
      var k1 :| k1 in rest && forall k' :: k' in rest ==> k'.date <= k1.date;
      var top := if k1.date < k0.date then k0 else k1;
      forall k' | k' in s ensures k'.date <= top.date {
        if k' != k0 {
          assert k' in rest;
        }
      }
    }
  }

  /** Every currency in the table has its latest row among the latest rows. */
  lemma LatestRowOfEachCurrency(t: Table, c: Currency)
    requires exists k :: k in t && k.currency == c
    ensures exists k :: IsLatestOf(t, k) && k.currency == c && RowAt(t, k) in LatestRows(t)
  {
    var s := set k | k in t && k.currency == c;
    var k0 :| k0 in t && k0.currency == c;
    assert k0 in s;
    GreatestDateExists(s);
    var k :| k in s && forall k' :: k' in s ==> k'.date <= k.date;
    assert IsLatestOf(t, k);
    assert IsLatestDate(t, k.date);
  }

  /** saveData throws, whatever order the rows come in, as soon as the table
      holds a currency the snapshot lacks: its latest row finds no new value. */
  lemma SaveThrowsOnMissingCurrency(t: Table, rates: Rates, rows: seq<Row>, c: Currency)
    requires IsListing(rows, LatestRows(t))
    requires c !in rates && exists k :: k in t && k.currency == c
    ensures FilterAll(rates, rows).NewValueMissing?
  {
    LatestRowOfEachCurrency(t, c);
    var k :| IsLatestOf(t, k) && k.currency == c && RowAt(t, k) in LatestRows(t);
    var i :| 0 <= i < |rows| && rows[i] == RowAt(t, k);
    assert ThrowsAt(rates, rows, i);
    FilterAllCharacterized(rates, rows);
  }

  /** A snapshot that repeats every currency's latest stored value (up to
      trailing zeros on the stored side) writes nothing, in every order in
      which the save does not throw. */
  lemma UnchangedSnapshotWritesNothing(t: Table, rates: Rates, rows: seq<Row>)
    requires IsListing(rows, LatestRows(t))
    requires forall c :: c in rates ==>
               exists k :: IsLatestOf(t, k) && k.currency == c && StripTrailingZeros(t[k]) == rates[c]
    ensures FilterAll(rates, rows).Completed? ==> FilterAll(rates, rows).rates == map[]
  {
    FilterAllCharacterized(rates, rows);
    forall c | c in rates ensures c in UnchangedCurrencies(rates, rows) {
      var k :| IsLatestOf(t, k) && k.currency == c && StripTrailingZeros(t[k]) == rates[c];
      assert IsLatestDate(t, k.date);
      assert RowAt(t, k) in LatestRows(t);
      assert RowAt(t, k) in rows;
    }
  }

  lemma LatestAfterFullWriteIsWritten(t: Table, rates: Rates, now: Timestamp, r: Row)
    requires forall k :: k in t ==> k.date < now && k.currency in rates
    requires r in LatestRows(Upsert(t, rates, now))
    ensures r.currency in rates && r == Row(r.currency, now, rates[r.currency])
  {
    var t1 := Upsert(t, rates, now);
    var k :| k in t1 && k.date == r.date && IsLatestOf(t1, k);
    assert k.currency in rates;
    assert Key(k.currency, now) in t1;
  }

  lemma WrittenIsLatestAfterFullWrite(t: Table, rates: Rates, now: Timestamp, c: Currency)
    requires forall k :: k in t ==> k.date < now
    requires c in rates
    ensures Row(c, now, rates[c]) in LatestRows(Upsert(t, rates, now))
  {
    var t1 := Upsert(t, rates, now);
    var k := Key(c, now);
    assert IsLatestOf(t1, k);
    assert RowAt(t1, k) in LatestRows(t1);
  }

  /** After a write that covers every stored currency, the latest rows are
      exactly the rows just written. */
  lemma LatestAfterFullWrite(t: Table, rates: Rates, now: Timestamp)
    requires forall k :: k in t ==> k.date < now && k.currency in rates
    ensures forall r :: r in LatestRows(Upsert(t, rates, now)) <==>
              r.currency in rates && r == Row(r.currency, now, rates[r.currency])
  {
    forall r | r in LatestRows(Upsert(t, rates, now))
      ensures r.currency in rates && r == Row(r.currency, now, rates[r.currency])
    {
      LatestAfterFullWriteIsWritten(t, rates, now, r);
    }
    forall c | c in rates ensures Row(c, now, rates[c]) in LatestRows(Upsert(t, rates, now)) {
      WrittenIsLatestAfterFullWrite(t, rates, now, c);
    }
  }

  /** Saving a snapshot again right after it was written in full writes
      nothing and cannot throw, provided its values carry no trailing zero and
      it covers every currency stored before. This is the idempotence of a
      repeated save, and it holds in every result-set order. */
  lemma {:induction false} ResaveAfterFullWriteIsNoOp(t: Table, rates: Rates, now: Timestamp, rows: seq<Row>)
    requires forall k :: k in t ==> k.date < now && k.currency in rates
    requires forall c :: c in rates ==> IsStripped(rates[c])
    requires IsListing(rows, LatestRows(Upsert(t, rates, now)))
    ensures FilterAll(rates, rows) == Completed(map[])
  {
    LatestAfterFullWrite(t, rates, now);
    forall i, j | 0 <= i < j < |rows| ensures rows[i].currency != rows[j].currency {
      assert rows[i] in rows && rows[j] in rows;
    }
    forall i | 0 <= i < |rows| ensures rows[i].currency in rates {
      assert rows[i] in rows;
    }
    DedupCompletesOnOneRowPerCurrency(rates, rows);
    FilterAllCharacterized(rates, rows);
    forall c | c in rates ensures c in UnchangedCurrencies(rates, rows) {
      var r := Row(c, now, rates[c]);
      assert r in rows;
      assert Unchanged(rates, r);
    }
  }

  // -------------------------------------------------------------- upsert

  /** The rows stored for one currency. */
  ghost function RowsOf(t: Table, c: Currency): set<Key>
  {
    set k | k in t && k.currency == c
  }

  /** Per currency, a save adds the one row (c, now) for each currency it
      writes, or overwrites it if a row with that key is already there, and
      leaves the rows of every other currency as they were. */
  lemma UpsertRowsPerCurrency(t: Table, rates: Rates, now: Timestamp, c: Currency)
    ensures c in rates ==> RowsOf(Upsert(t, rates, now), c) == RowsOf(t, c) + {Key(c, now)}
    ensures c !in rates ==> RowsOf(Upsert(t, rates, now), c) == RowsOf(t, c)
  {
    var t' := Upsert(t, rates, now);
    if c in rates {
      assert Key(c, now) in t';
    }
  }

  /** A repeated write at the same timestamp adds no row. */
  lemma UpsertAtSameTimestampAddsNoRow(t: Table, rates: Rates, now: Timestamp)
    requires forall c :: c in rates ==> Key(c, now) in t
    ensures Upsert(t, rates, now).Keys == t.Keys
    ensures forall c :: c in rates ==> Upsert(t, rates, now)[Key(c, now)] == rates[c]
  {
  }

  // ------------------------------------------------------------- read path

  /** The read path's result is determined by the table and the query: two
      results that both reflect it are equal, whatever the row order was. */
  lemma ReflectsUnique(a: Series, b: Series, t: Table, start: Timestamp, end: Timestamp, currency: Option<Currency>)
    requires Reflects(a, t, start, end, currency) && Reflects(b, t, start, end, currency)
    ensures a == b
  {
    assert a.Keys == b.Keys;
    forall c | c in a ensures a[c] == b[c] {
      forall d ensures d in a[c] <==> d in b[c] {
        assert d in a[c] <==> Key(c, d) in t && Selected(Key(c, d), start, end, currency);
        assert d in b[c] <==> Key(c, d) in t && Selected(Key(c, d), start, end, currency);
      }
      assert a[c].Keys == b[c].Keys;
      forall d | d in a[c] ensures a[c][d] == b[c][d] {
        assert a[c][d] == t[Key(c, d)] == b[c][d];
      }
    }
  }

  /** Both ends of the window are included, as BETWEEN prescribes. */
  lemma WindowEndsIncluded(result: Series, t: Table, start: Timestamp, end: Timestamp, currency: Option<Currency>, k: Key)
    requires Reflects(result, t, start, end, currency)
    requires k in t && (k.date == start || k.date == end) && start <= end
    requires currency.Some? ==> k.currency == currency.value
    ensures k.currency in result && k.date in result[k.currency] && result[k.currency][k.date] == t[k]
  {
    assert Selected(k, start, end, currency);
  }

  /** A row outside the window, or of another currency than the filter, is
      never returned; no inner map is empty. */
  lemma ResultOnlyHoldsSelectedRows(result: Series, t: Table, start: Timestamp, end: Timestamp, currency: Option<Currency>)
    requires Reflects(result, t, start, end, currency)
    ensures forall c :: c in result ==> |result[c]| > 0
    ensures forall c, d :: c in result && d in result[c] ==> start <= d <= end
    ensures currency.Some? ==> result.Keys <= {currency.value}
  {
    forall c | c in result ensures |result[c]| > 0 {
      var k :| k in t && Selected(k, start, end, currency) && k.currency == c;
      assert k == Key(c, k.date);
      assert k.date in result[c];
    }
  }

  /** A window with no stored row in it gives an empty result, not an error. */
  lemma EmptyWindowGivesEmptyResult(result: Series, t: Table, start: Timestamp, end: Timestamp, currency: Option<Currency>)
    requires Reflects(result, t, start, end, currency)
    requires forall k :: k in t ==> !Selected(k, start, end, currency)
    ensures result == map[]
  {
    assert result.Keys == {};
  }

  /** Round trip: a rate written by a save at `now` comes back from a read
      whose window contains `now` and whose filter is absent or that currency. */
  lemma SavedRateIsRetrieved(t: Table, rates: Rates, now: Timestamp, c: Currency,
                             result: Series, start: Timestamp, end: Timestamp, currency: Option<Currency>)
    requires c in rates
    requires start <= now <= end && (currency.Some? ==> currency.value == c)
    requires Reflects(result, Upsert(t, rates, now), start, end, currency)
    ensures c in result && now in result[c] && result[c][now] == rates[c]
  {
    assert Selected(Key(c, now), start, end, currency);
  }

  // ------------------------------------------------ concrete consequences

  const USD: Currency := "USD"
  const JPY: Currency := "JPY"

  /** A table where USD moved after a day on which JPY was last stored:
      the latest-points query returns the stale USD row of day 1 as well. */
  function StaleTable(): Table
  {
    map[Key(USD, 1) := Decimal(10821, 4), Key(USD, 2) := Decimal(10851, 4), Key(JPY, 1) := Decimal(16233, 2)]
  }

  lemma StaleTableLatestRows()
    ensures LatestRows(StaleTable())
         == {Row(USD, 1, Decimal(10821, 4)), Row(USD, 2, Decimal(10851, 4)), Row(JPY, 1, Decimal(16233, 2))}
  {
    var t := StaleTable();
    assert IsLatestOf(t, Key(JPY, 1));
    assert IsLatestOf(t, Key(USD, 2));
    assert IsLatestDate(t, 1) && IsLatestDate(t, 2);
    assert RowAt(t, Key(USD, 1)) in LatestRows(t);
    assert RowAt(t, Key(USD, 2)) in LatestRows(t);
    assert RowAt(t, Key(JPY, 1)) in LatestRows(t);
  }

  /** USD went back from 1.0851 to 1.0821; JPY did not move. */
  function StaleSnapshot(): Rates
  {
    map[USD := Decimal(10821, 4), JPY := Decimal(16233, 2)]
  }

  /** If the server sends the stale USD row last, USD is dropped as unchanged
      and its new rate is never written. */
  lemma StaleRowLastDropsChange()
    ensures var staleLast := [Row(USD, 2, Decimal(10851, 4)), Row(USD, 1, Decimal(10821, 4)), Row(JPY, 1, Decimal(16233, 2))];
            && IsListing(staleLast, LatestRows(StaleTable()))
            && FilterAll(StaleSnapshot(), staleLast) == Completed(map[])
  {
    StaleTableLatestRows();
    var staleLast := [Row(USD, 2, Decimal(10851, 4)), Row(USD, 1, Decimal(10821, 4)), Row(JPY, 1, Decimal(16233, 2))];
    assert USD != JPY;
    assert staleLast[..2][..1] == staleLast[..1];
    assert staleLast[..2] == staleLast[..|staleLast| - 1];
    assert FilterAll(StaleSnapshot(), staleLast[..1]) == Completed(StaleSnapshot());
    assert FilterAll(StaleSnapshot(), staleLast[..2]) == Completed(map[JPY := Decimal(16233, 2)]);
  }

  /** If the server sends the stale USD row first, USD is removed by it and
      the save throws on the second USD row, writing nothing. */
  lemma StaleRowFirstThrows()
    ensures var staleFirst := [Row(USD, 1, Decimal(10821, 4)), Row(USD, 2, Decimal(10851, 4)), Row(JPY, 1, Decimal(16233, 2))];
            && IsListing(staleFirst, LatestRows(StaleTable()))
            && FilterAll(StaleSnapshot(), staleFirst) == NewValueMissing(map[JPY := Decimal(16233, 2)], USD)
  {
    StaleTableLatestRows();
    var staleFirst := [Row(USD, 1, Decimal(10821, 4)), Row(USD, 2, Decimal(10851, 4)), Row(JPY, 1, Decimal(16233, 2))];
    assert USD != JPY;
    assert staleFirst[..2][..1] == staleFirst[..1];
    assert staleFirst[..2] == staleFirst[..|staleFirst| - 1];
    assert FilterAll(StaleSnapshot(), staleFirst[..1]) == Completed(map[JPY := Decimal(16233, 2)]);
    assert FilterAll(StaleSnapshot(), staleFirst[..2]) == NewValueMissing(map[JPY := Decimal(16233, 2)], USD);
  }

  /** USD back at 1.0821 and JPY moved to 163: a snapshot that is saved twice
      in a row on the stale table. */
  function RepeatedSnapshot(): Rates
  {
    map[USD := Decimal(10821, 4), JPY := Decimal(163, 0)]
  }

  /** The stale table after the first save of `RepeatedSnapshot` at 3. */
  function StaleTableAfterResave(): Table
  {
    StaleTable()[Key(JPY, 3) := Decimal(163, 0)]
  }

  /** The first save at 3 with the stale USD row last: USD is dropped as
      unchanged, and only JPY 163 is written. */
  lemma RepeatedSnapshotFirstSave()
    ensures var staleLast := [Row(USD, 2, Decimal(10851, 4)), Row(USD, 1, Decimal(10821, 4)), Row(JPY, 1, Decimal(16233, 2))];
            && IsListing(staleLast, LatestRows(StaleTable()))
            && FilterAll(RepeatedSnapshot(), staleLast) == Completed(map[JPY := Decimal(163, 0)])
            && Upsert(StaleTable(), map[JPY := Decimal(163, 0)], 3) == StaleTableAfterResave()
  {
    StaleRowLastDropsChange();
    RepeatedSnapshotFirstDedup();
    RepeatedSnapshotFirstUpsert();
  }

  lemma RepeatedSnapshotFirstDedup()
    ensures FilterAll(RepeatedSnapshot(), [Row(USD, 2, Decimal(10851, 4)), Row(USD, 1, Decimal(10821, 4)), Row(JPY, 1, Decimal(16233, 2))])
         == Completed(map[JPY := Decimal(163, 0)])
  {
    var u2 := Row(USD, 2, Decimal(10851, 4));
    var u1 := Row(USD, 1, Decimal(10821, 4));
    var j := Row(JPY, 1, Decimal(16233, 2));
    assert USD != JPY;
    FilterAllSnoc(RepeatedSnapshot(), [], u2);
    FilterAllSnoc(RepeatedSnapshot(), [u2], u1);
    FilterAllSnoc(RepeatedSnapshot(), [u2, u1], j);
    assert [] + [u2] == [u2] && [u2] + [u1] == [u2, u1] && [u2, u1] + [j] == [u2, u1, j];
    assert FilterAll(RepeatedSnapshot(), [u2]) == Completed(RepeatedSnapshot());
    assert RepeatedSnapshot() - {USD} == map[JPY := Decimal(163, 0)];
    assert FilterAll(RepeatedSnapshot(), [u2, u1]) == Completed(map[JPY := Decimal(163, 0)]);
  }

  lemma RepeatedSnapshotFirstUpsert()
    ensures Upsert(StaleTable(), map[JPY := Decimal(163, 0)], 3) == StaleTableAfterResave()
  {
  }

  lemma StaleTableAfterResaveLatestRows()
    ensures LatestRows(StaleTableAfterResave()) == {Row(USD, 2, Decimal(10851, 4)), Row(JPY, 3, Decimal(163, 0))}
  {
    var t := StaleTableAfterResave();
    assert USD != JPY;
    assert IsLatestOf(t, Key(USD, 2));
    assert IsLatestOf(t, Key(JPY, 3));
    assert RowAt(t, Key(USD, 2)) in LatestRows(t);
    assert RowAt(t, Key(JPY, 3)) in LatestRows(t);
    forall r | r in LatestRows(t)
      ensures r == Row(USD, 2, Decimal(10851, 4)) || r == Row(JPY, 3, Decimal(163, 0))
    {
      assert IsLatestDate(t, r.date);
    }
  }

  /** The second save with the USD row first: JPY is dropped, USD is kept. */
  lemma RepeatedSnapshotDedupUsdFirst()
    ensures FilterAll(RepeatedSnapshot(), [Row(USD, 2, Decimal(10851, 4)), Row(JPY, 3, Decimal(163, 0))])
         == Completed(map[USD := Decimal(10821, 4)])
  {
    var u := Row(USD, 2, Decimal(10851, 4));
    var j := Row(JPY, 3, Decimal(163, 0));
    assert USD != JPY;
    FilterAllSnoc(RepeatedSnapshot(), [], u);
    FilterAllSnoc(RepeatedSnapshot(), [u], j);
    assert [] + [u] == [u] && [u] + [j] == [u, j];
    assert FilterAll(RepeatedSnapshot(), [u]) == Completed(RepeatedSnapshot());
    assert RepeatedSnapshot() - {JPY} == map[USD := Decimal(10821, 4)];
  }

  /** The second save with the JPY row first: JPY is dropped, USD is kept. */
  lemma RepeatedSnapshotDedupJpyFirst()
    ensures FilterAll(RepeatedSnapshot(), [Row(JPY, 3, Decimal(163, 0)), Row(USD, 2, Decimal(10851, 4))])
         == Completed(map[USD := Decimal(10821, 4)])
  {
    var u := Row(USD, 2, Decimal(10851, 4));
    var j := Row(JPY, 3, Decimal(163, 0));
    assert USD != JPY;
    FilterAllSnoc(RepeatedSnapshot(), [], j);
    FilterAllSnoc(RepeatedSnapshot(), [j], u);
    assert [] + [j] == [j] && [j] + [u] == [j, u];
    assert RepeatedSnapshot() - {JPY} == map[USD := Decimal(10821, 4)];
    assert FilterAll(RepeatedSnapshot(), [j]) == Completed(map[USD := Decimal(10821, 4)]);
  }

  /** Saving the same snapshot a second time, at 4, right after the first
      save at 3: in either order of the latest rows the pass completes with
      USD left to write, so USD gains a fourth-day row although the snapshot
      did not change. A repeated save is therefore not a no-op once the first
      save dropped a currency on a stale row. */
  lemma RepeatedSaveWritesAgain(rows: seq<Row>)
    requires IsListing(rows, LatestRows(StaleTableAfterResave()))
    ensures FilterAll(RepeatedSnapshot(), rows) == Completed(map[USD := Decimal(10821, 4)])
    ensures RowsOf(Upsert(StaleTableAfterResave(), map[USD := Decimal(10821, 4)], 4), USD)
         == {Key(USD, 1), Key(USD, 2), Key(USD, 4)}
  {
    var u := Row(USD, 2, Decimal(10851, 4));
    var j := Row(JPY, 3, Decimal(163, 0));
    StaleTableAfterResaveLatestRows();
    assert u != j by {
      assert USD != JPY;
    }
    ListingOfTwo(rows, u, j);
    if rows == [u, j] {
      RepeatedSnapshotDedupUsdFirst();
    } else {
      RepeatedSnapshotDedupJpyFirst();
    }
    RepeatedSaveUsdRows();
  }

  lemma RepeatedSaveUsdRows()
    ensures RowsOf(Upsert(StaleTableAfterResave(), map[USD := Decimal(10821, 4)], 4), USD)
         == {Key(USD, 1), Key(USD, 2), Key(USD, 4)}
  {
    assert USD != JPY;
    UpsertRowsPerCurrency(StaleTableAfterResave(), map[USD := Decimal(10821, 4)], 4, USD);
    assert RowsOf(StaleTableAfterResave(), USD) == {Key(USD, 1), Key(USD, 2)};
  }

  /** A table of one row has that row as its only latest row. */
  lemma LatestOfOneRow(k: Key, v: Decimal)
    ensures LatestRows(map[k := v]) == {Row(k.currency, k.date, v)}
  {
    var t := map[k := v];
    assert IsLatestOf(t, k);
    assert RowAt(t, k) in LatestRows(t);
  }

  /** A snapshot value written with a trailing zero (1.0850) is stored, then
      compared with its own stripped form (1.085), which `equals` rejects: the
      same snapshot saved again writes a second USD row. */
  lemma TrailingZeroDefeatsDedup(t0: Timestamp, t1: Timestamp)
    requires t0 < t1
    ensures var snapshot := map[USD := Decimal(10850, 4)];
            var stored := Upsert(map[], snapshot, t0);
            var rows := [Row(USD, t0, Decimal(10850, 4))];
            && IsListing(rows, LatestRows(stored))
            && FilterAll(snapshot, rows) == Completed(snapshot)
            && RowsOf(Upsert(stored, snapshot, t1), USD) == {Key(USD, t0), Key(USD, t1)}
  {
    var snapshot := map[USD := Decimal(10850, 4)];
    var stored := Upsert(map[], snapshot, t0);
    var rows := [Row(USD, t0, Decimal(10850, 4))];
    assert stored == map[Key(USD, t0) := Decimal(10850, 4)];
    LatestOfOneRow(Key(USD, t0), Decimal(10850, 4));
    assert StripTrailingZeros(Decimal(10850, 4)) == Decimal(1085, 3);
    FilterAllSnoc(snapshot, [], rows[0]);
    assert [] + [rows[0]] == rows;
    UpsertRowsPerCurrency(stored, snapshot, t1, USD);
  }

  // ---------------------------------------------------------- worked example

  /** The first snapshot: USD 1.0821 and JPY 162.33. */
  function FirstSnapshot(): Rates
  {
    map[USD := Decimal(10821, 4), JPY := Decimal(16233, 2)]
  }

  /** The second snapshot: USD moved to 1.0850, JPY did not move. */
  function SecondSnapshot(): Rates
  {
    map[USD := Decimal(10850, 4), JPY := Decimal(16233, 2)]
  }

  function TableAfterFirst(t0: Timestamp): Table
  {
    map[Key(USD, t0) := Decimal(10821, 4), Key(JPY, t0) := Decimal(16233, 2)]
  }

  function TableAfterSecond(t0: Timestamp, t1: Timestamp): Table
  {
    map[Key(USD, t0) := Decimal(10821, 4), Key(JPY, t0) := Decimal(16233, 2), Key(USD, t1) := Decimal(10850, 4)]
  }

  /** A sequence of pairwise distinct elements drawn from {a, b} has at most
      two elements. */
  lemma AtMostTwoDistinct(rows: seq<Row>, a: Row, b: Row)
    ensures (forall r :: r in rows ==> r == a || r == b)
         && (forall i, j :: 0 <= i < j < |rows| ==> rows[i] != rows[j])
        ==> |rows| <= 2
  {
    if |rows| > 2 {
      assert rows[0] in rows && rows[1] in rows && rows[2] in rows;
    }
  }

  /** A listing of a two-element set is one of its two orders. */
  lemma ListingOfTwo(rows: seq<Row>, a: Row, b: Row)
    requires a != b && IsListing(rows, {a, b})
    ensures rows == [a, b] || rows == [b, a]
  {
    assert a in rows && b in rows;
    AtMostTwoDistinct(rows, a, b);
    var i :| 0 <= i < |rows| && rows[i] == a;
    var j :| 0 <= j < |rows| && rows[j] == b;
    assert i != j;
  }

  /** Saving the first snapshot into an empty table: the latest-points query
      returns nothing, so the whole snapshot is written at t0. */
  lemma WorkedExampleFirstSave(t0: Timestamp, rows: seq<Row>)
    requires IsListing(rows, LatestRows(map[]))
    ensures FilterAll(FirstSnapshot(), rows) == Completed(FirstSnapshot())
    ensures Upsert(map[], FirstSnapshot(), t0) == TableAfterFirst(t0)
  {
    if rows != [] {
      assert rows[0] in LatestRows(map[]);
    }
  }

  lemma WorkedExampleLatestAfterFirst(t0: Timestamp)
    ensures LatestRows(TableAfterFirst(t0)) == {Row(USD, t0, Decimal(10821, 4)), Row(JPY, t0, Decimal(16233, 2))}
  {
    var t := TableAfterFirst(t0);
    assert USD != JPY;
    assert IsLatestOf(t, Key(USD, t0));
    assert RowAt(t, Key(USD, t0)) in LatestRows(t);
    assert RowAt(t, Key(JPY, t0)) in LatestRows(t);
  }

  /** The dedup pass of the second save with the USD row first. */
  lemma WorkedExampleDedupUsdFirst(t0: Timestamp)
    ensures FilterAll(SecondSnapshot(), [Row(USD, t0, Decimal(10821, 4)), Row(JPY, t0, Decimal(16233, 2))])
         == Completed(map[USD := Decimal(10850, 4)])
  {
    var u := Row(USD, t0, Decimal(10821, 4));
    var j := Row(JPY, t0, Decimal(16233, 2));
    assert USD != JPY;
    FilterAllSnoc(SecondSnapshot(), [], u);
    FilterAllSnoc(SecondSnapshot(), [u], j);
    assert [] + [u] == [u] && [u] + [j] == [u, j];
    assert FilterAll(SecondSnapshot(), [u]) == Completed(SecondSnapshot());
    assert SecondSnapshot() - {JPY} == map[USD := Decimal(10850, 4)];
  }

  /** The dedup pass of the second save with the JPY row first. */
  lemma WorkedExampleDedupJpyFirst(t0: Timestamp)
    ensures FilterAll(SecondSnapshot(), [Row(JPY, t0, Decimal(16233, 2)), Row(USD, t0, Decimal(10821, 4))])
         == Completed(map[USD := Decimal(10850, 4)])
  {
    var u := Row(USD, t0, Decimal(10821, 4));
    var j := Row(JPY, t0, Decimal(16233, 2));
    assert USD != JPY;
    FilterAllSnoc(SecondSnapshot(), [], j);
    FilterAllSnoc(SecondSnapshot(), [j], u);
    assert [] + [j] == [j] && [j] + [u] == [j, u];
    assert SecondSnapshot() - {JPY} == map[USD := Decimal(10850, 4)];
    assert FilterAll(SecondSnapshot(), [j]) == Completed(map[USD := Decimal(10850, 4)]);
  }

  /** Saving the second snapshot at t1: in either order of the latest rows
      JPY is dropped as unchanged, and only USD 1.0850 is written. */
  lemma WorkedExampleSecondSave(t0: Timestamp, t1: Timestamp, rows: seq<Row>)
    requires t0 < t1
    requires IsListing(rows, LatestRows(TableAfterFirst(t0)))
    ensures FilterAll(SecondSnapshot(), rows) == Completed(map[USD := Decimal(10850, 4)])
    ensures Upsert(TableAfterFirst(t0), map[USD := Decimal(10850, 4)], t1) == TableAfterSecond(t0, t1)
  {
    var u := Row(USD, t0, Decimal(10821, 4));
    var j := Row(JPY, t0, Decimal(16233, 2));
    WorkedExampleLatestAfterFirst(t0);
    assert u != j by {
      assert USD != JPY;
    }
    ListingOfTwo(rows, u, j);
    if rows == [u, j] {
      WorkedExampleDedupUsdFirst(t0);
    } else {
      WorkedExampleDedupJpyFirst(t0);
    }
    WorkedExampleUpsertAfterFirst(t0, t1);
  }

  lemma WorkedExampleUpsertAfterFirst(t0: Timestamp, t1: Timestamp)
    requires t0 < t1
    ensures Upsert(TableAfterFirst(t0), map[USD := Decimal(10850, 4)], t1) == TableAfterSecond(t0, t1)
  {
  }

  /** A read of USD over [T0 - 1, now] after both saves gives both USD
      points and nothing of JPY. */
  lemma WorkedExampleRetrieve(t0: Timestamp, t1: Timestamp, now: Timestamp, result: Series)
    requires t0 < t1 <= now
    requires Reflects(result, TableAfterSecond(t0, t1), t0 - 1, now, Some(USD))
    ensures result == map[USD := map[t0 := Decimal(10821, 4), t1 := Decimal(10850, 4)]]
  {
    var expected := map[USD := map[t0 := Decimal(10821, 4), t1 := Decimal(10850, 4)]];
    WorkedExampleReflects(t0, t1, now, TableAfterSecond(t0, t1), expected);
    ReflectsUnique(result, expected, TableAfterSecond(t0, t1), t0 - 1, now, Some(USD));
  }

  lemma WorkedExampleReflects(t0: Timestamp, t1: Timestamp, now: Timestamp, t: Table, expected: Series)
    requires t0 < t1 <= now
    requires t == TableAfterSecond(t0, t1)
    requires expected == map[USD := map[t0 := Decimal(10821, 4), t1 := Decimal(10850, 4)]]
    ensures Reflects(expected, t, t0 - 1, now, Some(USD))
  {
    assert USD != JPY;
    assert Selected(Key(USD, t0), t0 - 1, now, Some(USD));
    assert Selected(Key(USD, t1), t0 - 1, now, Some(USD));
    forall c ensures c in expected <==> exists k :: k in t && Selected(k, t0 - 1, now, Some(USD)) && k.currency == c {
      if c == USD {
        assert Key(USD, t0) in t;
      }
    }
  }

  /** Running table initialisation again leaves the table and its rows as they are. */
  lemma CreateTableIdempotent(existing: Option<Table>)
    ensures CreateTableIfNotExists(Some(CreateTableIfNotExists(existing))) == CreateTableIfNotExists(existing)
    ensures existing.Some? ==> CreateTableIfNotExists(existing) == existing.value
  {
  }
}
