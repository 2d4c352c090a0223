# Currency storage: a verified model

This project models the storage component of an exchange-rate crawler,
`CurrencyStorageService`. The component keeps daily spot rates in one MySQL table,
`exchange_rates(currency, spot, date)`, whose primary key is `(currency, date)`.
It offers three operations:

- **Table creation.** `CREATE TABLE IF NOT EXISTS` runs when the service is constructed.
- **The write path, `saveData`.** It reads the "latest points", then drops from the caller's snapshot every currency whose stored spot, stripped of trailing zeros, `equals` the new value. It then upserts what is left in one batch, at one shared timestamp. On a key clash, `INSERT … ON DUPLICATE KEY UPDATE` overwrites the stored spot.
- **The read path, `retrieveData`.** It selects the rows with `date BETWEEN start AND end` (both ends included, section 8.3 of ISO/IEC 9075:1992), optionally for one currency only. It then folds the rows, one by one, into `currency -> (date -> spot)`.

The project has five modules:

- `Wrappers` (`wrappers.dfy`): `Option` for Java's nullable arguments, and `Result`.
- `BigDecimals` (`big_decimal.dfy`): a `BigDecimal` is an unscaled integer and a scale. `equals` is structural equality. `stripTrailingZeros` is proved to keep the value, to give a canonical form, and to be idempotent.
- `ExchangeRatesTable` (`exchange_rates_table.dfy`): the table is a map from `Key(currency, date)` to the spot value. The module also gives the meaning of every SQL statement the service sends, and a result set as an arbitrary listing of the selected rows.
- `CurrencyStorage` (`currency_storage.dfy`): the service is a class whose `exchangeRates` field is the table. The caller's `HashMap`, which `saveData` edits in place, is a `RatesMap` object. The module also holds the dedup and fold functions that specify the service's loops.
- `CurrencyStorageProperties` (`currency_storage_properties.dfy`): what the component guarantees, and, as concrete lemmas, where its behaviour departs from what the component is meant to do.

## Where the code departs from the intended behaviour (the model follows the code)

- **The latest-points query is looser than its name.** The query is meant to return one row per currency: the row with that currency's greatest date. The query returns every row whose date is the greatest date of *some* currency.
  - One currency can therefore come back several times, including with stale values.
  - `StaleRowLastDropsChange` and `StaleRowFirstThrows` show both outcomes. In one order, a rate that moved back to an older value is dropped as "unchanged" and never written. In the other order, the save throws.
- **`saveData` normalises only the stored side.** The comparison is meant to ignore trailing zeros.
  - `StripEqualsIff` proves that the comparison succeeds exactly when the two numbers are equal AND the new value itself has no trailing zero.
  - `TrailingZeroDefeatsDedup` shows that a snapshot holding 1.0850 is written again on every save.
  - This gap is in `saveData`'s own contract, which accepts any map. It cannot happen through the program's only caller. `Main.java:28-33` passes the map returned by `fetchRates`, which strips every rate it reads (`ExchangeRatesService.java:37`).
  - For such snapshots, `StrippedSnapshotDedupsByValue` proves that the dedup compares numbers only.
- **A failing dedup pass blocks the write.** A failure of the dedup step is meant not to block the write. In the code, a latest row whose currency is absent from the snapshot dereferences a null new value. This happens when the currency was never in the snapshot, or when an earlier row of the same currency already removed it.
  - `saveData` then throws and nothing is written. The caller's map keeps the removals made so far.
  - `FilterAllCharacterized` states when this happens, for every row order. `SaveThrowsOnMissingCurrency` states that it happens in every order once the table holds a currency the snapshot lacks.
- **A repeated save is a no-op only under conditions.** `ResaveAfterFullWriteIsNoOp` proves it when all of the following hold:
  - every row stored before the first save is dated before that save's `now`;
  - the first save wrote the whole snapshot;
  - the snapshot covers every stored currency;
  - no snapshot value has trailing zeros. Snapshots built by `fetchRates` meet this condition, because it strips every rate (`ExchangeRatesService.java:37`).

  Under those conditions the repeat writes nothing, in every order. Outside them there are counterexamples:
  - when the first save did not write everything, `RepeatedSaveWritesAgain`. On the stale table, the first save of {USD 1.0821, JPY 163} drops USD on the stale row and writes only JPY 163. Saving the same snapshot again then writes a new USD row, in either order of the latest rows;
  - when a stored currency is missing from the snapshot, `SaveThrowsOnMissingCurrency`;
  - when a value has a trailing zero, `TrailingZeroDefeatsDedup`.

## Model

| member | source | states |
|---|---|---|
| `BigDecimals.StripTrailingZeros` | src/main/java/currencystorage/CurrencyStorageService.java:181 | the stripped decimal denotes the same number and has no trailing zero left (a zero of any scale becomes scale 0); a nonzero value never gets a larger scale |
| `BigDecimals.StrippedUnique` | src/main/java/currencystorage/CurrencyStorageService.java:181 | two stripped decimals with the same value are equal: the stripped form is canonical |
| `BigDecimals.StripEqualsIff` | src/main/java/currencystorage/CurrencyStorageService.java:181-186 | `old.stripTrailingZeros().equals(new)` iff the two denote the same number and `new` has no trailing zero |
| `BigDecimals.StripIdempotent` | src/main/java/currencystorage/CurrencyStorageService.java:181 | stripping twice is stripping once |
| `ExchangeRatesTable.CreateTableIfNotExists` | src/main/java/currencystorage/CurrencyStorageService.java:40-44 | an existing table is kept with all its rows; a missing one is created empty |
| `ExchangeRatesTable.LatestRows` | src/main/java/currencystorage/CurrencyStorageService.java:45-46 | a row is returned iff it is stored and its date is the greatest date of some currency |
| `ExchangeRatesTable.SelectedRows` | src/main/java/currencystorage/CurrencyStorageService.java:50-53 | a row is returned iff it is stored, `start <= date <= end`, and it has the filter's currency when a filter is given |
| `ExchangeRatesTable.InsertOrUpdate` | src/main/java/currencystorage/CurrencyStorageService.java:47-48 | the row's key is added or kept, its spot becomes the new one, every other row is unchanged |
| `ExchangeRatesTable.ApplyBatchLastWins` | src/main/java/currencystorage/CurrencyStorageService.java:112 | `ApplyBatch`, the model of `executeBatch`, applies the rows one by one. Proved: a batch adds exactly its rows' keys, leaves other rows alone, and the last row wins on a repeated key |
| `ExchangeRatesTable.ResultSet` | src/main/java/currencystorage/CurrencyStorageService.java:93 | the result set lists each selected row exactly once, in an order the server chooses |
| `CurrencyStorage.DedupStep` | src/main/java/currencystorage/CurrencyStorageService.java:177-193 | throws iff the row's currency is not in the map; otherwise removes that currency iff the stripped stored spot equals the new value, and keeps every other entry with its value |
| `CurrencyStorage.BatchRows` | src/main/java/currencystorage/CurrencyStorageService.java:105-110 | the batch holds one row per remaining currency, all at the one timestamp `now`, with the snapshot's value |
| `CurrencyStorage.Upsert` | src/main/java/currencystorage/CurrencyStorageService.java:102-112 | after the write the keys are the old ones plus `(c, now)` for each surviving c, `(c, now)` holds the new value, and every other row is unchanged |
| `CurrencyStorage.ApplyBatchOfListing` | src/main/java/currencystorage/CurrencyStorageService.java:103-112 | executing the batch built in any iteration order of the map is exactly the upsert |
| `CurrencyStorage.BuildBatch` | src/main/java/currencystorage/CurrencyStorageService.java:105-110 | the batch lists the filtered map's rows at `now`, each once, in the map's iteration order |
| `CurrencyStorage.FetchRow` | src/main/java/currencystorage/CurrencyStorageService.java:161-170 | a new currency gets a one-entry inner map; a known one gets the date added or overwritten; nothing else changes |
| `CurrencyStorage.FoldRowsShape` | src/main/java/currencystorage/CurrencyStorageService.java:148-152 | `FoldRows`, the model of the read loop, applies `FetchRow` to each row in order. Proved: the result's keys are the rows' currencies, no inner map is empty, inner keys are that currency's dates, and the last row with a given (currency, date) wins |
| `CurrencyStorage.FoldOfResultSet` | src/main/java/currencystorage/CurrencyStorageService.java:146-154 | folding a result set of the range query, in any order, gives exactly the selected rows nested by currency and date |
| `CurrencyStorage.FailureIsFinal` | src/main/java/currencystorage/CurrencyStorageService.java:91-100 | once a row of the dedup pass has thrown, the later rows change nothing |
| `CurrencyStorage.CurrencyStorageService.constructor` | src/main/java/currencystorage/CurrencyStorageService.java:55-60 | after construction the table exists and holds exactly the rows found there |
| `CurrencyStorage.CurrencyStorageService.FilterDuplicateValues` | src/main/java/currencystorage/CurrencyStorageService.java:177-193 | the caller's map is edited exactly as `DedupStep` says, and the call reports a throw iff the currency is missing |
| `CurrencyStorage.CurrencyStorageService.SaveData` | src/main/java/currencystorage/CurrencyStorageService.java:88-119 | the rows seen are the latest rows; on success the map holds the filtered snapshot and the table is its upsert at `now`; on a throw the map keeps the partial removals and the table is untouched |
| `CurrencyStorage.CurrencyStorageService.RetrieveData` | src/main/java/currencystorage/CurrencyStorageService.java:125-159 | a null start throws; a null end means `now`; otherwise the result holds exactly the rows in the inclusive window (and of the filter currency), nested by currency and date |
| `CurrencyStorage.CurrencyStorageService.RetrieveDataAllCurrencies` | src/main/java/currencystorage/CurrencyStorageService.java:121-123 | same result as the three-argument call with a null currency |
| `CurrencyStorageProperties.FilterAllCharacterized` | src/main/java/currencystorage/CurrencyStorageService.java:91-100 | `FilterAll`, the model of the dedup loop, applies `DedupStep` to each latest row in order and stops at the first throw. Proved: the pass throws iff some row finds its currency absent or already removed; the first such row names the currency and the map keeps earlier removals; otherwise it removes exactly the currencies some row reports unchanged |
| `CurrencyStorageProperties.DedupKeepsUnmentioned` | src/main/java/currencystorage/CurrencyStorageService.java:94-96 | a currency no latest row mentions is never removed and keeps its value, both when the pass completes and when it throws part way |
| `CurrencyStorageProperties.DedupRemovesBySameValue` | src/main/java/currencystorage/CurrencyStorageService.java:181-188 | a completed pass removes c iff some latest row of c denotes the same number and the new value has no trailing zero |
| `CurrencyStorageProperties.StrippedSnapshotDedupsByValue` | src/main/java/currencystorage/CurrencyStorageService.java:181-188 | for a snapshot whose rates are all stripped, as `fetchRates` builds it, a completed pass removes c iff some latest row of c denotes the same number |
| `CurrencyStorageProperties.DedupCompletesOnOneRowPerCurrency` | src/main/java/currencystorage/CurrencyStorageService.java:182-184 | with one row per currency, all present in the snapshot, the pass never throws |
| `CurrencyStorageProperties.LatestRowOfEachCurrency` | src/main/java/currencystorage/CurrencyStorageService.java:45-46 | every stored currency's own latest row is among the latest rows |
| `CurrencyStorageProperties.SaveThrowsOnMissingCurrency` | src/main/java/currencystorage/CurrencyStorageService.java:182-184 | if the table holds a currency the snapshot lacks, the save throws whatever the row order |
| `CurrencyStorageProperties.UnchangedSnapshotWritesNothing` | src/main/java/currencystorage/CurrencyStorageService.java:88-112 | a snapshot that repeats every currency's latest stored value writes nothing whenever it does not throw |
| `CurrencyStorageProperties.LatestAfterFullWrite` | src/main/java/currencystorage/CurrencyStorageService.java:45-46 | after a save that writes every stored currency, the latest rows are exactly the rows it wrote |
| `CurrencyStorageProperties.ResaveAfterFullWriteIsNoOp` | src/main/java/currencystorage/CurrencyStorageService.java:88-112 | saving a fully written, trailing-zero-free snapshot again removes everything and cannot throw, in every order |
| `CurrencyStorageProperties.UpsertRowsPerCurrency` | src/main/java/currencystorage/CurrencyStorageService.java:102-112 | a written currency gains exactly the key `(c, now)`; every other currency keeps exactly its rows |
| `CurrencyStorageProperties.UpsertAtSameTimestampAddsNoRow` | src/main/java/currencystorage/CurrencyStorageService.java:47-48 | a write at a timestamp already stored adds no key and overwrites the spot |
| `CurrencyStorageProperties.ReflectsUnique` | src/main/java/currencystorage/CurrencyStorageService.java:148-154 | the read result is determined by the table and the query, whatever the row order |
| `CurrencyStorageProperties.WindowEndsIncluded` | src/main/java/currencystorage/CurrencyStorageService.java:50-53 | a row dated exactly `start` or `end` is returned with its stored spot |
| `CurrencyStorageProperties.ResultOnlyHoldsSelectedRows` | src/main/java/currencystorage/CurrencyStorageService.java:133-144 | every returned date lies in the window, a filter returns only its currency, and no inner map is empty |
| `CurrencyStorageProperties.EmptyWindowGivesEmptyResult` | src/main/java/currencystorage/CurrencyStorageService.java:148-154 | a window with no matching row gives the empty map |
| `CurrencyStorageProperties.SavedRateIsRetrieved` | src/main/java/currencystorage/CurrencyStorageService.java:102-154 | a rate saved at `now` is read back by any window containing `now` whose filter is absent or that currency |
| `CurrencyStorageProperties.StaleTableLatestRows` | src/main/java/currencystorage/CurrencyStorageService.java:45-46 | in a concrete table the latest-points query returns two rows for USD, one of them stale |
| `CurrencyStorageProperties.StaleRowLastDropsChange` | src/main/java/currencystorage/CurrencyStorageService.java:94-96 | on that table, sending the stale USD row last makes the pass drop USD, whose rate did change, so it is never written |
| `CurrencyStorageProperties.StaleRowFirstThrows` | src/main/java/currencystorage/CurrencyStorageService.java:182-184 | on that table, sending the stale USD row first removes USD, and the second USD row then throws |
| `CurrencyStorageProperties.TrailingZeroDefeatsDedup` | src/main/java/currencystorage/CurrencyStorageService.java:181-186 | a snapshot value 1.0850 is not recognised as unchanged, so saving it again adds a second row |
| `CurrencyStorageProperties.RepeatedSnapshotFirstSave` | src/main/java/currencystorage/CurrencyStorageService.java:88-112 | on the stale table, the first save of {USD 1.0821, JPY 163} with the stale USD row last drops USD and writes only JPY 163 |
| `CurrencyStorageProperties.RepeatedSaveWritesAgain` | src/main/java/currencystorage/CurrencyStorageService.java:88-112 | saving that same snapshot again, for any listing of the new latest rows, completes with USD left to write, so USD gains a row although the snapshot did not change |
| `CurrencyStorageProperties.ListingOfTwo` | src/main/java/currencystorage/CurrencyStorageService.java:93 | a result set of two rows comes in one of its two orders |
| `CurrencyStorageProperties.WorkedExampleFirstSave` | src/main/java/currencystorage/CurrencyStorageService.java:88-112 | saving {USD 1.0821, JPY 162.33} into an empty table at T0 filters nothing and stores exactly those two rows |
| `CurrencyStorageProperties.WorkedExampleSecondSave` | src/main/java/currencystorage/CurrencyStorageService.java:88-112 | saving {USD 1.0850, JPY 162.33} at T1 drops JPY as unchanged in either row order; the write adds only USD 1.0850 at T1, for three rows in all |
| `CurrencyStorageProperties.WorkedExampleRetrieve` | src/main/java/currencystorage/CurrencyStorageService.java:125-154 | reading USD over [T0 - 1, now] after both saves gives exactly {USD: {T0: 1.0821, T1: 1.0850}} |
| `CurrencyStorageProperties.CreateTableIdempotent` | src/main/java/currencystorage/CurrencyStorageService.java:77-86 | running table creation again changes neither the table nor its rows |

## Left out

- **JDBC plumbing.** Connections, statements, `DriverManager` and every `SQLException` path are left out. The database never fails in this model; only the component's own null dereferences are errors.
- **Connection release.** The `finalize`-based connection release is left out. It is garbage-collector resource handling.
- **Logging.** Log calls are left out, except for the null new value that the dedup log line dereferences. That dereference is modelled as an error.
- **Storage effects of the column types.** MySQL's rounding to `DECIMAL(20,5)` is not modelled: values are stored exactly as given. Rounding to `DATETIME` is not modelled either: timestamps are assumed to be at the stored granularity already. The dedup result is unaffected by the first simplification as long as rates have at most 5 fractional digits, because stripping removes the padding zeros.
- **Clocks.** `System.currentTimeMillis()` and `LocalDateTime.now()` become the `now` parameter.
- **Result-set and `HashMap` order.** Neither order is specified. `SaveData` reports the order it saw as a ghost out-parameter, and the properties hold for every order.
- **Collation and column width.** Currency codes are compared as exact strings everywhere: in `currency = ?`, in the primary key behind `ON DUPLICATE KEY UPDATE`, and in `GROUP BY currency` (`CurrencyStorageService.java:40-48`). MySQL's default collation ignores case and trailing spaces in all three, and `VARCHAR(3)` rejects or truncates longer codes, whereas `Currency` is any string. The model therefore assumes three-letter codes that never differ only by case or padding, like the ones the fetcher supplies.
- **Null values.** A `null` value stored under a key of the caller's map is not modelled; snapshots map every currency to a decimal.
- **`stripTrailingZeros` overflow.** The scale overflow of Java's `int`, which raises an `ArithmeticException`, is not modelled.
- **Partial batch outcomes.** The per-row outcomes of `executeBatch` are not modelled; the batch always completes.
- `CurrencyStorage.CurrencyStorageService.RetrieveData`: returns the stored decimal instead of its `getFloat` conversion, because floating point is out of scope.
- **Other repository files.** `ExchangeRatesService.java` (HTTP fetching and HTML scraping; its stripping of every rate appears only as the premise of `StrippedSnapshotDedupsByValue` and `ResaveAfterFullWriteIsNoOp`), `CurrencyStorageClientConfiguration.java` (reads a properties file) and `Main.java` (orchestration and JSON output) are not part of this model.
- **Concurrency.** Concurrent writers on the same table are not modelled.
