/** The `exchange_rates` table and the meaning of the SQL statements the storage
    service sends to it. The table is a finite map from its primary key
    (currency, date) to the stored spot value: a key cannot occur twice. */
module ExchangeRatesTable {
  import opened BigDecimals
  import opened Wrappers

  /** A three-letter currency code, as stored in the VARCHAR(3) column. */
  type Currency = string

  /** A DATETIME value, at the granularity the column stores. */
  type Timestamp = int

  datatype Key = Key(currency: Currency, date: Timestamp)

  /** One row of a result set: (currency, date, spot). */
  datatype Row = Row(currency: Currency, date: Timestamp, spot: Decimal)

  type Table = map<Key, Decimal>

  function KeyOf(r: Row): Key
  {
    Key(r.currency, r.date)
  }

  function RowAt(t: Table, k: Key): (r: Row)
    requires k in t
    ensures KeyOf(r) == k && r.spot == t[k]
  {
    Row(k.currency, k.date, t[k])
  }

  /** The rows a table holds. */
  ghost predicate RowOf(t: Table, r: Row)
  {
    KeyOf(r) in t && t[KeyOf(r)] == r.spot
  }

  /** `CREATE TABLE IF NOT EXISTS`: a table that is already there is kept as it
      is, rows included; a missing one is created empty. */
  function CreateTableIfNotExists(existing: Option<Table>): (t: Table)
    ensures existing.Some? ==> t == existing.value
    ensures existing.None? ==> |t| == 0
  {
    match existing
    case Some(t) => t
    case None => map[]
  }

  /** k holds the greatest date stored for its currency: the row that
      `SELECT MAX(date) ... GROUP BY currency` picks for k.currency. */
  predicate IsLatestOf(t: Table, k: Key)
  {
    k in t && forall k' :: k' in t && k'.currency == k.currency ==> k'.date <= k.date
  }

  /** d is the greatest stored date of SOME currency. */
  predicate IsLatestDate(t: Table, d: Timestamp)
  {
    exists k :: k in t && k.date == d && IsLatestOf(t, k)
  }

  /** SELECT_LATEST_POINTS: `... WHERE date IN (SELECT MAX(date) ... GROUP BY
      currency)`. A row is returned when its date is the latest date of any
      currency, not necessarily of its own, so a currency can come back more
      than once, with older values among its rows. */
  function LatestRows(t: Table): (rows: set<Row>)
    ensures forall r :: r in rows <==> RowOf(t, r) && IsLatestDate(t, r.date)
  {
    set k | k in t && IsLatestDate(t, k.date) :: RowAt(t, k)
  }

  /** `x BETWEEN y AND z` means `y <= x AND x <= z` (section 8.3 of ISO/IEC
      9075:1992): both ends are included. */
  predicate Between(x: Timestamp, low: Timestamp, high: Timestamp)
  {
    low <= x <= high
  }

  /** The WHERE clause of SELECT_WITHOUT_CURRENCY (no filter) and of
      SELECT_WITH_CURRENCY (filter present): one predicate with an optional
      currency equality. */
  predicate Selected(k: Key, start: Timestamp, end: Timestamp, currency: Option<Currency>)
  {
    Between(k.date, start, end) && (currency.Some? ==> k.currency == currency.value)
  }

  /** The rows the range query returns. */
  function SelectedRows(t: Table, start: Timestamp, end: Timestamp, currency: Option<Currency>): (rows: set<Row>)
    ensures forall r :: r in rows <==> RowOf(t, r) && Selected(KeyOf(r), start, end, currency)
  {
    set k | k in t && Selected(k, start, end, currency) :: RowAt(t, k)
  }

  /** One row of `INSERT ... ON DUPLICATE KEY UPDATE spot = VALUES(spot)`: a new
      key adds a row; an existing key keeps its row and gets the new spot. */
  function InsertOrUpdate(t: Table, r: Row): (t': Table)
    ensures t'.Keys == t.Keys + {KeyOf(r)}
    ensures t'[KeyOf(r)] == r.spot
    ensures forall k :: k in t && k != KeyOf(r) ==> t'[k] == t[k]
  {
    t[KeyOf(r) := r.spot]
  }

  /** `executeBatch`: the rows of the batch applied in order. */
  function ApplyBatch(t: Table, batch: seq<Row>): Table
    decreases |batch|
  {
    if batch == [] then t
    else InsertOrUpdate(ApplyBatch(t, batch[..|batch| - 1]), batch[|batch| - 1])
  }

  /** Some row of rows has key k. */
  ghost predicate HasKey(rows: seq<Row>, k: Key)
  {
    exists i :: 0 <= i < |rows| && KeyOf(rows[i]) == k
  }

  /** No row after position i has the key of rows[i]. */
  ghost predicate LastWithKey(rows: seq<Row>, i: int)
    requires 0 <= i < |rows|
  {
    forall j :: i < j < |rows| ==> KeyOf(rows[j]) != KeyOf(rows[i])
  }

  /** A batch adds exactly the keys of its rows, leaves every other row alone,
      and on a key that occurs more than once the last row of the batch wins. */
  lemma {:induction false} ApplyBatchLastWins(t: Table, batch: seq<Row>)
    ensures forall k :: k in ApplyBatch(t, batch) <==> k in t || HasKey(batch, k)
    ensures forall k :: k in t && !HasKey(batch, k) ==> ApplyBatch(t, batch)[k] == t[k]
    ensures forall i :: 0 <= i < |batch| ==> KeyOf(batch[i]) in ApplyBatch(t, batch)
    ensures forall i :: 0 <= i < |batch| && LastWithKey(batch, i) ==>
              ApplyBatch(t, batch)[KeyOf(batch[i])] == batch[i].spot
    decreases |batch|
  {
    if batch != [] {
      var p := batch[..|batch| - 1];
      var r := batch[|batch| - 1];
      ApplyBatchLastWins(t, p);
      assert forall i :: 0 <= i < |p| ==> batch[i] == p[i];
      assert forall k :: HasKey(batch, k) <==> HasKey(p, k) || KeyOf(r) == k by {
        forall k | HasKey(batch, k) ensures HasKey(p, k) || KeyOf(r) == k {
          var i :| 0 <= i < |batch| && KeyOf(batch[i]) == k;
          if i < |p| {
            assert KeyOf(p[i]) == k;
          }
        }
      }
      forall i | 0 <= i < |batch| && LastWithKey(batch, i)
        ensures ApplyBatch(t, batch)[KeyOf(batch[i])] == batch[i].spot
      {
        if i < |p| {
          assert LastWithKey(p, i);
          assert KeyOf(r) != KeyOf(batch[i]);
        }
      }
    }
  }

  /** rows lists the set s, each element once, in some order. */
  ghost predicate IsListing(rows: seq<Row>, s: set<Row>)
  {
    && (forall r :: r in rows <==> r in s)
    && (forall i, j :: 0 <= i < j < |rows| ==> rows[i] != rows[j])
  }

  /** A result set: the rows of a query in the order the server sends them.
      SQL fixes no order here, so the order is chosen arbitrarily. */
  method ResultSet(s: set<Row>) returns (rows: seq<Row>)
    ensures IsListing(rows, s)
  {
    rows := [];
    var pending := s;
    while pending != {}
      invariant pending <= s
      invariant forall r :: r in rows <==> r in s && r !in pending
      invariant forall i, j :: 0 <= i < j < |rows| ==> rows[i] != rows[j]
      decreases |pending|
    {
      var r :| r in pending;
      rows := rows + [r];
      pending := pending - {r};
    }
  }
}
