/** The tariff store: the daily parent table keyed by date and the per-warehouse row
    table that references it, as an in-memory object. An upsert replaces one date's
    snapshot in a single transaction; the read query returns the latest date's rows. */
module TariffRepository {
  import opened Wrappers
  import opened JsonValues
  import opened Strings
  import opened Sorting
  import opened Dedup
  import opened Normalize

  /** A parent record: the raw response as stored text and the two timestamps. */
  datatype DailyTariff = DailyTariff(rawResponse: string, fetchedAt: string, updatedAt: string)

  /** A stored row, as the read query returns it. */
  datatype StoredRow = StoredRow(tariffDate: string, warehouseName: string, coefficient: Option<real>, payload: Fields)

  /** The statements of the upsert transaction, any of which the database may fail. */
  datatype TxStep = UpsertParent | DeleteRows | InsertRows

  /** The deduplication key of a normalized row. */
  function WarehouseOf(row: NormalizedRow): string {
    row.warehouseName
  }

  /** The row table's unique key. */
  function RowKey(row: StoredRow): (string, string) {
    (row.tariffDate, row.warehouseName)
  }

  /** No two stored rows share a (tariff date, warehouse name) pair. */
  predicate UniqueRowKeys(rows: seq<StoredRow>) {
    forall i, j :: 0 <= i < j < |rows| ==> RowKey(rows[i]) != RowKey(rows[j])
  }

  /** The rows of one date (`where tariff_date = d`), in table order. */
  function RowsOn(rows: seq<StoredRow>, date: string): (r: seq<StoredRow>)
    ensures forall x :: x in r <==> x in rows && x.tariffDate == date
    ensures |r| <= |rows|
  {
    if rows == [] then []
    else (if rows[0].tariffDate == date then [rows[0]] else []) + RowsOn(rows[1..], date)
  }

  /** The rows left after deleting one date's rows, in table order. */
  function Without(rows: seq<StoredRow>, date: string): (r: seq<StoredRow>)
    ensures forall x :: x in r <==> x in rows && x.tariffDate != date
    ensures UniqueRowKeys(rows) ==> UniqueRowKeys(r)
  {
    if rows == [] then []
    else
      var rest := Without(rows[1..], date);
      if rows[0].tariffDate != date then
        var r := [rows[0]] + rest;
        assert UniqueRowKeys(rows) ==> UniqueRowKeys(r) by {
          if UniqueRowKeys(rows) {
            assert UniqueRowKeys(rows[1..]);
            forall j | 1 <= j < |r| ensures RowKey(r[0]) != RowKey(r[j]) {
              assert r[j] in rows[1..];
              var k :| 0 <= k < |rows[1..]| && rows[1..][k] == r[j];
              assert rows[k + 1] == r[j];
            }
          }
        }
        r
      else
        assert UniqueRowKeys(rows) ==> UniqueRowKeys(rows[1..]);
        rest
  }

  /** The deduplicated rows as inserted for `date`. */
  function Tagged(date: string, unique: seq<NormalizedRow>): (r: seq<StoredRow>)
    ensures |r| == |unique|
    ensures forall i :: 0 <= i < |r| ==>
      r[i] == StoredRow(date, unique[i].warehouseName, unique[i].coefficient, unique[i].payload)
  {
    seq(|unique|, i requires 0 <= i < |unique| =>
      StoredRow(date, unique[i].warehouseName, unique[i].coefficient, unique[i].payload))
  }

  /** Inserting the rows of one date that were deduplicated by name keeps the row keys
      unique. */
  lemma TaggedAppendUnique(rest: seq<StoredRow>, date: string, unique: seq<NormalizedRow>)
    requires UniqueRowKeys(rest)
    requires forall x :: x in rest ==> x.tariffDate != date
    requires DistinctBy(unique, WarehouseOf)
    ensures UniqueRowKeys(rest + Tagged(date, unique))
  {
    var t := Tagged(date, unique);
    var all := rest + t;
    forall i, j | 0 <= i < j < |all| ensures RowKey(all[i]) != RowKey(all[j]) {
      if j >= |rest| && i < |rest| {
        assert rest[i] in rest;
      } else if i >= |rest| {
        assert WarehouseOf(unique[i - |rest|]) != WarehouseOf(unique[j - |rest|]);
      }
    }
  }

  /** After an upsert the date holds exactly the new rows. */
  lemma RowsOnAfterUpsert(rows: seq<StoredRow>, date: string, unique: seq<NormalizedRow>)
    ensures RowsOn(Without(rows, date) + Tagged(date, unique), date) == Tagged(date, unique)
  {
    RowsOnAppend(Without(rows, date), Tagged(date, unique), date);
    RowsOnNone(Without(rows, date), date);
    RowsOnAll(Tagged(date, unique), date);
  }

  /** Every other date keeps exactly its rows, in their order. */
  lemma {:induction false} RowsOnOtherDate(rows: seq<StoredRow>, date: string, unique: seq<NormalizedRow>, other: string)
    requires other != date
    ensures RowsOn(Without(rows, date) + Tagged(date, unique), other) == RowsOn(rows, other)
  {
    RowsOnAppend(Without(rows, date), Tagged(date, unique), other);
    RowsOnNone(Tagged(date, unique), other);
    RowsOnWithout(rows, date, other);
  }

  lemma {:induction false} RowsOnAppend(a: seq<StoredRow>, b: seq<StoredRow>, date: string)
    ensures RowsOn(a + b, date) == RowsOn(a, date) + RowsOn(b, date)
  {
    if a == [] {
      assert a + b == b;
    } else {
      assert (a + b)[1..] == a[1..] + b;
      RowsOnAppend(a[1..], b, date);
    }
  }

  lemma RowsOnNone(rows: seq<StoredRow>, date: string)
    requires forall x :: x in rows ==> x.tariffDate != date
    ensures RowsOn(rows, date) == []
  {
  }

  lemma {:induction false} RowsOnAll(rows: seq<StoredRow>, date: string)
    requires forall x :: x in rows ==> x.tariffDate == date
    ensures RowsOn(rows, date) == rows
  {
    if rows != [] {
      assert rows[0] in rows;
      RowsOnAll(rows[1..], date);
      assert rows == [rows[0]] + rows[1..];
    }
  }

  lemma {:induction false} RowsOnWithout(rows: seq<StoredRow>, date: string, other: string)
    requires other != date
    ensures RowsOn(Without(rows, date), other) == RowsOn(rows, other)
  {
    if rows != [] {
      RowsOnWithout(rows[1..], date, other);
      if rows[0].tariffDate != date {
        assert Without(rows, date) == [rows[0]] + Without(rows[1..], date);
        assert ([rows[0]] + Without(rows[1..], date))[1..] == Without(rows[1..], date);
      }
    }
  }

  /** `ORDER BY coefficient IS NULL, coefficient ASC, warehouse_name ASC`. */
  predicate SqlLe(a: StoredRow, b: StoredRow) {
    if a.coefficient.None? != b.coefficient.None? then a.coefficient.Some?
    else if a.coefficient.Some? && a.coefficient.value != b.coefficient.value then
      a.coefficient.value < b.coefficient.value
    else LexLe(a.warehouseName, b.warehouseName)
  }

  lemma SqlLeTotalPreorder()
    ensures TotalPreorder(SqlLe)
  {
    forall a, b ensures SqlLe(a, b) || SqlLe(b, a) {
      LexLeTotal(a.warehouseName, b.warehouseName);
    }
    forall a, b, c | SqlLe(a, b) && SqlLe(b, c) ensures SqlLe(a, c) {
      if a.coefficient == b.coefficient && b.coefficient == c.coefficient {
        LexLeTransitive(a.warehouseName, b.warehouseName, c.warehouseName);
      }
    }
  }

  /** Rows of different warehouses never tie, so within one date (where names are
      unique) the order is strict and the result does not depend on table order. */
  lemma SqlLeNoTies(a: StoredRow, b: StoredRow)
    requires a.warehouseName != b.warehouseName
    ensures !(SqlLe(a, b) && SqlLe(b, a))
  {
    if SqlLe(a, b) && SqlLe(b, a) {
      LexLeAntisymmetric(a.warehouseName, b.warehouseName);
    }
  }

  /** The largest date of a non-empty set of dates (`max(tariff_date)`). */
  ghost function MaxDate(dates: set<string>): (d: string)
    requires dates != {}
    ensures d in dates && forall k :: k in dates ==> LexLe(k, d)
    decreases dates
  {
    var x :| x in dates;
    LexLeReflexive(x);
    if dates == {x} then x
    else
      var m := MaxDate(dates - {x});
      LexLeTotal(x, m);
      if LexLe(x, m) then m
      else
        assert forall k :: k in dates - {x} ==> LexLe(k, x) by {
          forall k | k in dates - {x} ensures LexLe(k, x) {
            LexLeTransitive(k, m, x);
          }
        }
        x
  }

  /** The two tables. `Valid` holds the schema's constraints: every row references an
      existing parent date (the foreign key that `ON DELETE CASCADE` maintains) and
      (tariff date, warehouse name) is unique. */
  class TariffStore {
    var tariffs: map<string, DailyTariff>
    var rows: seq<StoredRow>

    predicate Valid()
      reads this
    {
      && (forall x :: x in rows ==> x.tariffDate in tariffs)
      && UniqueRowKeys(rows)
    }

    constructor ()
      ensures Valid()
      ensures tariffs == map[] && rows == []
    {
      tariffs := map[];
      rows := [];
    }

    /** `deduplicateRows`: the first row for each warehouse name, in first-occurrence
        order, as the `Map` filled only for unseen names yields them. */
    static method DeduplicateRows(rows: seq<NormalizedRow>) returns (unique: seq<NormalizedRow>)
      ensures unique == DedupBy(rows, WarehouseOf)
      ensures DistinctBy(unique, WarehouseOf)
      ensures KeysOf(unique, WarehouseOf) == KeysOf(rows, WarehouseOf)
    {
      var seen: set<string> := {};
      unique := [];
      for i := 0 to |rows|
        invariant unique == DedupBy(rows[..i], WarehouseOf)
        invariant seen == KeysOf(unique, WarehouseOf)
      {
        DedupBySnoc(rows[..i], rows[i], WarehouseOf);
        assert rows[..i + 1] == rows[..i] + [rows[i]];
        if rows[i].warehouseName !in seen {
          KeysOfSnoc(unique, rows[i], WarehouseOf);
          seen := seen + {rows[i].warehouseName};
          unique := unique + [rows[i]];
        }
      }
      assert rows[..|rows|] == rows;
    }

    /** `upsertDailyTariffs`: deduplicate, then in one transaction upsert the parent
        (overwriting the raw response and both timestamps), delete the date's rows and
        insert the new ones when there are any. `failAt` is the statement the database
        fails, if any; a failed transaction leaves both tables as they were. */
    method UpsertDailyTariffs(env: Runtime, tariffDate: string, rawResponse: Json,
                              newRows: seq<NormalizedRow>, now: string, failAt: Option<TxStep>)
      returns (committed: bool)
      requires Valid()
      modifies this
      ensures Valid()
      ensures committed <==> failAt.None? || (failAt == Some(InsertRows) && DedupBy(newRows, WarehouseOf) == [])
      ensures !committed ==> tariffs == old(tariffs) && rows == old(rows)
      ensures committed ==> tariffs == old(tariffs)[tariffDate := DailyTariff(env.stringify(rawResponse), now, now)]
      ensures committed ==> rows == Without(old(rows), tariffDate) + Tagged(tariffDate, DedupBy(newRows, WarehouseOf))
    {
      var unique := DeduplicateRows(newRows);
      var parents := tariffs;
      var table := rows;
      if failAt == Some(UpsertParent) {
        return false;
      }
      parents := parents[tariffDate := DailyTariff(env.stringify(rawResponse), now, now)];
      if failAt == Some(DeleteRows) {
        return false;
      }
      table := Without(table, tariffDate);
      if |unique| > 0 {
        if failAt == Some(InsertRows) {
          return false;
        }
        table := table + Tagged(tariffDate, unique);
      }
      assert failAt.Some? ==> failAt.value.InsertRows? && unique == [];
      assert table == Without(rows, tariffDate) + Tagged(tariffDate, unique);
      TaggedAppendUnique(Without(rows, tariffDate), tariffDate, unique);
      tariffs, rows := parents, table;
      committed := true;
    }

    /** `getLatestTariffRows`: no parent, no rows; otherwise the rows of the largest
        date in query order. */
    method GetLatestTariffRows() returns (result: seq<StoredRow>)
      requires Valid()
      ensures tariffs == map[] ==> result == []
      ensures tariffs != map[] ==> result == SortBy(RowsOn(rows, MaxDate(tariffs.Keys)), SqlLe)
    {
      if tariffs == map[] {
        return [];
      }
      assert tariffs.Keys != {} by {
        var d :| d in tariffs;
      }
      var remaining := tariffs.Keys;
      var latest :| latest in remaining;
      LexLeReflexive(latest);
      remaining := remaining - {latest};
      while remaining != {}
        invariant latest in tariffs.Keys
        invariant remaining <= tariffs.Keys
        invariant forall k :: k in tariffs.Keys && k !in remaining ==> LexLe(k, latest)
        decreases remaining
      {
        var date :| date in remaining;
        LexLeTotal(date, latest);
        LexLeReflexive(date);
        if !LexLe(date, latest) {
          forall k | k in tariffs.Keys && k !in remaining ensures LexLe(k, date) {
            LexLeTransitive(k, latest, date);
          }
          latest := date;
        }
        remaining := remaining - {date};
      }
      LexLeAntisymmetric(latest, MaxDate(tariffs.Keys));
      result := SortBy(RowsOn(rows, latest), SqlLe);
    }
  }

  /** The query's result is in query order, is a permutation of the latest date's rows,
      and holds only rows of that date. */
  lemma LatestRowsOrdered(rows: seq<StoredRow>, latest: string)
    ensures var r := SortBy(RowsOn(rows, latest), SqlLe);
      && SortedBy(r, SqlLe)
      && multiset(r) == multiset(RowsOn(rows, latest))
      && forall i :: 0 <= i < |r| ==> r[i].tariffDate == latest
  {
    SqlLeTotalPreorder();
    SortBySorted(RowsOn(rows, latest), SqlLe);
    var r := SortBy(RowsOn(rows, latest), SqlLe);
    forall i | 0 <= i < |r| ensures r[i].tariffDate == latest {
      assert r[i] in multiset(RowsOn(rows, latest)) by { assert r[i] in multiset(r); }
    }
  }
}
