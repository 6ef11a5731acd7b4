/** The spreadsheet export's pure part: the cell grid built from the latest stored rows
    (header from the sorted union of payload keys, one line per row), the cell
    stringification, the Russian header labels and the quoting of sheet names. The
    Google Sheets calls themselves are outside the model. */
module SheetExport {
  import opened Wrappers
  import opened JsonValues
  import opened Strings
  import opened Sorting
  import opened Dedup
  import opened TariffRepository

  /** A cell value as the Sheets API receives it. */
  datatype Cell = Text(text: string) | Number(value: real)

  /** The three fixed columns, by their database names. */
  const FixedFields: seq<string> := ["tariff_date", "warehouse_name", "coefficient"]

  /** The Russian column labels. */
  const RuHeaderMap: map<string, string> := map[
    "tariff_date" := "Дата тарифа",
    "warehouse_name" := "Склад",
    "coefficient" := "Коэффициент",
    "warehouseName" := "Склад",
    "geoName" := "Федеральный округ",
    "boxDeliveryBase" := "Доставка (база)",
    "boxDeliveryCoefExpr" := "Коэффициент доставки",
    "boxDeliveryLiter" := "Доставка за литр",
    "boxDeliveryMarketplaceBase" := "Маркетплейс доставка (база)",
    "boxDeliveryMarketplaceCoefExpr" := "Коэффициент доставки маркетплейс",
    "boxDeliveryMarketplaceLiter" := "Маркетплейс доставка за литр",
    "boxStorageBase" := "Хранение (база)",
    "boxStorageCoefExpr" := "Коэффициент хранения",
    "boxStorageLiter" := "Хранение за литр"
  ]

  /** `stringifyCell`: absent and null give "", numbers stay numbers, strings stay as
      they are, booleans give "true"/"false", arrays and objects their JSON text. */
  function StringifyCell(env: Runtime, value: Option<Json>): (c: Cell)
    ensures value.None? || value == Some(JNull) ==> c == Text("")
    ensures c.Number? <==> value.Some? && value.value.JNumber?
    ensures c.Number? ==> c.value == value.value.n
    ensures value.Some? && value.value.JString? ==> c == Text(value.value.s)
    ensures value.Some? && value.value.JBool? ==> c == Text(if value.value.b then "true" else "false")
    ensures value.Some? && (value.value.JArray? || value.value.JObject?) ==> c == Text(env.stringify(value.value))
  {
    match value
    case None => Text("")
    case Some(JNull) => Text("")
    case Some(JNumber(n)) => Number(n)
    case Some(JString(s)) => Text(s)
    case Some(JBool(b)) => Text(if b then "true" else "false")
    case Some(v) => Text(env.stringify(v))
  }

  /** The values a flattened payload holds never reach `JSON.stringify`: their cells do not
      depend on it. */
  lemma StringifyScalarNeedsNoJson(env1: Runtime, env2: Runtime, value: Option<Json>)
    requires value.None? || IsScalar(value.value)
    ensures StringifyCell(env1, value) == StringifyCell(env2, value)
  {
  }

  /** `toRuHeader`: the Russian label when there is one, else the field name itself. */
  function ToRuHeader(field: string): (heading: string)
    ensures field in RuHeaderMap ==> heading == RuHeaderMap[field]
    ensures field !in RuHeaderMap ==> heading == field
  {
    if field in RuHeaderMap then RuHeaderMap[field] else field
  }

  /** The fixed columns get their Russian labels, and the label of the warehouse column is
      the same as that of a `warehouseName` payload key, so header labels need not be
      distinct. */
  lemma FixedHeaderLabels()
    ensures ToRuHeader("tariff_date") == "Дата тарифа"
    ensures ToRuHeader("warehouse_name") == "Склад"
    ensures ToRuHeader("coefficient") == "Коэффициент"
    ensures ToRuHeader("warehouse_name") == ToRuHeader("warehouseName")
  {
  }

  /** The keys of one payload, in enumeration order (`Object.keys`). */
  function KeysOfPayload(payload: Fields): (keys: seq<string>)
    ensures |keys| == |payload|
    ensures forall i :: 0 <= i < |keys| ==> keys[i] == payload[i].0
  {
    seq(|payload|, i requires 0 <= i < |payload| => payload[i].0)
  }

  /** Every payload key of every row, in the order the nested loops visit them. */
  function AllPayloadKeys(rows: seq<StoredRow>): seq<string>
  {
    if rows == [] then []
    else AllPayloadKeys(rows[..|rows| - 1]) + KeysOfPayload(rows[|rows| - 1].payload)
  }

  /** The collected keys are exactly the keys present in some row's payload. */
  lemma {:induction false} AllPayloadKeysMembers(rows: seq<StoredRow>)
    ensures forall k :: k in AllPayloadKeys(rows) <==> exists i :: 0 <= i < |rows| && k in KeySet(rows[i].payload)
  {
    if rows != [] {
      var last := rows[|rows| - 1];
      var init := rows[..|rows| - 1];
      AllPayloadKeysMembers(init);
      assert AllPayloadKeys(rows) == AllPayloadKeys(init) + KeysOfPayload(last.payload);
      forall k ensures k in AllPayloadKeys(rows) <==> exists i :: 0 <= i < |rows| && k in KeySet(rows[i].payload) {
        if k in KeySet(last.payload) {
          var j :| 0 <= j < |last.payload| && last.payload[j].0 == k;
          assert KeysOfPayload(last.payload)[j] == k;
          assert k in KeySet(rows[|rows| - 1].payload);
        }
        if k in KeysOfPayload(last.payload) {
          var j :| 0 <= j < |last.payload| && KeysOfPayload(last.payload)[j] == k;
          assert k in KeySet(rows[|rows| - 1].payload);
        }
        if exists i :: 0 <= i < |init| && k in KeySet(init[i].payload) {
          var i :| 0 <= i < |init| && k in KeySet(init[i].payload);
          assert rows[i] == init[i];
        }
        if exists i :: 0 <= i < |rows| && k in KeySet(rows[i].payload) {
          var i :| 0 <= i < |rows| && k in KeySet(rows[i].payload);
          if i < |init| {
            assert init[i] == rows[i];
          } else {
            assert k in KeysOfPayload(last.payload);
          }
        }
      }
    }
  }

  /** The header's payload columns: the distinct keys, sorted with `localeCompare`. */
  function OrderedPayloadKeys(rows: seq<StoredRow>): seq<string> {
    SortBy(DedupBy(AllPayloadKeys(rows), Identity), LexLe)
  }

  /** The payload columns are exactly the keys that occur in some row, each once, in
      strictly increasing order. */
  lemma OrderedPayloadKeysCharacterized(rows: seq<StoredRow>)
    ensures var keys := OrderedPayloadKeys(rows);
      && (forall k :: k in keys <==> exists i :: 0 <= i < |rows| && k in KeySet(rows[i].payload))
      && (forall i, j :: 0 <= i < j < |keys| ==> keys[i] != keys[j] && LexLe(keys[i], keys[j]))
  {
    var unique := DedupBy(AllPayloadKeys(rows), Identity);
    var keys := OrderedPayloadKeys(rows);
    LexLeOrder();
    SortBySorted(unique, LexLe);
    forall k ensures k in keys <==> k in unique {
      assert k in keys <==> k in multiset(keys);
      assert k in unique <==> k in multiset(unique);
    }
    DedupIdentityMembers(AllPayloadKeys(rows));
    AllPayloadKeysMembers(rows);
    DistinctAfterSort(unique, keys);
  }

  lemma LexLeOrder()
    ensures TotalPreorder(LexLe)
  {
    forall a, b ensures LexLe(a, b) || LexLe(b, a) {
      LexLeTotal(a, b);
    }
    forall a, b, c | LexLe(a, b) && LexLe(b, c) ensures LexLe(a, c) {
      LexLeTransitive(a, b, c);
    }
  }

  /** A permutation of a duplicate-free sequence is duplicate-free. */
  lemma DistinctAfterSort(unique: seq<string>, keys: seq<string>)
    requires DistinctBy(unique, Identity)
    requires multiset(keys) == multiset(unique)
    ensures forall i, j :: 0 <= i < j < |keys| ==> keys[i] != keys[j]
  {
    forall x ensures multiset(unique)[x] <= 1 {
      DistinctCount(unique, x);
    }
    forall i, j | 0 <= i < j < |keys| ensures keys[i] != keys[j] {
      var y := keys[j];
      assert keys == keys[..j] + [y] + keys[j + 1..];
      assert multiset(keys)[y] == multiset(keys[..j])[y] + 1 + multiset(keys[j + 1..])[y];
      assert keys[..j][i] in multiset(keys[..j]);
    }
  }

  lemma {:induction false} DistinctCount(s: seq<string>, x: string)
    requires DistinctBy(s, Identity)
    ensures multiset(s)[x] <= 1
  {
    if s != [] {
      assert DistinctBy(s[1..], Identity);
      DistinctCount(s[1..], x);
      assert s == [s[0]] + s[1..];
      if s[0] == x {
        assert x !in s[1..] by {
          forall i | 0 <= i < |s[1..]| ensures s[1..][i] != x {
            assert Identity(s[0]) != Identity(s[i + 1]);
          }
        }
      }
    }
  }

  /** The header line: the three fixed fields and the payload keys, each translated. */
  function Header(keys: seq<string>): (h: seq<Cell>)
    ensures |h| == 3 + |keys|
    ensures forall i :: 0 <= i < 3 ==> h[i] == Text(ToRuHeader(FixedFields[i]))
    ensures forall k :: 0 <= k < |keys| ==> h[3 + k] == Text(ToRuHeader(keys[k]))
  {
    var fields := FixedFields + keys;
    seq(|fields|, i requires 0 <= i < |fields| => Text(ToRuHeader(fields[i])))
  }

  /** One data line: date, name, coefficient or "", then one cell per payload column. */
  function DataRow(env: Runtime, row: StoredRow, keys: seq<string>): (line: seq<Cell>)
    ensures |line| == 3 + |keys|
    ensures line[0] == Text(row.tariffDate) && line[1] == Text(row.warehouseName)
    ensures line[2] == (if row.coefficient.Some? then Number(row.coefficient.value) else Text(""))
    ensures forall k :: 0 <= k < |keys| ==> line[3 + k] == StringifyCell(env, Lookup(row.payload, keys[k]))
  {
    [Text(row.tariffDate), Text(row.warehouseName),
     if row.coefficient.Some? then Number(row.coefficient.value) else Text("")]
    + seq(|keys|, k requires 0 <= k < |keys| => StringifyCell(env, Lookup(row.payload, keys[k])))
  }

  /** One data line per row, in the rows' order. */
  function DataRows(env: Runtime, rows: seq<StoredRow>, keys: seq<string>): (lines: seq<seq<Cell>>)
    ensures |lines| == |rows|
    ensures forall i :: 0 <= i < |rows| ==> lines[i] == DataRow(env, rows[i], keys)
  {
    seq(|rows|, i requires 0 <= i < |rows| => DataRow(env, rows[i], keys))
  }

  lemma DataRowsSnoc(env: Runtime, rows: seq<StoredRow>, i: nat, keys: seq<string>)
    requires i < |rows|
    ensures DataRows(env, rows[..i + 1], keys) == DataRows(env, rows[..i], keys) + [DataRow(env, rows[i], keys)]
  {
  }

  /** The header line over the given payload columns, then one data line per row. */
  function Lines(env: Runtime, rows: seq<StoredRow>, keys: seq<string>): (grid: seq<seq<Cell>>)
    ensures |grid| == |rows| + 1 && grid[0] == Header(keys)
    ensures forall i :: 0 <= i < |rows| ==> grid[i + 1] == DataRow(env, rows[i], keys)
  {
    var lines := DataRows(env, rows, keys);
    assert forall i :: 0 <= i < |rows| ==> ([Header(keys)] + lines)[i + 1] == lines[i];
    [Header(keys)] + lines
  }

  /** The grid `buildRows` produces for the rows the read query returned. */
  function Grid(env: Runtime, rows: seq<StoredRow>): (grid: seq<seq<Cell>>)
    ensures rows == [] ==> grid == [[Text("tariff_date"), Text("warehouse_name"), Text("coefficient")]]
    ensures rows != [] ==> |grid| == |rows| + 1 && grid[0] == Header(OrderedPayloadKeys(rows))
    ensures rows != [] ==> forall i :: 0 <= i < |rows| ==> grid[i + 1] == DataRow(env, rows[i], OrderedPayloadKeys(rows))
  {
    if rows == [] then [[Text("tariff_date"), Text("warehouse_name"), Text("coefficient")]]
    else Lines(env, rows, OrderedPayloadKeys(rows))
  }

  /** The grid is rectangular: one line per row plus the header, and every line has as
      many cells as the header, three plus the number of distinct payload keys. */
  lemma GridRectangular(env: Runtime, rows: seq<StoredRow>)
    ensures var grid := Grid(env, rows);
      && |grid| == |rows| + 1
      && forall i :: 0 <= i < |grid| ==> |grid[i]| == 3 + |OrderedPayloadKeys(rows)|
  {
    if rows == [] {
      NoRowsNoKeys(rows);
    } else {
      DataLinesWidth(env, rows);
    }
  }

  lemma DataLinesWidth(env: Runtime, rows: seq<StoredRow>)
    requires rows != []
    ensures forall i :: 0 <= i < |Grid(env, rows)| ==> |Grid(env, rows)[i]| == 3 + |OrderedPayloadKeys(rows)|
  {
    var grid := Grid(env, rows);
    var keys := OrderedPayloadKeys(rows);
    forall i | 0 <= i < |grid| ensures |grid[i]| == 3 + |keys| {
      if i == 0 {
        assert grid[0] == Header(keys);
      } else {
        var r := i - 1;
        assert grid[r + 1] == DataRow(env, rows[r], keys);
      }
    }
  }

  lemma NoRowsNoKeys(rows: seq<StoredRow>)
    requires rows == []
    ensures OrderedPayloadKeys(rows) == []
  {
    assert AllPayloadKeys(rows) == [];
  }

  /** A payload column a row lacks is an empty cell on that row's line. */
  lemma GridMissingKeyBlank(env: Runtime, rows: seq<StoredRow>, i: nat, k: nat)
    requires i < |rows| && k < |OrderedPayloadKeys(rows)|
    requires OrderedPayloadKeys(rows)[k] !in KeySet(rows[i].payload)
    ensures Grid(env, rows)[i + 1][3 + k] == Text("")
  {
    assert Grid(env, rows)[i + 1] == DataRow(env, rows[i], OrderedPayloadKeys(rows));
  }

  /** The inner loop of `buildRows`'s first loop: the keys of one payload added to the
      set, given that `payloadKeys` holds the distinct keys of the keys visited so far. */
  method AddPayloadKeys(payloadKeys: seq<string>, seen: set<string>, payload: Fields, ghost visited: seq<string>)
    returns (payloadKeys': seq<string>, seen': set<string>)
    requires payloadKeys == DedupBy(visited, Identity)
    requires seen == KeysOf(payloadKeys, Identity)
    ensures payloadKeys' == DedupBy(visited + KeysOfPayload(payload), Identity)
    ensures seen' == KeysOf(payloadKeys', Identity)
  {
    payloadKeys', seen' := payloadKeys, seen;
    ghost var keys := KeysOfPayload(payload);
    assert visited + keys[..0] == visited;
    for j := 0 to |payload|
      invariant payloadKeys' == DedupBy(visited + keys[..j], Identity)
      invariant seen' == KeysOf(payloadKeys', Identity)
    {
      var key := payload[j].0;
      assert visited + keys[..j + 1] == (visited + keys[..j]) + [key];
      DedupBySnoc(visited + keys[..j], key, Identity);
      if key !in seen' {
        KeysOfSnoc(payloadKeys', key, Identity);
        seen' := seen' + {key};
        payloadKeys' := payloadKeys' + [key];
      }
    }
    assert keys[..|payload|] == keys;
  }

  /** The first loop of `buildRows`: every key of every payload added to the set
      `payloadKeys`, read back in insertion order. */
  method CollectPayloadKeys(tariffRows: seq<StoredRow>) returns (payloadKeys: seq<string>)
    ensures payloadKeys == DedupBy(AllPayloadKeys(tariffRows), Identity)
  {
    var seen: set<string> := {};
    payloadKeys := [];
    for i := 0 to |tariffRows|
      invariant payloadKeys == DedupBy(AllPayloadKeys(tariffRows[..i]), Identity)
      invariant seen == KeysOf(payloadKeys, Identity)
    {
      var row := tariffRows[i];
      assert tariffRows[..i + 1][..i] == tariffRows[..i];
      assert AllPayloadKeys(tariffRows[..i + 1]) == AllPayloadKeys(tariffRows[..i]) + KeysOfPayload(row.payload);
      payloadKeys, seen := AddPayloadKeys(payloadKeys, seen, row.payload, AllPayloadKeys(tariffRows[..i]));
    }
    assert tariffRows[..|tariffRows|] == tariffRows;
  }

  /** `buildRows`: no rows, the untranslated fixed header alone; otherwise the sorted
      payload keys, the header and one pushed line per row. */
  method BuildRows(env: Runtime, tariffRows: seq<StoredRow>) returns (values: seq<seq<Cell>>)
    ensures values == Grid(env, tariffRows)
  {
    if |tariffRows| == 0 {
      return [[Text("tariff_date"), Text("warehouse_name"), Text("coefficient")]];
    }
    var payloadKeys := CollectPayloadKeys(tariffRows);
    var orderedPayloadKeys := SortBy(payloadKeys, LexLe);
    values := [Header(orderedPayloadKeys)];
    for i := 0 to |tariffRows|
      invariant values == [Header(orderedPayloadKeys)] + DataRows(env, tariffRows[..i], orderedPayloadKeys)
    {
      var row := tariffRows[i];
      var payloadCells := seq(|orderedPayloadKeys|, k requires 0 <= k < |orderedPayloadKeys| =>
                              StringifyCell(env, Lookup(row.payload, orderedPayloadKeys[k])));
      var coefficientCell := if row.coefficient.Some? then Number(row.coefficient.value) else Text("");
      var line := [Text(row.tariffDate), Text(row.warehouseName), coefficientCell] + payloadCells;
      assert line == DataRow(env, row, orderedPayloadKeys);
      DataRowsSnoc(env, tariffRows, i, orderedPayloadKeys);
      values := values + [line];
    }
    assert tariffRows[..|tariffRows|] == tariffRows;
  }

  // ---------------------------------------------------------------------------
  // Sheet names
  // ---------------------------------------------------------------------------

  /** Every `'` doubled. */
  function DoubleQuotes(s: string): (r: string)
    ensures |r| == |s| + Count('\'', s)
  {
    if s == [] then []
    else (if s[0] == '\'' then "''" else [s[0]]) + DoubleQuotes(s[1..])
  }

  /** `quoteSheetName`: the name in single quotes, inner quotes doubled. */
  function QuoteSheetName(name: string): (q: string)
    ensures |q| == |name| + 2 + Count('\'', name)
    ensures q[0] == '\'' && q[|q| - 1] == '\''
  {
    "'" + DoubleQuotes(name) + "'"
  }

  /** Reading a doubled quote back as one quote. */
  function Undouble(s: string): string {
    if s == [] then []
    else if |s| >= 2 && s[0] == '\'' && s[1] == '\'' then "'" + Undouble(s[2..])
    else [s[0]] + Undouble(s[1..])
  }

  /** Quoting is reversible: strip the outer quotes, undouble, and the name is back. */
  lemma {:induction false} QuoteSheetNameRoundTrip(name: string)
    ensures var q := QuoteSheetName(name); Undouble(q[1..|q| - 1]) == name
  {
    var q := QuoteSheetName(name);
    assert q[1..|q| - 1] == DoubleQuotes(name);
    UndoubleDouble(name);
  }

  lemma {:induction false} UndoubleDouble(s: string)
    ensures Undouble(DoubleQuotes(s)) == s
  {
    if s != [] {
      UndoubleDouble(s[1..]);
      var d := DoubleQuotes(s);
      if s[0] == '\'' {
        assert d == "''" + DoubleQuotes(s[1..]);
        assert d[2..] == DoubleQuotes(s[1..]);
      } else {
        assert d == [s[0]] + DoubleQuotes(s[1..]);
        assert d[1..] == DoubleQuotes(s[1..]);
      }
      assert s == [s[0]] + s[1..];
    }
  }
}
