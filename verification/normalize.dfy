/** The tariff normalizer: finds the array of row objects inside an arbitrary JSON
    payload, takes a warehouse name, a coefficient and a flattened payload from each row,
    and orders the rows with null coefficients last. It never fails: a payload it cannot
    make sense of yields no rows. */
module Normalize {
  import opened Wrappers
  import opened JsonValues
  import opened Strings
  import opened Sorting

  /** One output row. `coefficient` is `None` for JavaScript `null`. */
  datatype NormalizedRow = NormalizedRow(warehouseName: string, coefficient: Option<real>, payload: Fields)

  // ---------------------------------------------------------------------------
  // Value helpers
  // ---------------------------------------------------------------------------

  /** `isRecord`: a plain object (not null, not an array). */
  predicate IsRecord(v: Json) {
    v.JObject?
  }

  predicate AllRecords(items: seq<Json>) {
    forall i :: 0 <= i < |items| ==> IsRecord(items[i])
  }

  /** The entries of each object of an all-object array. */
  function RecordsOf(items: seq<Json>): (rows: seq<Fields>)
    requires AllRecords(items)
    ensures |rows| == |items|
    ensures forall i :: 0 <= i < |items| ==> items[i] == JObject(rows[i])
  {
    seq(|items|, i requires 0 <= i < |items| => items[i].fields)
  }

  /** The text handed to `Number()`: the first comma turned into a point, then every
      whitespace character removed. */
  function NumericText(s: string): (t: string)
    ensures forall i :: 0 <= i < |t| ==> !IsSpace(t[i])
    ensures ',' in s ==> multiset(t)[','] == multiset(s)[','] - 1 && multiset(t)['.'] == multiset(s)['.'] + 1
    ensures forall c :: !IsSpace(c) && c != ',' && c != '.' ==> multiset(t)[c] == multiset(s)[c]
    ensures ',' !in s ==> forall c :: !IsSpace(c) ==> multiset(t)[c] == multiset(s)[c]
  {
    var m := ReplaceFirst(s, ',', '.');
    var t := RemoveSpaces(m);
    ReplaceCommaCounts(s);
    assert !IsSpace(',') && !IsSpace('.');
    assert multiset(t)[','] == multiset(m)[','] && multiset(t)['.'] == multiset(m)['.'];
    assert forall c :: !IsSpace(c) && c != ',' && c != '.' ==> multiset(t)[c] == multiset(s)[c] by {
      forall c | !IsSpace(c) && c != ',' && c != '.' ensures multiset(t)[c] == multiset(s)[c] {
        assert multiset(t)[c] == multiset(m)[c];
      }
    }
    t
  }

  /** Turning the first comma into a point moves one count from ',' to '.'. */
  lemma ReplaceCommaCounts(s: string)
    ensures var m := ReplaceFirst(s, ',', '.');
      && (',' in s ==> multiset(m)[','] == multiset(s)[','] - 1 && multiset(m)['.'] == multiset(s)['.'] + 1)
      && (forall c :: c != ',' && c != '.' ==> multiset(m)[c] == multiset(s)[c])
      && (',' !in s ==> m == s)
  {
    var m := ReplaceFirst(s, ',', '.');
    if ',' in s {
      assert multiset(m) == multiset(s) - multiset{','} + multiset{'.'};
      assert multiset(s)[','] >= 1;
    }
  }

  /** `parseNumeric`: numbers pass through; a non-blank string is read by `Number()`
      after `NumericText`; everything else is `null`. */
  function ParseNumeric(env: Runtime, v: Json): (r: Option<real>)
    ensures v.JNumber? ==> r == Some(v.n)
    ensures v.JString? && !IsBlank(v.s) ==> (r == env.number(NumericText(v.s)))
    ensures r.Some? ==> v.JNumber? || (v.JString? && !IsBlank(v.s))
  {
    match v
    case JNumber(n) => Some(n)
    case JString(s) => if |Trim(s)| > 0 then env.number(NumericText(s)) else None
    case _ => None
  }

  /** `toStringValue`: a non-blank string, trimmed, or a number's `String()` text. */
  function ToStringValue(env: Runtime, v: Json): (r: Option<string>)
    ensures r.Some? <==> v.JNumber? || (v.JString? && !IsBlank(v.s))
    ensures v.JString? && r.Some? ==>
      (r.value == Trim(v.s) && r.value != [] && !IsSpace(r.value[0]) && !IsSpace(r.value[|r.value| - 1]))
    ensures v.JNumber? ==> r == Some(env.numberText(v.n))
  {
    match v
    case JString(s) => if |Trim(s)| > 0 then Some(Trim(s)) else None
    case JNumber(n) => Some(env.numberText(n))
    case _ => None
  }

  /** JavaScript truthiness of `string | null`: present and non-empty. */
  predicate Truthy(o: Option<string>) {
    o.Some? && o.value != []
  }

  // ---------------------------------------------------------------------------
  // Payload flattening
  // ---------------------------------------------------------------------------

  /** One payload value: null becomes "", objects and arrays their JSON text, other
      scalars pass through. */
  function FlatValue(env: Runtime, v: Json): (r: Json)
    ensures IsScalar(r)
    ensures v.JNull? ==> r == JString("")
    ensures v.JArray? || v.JObject? ==> r == JString(env.stringify(v))
    ensures IsScalar(v) ==> r == v
  {
    match v
    case JNull => JString("")
    case JArray(_) => JString(env.stringify(v))
    case JObject(_) => JString(env.stringify(v))
    case _ => v
  }

  /** The object `flattenObject` builds: each entry in turn assigned into an initially
      empty object. */
  function Flattened(env: Runtime, row: Fields): (out: Fields)
    ensures KeySet(out) == KeySet(row)
    ensures forall i :: 0 <= i < |out| ==> IsScalar(out[i].1)
  {
    if row == [] then []
    else
      var init := row[..|row| - 1];
      var last := row[|row| - 1];
      var prev := Flattened(env, init);
      KeySetSnoc(init, last);
      assert row == init + [last];
      var out := Put(prev, last.0, FlatValue(env, last.1));
      assert forall i :: 0 <= i < |out| ==> IsScalar(out[i].1) by {
        forall i | 0 <= i < |out| ensures IsScalar(out[i].1) {
          assert out[i] in out;
        }
      }
      out
  }

  /** With distinct keys (always so for a JavaScript object) the flattened object has
      exactly the input's keys, in the same order, with each value flattened. */
  lemma {:induction false} FlattenedEntrywise(env: Runtime, row: Fields)
    requires DistinctKeys(row)
    ensures |Flattened(env, row)| == |row|
    ensures forall i :: 0 <= i < |row| ==> Flattened(env, row)[i] == (row[i].0, FlatValue(env, row[i].1))
  {
    if row != [] {
      var init := row[..|row| - 1];
      var last := row[|row| - 1];
      assert DistinctKeys(init);
      FlattenedEntrywise(env, init);
      forall j | 0 <= j < |init| ensures init[j].0 != last.0 {
        assert row[j].0 != row[|row| - 1].0;
      }
      var prev := Flattened(env, init);
      assert last.0 !in KeySet(prev);
      assert Flattened(env, row) == Put(prev, last.0, FlatValue(env, last.1));
      assert Flattened(env, row) == prev + [(last.0, FlatValue(env, last.1))];
      forall i | 0 <= i < |row| ensures Flattened(env, row)[i] == (row[i].0, FlatValue(env, row[i].1)) {
        if i < |init| { assert row[i] == init[i]; }
      }
    }
  }

  /** `flattenObject`: the loop that fills `output` entry by entry. */
  method FlattenObject(env: Runtime, value: Fields) returns (output: Fields)
    ensures output == Flattened(env, value)
  {
    output := [];
    for i := 0 to |value|
      invariant output == Flattened(env, value[..i])
    {
      var (key, item) := value[i];
      assert value[..i + 1][..i] == value[..i];
      assert Flattened(env, value[..i + 1]) == Put(output, key, FlatValue(env, item));
      if item.JNull? {
        output := Put(output, key, JString(""));
        continue;
      }
      if item.JArray? || item.JObject? {
        output := Put(output, key, JString(env.stringify(item)));
        continue;
      }
      output := Put(output, key, item);
    }
    assert value[..|value|] == value;
  }

  // ---------------------------------------------------------------------------
  // Row discovery
  // ---------------------------------------------------------------------------

  /** `findRowsCandidate`: a non-empty all-object array is the row source; an object
      whose `warehouseList` is an all-object array (even an empty one) yields that array;
      otherwise the array's elements, or the object's values, are searched in order and
      the first non-empty result wins. Scalars and null yield nothing. */
  function FindRowsCandidate(node: Json): (rows: seq<Fields>)
    decreases node, 1
  {
    match node
    case JArray(items) =>
      if |items| > 0 && AllRecords(items) then RecordsOf(items) else FindInItems(node, 0)
    case JObject(fields) =>
      var preferred := Lookup(fields, "warehouseList");
      if preferred.Some? && preferred.value.JArray? && AllRecords(preferred.value.items)
      then RecordsOf(preferred.value.items)
      else FindInValues(node, 0)
    case _ => []
  }

  /** The `for (const item of node)` search, from element `i` on. */
  function FindInItems(node: Json, i: nat): (rows: seq<Fields>)
    requires node.JArray? && i <= |node.items|
    ensures rows == [] <==> forall j :: i <= j < |node.items| ==> FindRowsCandidate(node.items[j]) == []
    ensures rows != [] ==> exists j :: i <= j < |node.items| && rows == FindRowsCandidate(node.items[j])
                                   && forall k :: i <= k < j ==> FindRowsCandidate(node.items[k]) == []
    decreases node, 0, |node.items| - i
  {
    if i == |node.items| then []
    else
      var nested := FindRowsCandidate(node.items[i]);
      if |nested| > 0 then nested else FindInItems(node, i + 1)
  }

  /** The `for (const value of Object.values(node))` search, from entry `i` on. */
  function FindInValues(node: Json, i: nat): (rows: seq<Fields>)
    requires node.JObject? && i <= |node.fields|
    ensures rows == [] <==> forall j :: i <= j < |node.fields| ==> FindRowsCandidate(node.fields[j].1) == []
    ensures rows != [] ==> exists j :: i <= j < |node.fields| && rows == FindRowsCandidate(node.fields[j].1)
                                   && forall k :: i <= k < j ==> FindRowsCandidate(node.fields[k].1) == []
    decreases node, 0, |node.fields| - i
  {
    if i == |node.fields| then []
    else
      var nested := FindRowsCandidate(node.fields[i].1);
      if |nested| > 0 then nested else FindInValues(node, i + 1)
  }

  /** An object's `warehouseList` decides the outcome whenever it is an all-object array:
      its rows are returned, and when it is empty nothing else is searched. */
  lemma FindRowsPrefersWarehouseList(fields: Fields, items: seq<Json>)
    requires Lookup(fields, "warehouseList") == Some(JArray(items)) && AllRecords(items)
    ensures FindRowsCandidate(JObject(fields)) == RecordsOf(items)
    ensures items == [] ==> FindRowsCandidate(JObject(fields)) == []
  {
  }

  /** A non-empty array of objects is itself the row source; null and scalars give none. */
  lemma FindRowsBaseCases(node: Json)
    ensures node.JArray? && |node.items| > 0 && AllRecords(node.items)
            ==> FindRowsCandidate(node) == RecordsOf(node.items)
    ensures !node.JArray? && !node.JObject? ==> FindRowsCandidate(node) == []
  {
  }

  /** There is something to discover: an all-object non-empty array reachable by the
      search (an all-object `warehouseList` cuts the search off at its object). */
  ghost predicate Discoverable(node: Json)
    decreases node
  {
    match node
    case JArray(items) =>
      (|items| > 0 && AllRecords(items)) || exists i :: 0 <= i < |items| && Discoverable(items[i])
    case JObject(fields) =>
      var preferred := Lookup(fields, "warehouseList");
      if preferred.Some? && preferred.value.JArray? && AllRecords(preferred.value.items)
      then |preferred.value.items| > 0
      else exists i :: 0 <= i < |fields| && Discoverable(fields[i].1)
    case _ => false
  }

  /** The search finds rows exactly when something is discoverable. */
  lemma {:induction false} FindRowsNonEmptyIffDiscoverable(node: Json)
    ensures FindRowsCandidate(node) != [] <==> Discoverable(node)
    decreases node
  {
    match node
    case JArray(items) =>
      forall j | 0 <= j < |items| ensures FindRowsCandidate(items[j]) != [] <==> Discoverable(items[j]) {
        FindRowsNonEmptyIffDiscoverable(items[j]);
      }
    case JObject(fields) =>
      var preferred := Lookup(fields, "warehouseList");
      if preferred.Some? && preferred.value.JArray? && AllRecords(preferred.value.items) {
        assert |RecordsOf(preferred.value.items)| == |preferred.value.items|;
      } else {
        forall j | 0 <= j < |fields| ensures FindRowsCandidate(fields[j].1) != [] <==> Discoverable(fields[j].1) {
          FindRowsNonEmptyIffDiscoverable(fields[j].1);
        }
      }
    case _ =>
  }

  // ---------------------------------------------------------------------------
  // Warehouse name
  // ---------------------------------------------------------------------------

  /** The exact keys tried first, in priority order. */
  const WarehouseKeys: seq<string> := ["warehouseName", "warehouse", "warehouse_name", "name"]

  /** The alternatives of `/warehouse|склад|ware/i`. */
  const WarehouseKeyPattern: seq<string> := ["warehouse", "склад", "ware"]

  /** The name `key` gives: the key is present and its value is a truthy `toStringValue`. */
  function NameAt(env: Runtime, row: Fields, key: string): (r: Option<string>)
    ensures r.Some? ==> r.value != [] && Lookup(row, key).Some? && r == ToStringValue(env, Lookup(row, key).value)
    ensures Lookup(row, key).Some? && Truthy(ToStringValue(env, Lookup(row, key).value)) ==> r.Some?
  {
    var item := Lookup(row, key);
    if item.Some? && Truthy(ToStringValue(env, item.value)) then ToStringValue(env, item.value) else None
  }

  /** The name an entry gives in the pattern scan. */
  function NameOfEntry(env: Runtime, entry: (string, Json)): (r: Option<string>)
    ensures r.Some? ==> r.value != [] && MatchesAnyFolded(entry.0, WarehouseKeyPattern)
                        && r == ToStringValue(env, entry.1)
    ensures MatchesAnyFolded(entry.0, WarehouseKeyPattern) && Truthy(ToStringValue(env, entry.1)) ==> r.Some?
  {
    if MatchesAnyFolded(entry.0, WarehouseKeyPattern) && Truthy(ToStringValue(env, entry.1))
    then ToStringValue(env, entry.1) else None
  }

  /** The first of `keys` that gives a name. */
  function NameByKeys(env: Runtime, row: Fields, keys: seq<string>): (r: Option<string>)
    ensures r.None? <==> forall i :: 0 <= i < |keys| ==> NameAt(env, row, keys[i]).None?
    ensures r.Some? ==> exists i :: 0 <= i < |keys| && r == NameAt(env, row, keys[i])
                                 && forall j :: 0 <= j < i ==> NameAt(env, row, keys[j]).None?
  {
    if keys == [] then None
    else
      var here := NameAt(env, row, keys[0]);
      if here.Some? then here
      else
        var r := NameByKeys(env, row, keys[1..]);
        assert r.Some? ==> exists i :: 0 <= i < |keys| && r == NameAt(env, row, keys[i])
                                    && forall j :: 0 <= j < i ==> NameAt(env, row, keys[j]).None? by {
          if r.Some? {
            var i :| 0 <= i < |keys[1..]| && r == NameAt(env, row, keys[1..][i])
                     && forall j :: 0 <= j < i ==> NameAt(env, row, keys[1..][j]).None?;
            assert forall j :: 0 <= j < i + 1 ==> NameAt(env, row, keys[j]).None? by {
              forall j | 0 <= j < i + 1 ensures NameAt(env, row, keys[j]).None? {
                if j > 0 { assert keys[j] == keys[1..][j - 1]; }
              }
            }
            assert keys[i + 1] == keys[1..][i];
          }
        }
        r
  }

  /** The first entry, in enumeration order, that gives a name in the pattern scan. */
  function NameByPattern(env: Runtime, entries: Fields): (r: Option<string>)
    ensures r.None? <==> forall i :: 0 <= i < |entries| ==> NameOfEntry(env, entries[i]).None?
    ensures r.Some? ==> exists i :: 0 <= i < |entries| && r == NameOfEntry(env, entries[i])
                                 && forall j :: 0 <= j < i ==> NameOfEntry(env, entries[j]).None?
  {
    if entries == [] then None
    else
      var here := NameOfEntry(env, entries[0]);
      if here.Some? then here
      else
        var r := NameByPattern(env, entries[1..]);
        assert r.Some? ==> exists i :: 0 <= i < |entries| && r == NameOfEntry(env, entries[i])
                                    && forall j :: 0 <= j < i ==> NameOfEntry(env, entries[j]).None? by {
          if r.Some? {
            var i :| 0 <= i < |entries[1..]| && r == NameOfEntry(env, entries[1..][i])
                     && forall j :: 0 <= j < i ==> NameOfEntry(env, entries[1..][j]).None?;
            assert forall j :: 0 <= j < i + 1 ==> NameOfEntry(env, entries[j]).None? by {
              forall j | 0 <= j < i + 1 ensures NameOfEntry(env, entries[j]).None? {
                if j > 0 { assert entries[j] == entries[1..][j - 1]; }
              }
            }
            assert entries[i + 1] == entries[1..][i];
          }
        }
        r
  }

  /** The name the row at pre-sort position `index` receives: a named key first, then
      the pattern scan, and otherwise `warehouse_<index + 1>`. */
  function WarehouseName(env: Runtime, row: Fields, index: nat): (name: string)
    ensures name != []
    ensures NameByKeys(env, row, WarehouseKeys).Some? ==> name == NameByKeys(env, row, WarehouseKeys).value
    ensures NameByKeys(env, row, WarehouseKeys).None? && NameByPattern(env, row).Some?
            ==> name == NameByPattern(env, row).value
    ensures NameByKeys(env, row, WarehouseKeys).None? && NameByPattern(env, row).None?
            ==> name == "warehouse_" + Decimal(index + 1)
  {
    match NameByKeys(env, row, WarehouseKeys)
    case Some(n) => n
    case None =>
      match NameByPattern(env, row)
      case Some(n) => n
      case None => "warehouse_" + Decimal(index + 1)
  }

  /** Rows without a usable name field get names that tell their positions apart. */
  lemma SyntheticNamesDistinct(env: Runtime, row1: Fields, i1: nat, row2: Fields, i2: nat)
    requires NameByKeys(env, row1, WarehouseKeys).None? && NameByPattern(env, row1).None?
    requires NameByKeys(env, row2, WarehouseKeys).None? && NameByPattern(env, row2).None?
    requires i1 != i2
    ensures WarehouseName(env, row1, i1) != WarehouseName(env, row2, i2)
  {
    var p := "warehouse_";
    var n1, n2 := p + Decimal(i1 + 1), p + Decimal(i2 + 1);
    assert WarehouseName(env, row1, i1) == n1 && WarehouseName(env, row2, i2) == n2;
    if n1 == n2 {
      assert n1[|p|..] == Decimal(i1 + 1);
      assert n2[|p|..] == Decimal(i2 + 1);
      DecimalInjective(i1 + 1, i2 + 1);
    }
  }

  /** The key scan from position `i` on: key `i` if it gives a name, else the scan from
      `i + 1`. */
  lemma NameByKeysStep(env: Runtime, row: Fields, keys: seq<string>, i: nat)
    requires i < |keys|
    ensures NameByKeys(env, row, keys[i..])
         == if NameAt(env, row, keys[i]).Some? then NameAt(env, row, keys[i]) else NameByKeys(env, row, keys[i + 1..])
  {
    assert keys[i..][1..] == keys[i + 1..];
  }

  /** The pattern scan from position `i` on: entry `i` if it gives a name, else the scan
      from `i + 1`. */
  lemma NameByPatternStep(env: Runtime, entries: Fields, i: nat)
    requires i < |entries|
    ensures NameByPattern(env, entries[i..])
         == if NameOfEntry(env, entries[i]).Some? then NameOfEntry(env, entries[i]) else NameByPattern(env, entries[i + 1..])
  {
    assert entries[i..][1..] == entries[i + 1..];
  }

  /** `pickWarehouseName`: the two loops with early return. */
  method PickWarehouseName(env: Runtime, row: Fields, rowIndex: nat) returns (name: string)
    ensures name == WarehouseName(env, row, rowIndex)
  {
    ghost var byKeys := NameByKeys(env, row, WarehouseKeys);
    ghost var byPattern := NameByPattern(env, row);
    for i := 0 to |WarehouseKeys|
      invariant byKeys == NameByKeys(env, row, WarehouseKeys[i..])
    {
      var key := WarehouseKeys[i];
      NameByKeysStep(env, row, WarehouseKeys, i);
      var item := Lookup(row, key);
      if item.Some? {
        var value := ToStringValue(env, item.value);
        if value.Some? && value.value != [] {
          assert NameAt(env, row, key) == value;
          return value.value;
        }
      }
      assert NameAt(env, row, key).None?;
    }
    assert WarehouseKeys[|WarehouseKeys|..] == [];
    assert byKeys.None?;
    for i := 0 to |row|
      invariant byPattern == NameByPattern(env, row[i..])
    {
      var (key, value) := row[i];
      NameByPatternStep(env, row, i);
      if MatchesAnyFolded(key, WarehouseKeyPattern) {
        var strValue := ToStringValue(env, value);
        if strValue.Some? && strValue.value != [] {
          assert NameOfEntry(env, row[i]) == strValue;
          return strValue.value;
        }
      }
      assert NameOfEntry(env, row[i]).None?;
    }
    assert row[|row|..] == [];
    assert byPattern.None?;
    return "warehouse_" + Decimal(rowIndex + 1);
  }

  // ---------------------------------------------------------------------------
  // Coefficient
  // ---------------------------------------------------------------------------

  /** The exact keys tried first, in priority order. */
  const CoefficientKeys: seq<string> :=
    ["coefficient", "coef", "boxDeliveryCoefExpr", "boxDeliveryAndStorageExpr", "deliveryCoef"]

  /** The alternatives of `/coef|coefficient|expr|коэф/i`. */
  const CoefficientKeyPattern: seq<string> := ["coef", "coefficient", "expr", "коэф"]

  /** The coefficient `key` gives: the key is present and its value parses. */
  function CoefficientAt(env: Runtime, row: Fields, key: string): (r: Option<real>)
    ensures r.Some? ==> Lookup(row, key).Some? && r == ParseNumeric(env, Lookup(row, key).value)
    ensures Lookup(row, key).Some? && ParseNumeric(env, Lookup(row, key).value).Some? ==> r.Some?
  {
    match Lookup(row, key)
    case Some(v) => ParseNumeric(env, v)
    case None => None
  }

  /** The coefficient an entry gives in the pattern scan. */
  function CoefficientOfEntry(env: Runtime, entry: (string, Json)): (r: Option<real>)
    ensures r.Some? ==> MatchesAnyFolded(entry.0, CoefficientKeyPattern) && r == ParseNumeric(env, entry.1)
    ensures MatchesAnyFolded(entry.0, CoefficientKeyPattern) && ParseNumeric(env, entry.1).Some? ==> r.Some?
  {
    if MatchesAnyFolded(entry.0, CoefficientKeyPattern) then ParseNumeric(env, entry.1) else None
  }

  /** The first of `keys` that gives a coefficient. */
  function CoefficientByKeys(env: Runtime, row: Fields, keys: seq<string>): (r: Option<real>)
    ensures r.None? <==> forall i :: 0 <= i < |keys| ==> CoefficientAt(env, row, keys[i]).None?
    ensures r.Some? ==> exists i :: 0 <= i < |keys| && r == CoefficientAt(env, row, keys[i])
                                 && forall j :: 0 <= j < i ==> CoefficientAt(env, row, keys[j]).None?
  {
    if keys == [] then None
    else
      var here := CoefficientAt(env, row, keys[0]);
      if here.Some? then here
      else
        var r := CoefficientByKeys(env, row, keys[1..]);
        assert r.Some? ==> exists i :: 0 <= i < |keys| && r == CoefficientAt(env, row, keys[i])
                                    && forall j :: 0 <= j < i ==> CoefficientAt(env, row, keys[j]).None? by {
          if r.Some? {
            var i :| 0 <= i < |keys[1..]| && r == CoefficientAt(env, row, keys[1..][i])
                     && forall j :: 0 <= j < i ==> CoefficientAt(env, row, keys[1..][j]).None?;
            assert forall j :: 0 <= j < i + 1 ==> CoefficientAt(env, row, keys[j]).None? by {
              forall j | 0 <= j < i + 1 ensures CoefficientAt(env, row, keys[j]).None? {
                if j > 0 { assert keys[j] == keys[1..][j - 1]; }
              }
            }
            assert keys[i + 1] == keys[1..][i];
          }
        }
        r
  }

  /** The first entry, in enumeration order, that gives a coefficient in the pattern scan. */
  function CoefficientByPattern(env: Runtime, entries: Fields): (r: Option<real>)
    ensures r.None? <==> forall i :: 0 <= i < |entries| ==> CoefficientOfEntry(env, entries[i]).None?
    ensures r.Some? ==> exists i :: 0 <= i < |entries| && r == CoefficientOfEntry(env, entries[i])
                                 && forall j :: 0 <= j < i ==> CoefficientOfEntry(env, entries[j]).None?
  {
    if entries == [] then None
    else
      var here := CoefficientOfEntry(env, entries[0]);
      if here.Some? then here
      else
        var r := CoefficientByPattern(env, entries[1..]);
        assert r.Some? ==> exists i :: 0 <= i < |entries| && r == CoefficientOfEntry(env, entries[i])
                                    && forall j :: 0 <= j < i ==> CoefficientOfEntry(env, entries[j]).None? by {
          if r.Some? {
            var i :| 0 <= i < |entries[1..]| && r == CoefficientOfEntry(env, entries[1..][i])
                     && forall j :: 0 <= j < i ==> CoefficientOfEntry(env, entries[1..][j]).None?;
            assert forall j :: 0 <= j < i + 1 ==> CoefficientOfEntry(env, entries[j]).None? by {
              forall j | 0 <= j < i + 1 ensures CoefficientOfEntry(env, entries[j]).None? {
                if j > 0 { assert entries[j] == entries[1..][j - 1]; }
              }
            }
            assert entries[i + 1] == entries[1..][i];
          }
        }
        r
  }

  /** The row's coefficient: a prioritised key first, then the pattern scan, else null. */
  function Coefficient(env: Runtime, row: Fields): (r: Option<real>)
    ensures CoefficientByKeys(env, row, CoefficientKeys).Some? ==> r == CoefficientByKeys(env, row, CoefficientKeys)
    ensures CoefficientByKeys(env, row, CoefficientKeys).None? ==> r == CoefficientByPattern(env, row)
  {
    match CoefficientByKeys(env, row, CoefficientKeys)
    case Some(c) => Some(c)
    case None => CoefficientByPattern(env, row)
  }

  /** The coefficient is never invented: it is the parse of a value present in the row,
      and it is null exactly when no prioritised key and no pattern-matching key parses. */
  lemma CoefficientFromRow(env: Runtime, row: Fields)
    ensures Coefficient(env, row).Some? ==>
      exists i :: 0 <= i < |row| && Coefficient(env, row) == ParseNumeric(env, row[i].1)
    ensures Coefficient(env, row).None? <==>
      (forall k :: 0 <= k < |CoefficientKeys| ==> CoefficientAt(env, row, CoefficientKeys[k]).None?)
      && (forall i :: 0 <= i < |row| ==> CoefficientOfEntry(env, row[i]).None?)
  {
    var c := Coefficient(env, row);
    if CoefficientByKeys(env, row, CoefficientKeys).Some? {
      var k :| 0 <= k < |CoefficientKeys| && c == CoefficientAt(env, row, CoefficientKeys[k]);
      var i :| 0 <= i < |row| && row[i] == (CoefficientKeys[k], Lookup(row, CoefficientKeys[k]).value);
      assert c == ParseNumeric(env, row[i].1);
    } else if c.Some? {
      var i :| 0 <= i < |row| && c == CoefficientOfEntry(env, row[i]);
      assert c == ParseNumeric(env, row[i].1);
    }
  }

  /** The key scan for a coefficient from position `i` on. */
  lemma CoefficientByKeysStep(env: Runtime, row: Fields, keys: seq<string>, i: nat)
    requires i < |keys|
    ensures CoefficientByKeys(env, row, keys[i..])
         == if CoefficientAt(env, row, keys[i]).Some? then CoefficientAt(env, row, keys[i])
            else CoefficientByKeys(env, row, keys[i + 1..])
  {
    assert keys[i..][1..] == keys[i + 1..];
  }

  /** The pattern scan for a coefficient from position `i` on. */
  lemma CoefficientByPatternStep(env: Runtime, entries: Fields, i: nat)
    requires i < |entries|
    ensures CoefficientByPattern(env, entries[i..])
         == if CoefficientOfEntry(env, entries[i]).Some? then CoefficientOfEntry(env, entries[i])
            else CoefficientByPattern(env, entries[i + 1..])
  {
    assert entries[i..][1..] == entries[i + 1..];
  }

  /** `pickCoefficient`: the two loops with early return. */
  method PickCoefficient(env: Runtime, row: Fields) returns (coefficient: Option<real>)
    ensures coefficient == Coefficient(env, row)
  {
    ghost var byKeys := CoefficientByKeys(env, row, CoefficientKeys);
    ghost var byPattern := CoefficientByPattern(env, row);
    for i := 0 to |CoefficientKeys|
      invariant byKeys == CoefficientByKeys(env, row, CoefficientKeys[i..])
    {
      var key := CoefficientKeys[i];
      CoefficientByKeysStep(env, row, CoefficientKeys, i);
      var item := Lookup(row, key);
      if item.Some? {
        var parsed := ParseNumeric(env, item.value);
        if parsed.Some? {
          assert CoefficientAt(env, row, key) == parsed;
          return parsed;
        }
      }
      assert CoefficientAt(env, row, key).None?;
    }
    assert CoefficientKeys[|CoefficientKeys|..] == [];
    assert byKeys.None?;
    for i := 0 to |row|
      invariant byPattern == CoefficientByPattern(env, row[i..])
    {
      var (key, value) := row[i];
      CoefficientByPatternStep(env, row, i);
      if MatchesAnyFolded(key, CoefficientKeyPattern) {
        var parsed := ParseNumeric(env, value);
        if parsed.Some? {
          assert CoefficientOfEntry(env, row[i]) == parsed;
          return parsed;
        }
      }
      assert CoefficientOfEntry(env, row[i]).None?;
    }
    assert row[|row|..] == [];
    assert byPattern.None?;
    return None;
  }

  // ---------------------------------------------------------------------------
  // Ordering and the whole normalization
  // ---------------------------------------------------------------------------

  /** The comparator passed to `sort`: two null coefficients compare by name, a null
      coefficient sorts after a present one, two present ones by their difference. */
  function CompareRows(left: NormalizedRow, right: NormalizedRow): real {
    if left.coefficient.None? && right.coefficient.None? then
      Compare(left.warehouseName, right.warehouseName) as real
    else if left.coefficient.None? then 1.0
    else if right.coefficient.None? then -1.0
    else left.coefficient.value - right.coefficient.value
  }

  /** `left` may precede `right`: the comparator does not put it after. */
  predicate RowLe(left: NormalizedRow, right: NormalizedRow) {
    CompareRows(left, right) <= 0.0
  }

  /** Between two null coefficients the comparator is the name order. */
  lemma RowLeNullsByName(a: NormalizedRow, b: NormalizedRow)
    requires a.coefficient.None? && b.coefficient.None?
    ensures RowLe(a, b) <==> LexLe(a.warehouseName, b.warehouseName)
  {
    LexLeReflexive(a.warehouseName);
  }

  /** The comparator is consistent, so the sort's result is well defined. */
  lemma RowLeTotalPreorder()
    ensures TotalPreorder(RowLe)
  {
    forall a, b ensures RowLe(a, b) || RowLe(b, a) {
      LexLeTotal(a.warehouseName, b.warehouseName);
    }
    forall a, b, c | RowLe(a, b) && RowLe(b, c) ensures RowLe(a, c) {
      if a.coefficient.None? && b.coefficient.None? && c.coefficient.None? {
        RowLeNullsByName(a, b);
        RowLeNullsByName(b, c);
        RowLeNullsByName(a, c);
        LexLeTransitive(a.warehouseName, b.warehouseName, c.warehouseName);
      }
    }
  }

  /** Each discovered row mapped to its output row; `index` is its pre-sort position. */
  function MapRows(env: Runtime, rows: seq<Fields>): (out: seq<NormalizedRow>)
    ensures |out| == |rows|
    ensures forall i :: 0 <= i < |rows| ==>
      out[i] == NormalizedRow(WarehouseName(env, rows[i], i), Coefficient(env, rows[i]), Flattened(env, rows[i]))
  {
    seq(|rows|, i requires 0 <= i < |rows| =>
      NormalizedRow(WarehouseName(env, rows[i], i), Coefficient(env, rows[i]), Flattened(env, rows[i])))
  }

  /** `normalizeBoxTariffs`: the discovered rows, mapped one by one, then sorted with
      the comparator: one output row per discovered row, in comparator order. */
  function NormalizeBoxTariffs(env: Runtime, data: Json): (r: seq<NormalizedRow>)
    ensures |r| == |FindRowsCandidate(data)|
    ensures multiset(r) == multiset(MapRows(env, FindRowsCandidate(data)))
    ensures SortedBy(r, RowLe)
  {
    RowLeTotalPreorder();
    SortBySorted(MapRows(env, FindRowsCandidate(data)), RowLe);
    SortBy(MapRows(env, FindRowsCandidate(data)), RowLe)
  }

  /** The order of the output: present coefficients ascending, then every null
      coefficient, the null ones by name. */
  lemma NormalizeOrder(env: Runtime, data: Json)
    ensures var r := NormalizeBoxTariffs(env, data);
      && (forall i, j :: 0 <= i < j < |r| && r[i].coefficient.None? ==> r[j].coefficient.None?)
      && (forall i, j :: 0 <= i < j < |r| && r[i].coefficient.Some? && r[j].coefficient.Some?
            ==> r[i].coefficient.value <= r[j].coefficient.value)
      && (forall i, j :: 0 <= i < j < |r| && r[i].coefficient.None? && r[j].coefficient.None?
            ==> LexLe(r[i].warehouseName, r[j].warehouseName))
  {
    var r := NormalizeBoxTariffs(env, data);
    forall i, j | 0 <= i < j < |r| && r[i].coefficient.None? && r[j].coefficient.None?
      ensures LexLe(r[i].warehouseName, r[j].warehouseName)
    {
      RowLeNullsByName(r[i], r[j]);
    }
  }

  /** Every output row has a non-empty name and a payload of scalars only. */
  lemma NormalizeRowShape(env: Runtime, data: Json)
    ensures var r := NormalizeBoxTariffs(env, data);
      && (forall i :: 0 <= i < |r| ==> r[i].warehouseName != [])
      && (forall i, k :: 0 <= i < |r| && 0 <= k < |r[i].payload| ==> IsScalar(r[i].payload[k].1))
  {
    var r := NormalizeBoxTariffs(env, data);
    var mapped := MapRows(env, FindRowsCandidate(data));
    forall i | 0 <= i < |r|
      ensures r[i].warehouseName != [] && forall k :: 0 <= k < |r[i].payload| ==> IsScalar(r[i].payload[k].1)
    {
      assert r[i] in multiset(mapped) by { assert r[i] in multiset(r); }
      var j :| 0 <= j < |mapped| && mapped[j] == r[i];
    }
  }

  /** Ties keep discovery order (the sort is stable): rows with equal present
      coefficients, or null coefficients and equal names, come out in the order they
      were found. */
  lemma NormalizeStable(env: Runtime, data: Json, k: NormalizedRow)
    ensures TiesWith(NormalizeBoxTariffs(env, data), k, RowLe)
         == TiesWith(MapRows(env, FindRowsCandidate(data)), k, RowLe)
  {
    RowLeTotalPreorder();
    SortByStable(MapRows(env, FindRowsCandidate(data)), k, RowLe);
  }

  /** Nothing discoverable, no rows: scalars, empty arrays, arrays of non-objects. */
  lemma NormalizeEmptyWhenNothingDiscoverable(env: Runtime, data: Json)
    ensures NormalizeBoxTariffs(env, data) == [] <==> !Discoverable(data)
  {
    FindRowsNonEmptyIffDiscoverable(data);
  }
}
