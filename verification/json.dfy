/** The optional-value wrapper used across the model (`T | null` and `T | undefined`). */
module Wrappers {

  datatype Option<+T> = None | Some(value: T) {

    /** The wrapped value, or `default` when there is none (JavaScript's `??`). */
    function GetOr(default: T): T {
      match this
      case Some(v) => v
      case None => default
    }
  }
}

/** JSON values as JavaScript holds them after `JSON.parse`, plain-object property access
    on them, and the JavaScript built-ins the pipeline calls whose internals are not
    modelled. */
module JsonValues {
  import opened Wrappers

  /** An object's own entries in enumeration order (`Object.entries`). */
  type Fields = seq<(string, Json)>

  /** The tagged union of JSON values: null, boolean, number, string, array, object. */
  datatype Json =
    | JNull
    | JBool(b: bool)
    | JNumber(n: real)
    | JString(s: string)
    | JArray(items: seq<Json>)
    | JObject(fields: Fields)

  /** A scalar leaf: neither null nor an object nor an array. */
  predicate IsScalar(v: Json) {
    v.JBool? || v.JNumber? || v.JString?
  }

  /** The keys of an object, as a set. */
  function KeySet(fields: Fields): set<string> {
    set i | 0 <= i < |fields| :: fields[i].0
  }

  /** No key occurs twice (true of every object JavaScript builds). */
  predicate DistinctKeys(fields: Fields) {
    forall i, j :: 0 <= i < j < |fields| ==> fields[i].0 != fields[j].0
  }

  /** `obj[key]` for an own property: the value of the first entry with that key, or
      `None` for `undefined` when the key is absent (`key in obj` is `Lookup(...).Some?`). */
  function Lookup(fields: Fields, key: string): (r: Option<Json>)
    ensures r.None? <==> key !in KeySet(fields)
    ensures r.Some? ==> exists i :: 0 <= i < |fields| && fields[i] == (key, r.value)
  {
    if fields == [] then None
    else if fields[0].0 == key then Some(fields[0].1)
    else
      var r := Lookup(fields[1..], key);
      assert KeySet(fields) == {fields[0].0} + KeySet(fields[1..]) by {
        KeySetCons(fields);
      }
      assert r.Some? ==> exists i :: 0 <= i < |fields| && fields[i] == (key, r.value) by {
        if r.Some? {
          var i :| 0 <= i < |fields[1..]| && fields[1..][i] == (key, r.value);
          assert fields[i + 1] == (key, r.value);
        }
      }
      r
  }

  lemma KeySetCons(fields: Fields)
    requires fields != []
    ensures KeySet(fields) == {fields[0].0} + KeySet(fields[1..])
  {
    forall k | k in KeySet(fields) ensures k in {fields[0].0} + KeySet(fields[1..]) {
      var i :| 0 <= i < |fields| && fields[i].0 == k;
      if i > 0 { assert fields[1..][i - 1].0 == k; }
    }
    forall k | k in KeySet(fields[1..]) ensures k in KeySet(fields) {
      var i :| 0 <= i < |fields[1..]| && fields[1..][i].0 == k;
      assert fields[i + 1].0 == k;
    }
  }

  lemma KeySetSnoc(fields: Fields, entry: (string, Json))
    ensures KeySet(fields + [entry]) == KeySet(fields) + {entry.0}
  {
    var r := fields + [entry];
    forall k | k in KeySet(r) ensures k in KeySet(fields) + {entry.0} {
      var i :| 0 <= i < |r| && r[i].0 == k;
      if i < |fields| { assert fields[i].0 == k; }
    }
    forall k | k in KeySet(fields) ensures k in KeySet(r) {
      var i :| 0 <= i < |fields| && fields[i].0 == k;
      assert r[i].0 == k;
    }
    assert r[|fields|].0 == entry.0;
  }

  /** What `obj[key] = v` leaves behind in `r`: `key` maps to `v`, every other key keeps
      its value, the key set gains `key`, a new key is appended at the end, a present key
      keeps its place, and no other entry appears. */
  ghost predicate PutSpec(fields: Fields, key: string, v: Json, r: Fields) {
    && Lookup(r, key) == Some(v)
    && (forall k :: k != key ==> Lookup(r, k) == Lookup(fields, k))
    && KeySet(r) == KeySet(fields) + {key}
    && (key !in KeySet(fields) ==> r == fields + [(key, v)])
    && (key in KeySet(fields) ==> |r| == |fields|)
    && (forall e :: e in r ==> e == (key, v) || e in fields)
  }

  /** `obj[key] = v`: a key already present keeps its position and takes the new value,
      a new key is appended at the end. */
  function Put(fields: Fields, key: string, v: Json): (r: Fields)
    ensures PutSpec(fields, key, v, r)
  {
    if fields == [] then [(key, v)]
    else if fields[0].0 == key then
      PutHere(fields, key, v);
      [(key, v)] + fields[1..]
    else
      var rest := Put(fields[1..], key, v);
      PutThere(fields, key, v, rest);
      [fields[0]] + rest
  }

  /** The first entry has the key: its value is replaced in place. */
  lemma PutHere(fields: Fields, key: string, v: Json)
    requires fields != [] && fields[0].0 == key
    ensures PutSpec(fields, key, v, [(key, v)] + fields[1..])
  {
    var r := [(key, v)] + fields[1..];
    KeySetCons(fields);
    KeySetCons(r);
    assert r[1..] == fields[1..];
  }

  /** The first entry has another key: it stays in front of the rest's update. */
  lemma PutThere(fields: Fields, key: string, v: Json, rest: Fields)
    requires fields != [] && fields[0].0 != key
    requires PutSpec(fields[1..], key, v, rest)
    ensures PutSpec(fields, key, v, [fields[0]] + rest)
  {
    var r := [fields[0]] + rest;
    KeySetCons(fields);
    KeySetCons(r);
    assert r[1..] == rest;
    if key !in KeySet(fields) {
      assert fields == [fields[0]] + fields[1..];
    }
  }

  /** The JavaScript built-ins whose internals are outside the model, given as
      functions: `Number(text)` (`None` when the result is not finite), `String(n)` for a
      number, `JSON.stringify(v)`, and `JSON.parse(text)` (`None` when it throws). */
  datatype Runtime = Runtime(
    number: string -> Option<real>,
    numberText: real -> string,
    stringify: Json -> string,
    parse: string -> Option<Json>)
}
