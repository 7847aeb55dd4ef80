/** Parsed JSON values, with Python's truthiness. */
module JsonValue {

  /** A value as `json.load` returns it. Numbers are kept as exact rationals:
      only whether they are zero matters to the tool. */
  datatype Value =
    | JNull
    | JBool(b: bool)
    | JNumber(n: real)
    | JString(s: string)
    | JArray(items: seq<Value>)
    | JObject(fields: map<string, Value>)

  /** `bool(v)` in Python. */
  predicate Truthy(v: Value) {
    match v
    case JNull => false
    case JBool(b) => b
    case JNumber(n) => n != 0.0
    case JString(s) => s != ""
    case JArray(items) => |items| > 0
    case JObject(fields) => |fields| > 0
  }

  /** `d.get(key)`, with a missing key read as `None`. */
  function Get(fields: map<string, Value>, key: string): Value {
    if key in fields then fields[key] else JNull
  }
}

/** The two manifest shapes and the per-entry path lookup
    (scripts/compress_images_to_avif.py, normalize_entries and normalize_entry). */
module Manifest {
  import opened JsonValue

  /** The keys an object entry may name its path under, in priority order. */
  const PathKeys: seq<string> := ["path", "file", "input"]

  /** `normalize_entries`: a top-level list is the entry list; an object whose
      "images" value is a list contributes that list; anything else gives none. */
  function NormalizeEntries(data: Value): (entries: seq<Value>)
    ensures data.JArray? ==> entries == data.items
    ensures data.JObject? && "images" in data.fields && data.fields["images"].JArray? ==>
              entries == data.fields["images"].items
    ensures !data.JArray? && !(data.JObject? && "images" in data.fields && data.fields["images"].JArray?) ==>
              entries == []
  {
    match data
    case JArray(items) => items
    case JObject(fields) =>
      if "images" in fields && fields["images"].JArray? then fields["images"].items else []
    case _ => []
  }

  /** Python's `a or b`: `a` when it is truthy, else `b`. */
  function Or(a: Value, b: Value): Value {
    if Truthy(a) then a else b
  }

  /** The first key of `keys` whose value in `fields` is truthy, if any. */
  predicate FirstTruthyAt(fields: map<string, Value>, keys: seq<string>, i: int) {
    && 0 <= i < |keys|
    && Truthy(Get(fields, keys[i]))
    && forall j :: 0 <= j < i ==> !Truthy(Get(fields, keys[j]))
  }

  /** `normalize_entry`: a string entry is its own path; an object entry yields
      `entry.get("path") or entry.get("file") or entry.get("input")`; any other
      entry yields `None`. The result is NOT necessarily a string: an object
      whose "path" is a non-zero number yields that number. */
  function NormalizeEntry(entry: Value): (r: Value)
    ensures entry.JString? ==> r == entry
    ensures !entry.JString? && !entry.JObject? ==> r == JNull
    ensures entry.JObject? ==>
              (Truthy(r) <==> exists i :: FirstTruthyAt(entry.fields, PathKeys, i))
    ensures entry.JObject? ==>
              forall i :: FirstTruthyAt(entry.fields, PathKeys, i) ==> r == Get(entry.fields, PathKeys[i])
  {
    match entry
    case JString(_) => entry
    case JObject(fields) =>
      var r := Or(Or(Get(fields, "path"), Get(fields, "file")), Get(fields, "input"));
      assert PathKeys[0] == "path" && PathKeys[1] == "file" && PathKeys[2] == "input";
      assert forall i :: FirstTruthyAt(fields, PathKeys, i) ==> r == Get(fields, PathKeys[i]) by {
        forall i | FirstTruthyAt(fields, PathKeys, i) ensures r == Get(fields, PathKeys[i]) {
          assert i == 0 || i == 1 || i == 2;
        }
      }
      assert Truthy(r) ==> exists i :: FirstTruthyAt(fields, PathKeys, i) by {
        if Truthy(Get(fields, "path")) {
          assert FirstTruthyAt(fields, PathKeys, 0);
        } else if Truthy(Get(fields, "file")) {
          assert FirstTruthyAt(fields, PathKeys, 1);
        } else if Truthy(Get(fields, "input")) {
          assert FirstTruthyAt(fields, PathKeys, 2);
        }
      }
      r
    case _ => JNull
  }

  /** The two manifest shapes are interchangeable: wrapping a list under
      "images" changes nothing. */
  lemma ShapesAgree(items: seq<Value>)
    ensures NormalizeEntries(JObject(map["images" := JArray(items)])) == NormalizeEntries(JArray(items))
  {
  }

  /** A plain string entry and an object naming the same string under any one
      of the path keys give the same path. */
  lemma KeyedEntryAgrees(p: string, i: nat)
    requires i < |PathKeys|
    ensures Truthy(NormalizeEntry(JObject(map[PathKeys[i] := JString(p)]))) <==> p != ""
    ensures p != "" ==> NormalizeEntry(JObject(map[PathKeys[i] := JString(p)])) == JString(p)
  {
    var fields := map[PathKeys[i] := JString(p)];
    assert forall j :: 0 <= j < |PathKeys| && j != i ==> PathKeys[j] !in fields;
    if p != "" {
      assert FirstTruthyAt(fields, PathKeys, i);
    }
  }
}
