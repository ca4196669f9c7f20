/**
 * The archive header: the JSON value the engine writes with `json.dumps(...).encode('utf-8')`
 * and reads back with `json.loads(....decode('utf-8'))`. Only the two shapes the engine ever
 * writes are represented: strings, and objects whose fields keep their insertion order.
 */
module Header {
  import opened Wrappers
  import opened Bytes

  datatype Json = JString(s: string) | JObject(fields: seq<Field>)
  datatype Field = Field(key: string, value: Json)

  predicate DistinctKeys(fields: seq<Field>) {
    forall i, j :: 0 <= i < j < |fields| ==> fields[i].key != fields[j].key
  }

  /** A value a Python dict could hold: no object repeats a key. */
  predicate WellFormed(j: Json) {
    match j
    case JString(_) => true
    case JObject(fields) =>
      DistinctKeys(fields) && forall i :: 0 <= i < |fields| ==> WellFormed(fields[i].value)
  }

  /**
   * `d[key]` on the dict an object decodes to: the value of the first field with that key,
   * or nothing when no field has it.
   */
  function Lookup(fields: seq<Field>, key: string): (r: Option<Json>)
    ensures r.None? <==> forall i :: 0 <= i < |fields| ==> fields[i].key != key
    ensures r.Some? ==> exists i :: (0 <= i < |fields| && fields[i].key == key && fields[i].value == r.value &&
      forall j :: 0 <= j < i ==> fields[j].key != key)
  {
    if fields == [] then None
    else if fields[0].key == key then Some(fields[0].value)
    else
      var r := Lookup(fields[1..], key);
      assert r.Some? ==> exists i :: (0 <= i < |fields| && fields[i].key == key && fields[i].value == r.value &&
        forall j :: 0 <= j < i ==> fields[j].key != key) by {
        if r.Some? {
          var i :| 0 <= i < |fields[1..]| && fields[1..][i].key == key && fields[1..][i].value == r.value &&
            forall j :: 0 <= j < i ==> fields[1..][j].key != key;
          assert fields[i + 1] == fields[1..][i];
          assert forall j :: 1 <= j < i + 1 ==> fields[j] == fields[1..][j - 1];
        }
      }
      r
  }

  /**
   * The JSON library, which is not part of this model: `dumps` serialises a value to bytes,
   * `loads` parses bytes back (None when they are not a JSON document).
   */
  datatype HeaderCodec = HeaderCodec(dumps: Json -> Bytes, loads: Bytes -> Option<Json>)

  /** The property the engine relies on: a dict survives a dump and load, key order included. */
  ghost predicate OrderPreserving(codec: HeaderCodec) {
    forall j :: WellFormed(j) ==> codec.loads(codec.dumps(j)) == Some(j)
  }
}
