/** JSON values as the package manager reads and writes them, with
    JavaScript truthiness and the string-valued records of a manifest. */
module Json {
  import opened Errors

  /** A parsed JSON document. Objects are unordered here: the model never
      depends on the order in which a record's keys were written. */
  datatype Json =
    | JNull
    | JBool(b: bool)
    | JNum(n: int)
    | JStr(s: string)
    | JArr(items: seq<Json>)
    | JObj(fields: map<string, Json>)

  /** JavaScript truthiness: `null`, `false`, `0` and `""` are falsy,
      every array and object is truthy. */
  predicate Truthy(j: Json) {
    match j
    case JNull => false
    case JBool(b) => b
    case JNum(n) => n != 0
    case JStr(s) => s != ""
    case JArr(_) => true
    case JObj(_) => true
  }

  /** `j[k]` on an object; `undefined` (here `None`) otherwise. */
  function Field(j: Json, k: string): (r: Option<Json>)
    ensures r.Some? <==> j.JObj? && k in j.fields
  {
    if j.JObj? && k in j.fields then Some(j.fields[k]) else None
  }

  /** An object all of whose values are strings (`'->{}': 'string'`). */
  predicate IsStringRecord(j: Json) {
    j.JObj? && forall k :: k in j.fields ==> j.fields[k].JStr?
  }

  /** The string record an object holds. */
  function StringRecord(j: Json): (r: map<string, string>)
    requires IsStringRecord(j)
    ensures r.Keys == j.fields.Keys
    ensures forall k :: k in r ==> j.fields[k] == JStr(r[k])
  {
    map k | k in j.fields :: j.fields[k].s
  }

  /** `{ ...m }` written back as a JSON object. */
  function FromStringRecord(m: map<string, string>): (r: Json)
    ensures IsStringRecord(r)
  {
    JObj(map k | k in m :: JStr(m[k]))
  }

  /** A record written out and read back is the same record, and an
      object of strings read and written back is the same object. */
  lemma StringRecordRoundTrip(m: map<string, string>, j: Json)
    ensures StringRecord(FromStringRecord(m)) == m
    ensures IsStringRecord(j) ==> FromStringRecord(StringRecord(j)) == j
  {
    if IsStringRecord(j) {
      var back := FromStringRecord(StringRecord(j));
      assert back.fields == j.fields;
    }
  }
}
