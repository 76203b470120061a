/**
 * Parsed JSON values, and the two ways the extension enumerates a value's
 * properties: a `for ... in` loop and `Object.keys`.
 */
module JsonValue {
  import opened Strings
  import opened Collections

  /**
   * A value as `JSON.parse` returns it. An object keeps its properties in
   * insertion order; a number keeps its literal, which nothing inspects.
   */
  datatype Json =
    | JNull
    | JBool(b: bool)
    | JNumber(literal: string)
    | JString(text: string)
    | JArray(items: seq<Json>)
    | JObject(fields: seq<(string, Json)>)

  /**
   * The (name, value) pairs a `for (const key in v)` loop visits, together
   * with `v[key]`: an object's own properties, an array's indices, a string's
   * code-unit indices (each value a one-character string), and nothing for
   * `null`, booleans and numbers. The reordering of integer-like object keys
   * is not modelled.
   */
  function Members(v: Json): (ms: seq<(string, Json)>)
    ensures v.JObject? ==> ms == v.fields
    ensures v.JArray? ==> |ms| == |v.items| && forall i :: 0 <= i < |ms| ==> ms[i].0 == NatToString(i)
    ensures v.JString? ==> |ms| == |v.text| && forall i :: 0 <= i < |ms| ==> ms[i].0 == NatToString(i)
    ensures v.JNull? || v.JBool? || v.JNumber? ==> ms == []
  {
    match v
    case JObject(fields) => fields
    case JArray(items) =>
      seq(|items|, i requires 0 <= i < |items| => (NatToString(i), items[i]))
    case JString(text) =>
      seq(|text|, i requires 0 <= i < |text| => (NatToString(i), JString([text[i]])))
    case _ => []
  }

  /** The property names of a member list, in order. */
  function Names(ms: seq<(string, Json)>): (names: seq<string>)
    ensures |names| == |ms|
    ensures forall i :: 0 <= i < |ms| ==> names[i] == ms[i].0
  {
    seq(|ms|, i requires 0 <= i < |ms| => ms[i].0)
  }

  /** The decimal index names `"0"`, `"1"`, … of a sequence of length `n`. */
  function Indices(n: nat): (names: seq<string>)
    ensures |names| == n
    ensures forall i :: 0 <= i < n ==> names[i] == NatToString(i)
  {
    seq(n, i requires 0 <= i < n => NatToString(i))
  }

  /**
   * `Object.keys(v)`: the names a `for ... in` loop visits, except that
   * `null` makes it throw, modelled as `None`.
   */
  function ObjectKeys(v: Json): (r: Option<seq<string>>)
    ensures r.None? <==> v.JNull?
    ensures v.JObject? ==> r == Some(seq(|v.fields|, i requires 0 <= i < |v.fields| => v.fields[i].0))
    ensures v.JArray? ==> r == Some(Indices(|v.items|))
    ensures v.JString? ==> r == Some(Indices(|v.text|))
    ensures v.JBool? || v.JNumber? ==> r == Some([])
    ensures r.Some? ==> r.value == Names(Members(v))
  {
    if v.JNull? then None
    else
      var names := Names(Members(v));
      assert forall i :: 0 <= i < |names| ==> names[i] == Members(v)[i].0;
      assert (v.JArray? || v.JString?) ==> names == Indices(|names|) by {
        if v.JArray? || v.JString? {
          assert forall i :: 0 <= i < |names| ==> names[i] == Indices(|names|)[i];
        }
      }
      Some(names)
  }
}
