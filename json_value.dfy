/** JSON values as the scripts see them after `JSON.parse` or an HTTP
    client has decoded a response, with the few JavaScript semantics they
    depend on: truthiness, property access `v[k]`, `k in v`, `String(v)`,
    and the mapping from an input file's entries to place ids. */
module JsonValue {
  import opened Wrappers
  import opened JsText

  /** A JSON value. Numbers are finite reals (JSON has no NaN or Infinity).
      An object's fields are listed in the order in which JavaScript
      enumerates its own properties (`for...in`, `Object.keys`). */
  datatype Json =
    | JNull
    | JBool(b: bool)
    | JNum(n: real)
    | JStr(s: string)
    | JArr(items: seq<Json>)
    | JObj(fields: seq<(string, Json)>)

  /** A JavaScript object has at most one own property per name; a parsed
      value keeps that at every level. */
  predicate WellFormed(v: Json) {
    match v
    case JObj(fs) =>
      && (forall i, j :: 0 <= i < j < |fs| ==> fs[i].0 != fs[j].0)
      && (forall i :: 0 <= i < |fs| ==> WellFormed(fs[i].1))
    case JArr(a) => forall i :: 0 <= i < |a| ==> WellFormed(a[i])
    case _ => true
  }

  /** JavaScript truthiness: null, false, 0 and "" are falsy. */
  predicate Truthy(v: Json) {
    match v
    case JNull => false
    case JBool(b) => b
    case JNum(n) => n != 0.0
    case JStr(s) => s != []
    case _ => true
  }

  /** Truthiness of a value that may be `undefined`. */
  predicate Present(o: Option<Json>) {
    o.Some? && Truthy(o.value)
  }

  /** `x || null`: the value when it is truthy, `null` otherwise. */
  function OrNull(o: Option<Json>): (r: Json)
    ensures r == JNull || (Present(o) && r == o.value)
    ensures Present(o) ==> r == o.value
  {
    if Present(o) then o.value else JNull
  }

  /** The value of the field named `k`; the first one if names repeat. */
  function FieldValue(fs: seq<(string, Json)>, k: string): (r: Option<Json>)
    ensures r.None? <==> forall i :: 0 <= i < |fs| ==> fs[i].0 != k
    ensures r.Some? ==> exists i :: 0 <= i < |fs| && fs[i] == (k, r.value)
  {
    if fs == [] then None
    else if fs[0].0 == k then Some(fs[0].1)
    else
      var r := FieldValue(fs[1..], k);
      assert forall i :: 1 <= i < |fs| ==> fs[i] == fs[1..][i - 1];
      r
  }

  /** With distinct names, the field at position `i` is the one found. */
  lemma {:induction false} FieldValueAt(fs: seq<(string, Json)>, i: nat)
    requires i < |fs|
    requires forall a, b :: 0 <= a < b < |fs| ==> fs[a].0 != fs[b].0
    ensures FieldValue(fs, fs[i].0) == Some(fs[i].1)
  {
    if i > 0 {
      assert fs[0].0 != fs[i].0;
      FieldValueAt(fs[1..], i - 1);
    }
  }

  /** Property read `v[k]` on a JSON value; `None` is `undefined`. Arrays and
      strings answer their indices and `length`; own properties only
      (nothing inherited from a prototype). */
  function Prop(v: Json, k: string): (r: Option<Json>)
    ensures v.JObj? ==> r == FieldValue(v.fields, k)
    ensures v.JNull? || v.JBool? || v.JNum? ==> r.None?
  {
    match v
    case JObj(fs) => FieldValue(fs, k)
    case JArr(a) =>
      if k == "length" then Some(JNum(|a| as real))
      else (match CanonicalIndex(k)
            case Some(i) => if i < |a| then Some(a[i]) else None
            case None => None)
    case JStr(s) =>
      if k == "length" then Some(JNum(|s| as real))
      else (match CanonicalIndex(k)
            case Some(i) => if i < |s| then Some(JStr([s[i]])) else None
            case None => None)
    case _ => None
  }

  /** `v[i]` for a numeric index, which JavaScript converts to its decimal name. */
  lemma ArrayIndexProp(a: seq<Json>, i: nat)
    requires i < |a|
    ensures Prop(JArr(a), NatToDecimal(i)) == Some(a[i])
  {
    IndexRoundTrip(i);
  }

  /** `k in v` for an object or array. */
  predicate Has(v: Json, k: string)
    requires v.JObj? || v.JArr?
  {
    Prop(v, k).Some?
  }

  /** `String(v)`. A number is rendered as `JSON.stringify` renders it (the
      two agree on finite numbers); an array is its elements' strings joined
      with "," (null as ""); an object is "[object Object]". */
  function JsToString(v: Json, stringify: Json -> string): string
    decreases v, 1
  {
    match v
    case JNull => "null"
    case JBool(b) => if b then "true" else "false"
    case JNum(_) => stringify(v)
    case JStr(s) => s
    case JObj(_) => "[object Object]"
    case JArr(a) => JoinElements(v, |a|, stringify)
  }

  function JoinElements(v: Json, n: nat, stringify: Json -> string): string
    requires v.JArr? && n <= |v.items|
    decreases v, 0, n
  {
    if n == 0 then ""
    else
      var e := v.items[n - 1];
      var piece := if e.JNull? then "" else JsToString(e, stringify);
      if n == 1 then piece else JoinElements(v, n - 1, stringify) + "," + piece
  }

  /** The JSON text and number collaborators, which the model does not
      interpret: `JSON.stringify`, `JSON.parse` (`None` when it throws) and
      `parseFloat` on a string (`None` for NaN). */
  datatype Codec = Codec(
    stringify: Json -> string,
    parse: string -> Option<Json>,
    parseFloat: string -> Option<real>)

  // ------------------------------------------------------ input file entries

  /** `typeof entry === "string" ? entry : entry.placeId`, as a string id when
      it is one. `None` when the expression throws (a null entry); `Some(None)`
      when the id is not a string, which no table or provider recognises. */
  function PlaceIdOf(entry: Json): (r: Option<Option<string>>)
    ensures r.None? <==> entry.JNull?
    ensures entry.JStr? ==> r == Some(Some(entry.s))
  {
    match entry
    case JNull => None
    case JStr(s) => Some(Some(s))
    case _ =>
      match Prop(entry, "placeId")
      case Some(JStr(s)) => Some(Some(s))
      case _ => Some(None)
  }

  /** `rawData.map(entry => typeof entry === "string" ? entry : entry.placeId)`:
      `None` when some entry throws, which ends the script before any place
      is processed. */
  function PlaceIds(entries: seq<Json>): (r: Option<seq<Option<string>>>)
    ensures r.None? <==> JNull in entries
    ensures r.Some? ==> |r.value| == |entries|
    ensures r.Some? ==> forall i :: 0 <= i < |entries| ==> Some(r.value[i]) == PlaceIdOf(entries[i])
  {
    if entries == [] then Some([])
    else
      match PlaceIdOf(entries[0])
      case None => None
      case Some(id) =>
        match PlaceIds(entries[1..])
        case None => None
        case Some(rest) =>
          assert forall i :: 1 <= i < |entries| ==> entries[i] == entries[1..][i - 1];
          Some([id] + rest)
  }
}
