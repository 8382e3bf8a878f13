/** `enrich_location_values.js`: for every listed place that has a location,
    read the place's details once, then write one `location_values` row per
    linked attribute and language: the value at the attribute's key path,
    translated when it is multilingual text, and coerced by the attribute's
    `input_type` into exactly one value column. The `photos` attribute is
    written separately as a snapshot of the whole photo list. */
module LocationValues {
  import opened Wrappers
  import opened JsText
  import opened JsonValue
  import opened Chat
  import opened KeyDiscovery
  import opened UpsertTable

  const Languages: seq<string> := ["de", "en", "it", "fr", "hr"]
  /** The language code of values that are not multilingual. */
  const NoLang: string := "und"

  // -------------------------------------------------------- input entries

  /** An entry of the place-id file after mapping: the id (`None` when it
      is not a string, which matches no location) and the preferred name. */
  datatype PlaceEntry = PlaceEntry(placeId: Option<string>, preferredName: Json)

  /** `loadPlaceIdsFromFile` after the file is parsed (`None` when reading
      or parsing fails): a string entry is its own id; an object entry
      gives `placeId` and `preferredName || null`; a null entry, or a file
      that is not an array, makes the mapping throw, and the list is empty. */
  function LoadPlaceEntries(file: Option<Json>): (r: seq<PlaceEntry>)
    ensures file.None? || !file.value.JArr? || JNull in file.value.items ==> r == []
    ensures file.Some? && file.value.JArr? && JNull !in file.value.items ==>
      |r| == |file.value.items|
    ensures file.Some? && file.value.JArr? && JNull !in file.value.items ==>
      forall i :: 0 <= i < |r| ==>
        && Some(r[i].placeId) == PlaceIdOf(file.value.items[i])
        && r[i].preferredName == OrNull(if file.value.items[i].JStr? then None else Prop(file.value.items[i], "preferredName"))
  {
    match file
    case None => []
    case Some(JArr(items)) =>
      if JNull in items then []
      else
        seq(|items|, i requires 0 <= i < |items| =>
          var e := items[i];
          if e.JStr? then PlaceEntry(Some(e.s), JNull)
          else PlaceEntry(PlaceIdOf(e).value, OrNull(Prop(e, "preferredName"))))
    case Some(_) => []
  }

  // ---------------------------------------------------------- path lookup

  /** Following a key path through objects and arrays, as `k in value`
      followed by `value[k]` does; `None` as soon as the current value is
      not an object or lacks the segment. */
  function Descend(v: Json, p: seq<string>): Option<Json>
    decreases |p|
  {
    if p == [] then Some(v)
    else if (v.JObj? || v.JArr?) && Prop(v, p[0]).Some? then Descend(Prop(v, p[0]).value, p[1..])
    else None
  }

  /** `getValueFromDetails`' result: the value found, unchanged, or null. */
  function Lookup(v: Json, p: seq<string>): Json {
    Descend(v, p).GetOr(JNull)
  }

  /** `getValueFromDetails(details, keyPath)`. */
  method GetValueFromDetails(details: Json, keyPath: string) returns (value: Json)
    ensures value == Lookup(details, Split(keyPath, '.'))
  {
    var keys := Split(keyPath, '.');
    value := details;
    var i := 0;
    while i < |keys|
      invariant 0 <= i <= |keys|
      invariant Descend(value, keys[i..]) == Descend(details, keys)
    {
      assert keys[i..][0] == keys[i] && keys[i..][1..] == keys[i + 1..];
      var k := keys[i];
      if (value.JObj? || value.JArr?) && Prop(value, k).Some? {
        value := Prop(value, k).value;
      } else {
        return JNull;
      }
      i := i + 1;
    }
  }

  lemma {:induction false} DescendAppend(v: Json, a: seq<string>, b: seq<string>)
    ensures Descend(v, a + b) == match Descend(v, a) case None => None case Some(x) => Descend(x, b)
    decreases |a|
  {
    if a == [] {
      assert a + b == b;
    } else {
      assert (a + b)[0] == a[0] && (a + b)[1..] == a[1..] + b;
      if (v.JObj? || v.JArr?) && Prop(v, a[0]).Some? {
        DescendAppend(Prop(v, a[0]).value, a[1..], b);
      }
    }
  }

  /** The lookup gives null as soon as a segment is absent or the value
      reached is not an object or array, whatever the rest of the path. */
  lemma LookupBlocked(v: Json, p: seq<string>, i: nat)
    requires i < |p| && Descend(v, p[..i]).Some?
    requires var x := Descend(v, p[..i]).value; !((x.JObj? || x.JArr?) && Prop(x, p[i]).Some?)
    ensures Lookup(v, p) == JNull
  {
    DescendAppend(v, p[..i], p[i..]);
    assert p[..i] + p[i..] == p;
    assert p[i..][0] == p[i];
  }

  /** Along a path through objects the lookup returns the value there, as
      it is: nothing is stringified. */
  lemma {:induction false} LookupFollowsObjects(v: Json, p: seq<string>)
    requires ObjWalk(v, p).Some?
    ensures Descend(v, p) == ObjWalk(v, p)
    decreases |p|
  {
    if p != [] {
      LookupFollowsObjects(FieldValue(v.fields, p[0]).value, p[1..]);
    }
  }

  /** For a record with plain field names, the value read for a key that
      attribute discovery extracted from the same record is exactly the leaf
      that discovery classified. */
  lemma LookupOfExtractedKey(d: Json, i: nat)
    requires d.JObj? && WellFormed(d) && PlainKeys(d) && i < |Flatten(d, "")|
    ensures i < |LeafPaths(d)| && ObjWalk(d, LeafPaths(d)[i]).Some?
    ensures Lookup(d, Split(Flatten(d, "")[i], '.')) == ObjWalk(d, LeafPaths(d)[i]).value
  {
    var n := |d.fields|;
    FlattenIsJoinedLeafPaths(d, n, "");
    var p := LeafPathsFields(d, n)[i];
    assert p in LeafPathsFields(d, n);
    LeafPathsReachLeaves(d, n);
    WalkedPathIsPlain(d, p);
    JoinPathRoundTrip(p);
    LookupFollowsObjects(d, p);
  }

  // ---------------------------------------------------------- translation

  /** `translateWithOpenAI(text, lang)`: the original text when no API key
      is configured, otherwise the reply's trimmed content or, failing that,
      the original text. */
  function TranslateWithOpenAI(text: string, lang: string, hasApiKey: bool, translator: Translator): (r: string)
    ensures !hasApiKey ==> r == text
    ensures hasApiKey ==> r == ReplyText(translator(text, lang), text)
  {
    if !hasApiKey then text else ReplyText(translator(text, lang), text)
  }

  // ------------------------------------------------------------- coercion

  /** The value columns of a `location_values` row; `None` is a column the
      upsert payload does not carry. */
  datatype Row = Row(
    valueText: Option<string>,
    valueJson: Option<Json>,
    valueNumber: Option<real>,
    valueBool: Option<bool>,
    valueOption: Option<string>)

  function SlotCount(r: Row): nat {
    (if r.valueText.Some? then 1 else 0) + (if r.valueJson.Some? then 1 else 0)
      + (if r.valueNumber.Some? then 1 else 0) + (if r.valueBool.Some? then 1 else 0)
      + (if r.valueOption.Some? then 1 else 0)
  }

  function TextRow(s: string): Row { Row(Some(s), None, None, None, None) }
  function JsonRow(v: Json): Row { Row(None, Some(v), None, None, None) }

  /** A string as it is, anything else as its JSON text. */
  function AsText(v: Json, codec: Codec): string {
    if v.JStr? then v.s else codec.stringify(v)
  }

  /** Starts with "{" and ends with "}", or starts with "[" and ends with "]". */
  predicate LooksLikeJson(t: string) {
    t != [] && ((t[0] == '{' && t[|t| - 1] == '}') || (t[0] == '[' && t[|t| - 1] == ']'))
  }

  /** The number a value gives: itself, or `parseFloat(String(v))`. */
  function NumberOf(v: Json, codec: Codec): Option<real> {
    if v.JNum? then Some(v.n) else codec.parseFloat(JsToString(v, codec.stringify))
  }

  /** The cases of the `input_type` switch; "boolean" and "bool" share one. */
  datatype InputType = TextType | JsonType | NumberType | BooleanType | OptionType | UnknownType

  function InputTypeOf(s: string): InputType {
    if s == "text" then TextType
    else if s == "json" then JsonType
    else if s == "number" then NumberType
    else if s == "boolean" || s == "bool" then BooleanType
    else if s == "option" then OptionType
    else UnknownType
  }

  /** What the `json` case stores: a non-string value as JSON; a string
      that trims to a braced or bracketed text parsing to a non-null value
      as that value; any other string as text; null as its JSON text. */
  function JsonSlot(v: Json, codec: Codec): Row {
    if v.JStr? then
      var t := Trim(v.s);
      if LooksLikeJson(t) && codec.parse(t).Some? && codec.parse(t).value != JNull
      then JsonRow(codec.parse(t).value)
      else TextRow(v.s)
    else if v.JNull? then TextRow(codec.stringify(v))
    else JsonRow(v)
  }

  /** The row the `input_type` switch builds for a value, or `None` when
      the write is skipped. */
  function Coerce(t: InputType, v: Json, codec: Codec): (r: Option<Row>)
    ensures r.Some? ==> SlotCount(r.value) == 1
    ensures r.None? <==> t == UnknownType || (t == NumberType && NumberOf(v, codec).None?)
  {
    match t
    case TextType => Some(TextRow(AsText(v, codec)))
    case JsonType => Some(JsonSlot(v, codec))
    case NumberType =>
      (match NumberOf(v, codec)
       case None => None
       case Some(n) => Some(Row(None, None, Some(n), None, None)))
    case BooleanType => Some(Row(None, None, None, Some(if v.JBool? then v.b else v == JStr("true")), None))
    case OptionType => Some(Row(None, None, None, None, Some(AsText(v, codec))))
    case UnknownType => None
  }

  /** The coercion rules: text and option keep a string and store anything
      else as its JSON text; boolean is true exactly for `true` and the
      string "true"; number takes the parsed number; json stores a
      non-string as JSON, a string that does not look like JSON verbatim as
      text, and a JSON-looking string either as its parse or verbatim. */
  lemma CoerceRules(t: InputType, v: Json, codec: Codec)
    ensures var r := Coerce(t, v, codec);
      && (t == TextType ==> r == Some(TextRow(AsText(v, codec))))
      && (t == OptionType ==> r.Some? && r.value.valueOption == Some(AsText(v, codec)))
      && (t == BooleanType ==> r.Some? && r.value.valueBool == Some(v == JBool(true) || v == JStr("true")))
      && (t == NumberType && r.Some? ==> r.value.valueNumber == NumberOf(v, codec))
      && (t == JsonType && !v.JStr? && !v.JNull? ==> r == Some(JsonRow(v)))
      && (t == JsonType && v.JStr? && !LooksLikeJson(Trim(v.s)) ==> r == Some(TextRow(v.s)))
      && (t == JsonType && v.JStr? ==>
            || r == Some(TextRow(v.s))
            || (LooksLikeJson(Trim(v.s)) && r == Some(JsonRow(codec.parse(Trim(v.s)).value))))
  {
  }

  /** The `json` case of the switch: try to parse a JSON-looking string,
      fall back to `value_text`. */
  method JsonCase(value: Json, codec: Codec) returns (text: Option<string>, json: Option<Json>)
    ensures Row(text, json, None, None, None) == JsonSlot(value, codec)
  {
    text := None;
    json := None;
    var jsonVal := value;
    if value.JStr? {
      var t := Trim(value.s);
      if (t != [] && t[0] == '{' && t[|t| - 1] == '}') || (t != [] && t[0] == '[' && t[|t| - 1] == ']') {
        match codec.parse(t) {
          case Some(parsed) =>
            jsonVal := parsed;
          case None =>
            jsonVal := JNull;
            text := None;
        }
      } else {
        jsonVal := JNull;
        text := Some(value.s);
      }
    }
    if jsonVal != JNull {
      json := Some(jsonVal);
    } else if text.None? || text.value == "" {
      text := Some(if value.JStr? then value.s else codec.stringify(value));
    }
  }

  /** The switch on `attr.input_type`, filling `insertData` field by field. */
  method BuildRow(inputType: string, value: Json, codec: Codec) returns (row: Option<Row>)
    ensures row == Coerce(InputTypeOf(inputType), value, codec)
  {
    var text: Option<string> := None;
    var json: Option<Json> := None;
    var number: Option<real> := None;
    var flag: Option<bool> := None;
    var option: Option<string> := None;
    match InputTypeOf(inputType) {
      case TextType =>
        text := Some(if value.JStr? then value.s else codec.stringify(value));
      case JsonType =>
        text, json := JsonCase(value, codec);
      case NumberType =>
        var num := if value.JNum? then Some(value.n) else codec.parseFloat(JsToString(value, codec.stringify));
        if num.None? {
          return None;
        }
        number := num;
      case BooleanType =>
        if value.JBool? {
          flag := Some(value.b);
        } else {
          flag := Some(value == JStr("true"));
        }
      case OptionType =>
        option := Some(if value.JStr? then value.s else codec.stringify(value));
      case UnknownType =>
        return None;
    }
    row := Some(Row(text, json, number, flag, option));
  }

  // --------------------------------------------------------------- photos

  /** `p.name ?? null`. */
  function PhotoField(p: Json, name: string): Json {
    Prop(p, name).GetOr(JNull)
  }

  /** One element of the snapshot: the four photo fields, a missing one as null. */
  function ReducedPhoto(p: Json): Json {
    JObj([("photo_reference", PhotoField(p, "photo_reference")),
          ("width", PhotoField(p, "width")),
          ("height", PhotoField(p, "height")),
          ("html_attributions", PhotoField(p, "html_attributions"))])
  }

  /** `savePhotosSnapshot`'s `value_json`: `None` when nothing is written,
      because the list is not a non-empty array or because reading a field
      of a null element throws. */
  function SnapshotValue(photos: Json): Option<Json> {
    if photos.JArr? && |photos.items| > 0 && JNull !in photos.items then
      Some(JArr(seq(|photos.items|, i requires 0 <= i < |photos.items| => ReducedPhoto(photos.items[i]))))
    else None
  }

  /** `baseDetails.photos || []`. */
  function PhotosOf(details: Json): Json {
    var p := Prop(details, "photos");
    if Present(p) then p.value else JArr([])
  }

  /** The position `photo_N` reads: `parseInt(key.split("_")[1], 10) - 1`
      written as the property name it becomes ("NaN" when not a number). */
  function PhotoIndexName(key: string): string {
    var parts := Split(key, '_');
    if |parts| < 2 then "NaN"
    else match ParseInt(parts[1])
      case None => "NaN"
      case Some(n) => IntToDecimal(n - 1)
  }

  /** A field of the `photo_N` object, left out when undefined. */
  function DefinedField(name: string, o: Option<Json>): seq<(string, Json)> {
    if o.Some? then [(name, o.value)] else []
  }

  /** The `value_json` of a `photo_N` row, or `None` when the photo at that
      position is missing or falsy. */
  function PhotoNValue(details: Json, key: string): Option<Json> {
    var photos := Prop(details, "photos");
    var photo := if photos.None? || photos.value.JNull? then None else Prop(photos.value, PhotoIndexName(key));
    if !Present(photo) then None
    else
      var p := photo.value;
      Some(JObj(DefinedField("photo_reference", Prop(p, "photo_reference"))
                + DefinedField("width", Prop(p, "width"))
                + DefinedField("height", Prop(p, "height"))
                + [("html_attributions", PhotoField(p, "html_attributions"))]))
  }

  /** The key `photo_N` names position N - 1. */
  lemma PhotoIndexNameOfKey(n: nat)
    requires 1 <= n
    ensures PhotoIndexName("photo_" + NatToDecimal(n)) == NatToDecimal(n - 1)
  {
    var d := NatToDecimal(n);
    var key := "photo_" + d;
    assert '_' !in d by {
      assert forall c :: c in d ==> IsDigit(c);
    }
    SplitNoSep("photo", '_');
    SplitSnoc("photo", '_', d);
    assert "photo" + ['_'] + d == key;
    assert Split(key, '_') == ["photo", d];
    ParseIntOfDecimal(n);
  }

  /** `photo_N` reads the N-th photo (counting from 1) of an array. */
  lemma PhotoKeyReadsNthPhoto(details: Json, n: nat)
    requires Prop(details, "photos").Some? && Prop(details, "photos").value.JArr?
    requires 1 <= n <= |Prop(details, "photos").value.items|
    ensures var photo := Prop(details, "photos").value.items[n - 1];
      PhotoNValue(details, "photo_" + NatToDecimal(n)).Some? <==> Truthy(photo)
  {
    PhotoIndexNameOfKey(n);
    PhotoNValueAt(details, "photo_" + NatToDecimal(n), n - 1);
  }

  /** A key naming position `i` of the photo array writes exactly when that
      photo is truthy. */
  lemma PhotoNValueAt(details: Json, key: string, i: nat)
    requires Prop(details, "photos").Some? && Prop(details, "photos").value.JArr?
    requires i < |Prop(details, "photos").value.items|
    requires PhotoIndexName(key) == NatToDecimal(i)
    ensures PhotoNValue(details, key).Some? <==> Truthy(Prop(details, "photos").value.items[i])
  {
    var photos := Prop(details, "photos").value;
    ArrayIndexProp(photos.items, i);
    assert photos == JArr(photos.items);
  }

  // --------------------------------------------------------------- writes

  /** An attribute definition as the enrichment reads it. */
  datatype Attribute = Attribute(attributeId: int, key: string, inputType: string, multilingual: bool)

  /** One upsert: the conflict key and the row's value columns. */
  type Write = (RowKey, Row)

  /** Everything outside the script: the JSON and number collaborators, the
      OpenAI key and translator, `INCLUDE_REVIEWS`, and the tables and
      provider as lookups, where a missing entry is a failed or empty query. */
  datatype Environment = Environment(
    codec: Codec,
    hasApiKey: bool,
    translator: Translator,
    includeReviews: bool,
    locations: map<string, int>,
    links: map<string, set<int>>,
    provider: map<string, Json>,
    upsertFaults: set<RowKey>)

  predicate StartsWith(s: string, prefix: string) {
    |prefix| <= |s| && s[..|prefix|] == prefix
  }

  /** The languages an attribute is written in. */
  function LangsFor(attr: Attribute): seq<string> {
    if attr.multilingual then Languages else [NoLang]
  }

  /** The value written for one language: translated only for multilingual
      text outside English. */
  function ValueFor(env: Environment, attr: Attribute, raw: Json, lang: string): (r: Json)
    ensures !(attr.multilingual && lang != "en" && raw.JStr?) ==> r == raw
    ensures attr.multilingual && lang != "en" && raw.JStr? ==>
      r == JStr(TranslateWithOpenAI(raw.s, lang, env.hasApiKey, env.translator))
  {
    if attr.multilingual && lang != "en" && raw.JStr? then
      JStr(TranslateWithOpenAI(raw.s, lang, env.hasApiKey, env.translator))
    else raw
  }

  /** The write for one language, if the coercion does not skip it. */
  function LangWrite(env: Environment, loc: int, attr: Attribute, raw: Json, lang: string): seq<Write> {
    match Coerce(InputTypeOf(attr.inputType), ValueFor(env, attr, raw, lang), env.codec)
    case None => []
    case Some(row) => [((loc, attr.attributeId, if attr.multilingual then lang else NoLang), row)]
  }

  function LangWrites(env: Environment, loc: int, attr: Attribute, raw: Json, langs: seq<string>): seq<Write>
    decreases |langs|
  {
    if langs == [] then []
    else LangWrites(env, loc, attr, raw, langs[..|langs| - 1]) + LangWrite(env, loc, attr, raw, langs[|langs| - 1])
  }

  lemma LangWritesStep(env: Environment, loc: int, attr: Attribute, raw: Json, langs: seq<string>, j: nat)
    requires j < |langs|
    ensures LangWrites(env, loc, attr, raw, langs[..j + 1])
      == LangWrites(env, loc, attr, raw, langs[..j]) + LangWrite(env, loc, attr, raw, langs[j])
  {
    assert langs[..j + 1][..j] == langs[..j];
  }

  /** The writes of one attribute of the generic loop. */
  function AttributeWrites(env: Environment, loc: int, details: Json, attr: Attribute): seq<Write> {
    if attr.key == "photos" then []
    else if StartsWith(attr.key, "photo_") then
      match PhotoNValue(details, attr.key)
      case None => []
      case Some(v) => [((loc, attr.attributeId, NoLang), JsonRow(v))]
    else
      var raw := Lookup(details, Split(attr.key, '.'));
      if raw == JNull || raw == JStr("") then []
      else LangWrites(env, loc, attr, raw, LangsFor(attr))
  }

  function AttributesWrites(env: Environment, loc: int, details: Json, attrs: seq<Attribute>): seq<Write>
    decreases |attrs|
  {
    if attrs == [] then []
    else AttributesWrites(env, loc, details, attrs[..|attrs| - 1]) + AttributeWrites(env, loc, details, attrs[|attrs| - 1])
  }

  lemma AttributesWritesSnoc(env: Environment, loc: int, details: Json, attrs: seq<Attribute>, i: nat)
    requires i < |attrs|
    ensures AttributesWrites(env, loc, details, attrs[..i + 1])
         == AttributesWrites(env, loc, details, attrs[..i]) + AttributeWrites(env, loc, details, attrs[i])
  {
    assert attrs[..i + 1][..i] == attrs[..i];
  }

  /** `filteredAttributes.find(a => a.key === "photos" && a.input_type === "json")`. */
  function FindPhotosAttr(attrs: seq<Attribute>): (r: Option<Attribute>)
    ensures r.Some? ==> r.value in attrs && r.value.key == "photos" && r.value.inputType == "json"
    ensures r.None? <==> forall a :: a in attrs ==> !(a.key == "photos" && a.inputType == "json")
  {
    if attrs == [] then None
    else if attrs[0].key == "photos" && attrs[0].inputType == "json" then Some(attrs[0])
    else
      var r := FindPhotosAttr(attrs[1..]);
      assert forall a :: a in attrs ==> a == attrs[0] || a in attrs[1..];
      r
  }

  /** The snapshot write: at most one row, under "und". */
  function SnapshotWrites(env: Environment, loc: int, details: Json, attrs: seq<Attribute>): seq<Write> {
    match FindPhotosAttr(attrs)
    case None => []
    case Some(a) =>
      match SnapshotValue(PhotosOf(details))
      case None => []
      case Some(v) => [((loc, a.attributeId, NoLang), JsonRow(v))]
  }

  function PlaceWrites(env: Environment, loc: int, details: Json, attrs: seq<Attribute>): seq<Write> {
    SnapshotWrites(env, loc, details, attrs) + AttributesWrites(env, loc, details, attrs)
  }

  /** The two `filter` calls: attributes linked to the place, and no
      `reviews` unless `INCLUDE_REVIEWS` is set; order is kept. */
  function Filtered(attrs: seq<Attribute>, linked: set<int>, includeReviews: bool): (r: seq<Attribute>)
    ensures forall a :: a in r <==> a in attrs && a.attributeId in linked && (includeReviews || a.key != "reviews")
    decreases |attrs|
  {
    if attrs == [] then []
    else
      var a := attrs[|attrs| - 1];
      var init := attrs[..|attrs| - 1];
      assert attrs == init + [a];
      Filtered(init, linked, includeReviews) + (if a.attributeId in linked && (includeReviews || a.key != "reviews") then [a] else [])
  }

  /** One entry of the place list: skipped when the location, its links or
      its details cannot be read. */
  function EntryWrites(env: Environment, attrs: seq<Attribute>, entry: PlaceEntry): seq<Write> {
    match entry.placeId
    case None => []
    case Some(id) =>
      if id !in env.locations || id !in env.links || id !in env.provider then []
      else PlaceWrites(env, env.locations[id], env.provider[id], Filtered(attrs, env.links[id], env.includeReviews))
  }

  function RunWrites(env: Environment, attrs: seq<Attribute>, entries: seq<PlaceEntry>): seq<Write>
    decreases |entries|
  {
    if entries == [] then []
    else RunWrites(env, attrs, entries[..|entries| - 1]) + EntryWrites(env, attrs, entries[|entries| - 1])
  }

  // ---------------------------------------------------------------- store

  /** The `location_values` table, by conflict key. */
  class LocationValueStore {
    var rows: map<RowKey, Row>

    constructor(initial: map<RowKey, Row>)
      ensures rows == initial
    {
      rows := initial;
    }

    /** `upsertLocationValue`: the row under its key is replaced (or
        created); a failing upsert changes nothing and reports it. */
    method Upsert(key: RowKey, row: Row, faults: set<RowKey>) returns (ok: bool)
      modifies this
      ensures ok <==> key !in faults
      ensures rows == if ok then old(rows)[key := row] else old(rows)
    {
      ok := key !in faults;
      if ok {
        rows := rows[key := row];
      }
    }

    /** `savePhotosSnapshot` for the first photos attribute, if any. */
    method SavePhotosSnapshot(env: Environment, loc: int, details: Json, attrs: seq<Attribute>)
      modifies this
      ensures rows == ApplyUpserts(old(rows), SnapshotWrites(env, loc, details, attrs), env.upsertFaults)
    {
      var photosAttr := FindPhotosAttr(attrs);
      if photosAttr.None? {
        assert SnapshotWrites(env, loc, details, attrs) == [];
        return;
      }
      var photos := PhotosOf(details);
      var normalized := SnapshotValue(photos);
      if normalized.None? {
        assert SnapshotWrites(env, loc, details, attrs) == [];
        return;
      }
      var w: Write := ((loc, photosAttr.value.attributeId, NoLang), JsonRow(normalized.value));
      assert SnapshotWrites(env, loc, details, attrs) == [w];
      ApplyUpsertsSnoc(old(rows), [], w, env.upsertFaults);
      var _ := Upsert(w.0, w.1, env.upsertFaults);
    }

    /** One pass of the language loop: translate a string value of a
        multilingual attribute into a language other than English, coerce
        it to the attribute's column, upsert it when it has one. */
    method WriteLanguage(env: Environment, loc: int, attr: Attribute, raw: Json, lang: string)
      modifies this
      ensures rows == ApplyUpserts(old(rows), LangWrite(env, loc, attr, raw, lang), env.upsertFaults)
    {
      var translatedValue := raw;
      if attr.multilingual && lang != "en" && raw.JStr? {
        translatedValue := JStr(TranslateWithOpenAI(raw.s, lang, env.hasApiKey, env.translator));
      }
      assert translatedValue == ValueFor(env, attr, raw, lang);
      var row := BuildRow(attr.inputType, translatedValue, env.codec);
      if row.Some? {
        var w: Write := ((loc, attr.attributeId, if attr.multilingual then lang else NoLang), row.value);
        assert LangWrite(env, loc, attr, raw, lang) == [w];
        ApplyUpsertsSnoc(old(rows), [], w, env.upsertFaults);
        var _ := Upsert(w.0, w.1, env.upsertFaults);
      }
    }

    /** The language loop of one attribute, over `langs`. */
    method WriteLanguages(env: Environment, loc: int, attr: Attribute, raw: Json, langs: seq<string>)
      modifies this
      ensures rows == ApplyUpserts(old(rows), LangWrites(env, loc, attr, raw, langs), env.upsertFaults)
    {
      var j := 0;
      while j < |langs|
        invariant 0 <= j <= |langs|
        invariant rows == ApplyUpserts(old(rows), LangWrites(env, loc, attr, raw, langs[..j]), env.upsertFaults)
      {
        LangWritesStep(env, loc, attr, raw, langs, j);
        ApplyUpsertsAppend(old(rows), LangWrites(env, loc, attr, raw, langs[..j]),
          LangWrite(env, loc, attr, raw, langs[j]), env.upsertFaults);
        WriteLanguage(env, loc, attr, raw, langs[j]);
        j := j + 1;
      }
      assert langs[..|langs|] == langs;
    }

    /** One iteration of the loop over the filtered attributes. */
    method WriteAttribute(env: Environment, loc: int, details: Json, attr: Attribute)
      modifies this
      ensures rows == ApplyUpserts(old(rows), AttributeWrites(env, loc, details, attr), env.upsertFaults)
    {
      if attr.key == "photos" {
        return;
      }
      if |"photo_"| <= |attr.key| && attr.key[..|"photo_"|] == "photo_" {
        var value := PhotoNValue(details, attr.key);
        if value.None? {
          return;
        }
        var w: Write := ((loc, attr.attributeId, NoLang), JsonRow(value.value));
        ApplyUpsertsSnoc(old(rows), [], w, env.upsertFaults);
        var _ := Upsert(w.0, w.1, env.upsertFaults);
        return;
      }
      var rawValue := GetValueFromDetails(details, attr.key);
      if rawValue == JNull || rawValue == JStr("") {
        return;
      }
      WriteLanguages(env, loc, attr, rawValue, LangsFor(attr));
    }

    /** The work for one place once its location, links and details are known. */
    method EnrichPlace(env: Environment, loc: int, details: Json, attrs: seq<Attribute>)
      modifies this
      ensures rows == ApplyUpserts(old(rows), PlaceWrites(env, loc, details, attrs), env.upsertFaults)
    {
      SavePhotosSnapshot(env, loc, details, attrs);
      ghost var afterSnapshot := rows;
      var i := 0;
      while i < |attrs|
        invariant 0 <= i <= |attrs|
        invariant rows == ApplyUpserts(afterSnapshot, AttributesWrites(env, loc, details, attrs[..i]), env.upsertFaults)
      {
        AttributesWritesSnoc(env, loc, details, attrs, i);
        WriteAttribute(env, loc, details, attrs[i]);
        ApplyUpsertsAppend(afterSnapshot, AttributesWrites(env, loc, details, attrs[..i]),
                          AttributeWrites(env, loc, details, attrs[i]), env.upsertFaults);
        i := i + 1;
      }
      assert attrs[..|attrs|] == attrs;
      ApplyUpsertsAppend(old(rows), SnapshotWrites(env, loc, details, attrs),
                        AttributesWrites(env, loc, details, attrs), env.upsertFaults);
    }

    /** One entry: find the location, its attribute links and its details,
        and skip the entry when any of them cannot be read. */
    method EnrichEntry(env: Environment, attrs: seq<Attribute>, entry: PlaceEntry)
      modifies this
      ensures rows == ApplyUpserts(old(rows), EntryWrites(env, attrs, entry), env.upsertFaults)
    {
      if entry.placeId.None? {
        return;
      }
      var id := entry.placeId.value;
      if id !in env.locations || id !in env.links || id !in env.provider {
        return;
      }
      var filtered := Filtered(attrs, env.links[id], env.includeReviews);
      EnrichPlace(env, env.locations[id], env.provider[id], filtered);
    }

    /** `enrichLocationValues`: the loop over the place entries, given the
        attribute definitions (`None` when loading them failed). */
    method Enrich(env: Environment, entries: seq<PlaceEntry>, allAttributes: Option<seq<Attribute>>)
      modifies this
      ensures allAttributes.None? ==> rows == old(rows)
      ensures allAttributes.Some? ==>
        rows == ApplyUpserts(old(rows), RunWrites(env, allAttributes.value, entries), env.upsertFaults)
    {
      if |entries| == 0 || allAttributes.None? {
        return;
      }
      var attrs := allAttributes.value;
      var i := 0;
      while i < |entries|
        invariant 0 <= i <= |entries|
        invariant rows == ApplyUpserts(old(rows), RunWrites(env, attrs, entries[..i]), env.upsertFaults)
      {
        assert entries[..i + 1][..i] == entries[..i];
        assert RunWrites(env, attrs, entries[..i + 1])
            == RunWrites(env, attrs, entries[..i]) + EntryWrites(env, attrs, entries[i]);
        EnrichEntry(env, attrs, entries[i]);
        ApplyUpsertsAppend(old(rows), RunWrites(env, attrs, entries[..i]), EntryWrites(env, attrs, entries[i]), env.upsertFaults);
        i := i + 1;
      }
      assert entries[..|entries|] == entries;
    }
  }

  // ---------------------------------------------------------------- lemmas

  /** The writes of one attribute: every row has exactly one value column;
      the generic path writes nothing for a null, missing or empty value and
      at most one row per language, under the attribute's languages, while
      `photos` itself is never written here and `photo_N` writes at most one
      row under "und". */
  lemma AttributeWritesShape(env: Environment, loc: int, details: Json, attr: Attribute)
    ensures var ws := AttributeWrites(env, loc, details, attr);
      && (forall w :: w in ws ==> SlotCount(w.1) == 1 && w.0.0 == loc && w.0.1 == attr.attributeId)
      && (attr.key == "photos" ==> ws == [])
      && (StartsWith(attr.key, "photo_") ==> |ws| <= 1 && forall w :: w in ws ==> w.0.2 == NoLang)
      && (!StartsWith(attr.key, "photo_") ==> forall w :: w in ws ==> w.0.2 in LangsFor(attr))
      && (!StartsWith(attr.key, "photo_") ==>
            var raw := Lookup(details, Split(attr.key, '.'));
            (raw == JNull || raw == JStr("") ==> ws == []))
      && (forall i, j :: 0 <= i < j < |ws| ==> ws[i].0 != ws[j].0)
  {
    if attr.key != "photos" && !StartsWith(attr.key, "photo_") {
      var raw := Lookup(details, Split(attr.key, '.'));
      if raw != JNull && raw != JStr("") {
        var langs := LangsFor(attr);
        assert forall x, y :: 0 <= x < y < |langs| ==> langs[x] != langs[y];
        LangWritesShape(env, loc, attr, raw, langs);
      }
    }
  }

  /** The language loop writes each language of a list without repeats at
      most once, each row with one value column and its language as code. */
  lemma {:induction false} LangWritesShape(env: Environment, loc: int, attr: Attribute, raw: Json, langs: seq<string>)
    requires forall x, y :: 0 <= x < y < |langs| ==> langs[x] != langs[y]
    requires !attr.multilingual ==> langs == [] || langs == [NoLang]
    ensures var ws := LangWrites(env, loc, attr, raw, langs);
      && |ws| <= |langs|
      && (forall w :: w in ws ==> SlotCount(w.1) == 1 && w.0.0 == loc && w.0.1 == attr.attributeId)
      && (forall w :: w in ws ==> w.0.2 in langs)
      && (forall i, j :: 0 <= i < j < |ws| ==> ws[i].0 != ws[j].0)
    decreases |langs|
  {
    if langs != [] {
      var init := langs[..|langs| - 1];
      var last := langs[|langs| - 1];
      LangWritesShape(env, loc, attr, raw, init);
      var a := LangWrites(env, loc, attr, raw, init);
      var b := LangWrite(env, loc, attr, raw, last);
      assert forall w :: w in b ==> w.0.2 == last;
      assert last !in init;
      assert forall w :: w in a ==> w.0.2 in init;
      assert forall w :: w in a + b ==> w.0.2 in langs;
    }
  }

  /** The photos snapshot: at most one write, to the first photos/json
      attribute under "und", present exactly when that attribute exists and
      the photo list is a non-empty array without null elements; its value
      keeps the length and order of the list, each element reduced to the
      four photo fields, a missing one as null. */
  lemma SnapshotWritesShape(env: Environment, loc: int, details: Json, attrs: seq<Attribute>)
    ensures var ws := SnapshotWrites(env, loc, details, attrs);
      var photos := PhotosOf(details);
      && |ws| <= 1
      && (|ws| == 1 <==> FindPhotosAttr(attrs).Some? && photos.JArr? && |photos.items| > 0 && JNull !in photos.items)
      && (|ws| == 1 ==>
            && ws[0].0 == (loc, FindPhotosAttr(attrs).value.attributeId, NoLang)
            && SlotCount(ws[0].1) == 1
            && ws[0].1.valueJson.Some? && ws[0].1.valueJson.value.JArr?
            && var out := ws[0].1.valueJson.value.items;
               && |out| == |photos.items|
               && forall i :: 0 <= i < |out| ==>
                    out[i] == JObj([("photo_reference", Prop(photos.items[i], "photo_reference").GetOr(JNull)),
                                    ("width", Prop(photos.items[i], "width").GetOr(JNull)),
                                    ("height", Prop(photos.items[i], "height").GetOr(JNull)),
                                    ("html_attributions", Prop(photos.items[i], "html_attributions").GetOr(JNull))]))
  {
  }

  /** A whole run, place by place, has one value column in every row. */
  lemma {:induction false} RunWritesOneSlot(env: Environment, attrs: seq<Attribute>, entries: seq<PlaceEntry>)
    ensures forall w :: w in RunWrites(env, attrs, entries) ==> SlotCount(w.1) == 1
    decreases |entries|
  {
    if entries != [] {
      RunWritesOneSlot(env, attrs, entries[..|entries| - 1]);
      var e := entries[|entries| - 1];
      if e.placeId.Some? {
        var id := e.placeId.value;
        if id in env.locations && id in env.links && id in env.provider {
          var filtered := Filtered(attrs, env.links[id], env.includeReviews);
          SnapshotWritesShape(env, env.locations[id], env.provider[id], filtered);
          AttributesWritesOneSlot(env, env.locations[id], env.provider[id], filtered);
        }
      }
    }
  }

  lemma {:induction false} AttributesWritesOneSlot(env: Environment, loc: int, details: Json, attrs: seq<Attribute>)
    ensures forall w :: w in AttributesWrites(env, loc, details, attrs) ==> SlotCount(w.1) == 1 && w.0.0 == loc
    decreases |attrs|
  {
    if attrs != [] {
      AttributesWritesOneSlot(env, loc, details, attrs[..|attrs| - 1]);
      AttributeWritesShape(env, loc, details, attrs[|attrs| - 1]);
    }
  }
}
