/** The older enrichment script, `scripts/scripts/enrich_location_values.js`:
    for every location with a Google place id it fetches the English place
    details once, reads each attribute definition's key path out of them as
    text, and upserts that text (translated for multilingual attributes)
    into `location_values.value`, one row per language. Nothing guards the
    run: a failing details request, or a key path that runs into a string,
    number or `true` before its last segment, throws and ends the script;
    only a failing upsert is logged and skipped. */
module LegacyEnrich {
  import opened Wrappers
  import opened JsText
  import opened JsonValue
  import opened Chat
  import opened KeyDiscovery
  import LocationValues
  import opened UpsertTable

  /** The script's target languages. */
  const LegacyLanguages: seq<string> := ["de", "en", "it", "fr"]

  /** A row of `locations`: its id and its `google_place_id` (`None` for null). */
  datatype LegacyLocation = LegacyLocation(id: int, googlePlaceId: Option<string>)

  /** A row of `attribute_definitions` as this script reads it. */
  datatype LegacyAttribute = LegacyAttribute(attributeId: int, key: string, multilingual: bool)

  /** The collaborators of one run. `provider` maps a place id to the
      `result` of its details response (null when the response has none); a
      place id it does not hold is a request that throws. */
  datatype LegacyEnv = LegacyEnv(
    stringify: Json -> string,
    translator: Translator,
    provider: map<string, Json>,
    upsertFaults: set<RowKey>)

  /** One upsert: the conflict key and the text stored in `value`. */
  type LegacyWrite = (RowKey, string)

  // ---------------------------------------------------------- path lookup

  /** Where a key path leads under `value && k in value`: a falsy value or a
      missing segment gives null, and `in` on a string, number or `true`
      throws a TypeError. */
  datatype Walk = WalkThrows | WalkNull | WalkFound(v: Json)

  function LegacyDescend(v: Json, p: seq<string>): Walk
    decreases |p|
  {
    if p == [] then WalkFound(v)
    else if !Truthy(v) then WalkNull
    else if !(v.JObj? || v.JArr?) then WalkThrows
    else
      match Prop(v, p[0])
      case None => WalkNull
      case Some(x) => LegacyDescend(x, p[1..])
  }

  /** `getValueFromDetails`' outcome: it throws, returns null, or returns text. */
  datatype Outcome = Throws | Null | Str(s: string)

  /** The text a found value becomes: `typeof value === "object"` (objects,
      arrays and null) gives JSON text, anything else `toString()`. */
  function Rendered(v: Json, stringify: Json -> string): (r: string)
    ensures v.JStr? ==> r == v.s
    ensures v.JObj? || v.JArr? || v.JNull? ==> r == stringify(v)
  {
    if v.JObj? || v.JArr? || v.JNull? then stringify(v) else JsToString(v, stringify)
  }

  function LegacyLookup(details: Json, keyPath: string, stringify: Json -> string): Outcome {
    match LegacyDescend(details, Split(keyPath, '.'))
    case WalkThrows => Throws
    case WalkNull => Null
    case WalkFound(x) => Str(Rendered(x, stringify))
  }

  /** `getValueFromDetails(details, keyPath)` of the older script. */
  method GetValueFromDetails(details: Json, keyPath: string, stringify: Json -> string) returns (r: Outcome)
    ensures r == LegacyLookup(details, keyPath, stringify)
  {
    var keys := Split(keyPath, '.');
    var value := details;
    var i := 0;
    while i < |keys|
      invariant 0 <= i <= |keys|
      invariant LegacyDescend(value, keys[i..]) == LegacyDescend(details, keys)
    {
      assert keys[i..][0] == keys[i] && keys[i..][1..] == keys[i + 1..];
      if !Truthy(value) {
        return Null;
      }
      if !(value.JObj? || value.JArr?) {
        return Throws;
      }
      var next := Prop(value, keys[i]);
      if next.None? {
        return Null;
      }
      value := next.value;
      i := i + 1;
    }
    return Str(Rendered(value, stringify));
  }

  /** Wherever the newer lookup (`value && typeof value === "object" && k in
      value`) finds a value, the older one finds the same value; where the
      newer finds nothing, the older returns null or throws. */
  lemma {:induction false} LegacyAgreesWithDescend(v: Json, p: seq<string>)
    ensures LegacyDescend(v, p).WalkFound? <==> LocationValues.Descend(v, p).Some?
    ensures LegacyDescend(v, p).WalkFound? ==> LegacyDescend(v, p).v == LocationValues.Descend(v, p).value
    decreases |p|
  {
    if p != [] && (v.JObj? || v.JArr?) && Prop(v, p[0]).Some? {
      LegacyAgreesWithDescend(Prop(v, p[0]).value, p[1..]);
    }
  }

  /** A key path that reaches a string, number or `true` with segments left
      throws, whatever the remaining segments are. */
  lemma {:induction false} ThrowsPastPrimitive(v: Json, p: seq<string>, i: nat)
    requires i < |p| && LocationValues.Descend(v, p[..i]).Some?
    requires var x := LocationValues.Descend(v, p[..i]).value; Truthy(x) && !(x.JObj? || x.JArr?)
    ensures LegacyDescend(v, p) == WalkThrows
    decreases i
  {
    if i > 0 {
      assert p[..i][0] == p[0] && p[..i][1..] == p[1..][..i - 1];
      ThrowsPastPrimitive(Prop(v, p[0]).value, p[1..], i - 1);
    }
  }

  /** For the key paths that attribute discovery extracts from the same
      record, the older lookup never throws: it returns the leaf, rendered. */
  lemma ExtractedKeyRendered(d: Json, i: nat, stringify: Json -> string)
    requires d.JObj? && WellFormed(d) && PlainKeys(d) && i < |Flatten(d, "")|
    ensures i < |LeafPaths(d)| && ObjWalk(d, LeafPaths(d)[i]).Some?
    ensures LegacyLookup(d, Flatten(d, "")[i], stringify)
      == Str(Rendered(ObjWalk(d, LeafPaths(d)[i]).value, stringify))
  {
    var n := |d.fields|;
    FlattenIsJoinedLeafPaths(d, n, "");
    var p := LeafPathsFields(d, n)[i];
    assert p in LeafPathsFields(d, n);
    LeafPathsReachLeaves(d, n);
    WalkedPathIsPlain(d, p);
    JoinPathRoundTrip(p);
    LocationValues.LookupFollowsObjects(d, p);
    LegacyAgreesWithDescend(d, p);
  }

  // ---------------------------------------------------------- writes

  /** `attr.multilingual ? LANGUAGES : ["de"]`. */
  function LegacyLangsFor(attr: LegacyAttribute): seq<string> {
    if attr.multilingual then LegacyLanguages else ["de"]
  }

  /** The text stored for one language: translated for a multilingual
      attribute and a language other than English, the raw text otherwise.
      The translation needs no API key check: without one the request fails
      and the raw text is kept. */
  function LangValue(env: LegacyEnv, attr: LegacyAttribute, raw: string, lang: string): string {
    if attr.multilingual && lang != "en" then ReplyText(env.translator(raw, lang), raw) else raw
  }

  function LangWrites(env: LegacyEnv, locId: int, attr: LegacyAttribute, raw: string, langs: seq<string>): seq<LegacyWrite>
    decreases |langs|
  {
    if langs == [] then []
    else
      var lang := langs[|langs| - 1];
      LangWrites(env, locId, attr, raw, langs[..|langs| - 1])
        + [((locId, attr.attributeId, lang), LangValue(env, attr, raw, lang))]
  }

  lemma LangWritesStep(env: LegacyEnv, locId: int, attr: LegacyAttribute, raw: string, langs: seq<string>, i: nat)
    requires i < |langs|
    ensures LangWrites(env, locId, attr, raw, langs[..i + 1])
      == LangWrites(env, locId, attr, raw, langs[..i]) + [((locId, attr.attributeId, langs[i]), LangValue(env, attr, raw, langs[i]))]
  {
    assert langs[..i + 1][..i] == langs[..i];
  }

  /** How far a run got: the writes made and whether it then threw. */
  datatype Progress = Progress(writes: seq<LegacyWrite>, aborted: bool)

  /** The attribute loop for one location's details. */
  function AttributesRun(env: LegacyEnv, locId: int, details: Json, attrs: seq<LegacyAttribute>): Progress
    decreases |attrs|
  {
    if attrs == [] then Progress([], false)
    else
      var before := AttributesRun(env, locId, details, attrs[..|attrs| - 1]);
      var a := attrs[|attrs| - 1];
      if before.aborted then before
      else
        match LegacyLookup(details, a.key, env.stringify)
        case Throws => Progress(before.writes, true)
        case Null => before
        case Str(s) =>
          if s == [] then before
          else Progress(before.writes + LangWrites(env, locId, a, s, LegacyLangsFor(a)), false)
  }

  /** One location: skipped without a place id, ended by a details request
      that throws. */
  function LocationRun(env: LegacyEnv, loc: LegacyLocation, attrs: seq<LegacyAttribute>): Progress {
    match loc.googlePlaceId
    case None => Progress([], false)
    case Some(placeId) =>
      if placeId == [] then Progress([], false)
      else if placeId !in env.provider then Progress([], true)
      else AttributesRun(env, loc.id, env.provider[placeId], attrs)
  }

  /** The whole run over the locations, in order, up to the first throw. */
  function LegacyRun(env: LegacyEnv, locs: seq<LegacyLocation>, attrs: seq<LegacyAttribute>): Progress
    decreases |locs|
  {
    if locs == [] then Progress([], false)
    else
      var before := LegacyRun(env, locs[..|locs| - 1], attrs);
      if before.aborted then before
      else
        var p := LocationRun(env, locs[|locs| - 1], attrs);
        Progress(before.writes + p.writes, p.aborted)
  }

  // ---------------------------------------------------------- store

  /** The `location_values.value` column of the older schema. */
  class LegacyValueStore {
    var rows: map<RowKey, string>

    constructor(initial: map<RowKey, string>)
      ensures rows == initial
    {
      rows := initial;
    }

    /** One upsert; `ok` is false when the database reports an error. */
    method Upsert(key: RowKey, value: string, faults: set<RowKey>) returns (ok: bool)
      modifies this
      ensures ok <==> key !in faults
      ensures rows == if ok then old(rows)[key := value] else old(rows)
    {
      ok := key !in faults;
      if ok {
        rows := rows[key := value];
      }
    }

    /** One pass of the language loop: translate when the attribute is
        multilingual and the language is not English, then upsert. */
    method WriteLanguage(env: LegacyEnv, locId: int, attr: LegacyAttribute, raw: string, lang: string)
      modifies this
      ensures rows == ApplyUpserts(old(rows), [((locId, attr.attributeId, lang), LangValue(env, attr, raw, lang))], env.upsertFaults)
    {
      var translatedValue := raw;
      if attr.multilingual && lang != "en" {
        translatedValue := ReplyText(env.translator(raw, lang), raw);
      }
      var w: LegacyWrite := ((locId, attr.attributeId, lang), translatedValue);
      ApplyUpsertsSnoc(old(rows), [], w, env.upsertFaults);
      var _ := Upsert(w.0, w.1, env.upsertFaults);
    }

    /** The language loop of one attribute, over `langs`. */
    method WriteLanguages(env: LegacyEnv, locId: int, attr: LegacyAttribute, raw: string, langs: seq<string>)
      modifies this
      ensures rows == ApplyUpserts(old(rows), LangWrites(env, locId, attr, raw, langs), env.upsertFaults)
    {
      var i := 0;
      while i < |langs|
        invariant 0 <= i <= |langs|
        invariant rows == ApplyUpserts(old(rows), LangWrites(env, locId, attr, raw, langs[..i]), env.upsertFaults)
      {
        LangWritesStep(env, locId, attr, raw, langs, i);
        ApplyUpsertsAppend(old(rows), LangWrites(env, locId, attr, raw, langs[..i]),
          [((locId, attr.attributeId, langs[i]), LangValue(env, attr, raw, langs[i]))], env.upsertFaults);
        WriteLanguage(env, locId, attr, raw, langs[i]);
        i := i + 1;
      }
      assert langs[..|langs|] == langs;
    }

    /** One location; `aborted` is true when the script would have thrown. */
    method EnrichLocation(env: LegacyEnv, loc: LegacyLocation, attrs: seq<LegacyAttribute>) returns (aborted: bool)
      modifies this
      ensures aborted == LocationRun(env, loc, attrs).aborted
      ensures rows == ApplyUpserts(old(rows), LocationRun(env, loc, attrs).writes, env.upsertFaults)
    {
      if loc.googlePlaceId.None? || loc.googlePlaceId.value == [] {
        return false;
      }
      var placeId := loc.googlePlaceId.value;
      if placeId !in env.provider {
        return true;
      }
      var baseDetails := env.provider[placeId];
      var i := 0;
      while i < |attrs|
        invariant 0 <= i <= |attrs|
        invariant !AttributesRun(env, loc.id, baseDetails, attrs[..i]).aborted
        invariant rows == ApplyUpserts(old(rows), AttributesRun(env, loc.id, baseDetails, attrs[..i]).writes, env.upsertFaults)
      {
        var attr := attrs[i];
        assert attrs[..i + 1][..i] == attrs[..i];
        var before := AttributesRun(env, loc.id, baseDetails, attrs[..i]);
        var rawValue := GetValueFromDetails(baseDetails, attr.key, env.stringify);
        if rawValue.Throws? {
          AttributesAbortIsFinal(env, loc.id, baseDetails, attrs, i + 1);
          return true;
        }
        if rawValue.Str? && rawValue.s != [] {
          var ws := LangWrites(env, loc.id, attr, rawValue.s, LegacyLangsFor(attr));
          assert AttributesRun(env, loc.id, baseDetails, attrs[..i + 1]).writes == before.writes + ws;
          ApplyUpsertsAppend(old(rows), before.writes, ws, env.upsertFaults);
          WriteLanguages(env, loc.id, attr, rawValue.s, LegacyLangsFor(attr));
        }
        i := i + 1;
      }
      assert attrs[..|attrs|] == attrs;
      return false;
    }

    /** `enrichLocationValues()`: every location in turn, stopping at the
        first throw. */
    method EnrichLocationValues(env: LegacyEnv, locs: seq<LegacyLocation>, attrs: seq<LegacyAttribute>) returns (aborted: bool)
      modifies this
      ensures aborted == LegacyRun(env, locs, attrs).aborted
      ensures rows == ApplyUpserts(old(rows), LegacyRun(env, locs, attrs).writes, env.upsertFaults)
    {
      var i := 0;
      while i < |locs|
        invariant 0 <= i <= |locs|
        invariant !LegacyRun(env, locs[..i], attrs).aborted
        invariant rows == ApplyUpserts(old(rows), LegacyRun(env, locs[..i], attrs).writes, env.upsertFaults)
      {
        assert locs[..i + 1][..i] == locs[..i];
        var before := LegacyRun(env, locs[..i], attrs);
        ApplyUpsertsAppend(old(rows), before.writes, LocationRun(env, locs[i], attrs).writes, env.upsertFaults);
        aborted := EnrichLocation(env, locs[i], attrs);
        if aborted {
          AbortIsFinal(env, locs, attrs, i + 1);
          return;
        }
        i := i + 1;
      }
      assert locs[..|locs|] == locs;
      return false;
    }
  }

  // ---------------------------------------------------------- properties

  /** One write per target language, in order, keyed by the language
      itself (no "und" code in this script); English and every language of
      a monolingual attribute carry the raw text. */
  lemma {:induction false} LangWritesShape(env: LegacyEnv, locId: int, attr: LegacyAttribute, raw: string, langs: seq<string>)
    ensures var ws := LangWrites(env, locId, attr, raw, langs);
      && |ws| == |langs|
      && (forall i :: 0 <= i < |ws| ==> ws[i].0 == (locId, attr.attributeId, langs[i]))
      && (forall i :: 0 <= i < |ws| && (!attr.multilingual || langs[i] == "en") ==> ws[i].1 == raw)
    decreases |langs|
  {
    if langs != [] {
      LangWritesShape(env, locId, attr, raw, langs[..|langs| - 1]);
    }
  }

  /** A monolingual attribute gets exactly one row, German, holding the raw
      text; a multilingual one gets four. */
  lemma AttributeLanguages(env: LegacyEnv, locId: int, attr: LegacyAttribute, raw: string)
    ensures var ws := LangWrites(env, locId, attr, raw, LegacyLangsFor(attr));
      && (!attr.multilingual ==> ws == [((locId, attr.attributeId, "de"), raw)])
      && (attr.multilingual ==> |ws| == 4 && ws[1] == ((locId, attr.attributeId, "en"), raw))
  {
    LangWritesShape(env, locId, attr, raw, LegacyLangsFor(attr));
  }

  /** Once the attribute loop has thrown, later attributes change nothing. */
  lemma {:induction false} AttributesAbortIsFinal(env: LegacyEnv, locId: int, details: Json, attrs: seq<LegacyAttribute>, j: nat)
    requires j <= |attrs| && AttributesRun(env, locId, details, attrs[..j]).aborted
    ensures AttributesRun(env, locId, details, attrs) == AttributesRun(env, locId, details, attrs[..j])
    decreases |attrs|
  {
    if j < |attrs| {
      var init := attrs[..|attrs| - 1];
      assert init[..j] == attrs[..j];
      AttributesAbortIsFinal(env, locId, details, init, j);
    } else {
      assert attrs[..j] == attrs;
    }
  }

  /** Once a run has thrown, later locations change nothing: the writes made
      before the throw stay, and nothing after it happens. */
  lemma {:induction false} AbortIsFinal(env: LegacyEnv, locs: seq<LegacyLocation>, attrs: seq<LegacyAttribute>, j: nat)
    requires j <= |locs| && LegacyRun(env, locs[..j], attrs).aborted
    ensures LegacyRun(env, locs, attrs) == LegacyRun(env, locs[..j], attrs)
    decreases |locs|
  {
    if j < |locs| {
      var init := locs[..|locs| - 1];
      assert init[..j] == locs[..j];
      AbortIsFinal(env, init, attrs, j);
    } else {
      assert locs[..j] == locs;
    }
  }

  /** The run's writes are the locations' writes, one location after the
      other, while no location throws. */
  lemma {:induction false} LegacyRunAppend(env: LegacyEnv, locs: seq<LegacyLocation>, loc: LegacyLocation, attrs: seq<LegacyAttribute>)
    requires !LegacyRun(env, locs, attrs).aborted
    ensures LegacyRun(env, locs + [loc], attrs).writes == LegacyRun(env, locs, attrs).writes + LocationRun(env, loc, attrs).writes
    ensures LegacyRun(env, locs + [loc], attrs).aborted == LocationRun(env, loc, attrs).aborted
  {
    assert (locs + [loc])[..|locs|] == locs;
  }

  /** Every row the attribute loop writes belongs to the location, to an
      attribute of the list and to one of the script's languages; no text
      that was falsy is written untranslated. */
  lemma {:induction false} AttributesRunWrites(env: LegacyEnv, locId: int, details: Json, attrs: seq<LegacyAttribute>)
    ensures forall w :: w in AttributesRun(env, locId, details, attrs).writes ==>
      && w.0.0 == locId
      && (exists a :: a in attrs && a.attributeId == w.0.1)
      && w.0.2 in LegacyLanguages
    decreases |attrs|
  {
    if attrs != [] {
      var init := attrs[..|attrs| - 1];
      var a := attrs[|attrs| - 1];
      AttributesRunWrites(env, locId, details, init);
      var before := AttributesRun(env, locId, details, init);
      var out := AttributesRun(env, locId, details, attrs);
      forall w | w in out.writes
        ensures && w.0.0 == locId
                && (exists b :: b in attrs && b.attributeId == w.0.1)
                && w.0.2 in LegacyLanguages
      {
        if w in before.writes {
          var b :| b in init && b.attributeId == w.0.1;
          assert b in attrs;
        } else {
          var lookup := LegacyLookup(details, a.key, env.stringify);
          assert lookup.Str? && lookup.s != [];
          var ws := LangWrites(env, locId, a, lookup.s, LegacyLangsFor(a));
          LangWritesShape(env, locId, a, lookup.s, LegacyLangsFor(a));
          var j :| 0 <= j < |ws| && ws[j] == w;
          assert LegacyLangsFor(a)[j] in LegacyLanguages;
          assert a in attrs;
        }
      }
    }
  }

  /** A field of the details that holds null is not skipped: its key path
      finds null, which `typeof` calls an object, and the JSON text "null"
      is stored in every language. */
  lemma NullFieldIsWritten(k: string, stringify: Json -> string)
    requires '.' !in k
    ensures LegacyLookup(JObj([(k, JNull)]), k, stringify) == Str(stringify(JNull))
  {
    SplitNoSep(k, '.');
    assert Prop(JObj([(k, JNull)]), k) == Some(JNull);
    assert [k][1..] == [];
    assert LegacyDescend(JObj([(k, JNull)]), [k]) == LegacyDescend(JNull, []) == WalkFound(JNull);
  }
}
