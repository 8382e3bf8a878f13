/** `scripts/scriptsimport_places.js`: each place id of the file is fetched in
    five languages; the per-language names and addresses and the German
    record become one `locations` row, updated (PATCH) when a row for the
    place exists and created (POST) otherwise. */
module PlaceImport {
  import opened Wrappers
  import opened JsonValue

  const ImportLanguages: seq<string> := ["de", "en", "it", "hr", "fr"]

  /** `json.result` of the Place Details request for a place and a
      language; `None` when the response has no `result`. */
  type Google = (string, string) -> Option<Json>

  /** `o?.k`: undefined when `o` is undefined or null. */
  function OptProp(o: Option<Json>, k: string): (r: Option<Json>)
    ensures o.None? || o == Some(JNull) ==> r.None?
    ensures o.Some? && o.value.JObj? ==> r == FieldValue(o.value.fields, k)
  {
    if o.None? || o.value.JNull? then None else Prop(o.value, k)
  }

  /** `{ name: data?.name || null, address: data?.formatted_address || null }`. */
  function TranslationEntry(data: Option<Json>): (r: Json)
    ensures r.JObj? && |r.fields| == 2
    ensures Prop(r, "name") == Some(OrNull(OptProp(data, "name")))
    ensures Prop(r, "address") == Some(OrNull(OptProp(data, "formatted_address")))
    ensures data.None? || data == Some(JNull) ==> r == JObj([("name", JNull), ("address", JNull)])
  {
    var fs := [("name", OrNull(OptProp(data, "name"))), ("address", OrNull(OptProp(data, "formatted_address")))];
    assert FieldValue(fs[1..], "address") == Some(fs[1].1);
    JObj(fs)
  }

  /** `buildTranslations(rawByLang)`, its keys in the order of `LANGUAGES`. */
  function BuildTranslations(rawByLang: string -> Option<Json>): (r: Json)
    ensures r.JObj? && |r.fields| == |ImportLanguages|
    ensures forall i :: 0 <= i < |ImportLanguages| ==>
      r.fields[i] == (ImportLanguages[i], TranslationEntry(rawByLang(ImportLanguages[i])))
  {
    JObj(seq(|ImportLanguages|, i requires 0 <= i < |ImportLanguages| =>
      (ImportLanguages[i], TranslationEntry(rawByLang(ImportLanguages[i])))))
  }

  /** The translations object has one entry for each of the five languages
      and none other; each entry's name and address are the record's, or
      null when missing or empty. */
  lemma TranslationsExactly(rawByLang: string -> Option<Json>, lang: string)
    ensures var t := BuildTranslations(rawByLang);
      (Prop(t, lang).Some? <==> lang in ImportLanguages)
      && (lang in ImportLanguages ==> Prop(t, lang) == Some(TranslationEntry(rawByLang(lang))))
  {
    var fs := BuildTranslations(rawByLang).fields;
    if lang in ImportLanguages {
      var i :| 0 <= i < |ImportLanguages| && ImportLanguages[i] == lang;
      TranslationKeysDistinct(rawByLang);
      FieldValueAt(fs, i);
    } else {
      assert forall i :: 0 <= i < |fs| ==> fs[i].0 == ImportLanguages[i];
    }
  }

  lemma TranslationKeysDistinct(rawByLang: string -> Option<Json>)
    ensures var fs := BuildTranslations(rawByLang).fields;
      forall i, j :: 0 <= i < j < |fs| ==> fs[i].0 != fs[j].0
  {
    var fs := BuildTranslations(rawByLang).fields;
    forall i, j | 0 <= i < j < |fs|
      ensures fs[i].0 != fs[j].0
    {
      assert fs[i].0 == ImportLanguages[i] && fs[j].0 == ImportLanguages[j];
    }
  }

  /** The request body of `upsertLocation`; `None` when `rawDe.name` throws
      because the German record is missing. Coordinates are `|| null` like
      the rest, so a latitude or longitude of 0 is sent as null. */
  function Payload(placeId: Json, rawDe: Option<Json>, translations: Json): (r: Option<map<string, Json>>)
    ensures r.None? <==> rawDe.None? || rawDe == Some(JNull)
    ensures r.Some? ==>
      && r.value.Keys == {"google_place_id", "name_de", "description_de", "lat", "lng",
                          "translations", "source_type", "sync_enabled"}
      && r.value["google_place_id"] == placeId
      && r.value["name_de"] == OrNull(Prop(rawDe.value, "name"))
      && r.value["description_de"] == OrNull(Prop(rawDe.value, "formatted_address"))
      && r.value["translations"] == translations
      && r.value["source_type"] == JStr("google_places")
      && r.value["sync_enabled"] == JBool(true)
  {
    if rawDe.None? || rawDe.value.JNull? then None
    else
      var d := rawDe.value;
      var location := OptProp(OptProp(Some(d), "geometry"), "location");
      Some(map[
        "google_place_id" := placeId,
        "name_de" := OrNull(Prop(d, "name")),
        "description_de" := OrNull(Prop(d, "formatted_address")),
        "lat" := OrNull(OptProp(location, "lat")),
        "lng" := OrNull(OptProp(location, "lng")),
        "translations" := translations,
        "source_type" := JStr("google_places"),
        "sync_enabled" := JBool(true)])
  }

  // ---------------------------------------------------------- the table

  /** A `locations` row: column name to value. */
  type Row = map<string, Json>

  /** Whether a row belongs to the place. */
  predicate IsRowOf(row: Row, placeId: string) {
    "google_place_id" in row && row["google_place_id"] == JStr(placeId)
  }

  /** The `id` of a row; undefined when the row has none. */
  function IdOf(row: Row): Option<Json> {
    if "id" in row then Some(row["id"]) else None
  }

  /** `GET locations?select=id&google_place_id=eq.<placeId>`: the ids of the
      place's rows, in table order. */
  function ExistingIds(rows: seq<Row>, placeId: string): (r: seq<Option<Json>>)
    ensures r == [] <==> forall i :: 0 <= i < |rows| ==> !IsRowOf(rows[i], placeId)
    decreases |rows|
  {
    if rows == [] then []
    else
      var rest := ExistingIds(rows[1..], placeId);
      assert forall i :: 1 <= i < |rows| ==> rows[i] == rows[1..][i - 1];
      (if IsRowOf(rows[0], placeId) then [IdOf(rows[0])] else []) + rest
  }

  datatype Verb = Post | Patch(id: Option<Json>)

  /** `existing.length > 0 ? 'PATCH' : 'POST'`, a PATCH addressing the first
      existing row's id. */
  function ChooseVerb(existing: seq<Option<Json>>): (v: Verb)
    ensures v.Post? <==> existing == []
    ensures v.Patch? ==> v.id == existing[0]
  {
    if |existing| > 0 then Patch(existing[0]) else Post
  }

  /** The table after the request: a POST adds the payload as a new row
      under the next id; a PATCH sets the payload's columns on every row with
      the given id (none when the id is undefined). */
  function Apply(rows: seq<Row>, nextId: int, verb: Verb, payload: Row): (r: (seq<Row>, int))
    ensures verb.Post? ==> r.0 == rows + [payload["id" := JNum(nextId as real)]] && r.1 == nextId + 1
    ensures verb.Patch? ==> |r.0| == |rows| && r.1 == nextId
    ensures verb.Patch? ==> forall i :: 0 <= i < |rows| ==>
      r.0[i] == if verb.id.Some? && IdOf(rows[i]) == verb.id then rows[i] + payload else rows[i]
  {
    match verb
    case Post => (rows + [payload["id" := JNum(nextId as real)]], nextId + 1)
    case Patch(id) =>
      (seq(|rows|, i requires 0 <= i < |rows| =>
         if id.Some? && IdOf(rows[i]) == id then rows[i] + payload else rows[i]), nextId)
  }

  /** Every row has a numeric id below the next value of the id sequence,
      as the table's serial `id` column guarantees. */
  predicate IdsBelow(rows: seq<Row>, nextId: int) {
    forall i :: 0 <= i < |rows| ==> IdBelow(rows[i], nextId)
  }

  predicate IdBelow(row: Row, nextId: int) {
    "id" in row && row["id"].JNum? && row["id"].n < nextId as real
  }

  /** A request whose payload carries no id keeps every id below the
      sequence: a PATCH leaves each row's id as it was, and the id a POST
      assigns is fresh, since no existing row has it. */
  lemma ApplyKeepsIdsBelow(rows: seq<Row>, nextId: int, verb: Verb, payload: Row)
    requires IdsBelow(rows, nextId) && "id" !in payload
    ensures var r := Apply(rows, nextId, verb, payload);
      IdsBelow(r.0, r.1)
    ensures verb.Post? ==> forall i :: 0 <= i < |rows| ==> IdOf(rows[i]) != Some(JNum(nextId as real))
  {
    var r := Apply(rows, nextId, verb, payload);
    forall i | 0 <= i < |r.0|
      ensures IdBelow(r.0[i], r.1)
    {
      if i < |rows| {
        assert IdBelow(rows[i], nextId);
        assert r.0[i]["id"] == rows[i]["id"];
      }
    }
  }

  /** One place, given as the file's entry: the entry is fetched in each
      language and looked up under its template-string form (`${placeId}`,
      so `null` is queried as "null" and an object as "[object Object]"),
      and is sent as it is as `google_place_id`. `None` when the German
      record is missing, which makes `upsertLocation` throw and ends the
      script. */
  function ImportStep(google: Google, stringify: Json -> string, rows: seq<Row>, nextId: int, entry: Json): (r: Option<(seq<Row>, int)>)
    ensures var key := JsToString(entry, stringify);
      r.None? <==> google(key, "de").None? || google(key, "de") == Some(JNull)
  {
    var key := JsToString(entry, stringify);
    var rawByLang := (lang: string) => google(key, lang);
    var translations := BuildTranslations(rawByLang);
    match Payload(entry, google(key, "de"), translations)
    case None => None
    case Some(payload) => Some(Apply(rows, nextId, ChooseVerb(ExistingIds(rows, key)), payload))
  }

  /** The whole loop over the parsed file; `true` as the last component when
      it was ended early. */
  function ImportRun(google: Google, stringify: Json -> string, rows: seq<Row>, nextId: int, entries: seq<Json>): (seq<Row>, int, bool)
    decreases |entries|
  {
    if entries == [] then (rows, nextId, false)
    else
      match ImportStep(google, stringify, rows, nextId, entries[0])
      case None => (rows, nextId, true)
      case Some(next) => ImportRun(google, stringify, next.0, next.1, entries[1..])
  }

  lemma ImportRunCons(google: Google, stringify: Json -> string, rows: seq<Row>, nextId: int, entries: seq<Json>, i: nat)
    requires i < |entries|
    ensures ImportRun(google, stringify, rows, nextId, entries[i..]) ==
      match ImportStep(google, stringify, rows, nextId, entries[i])
      case None => (rows, nextId, true)
      case Some(next) => ImportRun(google, stringify, next.0, next.1, entries[i + 1..])
  {
    assert entries[i..][0] == entries[i] && entries[i..][1..] == entries[i + 1..];
  }

  /** After a place given by its string id is imported it has a row: a POST
      adds one and a PATCH keeps the place's own row, since the payload
      carries its id. */
  lemma ImportedPlaceHasRow(google: Google, stringify: Json -> string, rows: seq<Row>, nextId: int, placeId: string)
    requires ImportStep(google, stringify, rows, nextId, JStr(placeId)).Some?
    ensures ExistingIds(ImportStep(google, stringify, rows, nextId, JStr(placeId)).value.0, placeId) != []
  {
    var rawByLang := (lang: string) => google(placeId, lang);
    var payload := Payload(JStr(placeId), google(placeId, "de"), BuildTranslations(rawByLang)).value;
    var existing := ExistingIds(rows, placeId);
    var r := ImportStep(google, stringify, rows, nextId, JStr(placeId)).value.0;
    if existing == [] {
      assert r[|rows|] == payload["id" := JNum(nextId as real)];
      assert IsRowOf(r[|rows|], placeId);
    } else {
      var i :| 0 <= i < |rows| && IsRowOf(rows[i], placeId);
      assert IsRowOf(r[i], placeId);
    }
  }

  /** Importing a place a second time does not add a row: the first import
      left a row for it, so the second one is a PATCH. */
  lemma ReimportAddsNoRow(google: Google, google2: Google, stringify: Json -> string, rows: seq<Row>, nextId: int, placeId: string)
    requires ImportStep(google, stringify, rows, nextId, JStr(placeId)).Some?
    requires var s := ImportStep(google, stringify, rows, nextId, JStr(placeId)).value;
      ImportStep(google2, stringify, s.0, s.1, JStr(placeId)).Some?
    ensures var s := ImportStep(google, stringify, rows, nextId, JStr(placeId)).value;
      |ImportStep(google2, stringify, s.0, s.1, JStr(placeId)).value.0| == |s.0|
  {
    ImportedPlaceHasRow(google, stringify, rows, nextId, placeId);
  }

  /** A run never removes a row, every place adds at most one, and the id
      sequence never goes back. */
  lemma {:induction false} ImportRunRowCount(google: Google, stringify: Json -> string, rows: seq<Row>, nextId: int, entries: seq<Json>)
    ensures var r := ImportRun(google, stringify, rows, nextId, entries);
      |rows| <= |r.0| <= |rows| + |entries| && nextId <= r.1
    decreases |entries|
  {
    if entries != [] {
      match ImportStep(google, stringify, rows, nextId, entries[0])
      case None =>
      case Some(next) =>
        ImportRunRowCount(google, stringify, next.0, next.1, entries[1..]);
    }
  }

  /** A step keeps every id below the sequence, the payload never carrying
      an `id` column. */
  lemma ImportStepKeepsIdsBelow(google: Google, stringify: Json -> string, rows: seq<Row>, nextId: int, entry: Json)
    requires IdsBelow(rows, nextId)
    ensures var r := ImportStep(google, stringify, rows, nextId, entry);
      r.Some? ==> IdsBelow(r.value.0, r.value.1)
  {
    var key := JsToString(entry, stringify);
    var rawByLang := (lang: string) => google(key, lang);
    var p := Payload(entry, google(key, "de"), BuildTranslations(rawByLang));
    if p.Some? {
      ApplyKeepsIdsBelow(rows, nextId, ChooseVerb(ExistingIds(rows, key)), p.value);
    }
  }

  /** A whole run keeps every id below the sequence, so each POST of the
      run assigns an id no earlier row has. */
  lemma {:induction false} ImportRunKeepsIdsBelow(google: Google, stringify: Json -> string, rows: seq<Row>, nextId: int, entries: seq<Json>)
    requires IdsBelow(rows, nextId)
    ensures var r := ImportRun(google, stringify, rows, nextId, entries);
      IdsBelow(r.0, r.1)
    decreases |entries|
  {
    if entries != [] {
      ImportStepKeepsIdsBelow(google, stringify, rows, nextId, entries[0]);
      match ImportStep(google, stringify, rows, nextId, entries[0])
      case None =>
      case Some(next) =>
        ImportRunKeepsIdsBelow(google, stringify, next.0, next.1, entries[1..]);
    }
  }

  /** `locations` as the REST calls see it, with the id sequence that
      numbers new rows. */
  class LocationStore {
    var rows: seq<Row>
    var nextId: int

    /** Every row's id lies below the sequence. */
    predicate Valid()
      reads this
    {
      IdsBelow(rows, nextId)
    }

    constructor(initial: seq<Row>, firstId: int)
      requires IdsBelow(initial, firstId)
      ensures Valid() && rows == initial && nextId == firstId
    {
      rows := initial;
      nextId := firstId;
    }

    /** `upsertLocation(placeId, rawDe, translations)` once the payload is
        built: look the place up, then PATCH or POST. */
    method UpsertLocation(placeId: string, payload: Row)
      requires Valid() && "id" !in payload
      modifies this
      ensures Valid()
      ensures (rows, nextId) == Apply(old(rows), old(nextId), ChooseVerb(ExistingIds(old(rows), placeId)), payload)
    {
      ghost var rows0, next0 := rows, nextId;
      var existing := ExistingIds(rows, placeId);
      if |existing| > 0 {
        var id := existing[0];
        if id.Some? {
          var i := 0;
          var patched: seq<Row> := [];
          while i < |rows|
            invariant 0 <= i <= |rows| && |patched| == i
            invariant forall k :: 0 <= k < i ==>
              patched[k] == if IdOf(rows[k]) == id then rows[k] + payload else rows[k]
          {
            patched := patched + [if IdOf(rows[i]) == id then rows[i] + payload else rows[i]];
            i := i + 1;
          }
          assert patched == Apply(rows, nextId, Patch(id), payload).0;
          rows := patched;
        } else {
          assert rows == Apply(rows, nextId, Patch(id), payload).0;
        }
      } else {
        rows := rows + [payload["id" := JNum(nextId as real)]];
        nextId := nextId + 1;
      }
      ApplyKeepsIdsBelow(rows0, next0, ChooseVerb(ExistingIds(rows0, placeId)), payload);
    }

    /** The loop over the parsed file's entries; `aborted` when a place
        without a German record ended it. */
    method ImportPlaces(google: Google, stringify: Json -> string, entries: seq<Json>) returns (aborted: bool)
      requires Valid()
      modifies this
      ensures Valid()
      ensures (rows, nextId, aborted) == ImportRun(google, stringify, old(rows), old(nextId), entries)
    {
      var i := 0;
      while i < |entries|
        invariant 0 <= i <= |entries| && Valid()
        invariant ImportRun(google, stringify, rows, nextId, entries[i..]) == ImportRun(google, stringify, old(rows), old(nextId), entries)
      {
        var entry := entries[i];
        ImportRunCons(google, stringify, rows, nextId, entries, i);
        var key := JsToString(entry, stringify);
        var rawByLang := (lang: string) => google(key, lang);
        var translations := BuildTranslations(rawByLang);
        var payload := Payload(entry, google(key, "de"), translations);
        if payload.None? {
          return true;
        }
        ghost var before := (rows, nextId);
        UpsertLocation(key, payload.value);
        assert ImportStep(google, stringify, before.0, before.1, entry) == Some((rows, nextId));
        i := i + 1;
      }
      return false;
    }
  }
}
