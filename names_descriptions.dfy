/** `scripts/fill_names_and_descriptions.js`: for every place of an input
    file that already has a row in `locations`, fetch its name and editorial
    summary from Google in five languages and fill `name_<lang>` and
    `description_<lang>`, never overwriting a non-empty field unless
    FORCE_NAMES_DESC is set, and (by default) leaving a non-English
    description empty rather than filling it with the English text. */
module NamesDescriptions {
  import opened Wrappers
  import opened JsText
  import opened JsonValue

  /** The languages fetched, in order. */
  const FillLanguages: seq<string> := ["de", "en", "fr", "it", "hr"]

  lemma FillLanguagesDistinct()
    ensures forall i, j :: 0 <= i < j < |FillLanguages| ==> FillLanguages[i] != FillLanguages[j]
  {
  }

  /** The two switches read from the environment. */
  datatype Settings = Settings(force: bool, skipIfSameAsEn: bool)

  /** `FORCE_NAMES_DESC === "true"` and `SKIP_IF_SAME_AS_EN !== "false"`
      for the variables' values (`None` when unset). */
  function SettingsOf(forceVar: Option<string>, skipVar: Option<string>): (s: Settings)
    ensures s.force <==> forceVar == Some("true")
    ensures s.skipIfSameAsEn <==> skipVar != Some("false")
    ensures skipVar.None? ==> s.skipIfSameAsEn
  {
    Settings(forceVar == Some("true"), skipVar != Some("false"))
  }

  // ---------------------------------------------------------- text rules

  /** `isNonEmptyString(v)`: a string whose trimmed form is not empty. */
  predicate IsNonEmptyString(v: Option<Json>) {
    v.Some? && v.value.JStr? && Trim(v.value.s) != []
  }

  /** A non-empty string is exactly a string with a character that is not
      white space. */
  lemma IsNonEmptyStringIff(v: Option<Json>)
    ensures IsNonEmptyString(v) <==>
      v.Some? && v.value.JStr? && exists i :: 0 <= i < |v.value.s| && !IsSpace(v.value.s[i])
  {
    if v.Some? && v.value.JStr? {
      TrimEmptyIffAllSpace(v.value.s);
    }
  }

  /** `String(v || "")`. */
  function TextOf(v: Option<Json>, stringify: Json -> string): string {
    if Present(v) then JsToString(v.value, stringify) else ""
  }

  /** `normalizeText(v)`: white-space runs become one space, then trim. */
  function NormalizeText(v: Option<Json>, stringify: Json -> string): string {
    Trim(CollapseSpaces(TextOf(v, stringify)))
  }

  /** A string without white space at either end is its own trim. */
  lemma TrimFixesTrimmed(s: string)
    requires s == [] || (!IsSpace(s[0]) && !IsSpace(s[|s| - 1]))
    ensures Trim(s) == s
  {
    assert TrimStart(s) == s;
  }

  /** Collapsing then trimming leaves only single, isolated spaces. */
  lemma CollapseTrimCollapsed(t: string)
    ensures Collapsed(Trim(CollapseSpaces(t)))
  {
    CollapseSpacesIsCollapsed(t);
    CollapsedTrim(CollapseSpaces(t));
  }

  /** A normalised text has single, isolated spaces and none at either end;
      a falsy input gives "". */
  lemma NormalizeTextShape(v: Option<Json>, stringify: Json -> string)
    ensures Collapsed(NormalizeText(v, stringify))
    ensures var r := NormalizeText(v, stringify); r == [] || (!IsSpace(r[0]) && !IsSpace(r[|r| - 1]))
    ensures !Present(v) ==> NormalizeText(v, stringify) == []
  {
    CollapseTrimCollapsed(TextOf(v, stringify));
    TrimShape(CollapseSpaces(TextOf(v, stringify)));
  }

  /** A string given as the value is its own text: a non-empty string is
      truthy, and the empty one is falsy and gives "" all the same. */
  lemma TextOfString(s: string, stringify: Json -> string)
    ensures TextOf(Some(JStr(s)), stringify) == s
  {
    if s != [] {
      assert Present(Some(JStr(s)));
    } else {
      assert !Present(Some(JStr(s)));
    }
  }

  /** Normalising a normalised text changes nothing. */
  lemma NormalizeTextIdempotent(v: Option<Json>, stringify: Json -> string)
    ensures var once := NormalizeText(v, stringify);
      NormalizeText(Some(JStr(once)), stringify) == once
  {
    var once := NormalizeText(v, stringify);
    NormalizeTextShape(v, stringify);
    TextOfString(once, stringify);
    CollapseSpacesFixesCollapsed(once);
    assert CollapseSpaces(once) == once;
    TrimFixesTrimmed(once);
    assert Trim(once) == once;
  }

  // ---------------------------------------------------------- decisions

  function NameField(lang: string): string { "name_" + lang }
  function DescField(lang: string): string { "description_" + lang }

  /** The column names of different languages differ, and no name column
      is a description column. */
  lemma FieldsDistinct(a: string, b: string)
    ensures NameField(a) == NameField(b) ==> a == b
    ensures DescField(a) == DescField(b) ==> a == b
    ensures NameField(a) != DescField(b)
  {
    assert NameField(a)[5..] == a && NameField(b)[5..] == b;
    assert DescField(a)[12..] == a && DescField(b)[12..] == b;
    assert NameField(a)[0] == 'n' && DescField(b)[0] == 'd';
  }

  /** `fetchGoogleData(placeId, lang)`: `None` when it returns null (error
      status or network error); `fetched` holds the `result` of each
      language whose request succeeded. */
  function Fetch(fetched: map<string, Json>, lang: string): Option<Json> {
    if lang in fetched then Some(fetched[lang]) else None
  }

  /** `result.name || null`. */
  function NameOf(result: Json): Option<Json> {
    var n := Prop(result, "name");
    if Present(n) then n else None
  }

  /** `result?.editorial_summary?.overview || null`. */
  function OverviewOf(result: Option<Json>): Option<Json> {
    if result.None? then None
    else
      var es := Prop(result.value, "editorial_summary");
      if es.None? then None
      else
        var o := Prop(es.value, "overview");
        if Present(o) then o else None
  }

  /** The existing column value, `existing[field]`. */
  function Column(existing: map<string, Json>, field: string): Option<Json> {
    if field in existing then Some(existing[field]) else None
  }

  /** FORCE, or the column does not yet hold a non-empty string. */
  predicate MayWrite(s: Settings, existing: map<string, Json>, field: string) {
    s.force || !IsNonEmptyString(Column(existing, field))
  }

  /** The value planned for `name_<lang>`. */
  function NameDecision(s: Settings, existing: map<string, Json>, fetched: map<string, Json>, lang: string): Option<Json> {
    var result := Fetch(fetched, lang);
    if !Present(result) then None
    else match NameOf(result.value)
      case None => None
      case Some(n) =>
        if MayWrite(s, existing, NameField(lang)) then Some(n) else None
  }

  /** The description the same-as-English rule holds back. */
  predicate SameAsEnglish(s: Settings, lang: string, desc: Json, enDesc: Option<Json>, stringify: Json -> string) {
    s.skipIfSameAsEn && lang != "en" && IsNonEmptyString(enDesc)
      && NormalizeText(Some(desc), stringify) == NormalizeText(enDesc, stringify)
  }

  /** The value planned for `description_<lang>`. */
  function DescDecision(s: Settings, existing: map<string, Json>, fetched: map<string, Json>, lang: string,
                        stringify: Json -> string): Option<Json> {
    var result := Fetch(fetched, lang);
    var enDesc := OverviewOf(Fetch(fetched, "en"));
    if !Present(result) then None
    else match OverviewOf(result)
      case None => None
      case Some(d) =>
        if SameAsEnglish(s, lang, d, enDesc, stringify) then None
        else if MayWrite(s, existing, DescField(lang)) then Some(d)
        else None
  }

  /** The `updates` dictionary after one more language. */
  function PlanLang(s: Settings, existing: map<string, Json>, fetched: map<string, Json>, lang: string,
                    stringify: Json -> string, updates: map<string, Json>): map<string, Json> {
    var u := match NameDecision(s, existing, fetched, lang)
      case None => updates
      case Some(n) => updates[NameField(lang) := n];
    match DescDecision(s, existing, fetched, lang, stringify)
    case None => u
    case Some(d) => u[DescField(lang) := d]
  }

  /** The `updates` dictionary after the languages `langs`, in order. */
  function Plan(s: Settings, existing: map<string, Json>, fetched: map<string, Json>, langs: seq<string>,
                stringify: Json -> string): map<string, Json>
    decreases |langs|
  {
    if langs == [] then map[]
    else PlanLang(s, existing, fetched, langs[|langs| - 1], stringify,
                  Plan(s, existing, fetched, langs[..|langs| - 1], stringify))
  }

  /** One pass of the language loop: the name first, then the description
      unless the same-as-English rule skips the rest of the pass. */
  method PlanLanguage(s: Settings, existing: map<string, Json>, fetched: map<string, Json>, lang: string,
                      enResult: Option<Json>, enDesc: Option<Json>, stringify: Json -> string, updates: map<string, Json>)
    returns (next: map<string, Json>)
    requires enResult == Fetch(fetched, "en") && enDesc == OverviewOf(enResult)
    ensures next == PlanLang(s, existing, fetched, lang, stringify, updates)
  {
    next := updates;
    var result := if lang == "en" then enResult else Fetch(fetched, lang);
    assert result == Fetch(fetched, lang);
    if !Present(result) {
      assert NameDecision(s, existing, fetched, lang).None?;
      assert DescDecision(s, existing, fetched, lang, stringify).None?;
      return;
    }
    var newName := NameOf(result.value);
    var newDesc := OverviewOf(result);
    assert NameDecision(s, existing, fetched, lang) ==
      if newName.Some? && MayWrite(s, existing, NameField(lang)) then newName else None;
    assert DescDecision(s, existing, fetched, lang, stringify) ==
      if newDesc.None? || SameAsEnglish(s, lang, newDesc.value, enDesc, stringify) then None
      else if MayWrite(s, existing, DescField(lang)) then newDesc else None;
    if newName.Some? && MayWrite(s, existing, NameField(lang)) {
      next := next[NameField(lang) := newName.value];
    }
    assert next == match NameDecision(s, existing, fetched, lang)
      case None => updates
      case Some(n) => updates[NameField(lang) := n];
    if newDesc.Some? {
      if SameAsEnglish(s, lang, newDesc.value, enDesc, stringify) {
        return;
      }
      if MayWrite(s, existing, DescField(lang)) {
        next := next[DescField(lang) := newDesc.value];
      }
    }
  }

  /** The language loop of `main`, building `updates` in place. */
  method PlanUpdates(s: Settings, existing: map<string, Json>, fetched: map<string, Json>, stringify: Json -> string)
    returns (updates: map<string, Json>)
    ensures updates == Plan(s, existing, fetched, FillLanguages, stringify)
  {
    var enResult := Fetch(fetched, "en");
    var enDesc := OverviewOf(enResult);
    updates := map[];
    var langs := FillLanguages;
    for i := 0 to |langs|
      invariant updates == Plan(s, existing, fetched, langs[..i], stringify)
    {
      assert langs[..i + 1][..i] == langs[..i];
      updates := PlanLanguage(s, existing, fetched, langs[i], enResult, enDesc, stringify, updates);
    }
    assert langs[..|langs|] == langs;
  }

  /** Every planned column is a name or description of one of the languages. */
  lemma {:induction false} PlanKeys(s: Settings, existing: map<string, Json>, fetched: map<string, Json>,
                                    langs: seq<string>, stringify: Json -> string)
    ensures forall k :: k in Plan(s, existing, fetched, langs, stringify) ==>
      exists l :: l in langs && (k == NameField(l) || k == DescField(l))
    decreases |langs|
  {
    if langs != [] {
      var init := langs[..|langs| - 1];
      var last := langs[|langs| - 1];
      PlanKeys(s, existing, fetched, init, stringify);
      var before := Plan(s, existing, fetched, init, stringify);
      forall k | k in Plan(s, existing, fetched, langs, stringify)
        ensures exists l :: l in langs && (k == NameField(l) || k == DescField(l))
      {
        if k in before {
          var l :| l in init && (k == NameField(l) || k == DescField(l));
          assert l in langs;
        } else {
          assert last in langs;
        }
      }
    }
  }

  /** A pass for another language leaves the columns of `l` as they were. */
  lemma PlanLangOther(s: Settings, existing: map<string, Json>, fetched: map<string, Json>, lang: string,
                      l: string, stringify: Json -> string, updates: map<string, Json>)
    requires l != lang
    ensures var p := PlanLang(s, existing, fetched, lang, stringify, updates);
      && (NameField(l) in p <==> NameField(l) in updates)
      && (NameField(l) in p ==> p[NameField(l)] == updates[NameField(l)])
      && (DescField(l) in p <==> DescField(l) in updates)
      && (DescField(l) in p ==> p[DescField(l)] == updates[DescField(l)])
  {
    FieldsDistinct(l, lang);
    FieldsDistinct(lang, l);
  }

  /** The pass for `l`, starting without columns of `l`, plans exactly its
      decisions. */
  lemma PlanLangSame(s: Settings, existing: map<string, Json>, fetched: map<string, Json>,
                     l: string, stringify: Json -> string, updates: map<string, Json>)
    requires NameField(l) !in updates && DescField(l) !in updates
    ensures var p := PlanLang(s, existing, fetched, l, stringify, updates);
      && (NameField(l) in p <==> NameDecision(s, existing, fetched, l).Some?)
      && (NameField(l) in p ==> p[NameField(l)] == NameDecision(s, existing, fetched, l).value)
      && (DescField(l) in p <==> DescDecision(s, existing, fetched, l, stringify).Some?)
      && (DescField(l) in p ==> p[DescField(l)] == DescDecision(s, existing, fetched, l, stringify).value)
  {
    FieldsDistinct(l, l);
  }

  /** What `updates` holds for language `l` of the (distinct) languages:
      the name and the description planned for it. */
  lemma {:induction false} PlanAt(s: Settings, existing: map<string, Json>, fetched: map<string, Json>,
                                  langs: seq<string>, l: string, stringify: Json -> string)
    requires forall i, j :: 0 <= i < j < |langs| ==> langs[i] != langs[j]
    requires l in langs
    ensures var p := Plan(s, existing, fetched, langs, stringify);
      && (NameField(l) in p <==> NameDecision(s, existing, fetched, l).Some?)
      && (NameField(l) in p ==> p[NameField(l)] == NameDecision(s, existing, fetched, l).value)
      && (DescField(l) in p <==> DescDecision(s, existing, fetched, l, stringify).Some?)
      && (DescField(l) in p ==> p[DescField(l)] == DescDecision(s, existing, fetched, l, stringify).value)
    decreases |langs|
  {
    var init := langs[..|langs| - 1];
    var last := langs[|langs| - 1];
    var before := Plan(s, existing, fetched, init, stringify);
    if l == last {
      forall j | 0 <= j < |init|
        ensures init[j] != last
      {
        assert init[j] == langs[j];
      }
      PlanKeys(s, existing, fetched, init, stringify);
      forall k | k in before
        ensures k != NameField(l) && k != DescField(l)
      {
        var m :| m in init && (k == NameField(m) || k == DescField(m));
        FieldsDistinct(m, l);
        FieldsDistinct(l, m);
      }
      PlanLangSame(s, existing, fetched, l, stringify, before);
    } else {
      assert l in init by {
        var j :| 0 <= j < |langs| && langs[j] == l;
        assert j < |langs| - 1 && init[j] == l;
      }
      PlanAt(s, existing, fetched, init, l, stringify);
      PlanLangOther(s, existing, fetched, last, l, stringify, before);
    }
  }

  /** Write-if-empty: without FORCE, a column that holds a non-empty string
      is never planned. */
  lemma NeverOverwrites(s: Settings, existing: map<string, Json>, fetched: map<string, Json>, l: string,
                        stringify: Json -> string)
    requires !s.force && l in FillLanguages
    ensures IsNonEmptyString(Column(existing, NameField(l))) ==> NameField(l) !in Plan(s, existing, fetched, FillLanguages, stringify)
    ensures IsNonEmptyString(Column(existing, DescField(l))) ==> DescField(l) !in Plan(s, existing, fetched, FillLanguages, stringify)
  {
    FillLanguagesDistinct();
    PlanAt(s, existing, fetched, FillLanguages, l, stringify);
  }

  /** With the same-as-English rule on, a non-English description that
      normalises to the non-empty English one is never planned. */
  lemma SameAsEnglishNeverWritten(s: Settings, existing: map<string, Json>, fetched: map<string, Json>, l: string,
                                  stringify: Json -> string)
    requires l in FillLanguages
    requires var d := OverviewOf(Fetch(fetched, l));
      d.Some? && SameAsEnglish(s, l, d.value, OverviewOf(Fetch(fetched, "en")), stringify)
    ensures DescField(l) !in Plan(s, existing, fetched, FillLanguages, stringify)
  {
    assert DescDecision(s, existing, fetched, l, stringify).None?;
    FillLanguagesDistinct();
    PlanAt(s, existing, fetched, FillLanguages, l, stringify);
  }

  /** A language whose request failed contributes no column. */
  lemma FailedFetchContributesNothing(s: Settings, existing: map<string, Json>, fetched: map<string, Json>,
                                      l: string, stringify: Json -> string)
    requires l in FillLanguages && !Present(Fetch(fetched, l))
    ensures var p := Plan(s, existing, fetched, FillLanguages, stringify);
      NameField(l) !in p && DescField(l) !in p
  {
    FillLanguagesDistinct();
    PlanAt(s, existing, fetched, FillLanguages, l, stringify);
  }

  // ---------------------------------------------------------- the table

  /** The row of `google_place_id` after `main`'s step for it:
      nothing without an existing row (or when reading it fails), nothing
      when `updates` is empty or the update fails, otherwise the planned
      columns overwrite the row's. */
  function FillStep(s: Settings, rows: map<string, map<string, Json>>, id: Option<string>,
                    google: map<string, map<string, Json>>, readFaults: set<string>, updateFaults: set<string>,
                    stringify: Json -> string): map<string, map<string, Json>>
  {
    if id.None? || id.value !in rows || id.value in readFaults then rows
    else
      var fetched := if id.value in google then google[id.value] else map[];
      var updates := Plan(s, rows[id.value], fetched, FillLanguages, stringify);
      if |updates| == 0 || id.value in updateFaults then rows
      else rows[id.value := rows[id.value] + updates]
  }

  function FillRun(s: Settings, rows: map<string, map<string, Json>>, ids: seq<Option<string>>,
                   google: map<string, map<string, Json>>, readFaults: set<string>, updateFaults: set<string>,
                   stringify: Json -> string): map<string, map<string, Json>>
    decreases |ids|
  {
    if ids == [] then rows
    else FillRun(s, FillStep(s, rows, ids[0], google, readFaults, updateFaults, stringify), ids[1..],
                 google, readFaults, updateFaults, stringify)
  }

  /** `locations`, keyed by `google_place_id`, each row a map from column
      name to value. */
  class LocationTable {
    var rows: map<string, map<string, Json>>

    constructor(initial: map<string, map<string, Json>>)
      ensures rows == initial
    {
      rows := initial;
    }

    /** `updateLocation(placeId, updates)`: the listed columns are set on
        the place's row; a failing update changes nothing. */
    method UpdateLocation(placeId: string, updates: map<string, Json>, updateFaults: set<string>)
      modifies this
      ensures rows == if placeId in old(rows) && placeId !in updateFaults
                      then old(rows)[placeId := old(rows)[placeId] + updates] else old(rows)
    {
      if placeId in rows && placeId !in updateFaults {
        rows := rows[placeId := rows[placeId] + updates];
      }
    }

    /** `main` after reading the file: each place in turn. A null entry
        makes the id mapping throw before any place is handled. */
    method Fill(s: Settings, rawData: seq<Json>, google: map<string, map<string, Json>>,
                readFaults: set<string>, updateFaults: set<string>, stringify: Json -> string)
      modifies this
      ensures PlaceIds(rawData).None? ==> rows == old(rows)
      ensures PlaceIds(rawData).Some? ==>
        rows == FillRun(s, old(rows), PlaceIds(rawData).value, google, readFaults, updateFaults, stringify)
    {
      var placeIds := PlaceIds(rawData);
      if placeIds.None? {
        return;
      }
      var ids := placeIds.value;
      var i := 0;
      while i < |ids|
        invariant 0 <= i <= |ids|
        invariant FillRun(s, rows, ids[i..], google, readFaults, updateFaults, stringify)
               == FillRun(s, old(rows), ids, google, readFaults, updateFaults, stringify)
      {
        assert ids[i..][0] == ids[i] && ids[i..][1..] == ids[i + 1..];
        var id := ids[i];
        i := i + 1;
        if id.None? || id.value !in rows || id.value in readFaults {
          continue;
        }
        var existing := rows[id.value];
        var fetched := if id.value in google then google[id.value] else map[];
        var updates := PlanUpdates(s, existing, fetched, stringify);
        if |updates| > 0 {
          UpdateLocation(id.value, updates, updateFaults);
        }
      }
    }
  }

  /** Column `f` of row `id` holds a non-empty string in `rows` and the
      same value in `r`. */
  predicate KeepsColumn(rows: map<string, map<string, Json>>, r: map<string, map<string, Json>>, id: string, f: string) {
    (id in rows && f in rows[id] && IsNonEmptyString(Some(rows[id][f]))) ==>
      (id in r && f in r[id] && r[id][f] == rows[id][f])
  }

  /** A run never adds or removes a row, and without FORCE it never changes
      a name or description column that holds a non-empty string. */
  lemma {:induction false} FillKeepsFilledColumns(s: Settings, rows: map<string, map<string, Json>>, ids: seq<Option<string>>,
                                                  google: map<string, map<string, Json>>, readFaults: set<string>,
                                                  updateFaults: set<string>, stringify: Json -> string,
                                                  id: string, l: string)
    requires !s.force && l in FillLanguages
    ensures var r := FillRun(s, rows, ids, google, readFaults, updateFaults, stringify);
      && r.Keys == rows.Keys
      && KeepsColumn(rows, r, id, NameField(l))
      && KeepsColumn(rows, r, id, DescField(l))
    decreases |ids|
  {
    if ids != [] {
      var next := FillStep(s, rows, ids[0], google, readFaults, updateFaults, stringify);
      if ids[0].Some? && ids[0].value in rows && ids[0].value !in readFaults && id == ids[0].value {
        var fetched := if id in google then google[id] else map[];
        NeverOverwrites(s, rows[id], fetched, l, stringify);
      }
      assert next.Keys == rows.Keys;
      assert KeepsColumn(rows, next, id, NameField(l)) && KeepsColumn(rows, next, id, DescField(l));
      FillKeepsFilledColumns(s, next, ids[1..], google, readFaults, updateFaults, stringify, id, l);
    }
  }
}
