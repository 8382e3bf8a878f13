/** Attribute discovery's effect: the three scanner scripts fetch a place's
    details, extract its keys and insert an inactive definition into
    `attribute_definitions` for every key not registered yet. They differ in
    where the category comes from, in the languages a new row names, in the
    property-access form of `determineType`, and in whether a failed insert
    abandons the rest of the place. */
module AttributeRegistry {
  import opened Wrappers
  import opened JsText
  import opened JsonValue
  import opened KeyDiscovery

  /** A row of `attribute_definitions` as the scanners write it. `names` and
      `descriptions` map a language code to the `name_xx` / `description_xx`
      column; the category is whatever value the category source holds. */
  datatype Definition = Definition(
    categoryId: Json,
    key: string,
    names: map<string, string>,
    descriptions: map<string, string>,
    inputType: Kind,
    isActive: bool)

  /** Which scanner runs: `import_attribute_definitions.js` (with the
      place-to-category map it loads), `extract_place_keys.js` or
      `attribute_scan.js`. */
  datatype Variant =
    | ImportDefinitions(categoryMap: map<string, Json>)
    | ExtractPlaceKeys
    | AttributeScan
  {
    /** The property-access form of this script's `determineType`. */
    function PathAccess(): Access {
      if ExtractPlaceKeys? then OptionalAccess else TruthyAccess
    }

    /** The languages whose name and description columns a new row fills. */
    function Languages(): seq<string> {
      if AttributeScan? then ["de", "en", "it", "hr", "fr"] else ["de"]
    }

    /** Whether `insertAttributeDefinition` throws on a database error
        (ending the place) rather than logging it. */
    predicate InsertErrorStops() {
      ExtractPlaceKeys?
    }

    /** The category a place's new definitions get; `None` when the place is
        skipped because `categoryMap[placeId]` is missing or falsy. */
    function CategoryFor(placeId: string): (r: Option<Json>)
      ensures r.Some? ==> Truthy(r.value)
      ensures !ImportDefinitions? ==> r == Some(JNum(1.0))
      ensures ImportDefinitions? ==> (r.Some? <==> placeId in categoryMap && Truthy(categoryMap[placeId]))
    {
      match this
      case ImportDefinitions(m) =>
        if placeId in m && Truthy(m[placeId]) then Some(m[placeId]) else None
      case _ => Some(JNum(1.0))
    }
  }

  /** The row `insertAttributeDefinition` inserts: inactive, the key as the
      name and "" as the description in every language of the variant. */
  function NewDefinition(v: Variant, key: string, kind: Kind, category: Json): (d: Definition)
    ensures d.key == key && d.inputType == kind && d.categoryId == category && !d.isActive
    ensures d.names.Keys == d.descriptions.Keys && "de" in d.names
    ensures forall l :: l in d.names ==> l in v.Languages() && d.names[l] == key && d.descriptions[l] == ""
    ensures forall l :: l in v.Languages() ==> l in d.names
  {
    Definition(
      category,
      key,
      map l | l in v.Languages() :: key,
      map l | l in v.Languages() :: "",
      kind,
      false)
  }

  /** The definition scanning key `k` of record `d` would create. */
  function DefinitionFor(v: Variant, d: Json, k: string, category: Json): Definition {
    NewDefinition(v, k, KindOf(Resolve(v.PathAccess(), Some(d), Split(k, '.'))), category)
  }

  /** The registry after the key loop of one place, from the `j`-th key on.
      `checkFaults` holds the positions at which `attributeExists` meets a
      database error (it throws, ending the place); `insertFaults` those at
      which the insert fails. */
  function ScanKeys(v: Variant, defs: map<string, Definition>, d: Json, category: Json,
                    keys: seq<string>, j: nat, checkFaults: set<nat>, insertFaults: set<nat>)
    : map<string, Definition>
    requires j <= |keys|
    decreases |keys| - j
  {
    if j == |keys| || j in checkFaults then defs
    else if keys[j] in defs then ScanKeys(v, defs, d, category, keys, j + 1, checkFaults, insertFaults)
    else if j in insertFaults then
      if v.InsertErrorStops() then defs
      else ScanKeys(v, defs, d, category, keys, j + 1, checkFaults, insertFaults)
    else
      ScanKeys(v, defs[keys[j] := DefinitionFor(v, d, keys[j], category)], d, category,
               keys, j + 1, checkFaults, insertFaults)
  }

  /** The positions of the faults that concern place `id`. */
  function FaultsOf(faults: set<(string, nat)>, id: string): set<nat> {
    set f | f in faults && f.0 == id :: f.1
  }

  /** One place's effect: skipped without a category or when the provider
      answers with an error status (`provider` has no record for it). */
  function PlaceEffect(v: Variant, defs: map<string, Definition>, id: string, provider: map<string, Json>,
                       checkFaults: set<(string, nat)>, insertFaults: set<(string, nat)>)
    : map<string, Definition>
  {
    match v.CategoryFor(id)
    case None => defs
    case Some(category) =>
      if id !in provider then defs
      else
        ScanKeys(v, defs, provider[id], category, Flatten(provider[id], ""), 0,
                 FaultsOf(checkFaults, id), FaultsOf(insertFaults, id))
  }

  /** The registry after scanning the places in order. */
  function RunPlaces(v: Variant, defs: map<string, Definition>, ids: seq<string>, provider: map<string, Json>,
                     checkFaults: set<(string, nat)>, insertFaults: set<(string, nat)>)
    : map<string, Definition>
    decreases |ids|
  {
    if ids == [] then defs
    else RunPlaces(v, PlaceEffect(v, defs, ids[0], provider, checkFaults, insertFaults),
                   ids[1..], provider, checkFaults, insertFaults)
  }

  /** The `attribute_definitions` table. */
  class Registry {
    var defs: map<string, Definition>

    constructor(initial: map<string, Definition>)
      ensures defs == initial
    {
      defs := initial;
    }

    /** The key loop of one place: check existence, classify, insert. */
    method ScanPlace(v: Variant, d: Json, category: Json, checkFaults: set<nat>, insertFaults: set<nat>)
      modifies this
      ensures defs == ScanKeys(v, old(defs), d, category, Flatten(d, ""), 0, checkFaults, insertFaults)
    {
      var keys := ExtractKeys(d, "");
      var j := 0;
      while j < |keys|
        invariant 0 <= j <= |keys|
        invariant ScanKeys(v, defs, d, category, keys, j, checkFaults, insertFaults)
               == ScanKeys(v, old(defs), d, category, keys, 0, checkFaults, insertFaults)
      {
        var key := keys[j];
        if j in checkFaults {
          break;
        }
        var registered := key in defs;
        if !registered {
          var kind := DetermineType(v.PathAccess(), d, key);
          if j in insertFaults {
            if v.InsertErrorStops() {
              break;
            }
          } else {
            defs := defs[key := NewDefinition(v, key, kind, category)];
          }
        }
        j := j + 1;
      }
    }

    /** The main loop over the input file's place ids; a single-place run
        of `attribute_scan.js` is the list of its one id. */
    method Run(v: Variant, ids: seq<string>, provider: map<string, Json>,
               checkFaults: set<(string, nat)>, insertFaults: set<(string, nat)>)
      modifies this
      ensures defs == RunPlaces(v, old(defs), ids, provider, checkFaults, insertFaults)
    {
      var i := 0;
      while i < |ids|
        invariant 0 <= i <= |ids|
        invariant RunPlaces(v, defs, ids[i..], provider, checkFaults, insertFaults)
               == RunPlaces(v, old(defs), ids, provider, checkFaults, insertFaults)
      {
        assert ids[i..][1..] == ids[i + 1..];
        var id := ids[i];
        var category := v.CategoryFor(id);
        if category.Some? && id in provider {
          ScanPlace(v, provider[id], category.value, FaultsOf(checkFaults, id), FaultsOf(insertFaults, id));
        }
        i := i + 1;
      }
    }
  }

  // ---------------------------------------------------------------- lemmas

  /** Scanning never changes or removes an existing definition. */
  lemma {:induction false} ScanKeysKeepsExisting(v: Variant, defs: map<string, Definition>, d: Json, category: Json,
                                                 keys: seq<string>, j: nat, checkFaults: set<nat>, insertFaults: set<nat>)
    requires j <= |keys|
    ensures var r := ScanKeys(v, defs, d, category, keys, j, checkFaults, insertFaults);
      forall k :: k in defs ==> k in r && r[k] == defs[k]
    decreases |keys| - j
  {
    if j < |keys| && j !in checkFaults {
      var defs' := if keys[j] in defs || j in insertFaults then defs
                   else defs[keys[j] := DefinitionFor(v, d, keys[j], category)];
      if !(keys[j] !in defs && j in insertFaults && v.InsertErrorStops()) {
        ScanKeysKeepsExisting(v, defs', d, category, keys, j + 1, checkFaults, insertFaults);
      }
    }
  }

  lemma NewRowsStep(v: Variant, d: Json, category: Json, defs: map<string, Definition>, defs': map<string, Definition>,
                    r: map<string, Definition>, keys: seq<string>, j: nat)
    requires j < |keys|
    requires forall k :: k in defs' && k !in defs ==> k == keys[j] && defs'[k] == DefinitionFor(v, d, k, category)
    requires forall k :: k in defs' ==> k in r && r[k] == defs'[k]
    requires forall k :: k in r && k !in defs' ==> k in keys[j + 1..] && r[k] == DefinitionFor(v, d, k, category)
    ensures forall k :: k in r && k !in defs ==> k in keys[j..] && r[k] == DefinitionFor(v, d, k, category)
  {
    assert keys[j..] == [keys[j]] + keys[j + 1..];
  }

  /** Every definition a scan adds is the new inactive row for one of the
      scanned keys. */
  lemma {:induction false} ScanKeysAddsNewRows(v: Variant, defs: map<string, Definition>, d: Json, category: Json,
                                               keys: seq<string>, j: nat, checkFaults: set<nat>, insertFaults: set<nat>)
    requires j <= |keys|
    ensures var r := ScanKeys(v, defs, d, category, keys, j, checkFaults, insertFaults);
      forall k :: k in r && k !in defs ==> k in keys[j..] && r[k] == DefinitionFor(v, d, k, category)
    decreases |keys| - j
  {
    if j < |keys| && j !in checkFaults {
      var r := ScanKeys(v, defs, d, category, keys, j, checkFaults, insertFaults);
      var defs' := if keys[j] in defs || j in insertFaults then defs
                   else defs[keys[j] := DefinitionFor(v, d, keys[j], category)];
      if !(keys[j] !in defs && j in insertFaults && v.InsertErrorStops()) {
        assert r == ScanKeys(v, defs', d, category, keys, j + 1, checkFaults, insertFaults);
        ScanKeysAddsNewRows(v, defs', d, category, keys, j + 1, checkFaults, insertFaults);
        ScanKeysKeepsExisting(v, defs', d, category, keys, j + 1, checkFaults, insertFaults);
        NewRowsStep(v, d, category, defs, defs', r, keys, j);
      }
    }
  }

  /** Without database errors on existence checks, every key whose insert
      does not fail ends up registered, unless this variant's failing insert
      has abandoned the place. */
  lemma {:induction false} ScanKeysRegisters(v: Variant, defs: map<string, Definition>, d: Json, category: Json,
                                             keys: seq<string>, j: nat, checkFaults: set<nat>, insertFaults: set<nat>)
    requires j <= |keys|
    requires forall m :: j <= m < |keys| ==> m !in checkFaults
    requires v.InsertErrorStops() ==> forall m :: j <= m < |keys| ==> m !in insertFaults
    ensures var r := ScanKeys(v, defs, d, category, keys, j, checkFaults, insertFaults);
      forall m :: j <= m < |keys| && m !in insertFaults ==> keys[m] in r
    decreases |keys| - j
  {
    if j < |keys| {
      var r := ScanKeys(v, defs, d, category, keys, j, checkFaults, insertFaults);
      var defs' := if keys[j] in defs || j in insertFaults then defs
                   else defs[keys[j] := DefinitionFor(v, d, keys[j], category)];
      assert r == ScanKeys(v, defs', d, category, keys, j + 1, checkFaults, insertFaults);
      ScanKeysRegisters(v, defs', d, category, keys, j + 1, checkFaults, insertFaults);
      ScanKeysKeepsExisting(v, defs', d, category, keys, j + 1, checkFaults, insertFaults);
    }
  }

  /** A database error on the existence check at position `m`, or (for
      `extract_place_keys.js`) a failed insert there, abandons the place: no
      key after it is registered. */
  lemma {:induction false} ScanKeysAbandons(v: Variant, defs: map<string, Definition>, d: Json, category: Json,
                                            keys: seq<string>, j: nat, m: nat, checkFaults: set<nat>, insertFaults: set<nat>)
    requires j <= m < |keys|
    requires m in checkFaults || (v.InsertErrorStops() && m in insertFaults && keys[m] !in defs && keys[m] !in keys[j..m])
    ensures var r := ScanKeys(v, defs, d, category, keys, j, checkFaults, insertFaults);
      forall k :: k in r && k !in defs ==> k in keys[j..m]
    decreases m - j
  {
    var r := ScanKeys(v, defs, d, category, keys, j, checkFaults, insertFaults);
    if j == m {
      assert r == defs;
    } else if j in checkFaults || (keys[j] !in defs && j in insertFaults && v.InsertErrorStops()) {
      assert r == defs;
    } else {
      var defs' := if keys[j] in defs || j in insertFaults then defs
                   else defs[keys[j] := DefinitionFor(v, d, keys[j], category)];
      assert r == ScanKeys(v, defs', d, category, keys, j + 1, checkFaults, insertFaults);
      assert keys[j..m] == [keys[j]] + keys[j + 1..m];
      assert keys[j + 1..m] == keys[j..m][1..];
      ScanKeysAbandons(v, defs', d, category, keys, j + 1, m, checkFaults, insertFaults);
    }
  }

  /** One place's effect: existing definitions are untouched; every new one
      is an inactive row for a key extracted from that place's record, typed
      by `determineType` and carrying the place's category; an uncategorised
      or unfetchable place changes nothing. */
  lemma PlaceEffectOnlyAdds(v: Variant, defs: map<string, Definition>, id: string, provider: map<string, Json>,
                            checkFaults: set<(string, nat)>, insertFaults: set<(string, nat)>)
    ensures var r := PlaceEffect(v, defs, id, provider, checkFaults, insertFaults);
      && (forall k :: k in defs ==> k in r && r[k] == defs[k])
      && (v.CategoryFor(id).None? || id !in provider ==> r == defs)
      && (forall k :: k in r && k !in defs ==>
            && id in provider && v.CategoryFor(id).Some?
            && k in Flatten(provider[id], "")
            && r[k] == DefinitionFor(v, provider[id], k, v.CategoryFor(id).value))
  {
    if v.CategoryFor(id).Some? && id in provider {
      ScanKeysKeepsExisting(v, defs, provider[id], v.CategoryFor(id).value, Flatten(provider[id], ""), 0,
                            FaultsOf(checkFaults, id), FaultsOf(insertFaults, id));
      ScanKeysAddsNewRows(v, defs, provider[id], v.CategoryFor(id).value, Flatten(provider[id], ""), 0,
                          FaultsOf(checkFaults, id), FaultsOf(insertFaults, id));
      assert Flatten(provider[id], "")[0..] == Flatten(provider[id], "");
    }
  }

  /** A fetched, categorised place without database errors registers every
      key extracted from its record. */
  lemma PlaceEffectRegistersAll(v: Variant, defs: map<string, Definition>, id: string, provider: map<string, Json>)
    requires v.CategoryFor(id).Some? && id in provider
    ensures var r := PlaceEffect(v, defs, id, provider, {}, {});
      forall k :: k in Flatten(provider[id], "") ==> k in r
  {
    var keys := Flatten(provider[id], "");
    assert FaultsOf({}, id) == {};
    ScanKeysRegisters(v, defs, provider[id], v.CategoryFor(id).value, keys, 0, {}, {});
    forall k | k in keys
      ensures k in PlaceEffect(v, defs, id, provider, {}, {})
    {
      var m :| 0 <= m < |keys| && keys[m] == k;
    }
  }

  /** Places are processed independently: scanning `a + b` is scanning `a`
      and then `b` from wherever `a` left the registry, so an error in one
      place never prevents the scan of a later one. */
  lemma {:induction false} RunPlacesAppend(v: Variant, defs: map<string, Definition>, a: seq<string>, b: seq<string>,
                                           provider: map<string, Json>,
                                           checkFaults: set<(string, nat)>, insertFaults: set<(string, nat)>)
    ensures RunPlaces(v, defs, a + b, provider, checkFaults, insertFaults)
         == RunPlaces(v, RunPlaces(v, defs, a, provider, checkFaults, insertFaults), b, provider, checkFaults, insertFaults)
    decreases |a|
  {
    if a == [] {
      assert a + b == b;
    } else {
      assert (a + b)[0] == a[0] && (a + b)[1..] == a[1..] + b;
      RunPlacesAppend(v, PlaceEffect(v, defs, a[0], provider, checkFaults, insertFaults), a[1..], b,
                      provider, checkFaults, insertFaults);
    }
  }

  /** A whole run never modifies an existing definition, and every definition
      it adds is inactive, named after its own key in the variant's
      languages, and belongs to the category of some scanned place. */
  lemma {:induction false} RunPlacesOnlyAdds(v: Variant, defs: map<string, Definition>, ids: seq<string>,
                                             provider: map<string, Json>,
                                             checkFaults: set<(string, nat)>, insertFaults: set<(string, nat)>)
    ensures var r := RunPlaces(v, defs, ids, provider, checkFaults, insertFaults);
      && (forall k :: k in defs ==> k in r && r[k] == defs[k])
      && (forall k :: k in r && k !in defs ==>
            && !r[k].isActive && r[k].key == k && Truthy(r[k].categoryId)
            && r[k].names.Keys == r[k].descriptions.Keys
            && (forall l :: l in r[k].names ==> l in v.Languages() && r[k].names[l] == k && r[k].descriptions[l] == ""))
    decreases |ids|
  {
    if ids != [] {
      var defs' := PlaceEffect(v, defs, ids[0], provider, checkFaults, insertFaults);
      PlaceEffectOnlyAdds(v, defs, ids[0], provider, checkFaults, insertFaults);
      RunPlacesOnlyAdds(v, defs', ids[1..], provider, checkFaults, insertFaults);
    }
  }

  /** For a record with plain field names, the type recorded for a newly
      registered key is the kind of the leaf the key names: json exactly
      for an array, never an object. */
  lemma NewDefinitionTypedByLeaf(v: Variant, d: Json, i: nat, category: Json)
    requires d.JObj? && WellFormed(d) && PlainKeys(d) && i < |Flatten(d, "")|
    ensures i < |LeafPaths(d)|
    ensures DefinitionFor(v, d, Flatten(d, "")[i], category).inputType
         == KindOf(ObjWalk(d, LeafPaths(d)[i]))
  {
    ExtractedKeyKind(v.PathAccess(), d, i);
  }
}
