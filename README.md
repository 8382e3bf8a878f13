# Place-details import scripts, modelled in Dafny

The scripts of this repository turn Google Place Details records into rows
of a Supabase database for a places catalogue. This project models their logic:

- **Attribute discovery.** `import_attribute_definitions.js`,
  `extract_place_keys.js` and `attribute_scan.js` do the same job.
  - `extractKeys` flattens a details record into dot-path keys.
  - `determineType` classifies the value at a key as `text`, `boolean`,
    `number` or `json`.
  - The scan loop inserts an inactive `attribute_definitions` row for each
    key that is not registered yet.
  - The three scripts differ in four ways: where the category comes from,
    which languages a new row names, the property-access form of
    `determineType`, and whether a failed insert abandons the place.
- **Value materialisation.** `enrich_location_values.js` resolves an
  attribute's key path in a place's details. It fans the value out to
  languages and translates multilingual text, with fallbacks. It coerces the
  value by `input_type` into exactly one value column of `location_values`.
  It saves the photo list as one snapshot row. Every write is an upsert
  keyed by (location, attribute, language).
- **The older enrichment script.** `scripts/scripts/enrich_location_values.js`
  reads every value as text, writes it in German or four languages, and
  stops at the first thrown error.
- **The write-if-empty planner.** `fill_names_and_descriptions.js` fills
  `name_<lang>` and `description_<lang>`. It applies the FORCE switch and the
  same-as-English rule.
- **The attribute–category link diff.** `prepare_attribute_category_links.js`
  proposes the links that are not stored yet.
- **Category sync.** `fetch_categories.js` parses the translation reply
  line by line. It collects the set of Google types and inserts the new ones.
- **Place import.** `scriptsimport_places.js` builds the per-language
  translations, builds the row payload, and chooses PATCH or POST.

## How the model is built

- **Values.** JSON values are a `Json` datatype. JavaScript `undefined` is
  `Option.None`.
- **Outside calls.** Every call to Google, OpenAI or Supabase is a
  parameter. This covers a map of provider records, a translator function,
  and a set of keys whose request fails.
- **Collaborators.** `JSON.stringify`, `JSON.parse` and `parseFloat` are
  uninterpreted functions.
- **Tables.** Every database table the scripts update is a class whose field
  the methods reassign. Each method is proved equal to a specification
  function of the old state. The properties are lemmas about those functions.
- **Files.** `upsert_table.dfy` holds the upsert semantics shared by both
  enrichment scripts. `js_text.dfy` holds the JavaScript string operations
  the scripts use: `trim`, `split`, array-index names, `parseInt` and
  white-space collapsing.

Behaviours of the code the model keeps:

- The photo snapshot keeps every photo of the list, in order.
- `extractKeys` keeps arrays and null fields as leaf keys.
- The enrichment script writes every attribute linked to the place, whatever
  its `is_active` flag.
- In the newer translator, a reply whose content is only white space gives
  "", because `?? text` applies only to undefined.
- In the older enrichment script, a key path that reaches a string, a number
  or `true` before its last segment throws, and that ends the script.

## Model

| member | source | states |
|---|---|---|
| JsText.TrimStart | scripts/fill_names_and_descriptions.js:65 | the result is a suffix of the input that does not start with white space |
| JsText.TrimStartDropsSpace | scripts/fill_names_and_descriptions.js:65 | everything `trim` drops at the front is white space |
| JsText.TrimEnd | scripts/fill_names_and_descriptions.js:65 | the result is a prefix of the input that does not end with white space |
| JsText.TrimEndDropsSpace | scripts/fill_names_and_descriptions.js:65 | everything `trim` drops at the back is white space |
| JsText.TrimEmptyIffAllSpace | scripts/fill_names_and_descriptions.js:64-66 | `trim` gives "" exactly when the string is all white space |
| JsText.TrimShape | scripts/enrich_location_values.js:82 | the trimmed text is a slice of the input with no white space at either end |
| JsText.TrimEdges | scripts/fill_names_and_descriptions.js:71 | a trimmed text is empty or has no white space at either end |
| JsText.TrimSlice | scripts/fill_names_and_descriptions.js:71 | the trimmed text is the contiguous slice that starts where the leading white space ends |
| JsText.TrimNoEdgeSpace | scripts/fill_names_and_descriptions.js:71 | `trim` leaves a text without white space at its ends unchanged |
| JsText.Split | scripts/import_attribute_definitions.js:55 | `split` gives at least one piece and no piece contains the separator |
| JsText.SplitNoSep | scripts/import_attribute_definitions.js:55 | a string without the separator splits into itself alone |
| JsText.SplitSnoc | scripts/extract_place_keys.js:37 | appending separator and piece appends that piece to the split |
| JsText.SplitCons | scripts/fetch_categories.js:64 | a leading piece and separator become the first piece of the split |
| JsText.NatToDecimal | scripts/enrich_location_values.js:264 | the decimal name of an array index is digits only, has no leading zero and denotes the index |
| JsText.IndexRoundTrip | scripts/enrich_location_values.js:264 | reading a canonical index name back gives the index |
| JsText.CanonicalIndexIsRendering | scripts/enrich_location_values.js:264 | every canonical index name is the rendering of its value, so names and indices correspond one to one |
| JsText.DigitPrefix | scripts/enrich_location_values.js:263 | the longest prefix made of digits |
| JsText.AfterSign | scripts/enrich_location_values.js:263 | one leading sign is skipped, and nothing else |
| JsText.DigitPrefixEmpty | scripts/enrich_location_values.js:263 | no digit is read exactly when the text does not start with a digit |
| JsText.ParseInt | scripts/enrich_location_values.js:263 | `parseInt(s, 10)` is NaN exactly when no digit follows the leading white space and an optional sign |
| JsText.ParseIntOfDecimal | scripts/enrich_location_values.js:263 | `parseInt` of a rendered natural number gives that number |
| JsText.ParseIntOfDigits | scripts/enrich_location_values.js:263 | `parseInt` of a digit string gives its decimal value |
| JsText.DropSpaces | scripts/fill_names_and_descriptions.js:70 | the rest after a white-space run does not start with white space |
| JsText.CollapseSpaces | scripts/fill_names_and_descriptions.js:70 | `replace(/\s+/g, " ")` is empty only for the empty text and starts with a space exactly where the input starts with white space |
| JsText.CollapseSpacesIsCollapsed | scripts/fill_names_and_descriptions.js:70 | after collapsing, every white-space character is a single space with no white space next to it |
| JsText.CollapseSpacesFixesCollapsed | scripts/fill_names_and_descriptions.js:70 | collapsing an already collapsed text changes nothing |
| JsText.CollapsedTrim | scripts/fill_names_and_descriptions.js:69-71 | trimming keeps a text collapsed |
| JsonValue.OrNull | scripts/scriptsimport_places.js:33-34 | `x \|\| null` is the value when it is truthy and null otherwise |
| JsonValue.FieldValue | scripts/import_attribute_definitions.js:58 | a property read finds a field with that name exactly when there is one |
| JsonValue.FieldValueAt | scripts/import_attribute_definitions.js:58 | in an object with distinct names, each field is found under its own name |
| JsonValue.Prop | scripts/enrich_location_values.js:123-124 | `v[k]` on an object reads its field; on null, a boolean or a number it is undefined |
| JsonValue.ArrayIndexProp | scripts/enrich_location_values.js:264 | `a[i]` with a numeric index reads the i-th element |
| JsonValue.PlaceIdOf | scripts/fill_names_and_descriptions.js:94 | a string entry is its own place id, and only a null entry throws |
| JsonValue.PlaceIds | scripts/fill_names_and_descriptions.js:94 | the entry mapping throws exactly when an entry is null; otherwise it maps every entry, in order |
| Chat.ReplyText | scripts/enrich_location_values.js:82-86 | a failed request or missing content falls back to the original text; otherwise the content is trimmed |
| Chat.ReplyTextShape | scripts/enrich_location_values.js:82-86 | a translation is the original text or a text with no white space at either end |
| UpsertTable.ApplyUpsertsAppend | scripts/enrich_location_values.js:137-143 | upserting two batches in turn is upserting their concatenation |
| UpsertTable.UntouchedRowsKept | scripts/enrich_location_values.js:137-143 | a key that no successful write touches keeps its row or stays absent |
| UpsertTable.LastWriteWins | scripts/scripts/enrich_location_values.js:88-96 | a key holds the row of its last successful write |
| KeyDiscovery.ExtractKeys | scripts/import_attribute_definitions.js:37-51 | the loop returns the flattened keys of the record |
| KeyDiscovery.FlattenIsJoinedLeafPaths | scripts/import_attribute_definitions.js:42-48 | each extracted key is its leaf path joined with "." under the prefix, in the same order |
| KeyDiscovery.LeafPathsReachLeaves | scripts/import_attribute_definitions.js:44-47 | every extracted path ends at an array, null or scalar, reached through objects |
| KeyDiscovery.LeafPathsComplete | scripts/extract_place_keys.js:20-33 | every array, null or scalar reached through objects is extracted |
| KeyDiscovery.WalkedPathIsPlain | scripts/attribute_scan.js:25-39 | with plain field names, a walked path has only non-empty segments without "." |
| KeyDiscovery.SplitJoinPathBelow | scripts/attribute_scan.js:30-43 | splitting a key built under a prefix gives the prefix's pieces followed by the path |
| KeyDiscovery.JoinPathRoundTrip | scripts/attribute_scan.js:30-43 | splitting a key on "." gives back the path it was built from |
| KeyDiscovery.FlattenUnderPrefix | scripts/import_attribute_definitions.js:42 | the keys under a prefix are the record's own keys with "prefix." in front |
| KeyDiscovery.KindOf | scripts/import_attribute_definitions.js:60-64 | json exactly for objects and arrays, boolean for booleans, number for numbers, text for undefined, null and strings |
| KeyDiscovery.DetermineType | scripts/import_attribute_definitions.js:54-65 | the loop resolves the split key path with the variant's access form and classifies the result |
| KeyDiscovery.ResolveFollowsObjects | scripts/extract_place_keys.js:36-39 | along a path through objects both access forms read the same value |
| KeyDiscovery.ExtractedKeyKind | scripts/import_attribute_definitions.js:141-146 | for a record with plain names, `determineType` of an extracted key classifies exactly its leaf, never as an object |
| KeyDiscovery.EveryLeafIsExtracted | scripts/attribute_scan.js:102 | the key of every leaf path is among the extracted keys |
| KeyDiscovery.AccessFormsDiffer | scripts/extract_place_keys.js:39 | the two access forms disagree on `length` of a string: text against number |
| AttributeRegistry.Variant.CategoryFor | scripts/import_attribute_definitions.js:133-137 | the import script takes the category map's truthy entry and skips a place without one; the others always use category 1 |
| AttributeRegistry.NewDefinition | scripts/attribute_scan.js:72-88 | a new row is inactive, typed, carries the category, and names the key with description "" in exactly the variant's languages |
| AttributeRegistry.Registry.constructor | scripts/import_attribute_definitions.js:68-79 | the registry starts from the given definitions |
| AttributeRegistry.Registry.ScanPlace | scripts/import_attribute_definitions.js:143-149 | the key loop leaves the registry the specification scan gives |
| AttributeRegistry.Registry.Run | scripts/extract_place_keys.js:89-105 | the place loop leaves the registry the specification run gives |
| AttributeRegistry.ScanKeysKeepsExisting | scripts/import_attribute_definitions.js:144-147 | scanning never changes or removes an existing definition |
| AttributeRegistry.ScanKeysAddsNewRows | scripts/import_attribute_definitions.js:145-147 | every added definition is the new inactive row of a scanned key |
| AttributeRegistry.ScanKeysRegisters | scripts/import_attribute_definitions.js:92-96 | without check errors, every key whose insert succeeds is registered, unless a throwing insert ended the place |
| AttributeRegistry.ScanKeysAbandons | scripts/extract_place_keys.js:79-104 | a check error, or an insert error in `extract_place_keys.js`, abandons the rest of the place's keys |
| AttributeRegistry.PlaceEffectOnlyAdds | scripts/import_attribute_definitions.js:132-154 | a place only adds rows for its own keys with its category; an uncategorised or unfetchable place adds nothing |
| AttributeRegistry.PlaceEffectRegistersAll | scripts/attribute_scan.js:98-113 | a fetched, categorised place without errors registers all its keys |
| AttributeRegistry.RunPlacesAppend | scripts/import_attribute_definitions.js:152-154 | places are scanned independently, so an error in one does not stop the next |
| AttributeRegistry.RunPlacesOnlyAdds | scripts/extract_place_keys.js:70-78 | a run never modifies existing rows; added rows are inactive and named after their key with a truthy category |
| AttributeRegistry.NewDefinitionTypedByLeaf | scripts/import_attribute_definitions.js:146-147 | a new row's input type is the kind of the leaf its key names |
| LocationValues.LoadPlaceEntries | scripts/enrich_location_values.js:39-52 | string entries are ids with a null preferred name; objects give `placeId` and `preferredName \|\| null`; a read failure or null entry gives no entries |
| LocationValues.GetValueFromDetails | scripts/enrich_location_values.js:118-132 | the loop returns the value the path lookup specifies |
| LocationValues.DescendAppend | scripts/enrich_location_values.js:122-128 | looking up a path in two parts equals looking up the whole path |
| LocationValues.LookupBlocked | scripts/enrich_location_values.js:123-126 | the lookup is null once a segment is absent or the current value is not an object or array |
| LocationValues.LookupFollowsObjects | scripts/enrich_location_values.js:123-131 | along objects the lookup returns the leaf itself, not stringified |
| LocationValues.LookupOfExtractedKey | scripts/enrich_location_values.js:290 | for a key extracted from the same record, the lookup finds exactly that leaf |
| LocationValues.TranslateWithOpenAI | scripts/enrich_location_values.js:57-87 | without an API key the text is kept; otherwise the trimmed reply is used, or the text when the request fails |
| LocationValues.Coerce | scripts/enrich_location_values.js:313-376 | a written row has exactly one value column, and the write is skipped exactly for an unknown type or a NaN number |
| LocationValues.CoerceRules | scripts/enrich_location_values.js:314-371 | text and option store strings verbatim and other values as JSON; boolean is true only for `true` and "true"; json follows the parse rules |
| LocationValues.JsonCase | scripts/enrich_location_values.js:321-351 | a non-string goes to value_json, a parsed JSON-looking string goes in as its value, any other string goes to value_text |
| LocationValues.BuildRow | scripts/enrich_location_values.js:313-376 | the switch builds the coerced row for the input type |
| LocationValues.PhotoIndexNameOfKey | scripts/enrich_location_values.js:263 | the key `photo_N` names position N - 1 |
| LocationValues.PhotoKeyReadsNthPhoto | scripts/enrich_location_values.js:262-265 | `photo_N` reads the N-th photo and writes exactly when it is truthy |
| LocationValues.ValueFor | scripts/enrich_location_values.js:297-302 | only a string of a multilingual attribute in a language other than English is translated |
| LocationValues.FindPhotosAttr | scripts/enrich_location_values.js:241 | finds a photos attribute of type json, and finds none only when there is none |
| LocationValues.Filtered | scripts/enrich_location_values.js:221-225 | keeps exactly the linked attributes, dropping `reviews` unless reviews are included |
| LocationValues.LocationValueStore.constructor | scripts/enrich_location_values.js:137-143 | the table starts from the given rows |
| LocationValues.LocationValueStore.Upsert | scripts/enrich_location_values.js:137-143 | an upsert replaces or creates the row under its key; a failing one changes nothing |
| LocationValues.LocationValueStore.SavePhotosSnapshot | scripts/enrich_location_values.js:152-171 | the table gets the snapshot writes |
| LocationValues.LocationValueStore.WriteLanguage | scripts/enrich_location_values.js:296-383 | the table gets one language's write |
| LocationValues.LocationValueStore.WriteLanguages | scripts/enrich_location_values.js:294-296 | the table gets the language loop's writes in order |
| LocationValues.LocationValueStore.WriteAttribute | scripts/enrich_location_values.js:257-291 | the table gets one attribute's writes |
| LocationValues.LocationValueStore.EnrichPlace | scripts/enrich_location_values.js:239-257 | the table gets the snapshot and then every attribute's writes |
| LocationValues.LocationValueStore.EnrichEntry | scripts/enrich_location_values.js:194-237 | a place without a location, links or details changes nothing |
| LocationValues.LocationValueStore.Enrich | scripts/enrich_location_values.js:176-193 | a failed attribute load changes nothing; otherwise the table gets every entry's writes in order |
| LocationValues.AttributeWritesShape | scripts/enrich_location_values.js:259-307 | one value column per row; `photos` is never written here; `photo_N` writes at most once under "und"; a null or "" value writes nothing; no key is written twice |
| LocationValues.LangWritesShape | scripts/enrich_location_values.js:294-307 | at most one write per language, each with one value column and a language of the list |
| LocationValues.SnapshotWritesShape | scripts/enrich_location_values.js:152-171 | at most one snapshot row under "und", written exactly for a non-empty array without nulls; it keeps the list's length and order, each photo reduced to four fields |
| LocationValues.RunWritesOneSlot | scripts/enrich_location_values.js:304-378 | every row of a whole run has exactly one value column |
| LocationValues.AttributesWritesOneSlot | scripts/enrich_location_values.js:257-384 | every row written for a place has one value column and that place's location |
| LegacyEnrich.Rendered | scripts/scripts/enrich_location_values.js:119-120 | strings are kept, and objects, arrays and null become JSON text |
| LegacyEnrich.GetValueFromDetails | scripts/scripts/enrich_location_values.js:109-121 | the loop gives the outcome the older lookup specifies |
| LegacyEnrich.LegacyAgreesWithDescend | scripts/scripts/enrich_location_values.js:113 | the older lookup finds a value exactly where the newer one does, and the same value |
| LegacyEnrich.ThrowsPastPrimitive | scripts/scripts/enrich_location_values.js:113 | a path running into a string, number or `true` with segments left throws |
| LegacyEnrich.ExtractedKeyRendered | scripts/scripts/enrich_location_values.js:74 | an extracted key never throws and yields its rendered leaf |
| LegacyEnrich.LegacyValueStore.constructor | scripts/scripts/enrich_location_values.js:88-96 | the value table starts from the given rows |
| LegacyEnrich.LegacyValueStore.Upsert | scripts/scripts/enrich_location_values.js:88-102 | an upsert replaces or creates the row, or reports an error and changes nothing |
| LegacyEnrich.LegacyValueStore.WriteLanguage | scripts/scripts/enrich_location_values.js:80-96 | the table gets one language's text, translated where required |
| LegacyEnrich.LegacyValueStore.WriteLanguages | scripts/scripts/enrich_location_values.js:78-103 | the table gets the language loop's writes |
| LegacyEnrich.LegacyValueStore.EnrichLocation | scripts/scripts/enrich_location_values.js:64-104 | one location's writes are made, and it reports when the script would throw |
| LegacyEnrich.LegacyValueStore.EnrichLocationValues | scripts/scripts/enrich_location_values.js:59-106 | locations are processed in turn up to the first throw |
| LegacyEnrich.LangWritesShape | scripts/scripts/enrich_location_values.js:80-92 | one write per language, keyed by that language; English and monolingual rows hold the raw text |
| LegacyEnrich.AttributeLanguages | scripts/scripts/enrich_location_values.js:78 | a monolingual attribute gets only a German raw-text row; a multilingual one gets four rows with English raw |
| LegacyEnrich.AttributesAbortIsFinal | scripts/scripts/enrich_location_values.js:73-74 | after a throw in the attribute loop, later attributes change nothing |
| LegacyEnrich.AbortIsFinal | scripts/scripts/enrich_location_values.js:64-71 | after a throw, later locations change nothing |
| LegacyEnrich.LegacyRunAppend | scripts/scripts/enrich_location_values.js:64 | while nothing throws, the run's writes are the locations' writes in order |
| LegacyEnrich.AttributesRunWrites | scripts/scripts/enrich_location_values.js:88-92 | every row belongs to the location, a listed attribute and one of the four languages |
| LegacyEnrich.NullFieldIsWritten | scripts/scripts/enrich_location_values.js:119 | a field holding null is written as the JSON text of null |
| NamesDescriptions.FillLanguagesDistinct | scripts/fill_names_and_descriptions.js:24 | the five languages are distinct |
| NamesDescriptions.SettingsOf | scripts/fill_names_and_descriptions.js:14-17 | FORCE only for "true"; same-as-English on unless set to "false" |
| NamesDescriptions.IsNonEmptyStringIff | scripts/fill_names_and_descriptions.js:64-66 | a non-empty string is exactly a string containing a non-white-space character |
| NamesDescriptions.TrimFixesTrimmed | scripts/fill_names_and_descriptions.js:71 | a text without edge white space is its own trim |
| NamesDescriptions.CollapseTrimCollapsed | scripts/fill_names_and_descriptions.js:70-71 | collapsing then trimming leaves only isolated single spaces |
| NamesDescriptions.NormalizeTextShape | scripts/fill_names_and_descriptions.js:68-72 | a normalised text is collapsed and trimmed; a falsy input gives "" |
| NamesDescriptions.TextOfString | scripts/fill_names_and_descriptions.js:68-69 | a string is its own text, the empty one included |
| NamesDescriptions.NormalizeTextIdempotent | scripts/fill_names_and_descriptions.js:68-72 | normalising twice equals normalising once |
| NamesDescriptions.FieldsDistinct | scripts/fill_names_and_descriptions.js:117-118 | column names of different languages differ, and no name column is a description column |
| NamesDescriptions.PlanLanguage | scripts/fill_names_and_descriptions.js:111-147 | one pass gives the updates the planning function specifies |
| NamesDescriptions.PlanUpdates | scripts/fill_names_and_descriptions.js:108-148 | the loop gives the planned updates for the five languages |
| NamesDescriptions.PlanKeys | scripts/fill_names_and_descriptions.js:117-118 | only name and description columns of the listed languages are planned |
| NamesDescriptions.PlanLangOther | scripts/fill_names_and_descriptions.js:117-146 | a pass for one language leaves every other language's columns as they were |
| NamesDescriptions.PlanLangSame | scripts/fill_names_and_descriptions.js:120-146 | a pass plans exactly its language's name and description decisions |
| NamesDescriptions.PlanAt | scripts/fill_names_and_descriptions.js:110-148 | for each language the updates hold exactly its name and description decisions |
| NamesDescriptions.NeverOverwrites | scripts/fill_names_and_descriptions.js:122-145 | without FORCE, a column holding a non-empty string is never planned |
| NamesDescriptions.SameAsEnglishNeverWritten | scripts/fill_names_and_descriptions.js:133-142 | with the rule on, a description equal to the non-empty English one after normalising is never planned |
| NamesDescriptions.FailedFetchContributesNothing | scripts/fill_names_and_descriptions.js:111-112 | a language whose fetch failed plans no column |
| NamesDescriptions.LocationTable.constructor | scripts/fill_names_and_descriptions.js:46-62 | the table starts from the given rows |
| NamesDescriptions.LocationTable.UpdateLocation | scripts/fill_names_and_descriptions.js:74-80 | the place's row gets the updated columns; a failing update changes nothing |
| NamesDescriptions.LocationTable.Fill | scripts/fill_names_and_descriptions.js:94-156 | a null entry changes nothing; otherwise every place is handled in turn |
| NamesDescriptions.FillKeepsFilledColumns | scripts/fill_names_and_descriptions.js:96-156 | a run adds or removes no row, and without FORCE keeps every filled name or description |
| CategoryLinks.DecimalHasNoUnderscore | scripts/prepare_attribute_category_links.js:63 | a rendered integer has no "_" |
| CategoryLinks.MinusMarksNegative | scripts/prepare_attribute_category_links.js:63 | a rendered integer starts with "-" exactly when it is negative |
| CategoryLinks.IntToDecimalInjective | scripts/prepare_attribute_category_links.js:63 | different integers render differently |
| CategoryLinks.LinkKeyInjective | scripts/prepare_attribute_category_links.js:63-70 | the key `${a}_${c}` determines the pair |
| CategoryLinks.ExistingSetMembers | scripts/prepare_attribute_category_links.js:63 | a pair's key is in the set exactly when the pair is stored |
| CategoryLinks.NewLinks | scripts/prepare_attribute_category_links.js:65-70 | proposes no more links than attributes, each for a listed attribute and the place's category |
| CategoryLinks.NewLinksIn | scripts/prepare_attribute_category_links.js:65-70 | a link is proposed exactly for a listed attribute whose key is not in the set |
| CategoryLinks.NewLinksAppend | scripts/prepare_attribute_category_links.js:65-70 | proposals follow the order of the attribute list |
| CategoryLinks.LinksOf | scripts/prepare_attribute_category_links.js:53-56 | the read returns exactly the stored links of the category |
| CategoryLinks.NewLinksForExactly | scripts/prepare_attribute_category_links.js:63-70 | a link is proposed exactly when it is for the category and a listed attribute and is not yet stored |
| CategoryLinks.NewLinksEmpty | scripts/prepare_attribute_category_links.js:72-75 | nothing is proposed when every pair is stored |
| CategoryLinks.RecomputeProposesNothing | scripts/prepare_attribute_category_links.js:77-79 | after inserting the proposals, recomputing for the same category proposes nothing |
| CategoryLinks.NewLinksDistinct | scripts/prepare_attribute_category_links.js:65-70 | distinct attributes give proposals without repeated pairs |
| CategoryLinks.AppendKeepsNoDuplicates | scripts/prepare_attribute_category_links.js:77-79 | inserting the proposals keeps the table free of repeated pairs |
| CategoryLinks.CategoryFor | scripts/prepare_attribute_category_links.js:39-48 | a place keeps a category only when it is truthy |
| CategoryLinks.LinkStep | scripts/prepare_attribute_category_links.js:38-85 | a skipped place leaves the table; a place with a category whose read and insert succeed gets exactly its new links appended; otherwise nothing changes |
| CategoryLinks.LinkRunAppends | scripts/prepare_attribute_category_links.js:38-86 | a run only appends links of listed attributes to categories of listed places |
| CategoryLinks.LinkRunLinksPlace | scripts/prepare_attribute_category_links.js:38-86 | after a run, a place with a category whose read and insert succeed is linked to every listed attribute |
| CategoryLinks.LinkRunNoDuplicates | scripts/prepare_attribute_category_links.js:63-79 | a run never creates a repeated pair |
| CategoryLinks.LinkTable.constructor | scripts/prepare_attribute_category_links.js:53-56 | the table starts from the given links |
| CategoryLinks.LinkTable.Insert | scripts/prepare_attribute_category_links.js:77-85 | all links are added, or none when the insert fails |
| CategoryLinks.LinkTable.LinkPlaces | scripts/prepare_attribute_category_links.js:20-86 | a failed id mapping or attribute load changes nothing; otherwise every place is linked in turn |
| CategorySync.ParseLine | scripts/fetch_categories.js:64-65 | a counting line has a non-empty label and value, neither containing ":" |
| CategorySync.ParseLineOf | scripts/fetch_categories.js:64-66 | "label:value" counts exactly when both trim to non-empty, giving the trimmed pair |
| CategorySync.ParseLineDropsRest | scripts/fetch_categories.js:64 | text after a second ":" is dropped |
| CategorySync.ParseLineNoColon | scripts/fetch_categories.js:64-65 | a line without ":" counts for nothing |
| CategorySync.GatherHas | scripts/fetch_categories.js:62-68 | a label is set exactly when some line counts with that label |
| CategorySync.GatherLastWins | scripts/fetch_categories.js:66 | a label's value is its last counting line's value |
| CategorySync.GatherFrom | scripts/fetch_categories.js:62-68 | every value set comes from a line with that label that no later line overrides |
| CategorySync.NamesFromReply | scripts/fetch_categories.js:76-84 | a failed request or missing content gives four null names |
| CategorySync.NameForExactly | scripts/fetch_categories.js:70-75 | a name is set exactly when the reply has a counting line with its label |
| CategorySync.NameForIsLastLine | scripts/fetch_categories.js:66-74 | a set name is the value of the last line with its label |
| CategorySync.NameForShape | scripts/fetch_categories.js:65-67 | a set name is non-empty and has no ":" |
| CategorySync.NameForLastLine | scripts/fetch_categories.js:66-74 | the last counting line for a label gives that label's name |
| CategorySync.AddType | scripts/fetch_categories.js:94 | the type is in the set afterwards |
| CategorySync.AddTypesKeeps | scripts/fetch_categories.js:94 | adding types keeps values unique and adds exactly the added types |
| CategorySync.CollectTypes | scripts/fetch_categories.js:89-96 | collection fails exactly when an entry is null |
| CategorySync.CollectTypesUnion | scripts/fetch_categories.js:90-96 | the set is the union of the entries' `types` arrays, each value once |
| CategorySync.NewCategory | scripts/fetch_categories.js:116-126 | a new row uses the type as id, English name and icon, is active and has sort order 9999 |
| CategorySync.SyncStep | scripts/fetch_categories.js:100-132 | an existing type or failing insert changes nothing; otherwise the new category is appended |
| CategorySync.SyncRunAppends | scripts/fetch_categories.js:100-133 | a run only appends new categories for listed types, named by their replies |
| CategorySync.ExistingTypeKept | scripts/fetch_categories.js:107-110 | a type already stored once gets no second row |
| CategorySync.NewTypeInsertedOnce | scripts/fetch_categories.js:112-126 | a new type listed once is inserted once unless its insert fails |
| CategorySync.UntouchedTypeCount | scripts/fetch_categories.js:100-133 | a type not in the set keeps its number of rows |
| CategorySync.CategoryTable.constructor | scripts/fetch_categories.js:100-105 | the table starts from the given rows |
| CategorySync.CategoryTable.Insert | scripts/fetch_categories.js:116-132 | an insert appends the row, or adds nothing when it fails |
| CategorySync.CategoryTable.SyncCategories | scripts/fetch_categories.js:88-136 | a null entry changes nothing; otherwise every collected type is synced in turn |
| PlaceImport.OptProp | scripts/scriptsimport_places.js:33-34 | `o?.k` is undefined for undefined or null and reads the field of an object |
| PlaceImport.TranslationEntry | scripts/scriptsimport_places.js:31-35 | the entry has the two fields name and address, each the record's truthy value or null; no data gives both null |
| PlaceImport.BuildTranslations | scripts/scriptsimport_places.js:28-38 | one entry per language, in the order de, en, it, hr, fr |
| PlaceImport.TranslationsExactly | scripts/scriptsimport_places.js:29-37 | a language has an entry exactly when it is one of the five |
| PlaceImport.TranslationKeysDistinct | scripts/scriptsimport_places.js:30-32 | the translation keys are distinct |
| PlaceImport.Payload | scripts/scriptsimport_places.js:40-50 | the payload exists exactly when the German record does, with the file's entry as it is as place id, German name and address, translations, source type and sync flag |
| PlaceImport.ExistingIds | scripts/scriptsimport_places.js:52-55 | the lookup is empty exactly when no row belongs to the place |
| PlaceImport.ChooseVerb | scripts/scriptsimport_places.js:57-58 | POST exactly when nothing exists; otherwise PATCH to the first id |
| PlaceImport.Apply | scripts/scriptsimport_places.js:60-64 | POST appends the payload under the next id and advances the sequence; PATCH updates the rows with that id and adds none |
| PlaceImport.ApplyKeepsIdsBelow | scripts/scriptsimport_places.js:57-64 | when every row's id lies below the sequence and the payload has no id, a request keeps that so; the id a POST assigns belongs to no existing row |
| PlaceImport.ImportStep | scripts/scriptsimport_places.js:74-83 | the entry is fetched under its template-string form, and the step fails exactly when the German record is missing or null |
| PlaceImport.ImportedPlaceHasRow | scripts/scriptsimport_places.js:74-83 | an imported place has a row afterwards |
| PlaceImport.ReimportAddsNoRow | scripts/scriptsimport_places.js:52-58 | importing a place again adds no row |
| PlaceImport.ImportRunRowCount | scripts/scriptsimport_places.js:74-84 | a run removes no rows, adds at most one per place and never moves the id sequence back |
| PlaceImport.ImportStepKeepsIdsBelow | scripts/scriptsimport_places.js:40-64 | one place's upsert keeps every id below the sequence |
| PlaceImport.ImportRunKeepsIdsBelow | scripts/scriptsimport_places.js:74-84 | a run keeps every id below the sequence, so each POST of the run assigns a fresh id |
| PlaceImport.LocationStore.constructor | scripts/scriptsimport_places.js:52-55 | the table starts from the given rows and id counter, every id below it |
| PlaceImport.LocationStore.UpsertLocation | scripts/scriptsimport_places.js:52-64 | the table after the lookup and the chosen PATCH or POST, every id still below the sequence |
| PlaceImport.LocationStore.ImportPlaces | scripts/scriptsimport_places.js:70-85 | every entry of the parsed file is imported in turn until one lacks a German record, every id still below the sequence |

## Left out

- **Network and database I/O.** HTTP and database calls are parameters:
  - Google Places, OpenAI and Supabase requests are provider maps, reply functions and fault sets;
  - request headers, prompts, timeouts and logging are not modelled;
  - `updated_at` timestamps are not modelled.
- **File reading.** `fs.readFileSync`, the dynamic JSON `import` and `JSON.parse` of the input file are I/O. Each model starts from the parsed entries, or from `None` for a file that cannot be read.
- **Concurrency.** The scripts run their requests one after another. The check-then-insert race between concurrent runs is not modelled.
- **Numbers.** Numbers are exact reals, not IEEE doubles. `parseFloat` and NaN are an uninterpreted partial function. Coordinates (`lat`, `lng` with `|| null`) are not given a contract in `PlaceImport.Payload`.
- **JSON text.** `JSON.stringify` and `JSON.parse` are uninterpreted functions. Only "parses or not" and "braced or bracketed after trim" are modelled.
- **Identity of sets.** In `fetch_categories.js`, a JavaScript `Set` compares objects and arrays by identity. The model treats each such value as its own member and de-duplicates only strings, numbers and booleans.
- **Property reads.** Reads see own properties only; inherited prototype properties such as `__proto__` or `length` on objects are not modelled. Strings are sequences of characters, not UTF-16 code units.
- **Non-string place ids.** An object entry whose `placeId` is not a string becomes an id that no table or provider knows.
- **Upsert columns.** An upsert replaces the whole value row. PostgREST's merge of columns the payload does not carry is not modelled.
- **Database read errors in the older enrichment script.** The `locations` and `attribute_definitions` reads are taken as given lists.
- **Place import errors.** A non-array response from the existence check and network errors in `scriptsimport_places.js` are not modelled. Only the missing German record, which throws, ends a run.
- **`maybeSingle` reads in `fetch_categories.js`.** A read that fails, or finds several rows, is not an existing row.
- scripts/import_places.js is not part of this model.
- scripts/fill_location_values.js is not part of this model.
- scripts/place_ids_leeren.js is not part of this model.
- scripts/debug_place_details.js is not part of this model.
- LocationValues.CoerceRules: for a JSON-looking string it states only that the row is the parsed value or the verbatim text, because whether `JSON.parse` succeeds is left to the uninterpreted parser.
- PlaceImport.ImportStep: a stored `google_place_id` matches the lookup only when it is the looked-up string; the database's conversion of a non-string entry into the column's text is not modelled, so such a place is not found again and each run POSTs it anew.
- PlaceImport.LocationStore.ImportPlaces: takes the entries of a parsed array; a file that parses to something else (a string iterated by character, an object that throws) is not modelled.
- PlaceImport.Payload: does not state the `lat` and `lng` columns, because they are floating-point values behind `|| null`.
- LocationValues.Coerce: for a number it states the value only through `NumberOf`, because `parseFloat` is uninterpreted.
- AttributeRegistry.Registry.Run: takes the place ids as strings; the mapping from the file's entries is `JsonValue.PlaceIds`, used by the other scripts.
