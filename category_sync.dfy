/** `fetch_categories.js`: the Google place types of the id file become rows
    of table `categories`, each new one named in four languages by a chat
    reply of the form "de: …\nit: …\nfr: …\nhr: …". */
module CategorySync {
  import opened Wrappers
  import opened JsText
  import opened JsonValue
  import opened Chat

  // -------------------------------------------------------- reply parsing

  /** `const [lang, value] = line.split(':').map(s => s.trim())` followed by
      `if (lang && value)`: the trimmed first two pieces, when both are
      non-empty (`value` is undefined on a line without ':'). */
  function ParseLine(line: string): (r: Option<(string, string)>)
    ensures r.Some? ==> r.value.0 != [] && r.value.1 != [] && ':' !in r.value.0 && ':' !in r.value.1
  {
    ParsePieces(Split(line, ':'))
  }

  function ParsePieces(parts: seq<string>): (r: Option<(string, string)>)
    requires forall p :: p in parts ==> ':' !in p
    ensures r.Some? ==> r.value.0 != [] && r.value.1 != [] && ':' !in r.value.0 && ':' !in r.value.1
  {
    if |parts| < 2 then None
    else
      assert parts[0] in parts && parts[1] in parts;
      var lang := Trim(parts[0]);
      var value := Trim(parts[1]);
      TrimNoColon(parts[0]);
      TrimNoColon(parts[1]);
      if lang != [] && value != [] then Some((lang, value)) else None
  }

  lemma TrimNoColon(s: string)
    requires ':' !in s
    ensures ':' !in Trim(s)
  {
    TrimShape(s);
  }

  /** A line "label:value" yields the trimmed label and value when both are
      non-empty after trimming. */
  lemma ParseLineOf(lang: string, value: string)
    requires ':' !in lang && ':' !in value
    ensures ParseLine(lang + ":" + value) ==
      (if Trim(lang) != [] && Trim(value) != [] then Some((Trim(lang), Trim(value))) else None)
  {
    ParseLineOfTwo(lang, value);
  }

  /** Text after a second ':' is dropped. */
  lemma ParseLineDropsRest(lang: string, value: string, rest: string)
    requires ':' !in lang && ':' !in value
    ensures ParseLine(lang + ":" + value + ":" + rest) == ParseLine(lang + ":" + value)
  {
    var long := Split(lang + ":" + value + ":" + rest, ':');
    var short := Split(lang + ":" + value, ':');
    SplitThreeParts(lang, value, rest);
    ParseLineOfTwo(lang, value);
    ParsePiecesFirstTwo(long, short);
  }

  lemma SplitThreeParts(lang: string, value: string, rest: string)
    requires ':' !in lang && ':' !in value
    ensures var long := Split(lang + ":" + value + ":" + rest, ':');
      |long| >= 2 && long[0] == lang && long[1] == value
  {
    assert lang + ":" + value + ":" + rest == lang + [':'] + (value + [':'] + rest);
    SplitCons(lang, ':', value + [':'] + rest);
    SplitCons(value, ':', rest);
  }

  lemma ParseLineOfTwo(lang: string, value: string)
    requires ':' !in lang && ':' !in value
    ensures Split(lang + ":" + value, ':') == [lang, value]
  {
    assert lang + ":" + value == lang + [':'] + value;
    SplitCons(lang, ':', value);
    SplitNoSep(value, ':');
  }

  /** Only the first two pieces matter. */
  lemma ParsePiecesFirstTwo(p: seq<string>, q: seq<string>)
    requires forall x :: x in p ==> ':' !in x
    requires forall x :: x in q ==> ':' !in x
    requires |p| >= 2 && |q| >= 2 && p[0] == q[0] && p[1] == q[1]
    ensures ParsePieces(p) == ParsePieces(q)
  {
  }

  /** A line without ':' counts for nothing. */
  lemma ParseLineNoColon(line: string)
    requires ':' !in line
    ensures ParseLine(line) == None
  {
    SplitNoSep(line, ':');
  }

  /** The `translations` object after the loop over the parsed lines: each
      counting line sets its label, later lines overwriting earlier ones. */
  function Gather(ps: seq<Option<(string, string)>>): map<string, string>
    decreases |ps|
  {
    if ps == [] then map[]
    else
      var before := Gather(ps[..|ps| - 1]);
      match ps[|ps| - 1]
      case None => before
      case Some(p) => before[p.0 := p.1]
  }

  /** Each line of the content, parsed. */
  function ParseLines(lines: seq<string>): seq<Option<(string, string)>> {
    seq(|lines|, i requires 0 <= i < |lines| => ParseLine(lines[i]))
  }

  lemma ParseLinesAt(lines: seq<string>, i: nat)
    requires i < |lines|
    ensures |ParseLines(lines)| == |lines| && ParseLines(lines)[i] == ParseLine(lines[i])
  {
  }

  /** Some line counts with label `l`. */
  predicate HasLabel(ps: seq<Option<(string, string)>>, l: string) {
    exists i :: 0 <= i < |ps| && ps[i].Some? && ps[i].value.0 == l
  }

  /** A label is set exactly when some line counts with that label. */
  lemma {:induction false} GatherHas(ps: seq<Option<(string, string)>>, l: string)
    ensures l in Gather(ps) <==> HasLabel(ps, l)
    decreases |ps|
  {
    if ps != [] {
      var init := ps[..|ps| - 1];
      GatherHas(init, l);
      assert forall i :: 0 <= i < |init| ==> init[i] == ps[i];
      assert HasLabel(init, l) ==> HasLabel(ps, l);
    }
  }

  /** The value of a label is the one of its last counting line. */
  lemma {:induction false} GatherLastWins(ps: seq<Option<(string, string)>>, i: nat)
    requires i < |ps| && ps[i].Some?
    requires forall j :: i < j < |ps| ==> ps[j].None? || ps[j].value.0 != ps[i].value.0
    ensures ps[i].value.0 in Gather(ps) && Gather(ps)[ps[i].value.0] == ps[i].value.1
    decreases |ps|
  {
    var init := ps[..|ps| - 1];
    if i < |ps| - 1 {
      assert init[i] == ps[i];
      forall j | i < j < |init|
        ensures init[j].None? || init[j].value.0 != init[i].value.0
      {
        assert init[j] == ps[j];
      }
      GatherLastWins(init, i);
    }
  }

  /** Line `i` counts with label `l` and value `v`, and no later line
      counts with label `l`. */
  predicate LastFor(ps: seq<Option<(string, string)>>, l: string, v: string, i: int) {
    && 0 <= i < |ps|
    && ps[i] == Some((l, v))
    && (forall j :: i < j < |ps| ==> ps[j].None? || ps[j].value.0 != l)
  }

  /** Every value set comes from a line with that label that no later line
      with the same label overrides. */
  lemma {:induction false} GatherFrom(ps: seq<Option<(string, string)>>, l: string)
    requires l in Gather(ps)
    ensures exists i :: LastFor(ps, l, Gather(ps)[l], i)
    decreases |ps|
  {
    var n := |ps| - 1;
    var init := ps[..n];
    if ps[n].Some? && ps[n].value.0 == l {
      assert LastFor(ps, l, Gather(ps)[l], n);
    } else {
      GatherFrom(init, l);
      var i :| LastFor(init, l, Gather(init)[l], i);
      assert ps[i] == init[i];
      forall j | i < j < |ps|
        ensures ps[j].None? || ps[j].value.0 != l
      {
        if j < n {
          assert ps[j] == init[j];
        }
      }
      assert LastFor(ps, l, Gather(ps)[l], i);
    }
  }

  /** The four names of a category; `None` is null. */
  datatype CategoryNames = CategoryNames(nameDe: Option<string>, nameIt: Option<string>,
                                         nameFr: Option<string>, nameHr: Option<string>)

  const NoNames := CategoryNames(None, None, None, None)

  /** `translations[lang] || null` for the reply's content. */
  function NameFor(reply: ChatReply, lang: string): Option<string> {
    if reply.ChatOk? && reply.content.Some? then
      var t := Gather(ParseLines(Split(reply.content.value, '\n')));
      if lang in t then Some(t[lang]) else None
    else None
  }

  /** `translateWithOpenAI`: the names the reply gives; all null when the
      request fails or the content is missing (`content.split` throws). */
  function NamesFromReply(reply: ChatReply): (r: CategoryNames)
    ensures reply.ChatFailed? || reply.content.None? ==> r == NoNames
  {
    CategoryNames(NameFor(reply, "de"), NameFor(reply, "it"), NameFor(reply, "fr"), NameFor(reply, "hr"))
  }

  /** A name is set exactly when a reply arrived whose content has a line
      counting for that label. */
  lemma NameForExactly(reply: ChatReply, lang: string)
    ensures NameFor(reply, lang).Some? <==>
      reply.ChatOk? && reply.content.Some? &&
      HasLabel(ParseLines(Split(reply.content.value, '\n')), lang)
  {
    if reply.ChatOk? && reply.content.Some? {
      var ps := ParseLines(Split(reply.content.value, '\n'));
      assert NameFor(reply, lang).Some? <==> lang in Gather(ps);
      GatherHas(ps, lang);
    } else {
      assert NameFor(reply, lang) == None;
    }
  }

  /** A name that is set is the value of the last line counting for its
      label. */
  lemma NameForIsLastLine(reply: ChatReply, lang: string)
    requires NameFor(reply, lang).Some?
    ensures exists i :: LastFor(ParseLines(Split(reply.content.value, '\n')), lang, NameFor(reply, lang).value, i)
  {
    var ps := ParseLines(Split(reply.content.value, '\n'));
    assert NameFor(reply, lang).value == Gather(ps)[lang];
    GatherFrom(ps, lang);
  }

  /** A name that is set is non-empty and holds no ':'. */
  lemma NameForShape(reply: ChatReply, lang: string)
    requires NameFor(reply, lang).Some?
    ensures NameFor(reply, lang).value != [] && ':' !in NameFor(reply, lang).value
  {
    var lines := Split(reply.content.value, '\n');
    var ps := ParseLines(lines);
    NameForIsLastLine(reply, lang);
    var i :| LastFor(ps, lang, NameFor(reply, lang).value, i);
    ParseLinesAt(lines, i);
  }

  /** The last line counting for a label gives that label's name. */
  lemma NameForLastLine(content: string, l: string, v: string, i: int)
    requires LastFor(ParseLines(Split(content, '\n')), l, v, i)
    ensures NameFor(ChatOk(Some(content)), l) == Some(v)
  {
    GatherLastWins(ParseLines(Split(content, '\n')), i);
  }

  // -------------------------------------------------------- type collection

  /** Values a JavaScript `Set` tells apart by identity: each parsed object
      or array is a member of its own. */
  predicate ByIdentity(t: Json) {
    t.JObj? || t.JArr?
  }

  /** `allTypes.add(t)`, the set kept as its insertion order. */
  function AddType(acc: seq<Json>, t: Json): (r: seq<Json>)
    ensures t in r
  {
    if ByIdentity(t) || t !in acc then acc + [t] else acc
  }

  function AddTypes(acc: seq<Json>, types: seq<Json>): (r: seq<Json>)
    decreases |types|
  {
    if types == [] then acc
    else AddType(AddTypes(acc, types[..|types| - 1]), types[|types| - 1])
  }

  /** The `types` array an entry contributes, if any. */
  function EntryTypes(entry: Json): seq<Json>
    requires !entry.JNull?
  {
    match Prop(entry, "types")
    case Some(JArr(items)) => items
    case _ => []
  }

  /** The loop over `rawData`: `None` when reading `entry.types` throws on a
      null entry, which ends the script before any category is read. */
  function CollectTypes(entries: seq<Json>): (r: Option<seq<Json>>)
    ensures r.None? <==> JNull in entries
    decreases |entries|
  {
    if entries == [] then Some([])
    else
      var last := entries[|entries| - 1];
      var init := entries[..|entries| - 1];
      assert entries == init + [last];
      match CollectTypes(init)
      case None => None
      case Some(acc) => if last.JNull? then None else Some(AddTypes(acc, EntryTypes(last)))
  }

  /** No value the set compares by value occurs twice. */
  predicate NoRepeatedValues(ts: seq<Json>) {
    forall i, j :: 0 <= i < j < |ts| && ts[i] == ts[j] ==> ByIdentity(ts[i])
  }

  lemma {:induction false} AddTypesKeeps(acc: seq<Json>, types: seq<Json>, t: Json)
    requires NoRepeatedValues(acc)
    ensures var r := AddTypes(acc, types);
      NoRepeatedValues(r) && (t in r <==> t in acc || t in types)
    decreases |types|
  {
    if types != [] {
      var init := types[..|types| - 1];
      var last := types[|types| - 1];
      AddTypesKeeps(acc, init, t);
      AddTypesKeeps(acc, init, last);
      assert types == init + [last];
    }
  }

  /** The collected types are exactly the members of the entries' `types`
      arrays, and a string, number or boolean occurs once however many
      entries list it. */
  lemma {:induction false} CollectTypesUnion(entries: seq<Json>, t: Json)
    requires JNull !in entries
    ensures var r := CollectTypes(entries).value;
      NoRepeatedValues(r)
      && (t in r <==> exists i :: 0 <= i < |entries| && t in EntryTypes(entries[i]))
    decreases |entries|
  {
    if entries != [] {
      var init := entries[..|entries| - 1];
      var last := entries[|entries| - 1];
      assert entries == init + [last];
      assert JNull !in init;
      CollectTypesUnion(init, t);
      AddTypesKeeps(CollectTypes(init).value, EntryTypes(last), t);
      assert forall i :: 0 <= i < |init| ==> init[i] == entries[i];
      if t in CollectTypes(entries).value && t !in CollectTypes(init).value {
        assert t in EntryTypes(entries[|entries| - 1]);
      }
    }
  }

  // -------------------------------------------------------------- the table

  /** A row of `categories` as the script writes it. */
  datatype CategoryRow = CategoryRow(googleCatId: Json, nameEn: Json, names: CategoryNames,
                                     icon: Json, active: bool, sortOrder: int)

  /** The row inserted for a new type. */
  function NewCategory(t: Json, names: CategoryNames): (r: CategoryRow)
    ensures r.googleCatId == t && r.nameEn == t && r.icon == t && r.names == names
    ensures r.active && r.sortOrder == 9999
  {
    CategoryRow(t, t, names, t, true, 9999)
  }

  /** The number of rows whose `google_cat_id` is `t`. */
  function Matches(rows: seq<CategoryRow>, t: Json): nat
    decreases |rows|
  {
    if rows == [] then 0
    else Matches(rows[..|rows| - 1], t) + (if rows[|rows| - 1].googleCatId == t then 1 else 0)
  }

  lemma MatchesSnoc(rows: seq<CategoryRow>, row: CategoryRow, t: Json)
    ensures Matches(rows + [row], t) == Matches(rows, t) + (if row.googleCatId == t then 1 else 0)
  {
    assert (rows + [row])[..|rows|] == rows;
  }

  /** What the script depends on besides the file: the chat reply for each
      type, and the types whose read or insert fails. */
  datatype SyncEnv = SyncEnv(ask: Json -> ChatReply, readFaults: set<Json>, insertFaults: set<Json>)

  /** `.maybeSingle()` yields a row only when exactly one matches and the
      read succeeds; an error leaves `existing` null. */
  predicate Exists(env: SyncEnv, rows: seq<CategoryRow>, t: Json) {
    Matches(rows, t) == 1 && t !in env.readFaults
  }

  /** The table after the loop body for type `t`. */
  function SyncStep(env: SyncEnv, rows: seq<CategoryRow>, t: Json): (r: seq<CategoryRow>)
    ensures Exists(env, rows, t) || t in env.insertFaults ==> r == rows
    ensures r == rows || r == rows + [NewCategory(t, NamesFromReply(env.ask(t)))]
  {
    if Exists(env, rows, t) || t in env.insertFaults then rows
    else rows + [NewCategory(t, NamesFromReply(env.ask(t)))]
  }

  function SyncRun(env: SyncEnv, rows: seq<CategoryRow>, types: seq<Json>): seq<CategoryRow>
    decreases |types|
  {
    if types == [] then rows
    else SyncRun(env, SyncStep(env, rows, types[0]), types[1..])
  }

  /** A run only appends rows, each a new category for one of the types. */
  lemma {:induction false} SyncRunAppends(env: SyncEnv, rows: seq<CategoryRow>, types: seq<Json>)
    ensures var r := SyncRun(env, rows, types);
      |rows| <= |r| && r[..|rows|] == rows
      && forall k :: |rows| <= k < |r| ==>
           (r[k].googleCatId in types && r[k] == NewCategory(r[k].googleCatId, NamesFromReply(env.ask(r[k].googleCatId))))
    decreases |types|
  {
    if types != [] {
      var next := SyncStep(env, rows, types[0]);
      SyncRunAppends(env, next, types[1..]);
      var r := SyncRun(env, rows, types);
      forall k | |rows| <= k < |r|
        ensures r[k].googleCatId in types
      {
        if k < |next| {
          assert r[k] == next[k];
        } else {
          assert r[k].googleCatId in types[1..];
        }
      }
    }
  }

  /** A type that already has its one row, read without error, gets no
      second one. */
  lemma {:induction false} ExistingTypeKept(env: SyncEnv, rows: seq<CategoryRow>, types: seq<Json>, t: Json)
    requires Exists(env, rows, t)
    ensures Matches(SyncRun(env, rows, types), t) == 1
    decreases |types|
  {
    if types != [] {
      var next := SyncStep(env, rows, types[0]);
      if next != rows {
        MatchesSnoc(rows, NewCategory(types[0], NamesFromReply(env.ask(types[0]))), t);
      }
      ExistingTypeKept(env, next, types[1..], t);
    }
  }

  /** A type listed once and not yet stored is inserted once, named by its
      reply, unless its insert fails. */
  lemma {:induction false} NewTypeInsertedOnce(env: SyncEnv, rows: seq<CategoryRow>, types: seq<Json>, t: Json)
    requires Matches(rows, t) == 0 && t !in env.insertFaults
    requires t in types && forall i, j :: 0 <= i < j < |types| ==> types[i] != t || types[j] != t
    ensures var r := SyncRun(env, rows, types);
      Matches(r, t) == 1 && NewCategory(t, NamesFromReply(env.ask(t))) in r
    decreases |types|
  {
    var next := SyncStep(env, rows, types[0]);
    var row := NewCategory(t, NamesFromReply(env.ask(t)));
    if types[0] == t {
      assert next == rows + [row];
      MatchesSnoc(rows, row, t);
      assert t !in types[1..] by {
        forall k | 0 <= k < |types| - 1
          ensures types[1..][k] != t
        {
          assert types[1..][k] == types[k + 1];
        }
      }
      UntouchedTypeCount(env, next, types[1..], t);
      SyncRunAppends(env, next, types[1..]);
      assert SyncRun(env, next, types[1..])[..|next|] == next;
      assert row == next[|rows|];
    } else {
      if next != rows {
        MatchesSnoc(rows, NewCategory(types[0], NamesFromReply(env.ask(types[0]))), t);
      }
      assert t in types[1..];
      forall i, j | 0 <= i < j < |types[1..]|
        ensures types[1..][i] != t || types[1..][j] != t
      {
        assert types[1..][i] == types[i + 1] && types[1..][j] == types[j + 1];
      }
      NewTypeInsertedOnce(env, next, types[1..], t);
    }
  }

  /** A type not in the list keeps its number of rows. */
  lemma {:induction false} UntouchedTypeCount(env: SyncEnv, rows: seq<CategoryRow>, types: seq<Json>, t: Json)
    requires t !in types
    ensures Matches(SyncRun(env, rows, types), t) == Matches(rows, t)
    decreases |types|
  {
    if types != [] {
      var next := SyncStep(env, rows, types[0]);
      if next != rows {
        MatchesSnoc(rows, NewCategory(types[0], NamesFromReply(env.ask(types[0]))), t);
      }
      assert t !in types[1..];
      UntouchedTypeCount(env, next, types[1..], t);
    }
  }

  /** `categories` as a sequence of rows in insertion order. */
  class CategoryTable {
    var rows: seq<CategoryRow>

    constructor(initial: seq<CategoryRow>)
      ensures rows == initial
    {
      rows := initial;
    }

    /** `.insert(row)`: a failing insert adds nothing. */
    method Insert(row: CategoryRow, fails: bool)
      modifies this
      ensures rows == if fails then old(rows) else old(rows) + [row]
    {
      if !fails {
        rows := rows + [row];
      }
    }

    /** `syncCategories` after the file is parsed. */
    method SyncCategories(env: SyncEnv, rawData: seq<Json>)
      modifies this
      ensures CollectTypes(rawData).None? ==> rows == old(rows)
      ensures CollectTypes(rawData).Some? ==> rows == SyncRun(env, old(rows), CollectTypes(rawData).value)
    {
      var allTypes := CollectTypes(rawData);
      if allTypes.None? {
        return;
      }
      var types := allTypes.value;
      var i := 0;
      while i < |types|
        invariant 0 <= i <= |types|
        invariant SyncRun(env, rows, types[i..]) == SyncRun(env, old(rows), types)
      {
        assert types[i..][0] == types[i] && types[i..][1..] == types[i + 1..];
        var t := types[i];
        i := i + 1;
        if Exists(env, rows, t) {
          continue;
        }
        var names := NamesFromReply(env.ask(t));
        Insert(NewCategory(t, names), t in env.insertFaults);
      }
    }
  }
}
