/** `prepare_attribute_category_links.js`: for each place of the id file, the
    location's category is linked to every attribute definition that is not
    yet linked to it, in table `attributes_meet_categories`. */
module CategoryLinks {
  import opened Wrappers
  import opened JsText
  import opened JsonValue

  /** A row of `attributes_meet_categories`: (attribute_id, category_id). */
  type Link = (int, int)

  // ------------------------------------------------------------ link keys

  /** The template string `${attribute_id}_${category_id}`. */
  function LinkKey(a: int, c: int): string {
    IntToDecimal(a) + "_" + IntToDecimal(c)
  }

  lemma DecimalHasNoUnderscore(i: int)
    ensures '_' !in IntToDecimal(i)
  {
    var d := NatToDecimal(if i < 0 then -i else i);
    assert forall k :: 0 <= k < |d| ==> IsDigit(d[k]);
  }

  /** A rendering starts with `-` exactly for a negative integer. */
  lemma MinusMarksNegative(i: int)
    ensures |IntToDecimal(i)| >= 1 && (IntToDecimal(i)[0] == '-' <==> i < 0)
  {
    if i >= 0 {
      assert IsDigit(NatToDecimal(i)[0]);
    }
  }

  /** Two integers render to the same decimal text only when they are equal. */
  lemma IntToDecimalInjective(i: int, j: int)
    requires IntToDecimal(i) == IntToDecimal(j)
    ensures i == j
  {
    MinusMarksNegative(i);
    MinusMarksNegative(j);
    if i < 0 {
      assert NatToDecimal(-i) == IntToDecimal(i)[1..] == IntToDecimal(j)[1..] == NatToDecimal(-j);
    }
  }

  /** The key names its pair: the digits never contain the `_` separator,
      so different pairs never share a key. */
  lemma LinkKeyInjective(a: int, c: int, a2: int, c2: int)
    requires LinkKey(a, c) == LinkKey(a2, c2)
    ensures a == a2 && c == c2
  {
    DecimalHasNoUnderscore(a);
    DecimalHasNoUnderscore(c);
    DecimalHasNoUnderscore(a2);
    DecimalHasNoUnderscore(c2);
    SplitSnoc(IntToDecimal(a), '_', IntToDecimal(c));
    SplitSnoc(IntToDecimal(a2), '_', IntToDecimal(c2));
    SplitNoSep(IntToDecimal(a), '_');
    SplitNoSep(IntToDecimal(a2), '_');
    var s := Split(LinkKey(a, c), '_');
    assert s == [IntToDecimal(a), IntToDecimal(c)];
    assert s == [IntToDecimal(a2), IntToDecimal(c2)];
    IntToDecimalInjective(a, a2);
    IntToDecimalInjective(c, c2);
  }

  /** `existingSet`: the keys of the stored links. */
  function ExistingSet(existing: seq<Link>): set<string> {
    set l | l in existing :: LinkKey(l.0, l.1)
  }

  /** The set holds a pair's key exactly when the pair is stored. */
  lemma ExistingSetMembers(existing: seq<Link>, a: int, c: int)
    ensures LinkKey(a, c) in ExistingSet(existing) <==> (a, c) in existing
  {
    if LinkKey(a, c) in ExistingSet(existing) {
      var l :| l in existing && LinkKey(l.0, l.1) == LinkKey(a, c);
      LinkKeyInjective(l.0, l.1, a, c);
    }
  }

  // ------------------------------------------------------------ new links

  /** `attributes.map(a => ({attribute_id: a, category_id})).filter(link =>
      !existingSet.has(key(link)))`. */
  function NewLinks(attributes: seq<int>, c: int, keys: set<string>): (r: seq<Link>)
    ensures |r| <= |attributes|
    ensures forall l :: l in r ==> l.1 == c && l.0 in attributes
    decreases |attributes|
  {
    if attributes == [] then []
    else
      var head: seq<Link> := if LinkKey(attributes[0], c) in keys then [] else [(attributes[0], c)];
      head + NewLinks(attributes[1..], c, keys)
  }

  /** A pair is proposed exactly when its attribute is listed and its key is
      not among the stored ones. */
  lemma {:induction false} NewLinksIn(attributes: seq<int>, c: int, keys: set<string>, a: int)
    ensures (a, c) in NewLinks(attributes, c, keys) <==> a in attributes && LinkKey(a, c) !in keys
    decreases |attributes|
  {
    if attributes != [] {
      NewLinksIn(attributes[1..], c, keys, a);
      assert a in attributes <==> a == attributes[0] || a in attributes[1..];
    }
  }

  /** Proposals follow the attribute list: the filter distributes over
      concatenation, so links for earlier attributes come first. */
  lemma {:induction false} NewLinksAppend(x: seq<int>, y: seq<int>, c: int, keys: set<string>)
    ensures NewLinks(x + y, c, keys) == NewLinks(x, c, keys) + NewLinks(y, c, keys)
    decreases |x|
  {
    if x == [] {
      assert x + y == y;
    } else {
      assert (x + y)[0] == x[0] && (x + y)[1..] == x[1..] + y;
      NewLinksAppend(x[1..], y, c, keys);
    }
  }

  /** The links stored for category `c`: `.select(...).eq('category_id', c)`. */
  function LinksOf(table: seq<Link>, c: int): (r: seq<Link>)
    ensures forall l :: l in r <==> l in table && l.1 == c
    decreases |table|
  {
    if table == [] then []
    else (if table[0].1 == c then [table[0]] else []) + LinksOf(table[1..], c)
  }

  /** The links the script proposes for category `c` given the table. */
  function NewLinksFor(table: seq<Link>, attributes: seq<int>, c: int): seq<Link> {
    NewLinks(attributes, c, ExistingSet(LinksOf(table, c)))
  }

  /** Every proposed link carries the category, and a link is proposed
      exactly when its attribute is listed and the pair is not stored. */
  lemma NewLinksForExactly(table: seq<Link>, attributes: seq<int>, c: int, l: Link)
    ensures l in NewLinksFor(table, attributes, c) <==> l.1 == c && l.0 in attributes && l !in table
  {
    if l.1 == c {
      NewLinksIn(attributes, c, ExistingSet(LinksOf(table, c)), l.0);
      ExistingSetMembers(LinksOf(table, c), l.0, c);
    }
  }

  lemma {:induction false} NewLinksEmpty(attributes: seq<int>, c: int, keys: set<string>)
    requires forall a :: a in attributes ==> LinkKey(a, c) in keys
    ensures NewLinks(attributes, c, keys) == []
    decreases |attributes|
  {
    if attributes != [] {
      assert attributes[0] in attributes;
      NewLinksEmpty(attributes[1..], c, keys);
    }
  }

  /** After the proposed links are inserted, recomputing for the same
      category proposes nothing. */
  lemma RecomputeProposesNothing(table: seq<Link>, attributes: seq<int>, c: int)
    ensures NewLinksFor(table + NewLinksFor(table, attributes, c), attributes, c) == []
  {
    var after := table + NewLinksFor(table, attributes, c);
    var keys := ExistingSet(LinksOf(after, c));
    forall a | a in attributes
      ensures LinkKey(a, c) in keys
    {
      NewLinksForExactly(table, attributes, c, (a, c));
      ExistingSetMembers(LinksOf(after, c), a, c);
    }
    NewLinksEmpty(attributes, c, keys);
  }

  /** No row occurs twice. */
  predicate NoDuplicatePairs(table: seq<Link>) {
    forall i, j :: 0 <= i < j < |table| ==> table[i] != table[j]
  }

  predicate DistinctIds(ids: seq<int>) {
    forall i, j :: 0 <= i < j < |ids| ==> ids[i] != ids[j]
  }

  /** With distinct attribute ids, no link is proposed twice. */
  lemma {:induction false} NewLinksDistinct(attributes: seq<int>, c: int, keys: set<string>)
    requires DistinctIds(attributes)
    ensures NoDuplicatePairs(NewLinks(attributes, c, keys))
    decreases |attributes|
  {
    if attributes != [] {
      var rest := attributes[1..];
      assert DistinctIds(rest) by {
        forall i, j | 0 <= i < j < |rest|
          ensures rest[i] != rest[j]
        {
          assert rest[i] == attributes[i + 1] && rest[j] == attributes[j + 1];
        }
      }
      NewLinksDistinct(rest, c, keys);
      assert attributes[0] !in rest by {
        forall k | 0 <= k < |rest|
          ensures rest[k] != attributes[0]
        {
          assert rest[k] == attributes[k + 1];
        }
      }
    }
  }

  /** Appending the proposals keeps every pair stored at most once. */
  lemma AppendKeepsNoDuplicates(table: seq<Link>, attributes: seq<int>, c: int)
    requires NoDuplicatePairs(table) && DistinctIds(attributes)
    ensures NoDuplicatePairs(table + NewLinksFor(table, attributes, c))
  {
    var nl := NewLinksFor(table, attributes, c);
    NewLinksDistinct(attributes, c, ExistingSet(LinksOf(table, c)));
    var t := table + nl;
    forall i, j | 0 <= i < j < |t|
      ensures t[i] != t[j]
    {
      if j >= |table| {
        if i < |table| {
          assert t[j] == nl[j - |table|];
          NewLinksForExactly(table, attributes, c, t[j]);
          assert t[i] == table[i];
        } else {
          assert t[i] == nl[i - |table|] && t[j] == nl[j - |table|];
        }
      } else {
        assert t[i] == table[i] && t[j] == table[j];
      }
    }
  }

  // -------------------------------------------------------------- the run

  /** What the script reads per place: the `category_id` of the place's one
      `locations` row (absent when there is no single row, `None` when the
      column is null), and the places whose link reads or inserts fail. */
  datatype LinkEnv = LinkEnv(categoryOf: map<string, Option<int>>, readFaults: set<string>, insertFaults: set<string>)

  /** The category to link for a place id, or `None` when the place is
      skipped: a non-string entry, no single location row, or a falsy
      `category_id` (null or 0). */
  function CategoryFor(env: LinkEnv, id: Option<string>): (r: Option<int>)
    ensures r.Some? ==> r.value != 0
  {
    if id.None? || id.value !in env.categoryOf then None
    else
      match env.categoryOf[id.value]
      case None => None
      case Some(c) => if c == 0 then None else Some(c)
  }

  /** The table after the loop body for one place. */
  function LinkStep(env: LinkEnv, table: seq<Link>, attributes: seq<int>, id: Option<string>): (r: seq<Link>)
    ensures CategoryFor(env, id).None? || (id.Some? && id.value in env.readFaults) ==> r == table
    ensures r == table || (CategoryFor(env, id).Some? && r == table + NewLinksFor(table, attributes, CategoryFor(env, id).value))
    ensures id.Some? && CategoryFor(env, id).Some? && id.value !in env.readFaults && id.value !in env.insertFaults ==>
      r == table + NewLinksFor(table, attributes, CategoryFor(env, id).value)
  {
    match CategoryFor(env, id)
    case None => table
    case Some(c) =>
      if id.value in env.readFaults then table
      else
        var nl := NewLinksFor(table, attributes, c);
        if |nl| == 0 || id.value in env.insertFaults then table else table + nl
  }

  function LinkRun(env: LinkEnv, table: seq<Link>, attributes: seq<int>, ids: seq<Option<string>>): seq<Link>
    decreases |ids|
  {
    if ids == [] then table
    else LinkRun(env, LinkStep(env, table, attributes, ids[0]), attributes, ids[1..])
  }

  /** A run only appends rows, each for a listed attribute and the category
      of a place of the file. */
  lemma {:induction false} LinkRunAppends(env: LinkEnv, table: seq<Link>, attributes: seq<int>, ids: seq<Option<string>>)
    ensures var r := LinkRun(env, table, attributes, ids);
      |table| <= |r| && r[..|table|] == table
      && forall k :: |table| <= k < |r| ==>
           (r[k].0 in attributes && exists id :: id in ids && CategoryFor(env, id) == Some(r[k].1))
    decreases |ids|
  {
    if ids != [] {
      var next := LinkStep(env, table, attributes, ids[0]);
      LinkRunAppends(env, next, attributes, ids[1..]);
      var r := LinkRun(env, table, attributes, ids);
      assert r == LinkRun(env, next, attributes, ids[1..]);
      forall k | |table| <= k < |r|
        ensures r[k].0 in attributes && exists id :: id in ids && CategoryFor(env, id) == Some(r[k].1)
      {
        if k < |next| {
          assert r[k] == next[k];
          var c := CategoryFor(env, ids[0]).value;
          assert next[k] == NewLinksFor(table, attributes, c)[k - |table|];
          assert ids[0] in ids;
        } else {
          var id :| id in ids[1..] && CategoryFor(env, id) == Some(r[k].1);
          assert id in ids;
        }
      }
    }
  }

  /** A place of the file whose category is known and whose read and insert
      succeed ends up linked to every listed attribute: its own step stores
      each missing pair, and later steps only append. */
  lemma {:induction false} LinkRunLinksPlace(env: LinkEnv, table: seq<Link>, attributes: seq<int>, ids: seq<Option<string>>, i: nat, a: int)
    requires i < |ids| && ids[i].Some? && CategoryFor(env, ids[i]).Some?
    requires ids[i].value !in env.readFaults && ids[i].value !in env.insertFaults
    requires a in attributes
    ensures (a, CategoryFor(env, ids[i]).value) in LinkRun(env, table, attributes, ids)
    decreases |ids|
  {
    var next := LinkStep(env, table, attributes, ids[0]);
    if i == 0 {
      var c := CategoryFor(env, ids[0]).value;
      NewLinksForExactly(table, attributes, c, (a, c));
      assert (a, c) in next;
      LinkRunAppends(env, next, attributes, ids[1..]);
      var r := LinkRun(env, next, attributes, ids[1..]);
      var k :| 0 <= k < |next| && next[k] == (a, c);
      assert r[..|next|][k] == (a, c);
    } else {
      assert ids[1..][i - 1] == ids[i];
      LinkRunLinksPlace(env, next, attributes, ids[1..], i - 1, a);
    }
  }

  /** With distinct attribute ids the table never receives a pair it
      already holds. */
  lemma {:induction false} LinkRunNoDuplicates(env: LinkEnv, table: seq<Link>, attributes: seq<int>, ids: seq<Option<string>>)
    requires NoDuplicatePairs(table) && DistinctIds(attributes)
    ensures NoDuplicatePairs(LinkRun(env, table, attributes, ids))
    decreases |ids|
  {
    if ids != [] {
      var next := LinkStep(env, table, attributes, ids[0]);
      if next != table {
        AppendKeepsNoDuplicates(table, attributes, CategoryFor(env, ids[0]).value);
      }
      LinkRunNoDuplicates(env, next, attributes, ids[1..]);
    }
  }

  /** `attributes_meet_categories` as a sequence of rows in insertion order. */
  class LinkTable {
    var links: seq<Link>

    constructor(initial: seq<Link>)
      ensures links == initial
    {
      links := initial;
    }

    /** `.insert(newLinks)`: all rows are added, or none when the insert
        fails. */
    method Insert(newLinks: seq<Link>, fails: bool)
      modifies this
      ensures links == if fails then old(links) else old(links) + newLinks
    {
      if !fails {
        links := links + newLinks;
      }
    }

    /** `run` after the id file is read: nothing happens when the id mapping
        throws or the attribute list cannot be read; otherwise each place in
        turn. */
    method LinkPlaces(env: LinkEnv, rawData: seq<Json>, attributes: Option<seq<int>>)
      modifies this
      ensures PlaceIds(rawData).None? || attributes.None? ==> links == old(links)
      ensures PlaceIds(rawData).Some? && attributes.Some? ==>
        links == LinkRun(env, old(links), attributes.value, PlaceIds(rawData).value)
    {
      var placeIds := PlaceIds(rawData);
      if placeIds.None? || attributes.None? {
        return;
      }
      var ids := placeIds.value;
      var attrs := attributes.value;
      var i := 0;
      while i < |ids|
        invariant 0 <= i <= |ids|
        invariant LinkRun(env, links, attrs, ids[i..]) == LinkRun(env, old(links), attrs, ids)
      {
        assert ids[i..][0] == ids[i] && ids[i..][1..] == ids[i + 1..];
        var id := ids[i];
        i := i + 1;
        var category := CategoryFor(env, id);
        if category.None? || id.value in env.readFaults {
          continue;
        }
        var c := category.value;
        var existingSet := ExistingSet(LinksOf(links, c));
        var newLinks := NewLinks(attrs, c, existingSet);
        if |newLinks| == 0 {
          continue;
        }
        Insert(newLinks, id.value in env.insertFaults);
      }
    }
  }
}
