/** Attribute discovery's pure half: `extractKeys` flattens a Place Details
    record into dot-path keys, and `determineType` re-resolves a key in the
    record and classifies the value found there. The three scanner scripts
    carry identical copies of `extractKeys`; their `determineType` copies
    differ only in how a path step reads a property (`val ? val[k] :
    undefined` against `val?.[k]`), which `Access` selects. */
module KeyDiscovery {
  import opened Wrappers
  import opened JsText
  import opened JsonValue

  /** The storage kinds `determineType` returns. */
  datatype Kind = Text | Boolean | Number | JsonKind {
    /** The `input_type` string stored in the attribute definition. */
    function Name(): string {
      match this
      case Text => "text"
      case Boolean => "boolean"
      case Number => "number"
      case JsonKind => "json"
    }
  }

  /** `prefix ? `${prefix}.${key}` : key`; the empty prefix is falsy. */
  function FullKey(prefix: string, key: string): string {
    if prefix == "" then key else prefix + "." + key
  }

  /** The keys `extractKeys` produces for the first `n` fields of object `v`
      under `prefix`: a field holding an object (non-null, not an array)
      contributes that object's keys under its own path, any other field
      (array, null, scalar) contributes its path alone. */
  function FlattenFields(v: Json, n: nat, prefix: string): seq<string>
    requires v.JObj? && n <= |v.fields|
    decreases v, n
  {
    if n == 0 then []
    else
      var k := v.fields[n - 1].0;
      var x := v.fields[n - 1].1;
      FlattenFields(v, n - 1, prefix)
        + (if x.JObj? then FlattenFields(x, |x.fields|, FullKey(prefix, k)) else [FullKey(prefix, k)])
  }

  /** The keys of a whole record. */
  function Flatten(v: Json, prefix: string): seq<string> {
    if v.JObj? then FlattenFields(v, |v.fields|, prefix) else []
  }

  /** `extractKeys(obj, prefix)`: a `for...in` loop over the fields that
      concatenates the keys of nested objects and pushes every other path. */
  method ExtractKeys(obj: Json, prefix: string) returns (keys: seq<string>)
    ensures keys == Flatten(obj, prefix)
    decreases obj
  {
    keys := [];
    if !obj.JObj? {
      return;
    }
    var fs := obj.fields;
    var i := 0;
    while i < |fs|
      invariant 0 <= i <= |fs|
      invariant keys == FlattenFields(obj, i, prefix)
    {
      var key := fs[i].0;
      var value := fs[i].1;
      var fullKey := if prefix != "" then prefix + "." + key else key;
      if value.JObj? {
        var nested := ExtractKeys(value, fullKey);
        keys := keys + nested;
      } else {
        keys := keys + [fullKey];
      }
      i := i + 1;
    }
  }

  // -------------------------------------------------------- leaf paths

  function Prepend(k: string, ps: seq<seq<string>>): (r: seq<seq<string>>)
    ensures |r| == |ps| && forall i :: 0 <= i < |ps| ==> r[i] == [k] + ps[i]
  {
    seq(|ps|, i requires 0 <= i < |ps| => [k] + ps[i])
  }

  /** The field-name paths to the values that `extractKeys` treats as leaves,
      in the same order. */
  function LeafPathsFields(v: Json, n: nat): seq<seq<string>>
    requires v.JObj? && n <= |v.fields|
    decreases v, n
  {
    if n == 0 then []
    else
      var k := v.fields[n - 1].0;
      var x := v.fields[n - 1].1;
      LeafPathsFields(v, n - 1)
        + (if x.JObj? then Prepend(k, LeafPathsFields(x, |x.fields|)) else [[k]])
  }

  function LeafPaths(v: Json): seq<seq<string>> {
    if v.JObj? then LeafPathsFields(v, |v.fields|) else []
  }

  /** Following a path through objects only (the reference reading of a
      dot-path, independent of any JavaScript property-access form). */
  function ObjWalk(v: Json, p: seq<string>): Option<Json>
    decreases |p|
  {
    if p == [] then Some(v)
    else if !v.JObj? then None
    else
      match FieldValue(v.fields, p[0])
      case None => None
      case Some(x) => ObjWalk(x, p[1..])
  }

  /** A value `extractKeys` stops at: anything but a non-null, non-array object. */
  predicate IsLeafAt(v: Json, p: seq<string>) {
    p != [] && ObjWalk(v, p).Some? && !ObjWalk(v, p).value.JObj?
  }

  /** The key built for a path below `prefix`, one `FullKey` step per segment. */
  function JoinPath(prefix: string, p: seq<string>): string
    decreases |p|
  {
    if p == [] then prefix else JoinPath(FullKey(prefix, p[0]), p[1..])
  }

  lemma JoinedConcat(prefix: string, a: seq<string>, pa: seq<seq<string>>, b: seq<string>, pb: seq<seq<string>>)
    requires |a| == |pa| && forall i :: 0 <= i < |pa| ==> a[i] == JoinPath(prefix, pa[i])
    requires |b| == |pb| && forall i :: 0 <= i < |pb| ==> b[i] == JoinPath(prefix, pb[i])
    ensures |a + b| == |pa + pb| && forall i :: 0 <= i < |pa + pb| ==> (a + b)[i] == JoinPath(prefix, (pa + pb)[i])
  {
    forall i | 0 <= i < |pa + pb| ensures (a + b)[i] == JoinPath(prefix, (pa + pb)[i]) {
      if i >= |pa| {
        assert (a + b)[i] == b[i - |a|] && (pa + pb)[i] == pb[i - |pa|];
      }
    }
  }

  /** Flattening is exactly the joined leaf paths: one key per leaf, in order. */
  lemma {:induction false} FlattenIsJoinedLeafPaths(v: Json, n: nat, prefix: string)
    requires v.JObj? && n <= |v.fields|
    ensures |FlattenFields(v, n, prefix)| == |LeafPathsFields(v, n)|
    ensures forall i :: 0 <= i < |LeafPathsFields(v, n)| ==>
      FlattenFields(v, n, prefix)[i] == JoinPath(prefix, LeafPathsFields(v, n)[i])
    decreases v, n
  {
    if n > 0 {
      var k := v.fields[n - 1].0;
      var x := v.fields[n - 1].1;
      FlattenIsJoinedLeafPaths(v, n - 1, prefix);
      var a := FlattenFields(v, n - 1, prefix);
      var pa := LeafPathsFields(v, n - 1);
      if x.JObj? {
        FlattenIsJoinedLeafPaths(x, |x.fields|, FullKey(prefix, k));
        var b := FlattenFields(x, |x.fields|, FullKey(prefix, k));
        var pb := Prepend(k, LeafPathsFields(x, |x.fields|));
        forall j | 0 <= j < |pb|
          ensures b[j] == JoinPath(prefix, pb[j])
        {
          assert pb[j][1..] == LeafPathsFields(x, |x.fields|)[j];
        }
        assert FlattenFields(v, n, prefix) == a + b;
        assert LeafPathsFields(v, n) == pa + pb;
        JoinedConcat(prefix, a, pa, b, pb);
      } else {
        assert JoinPath(prefix, [k]) == FullKey(prefix, k);
        assert FlattenFields(v, n, prefix) == a + [FullKey(prefix, k)];
        assert LeafPathsFields(v, n) == pa + [[k]];
        JoinedConcat(prefix, a, pa, [FullKey(prefix, k)], [[k]]);
      }
    }
  }

  /** Every leaf path leads, through objects, to a value that is not an object. */
  lemma {:induction false} LeafPathsReachLeaves(v: Json, n: nat)
    requires v.JObj? && n <= |v.fields| && WellFormed(v)
    ensures forall p :: p in LeafPathsFields(v, n) ==> IsLeafAt(v, p)
    decreases v, n
  {
    if n > 0 {
      var k := v.fields[n - 1].0;
      var x := v.fields[n - 1].1;
      LeafPathsReachLeaves(v, n - 1);
      FieldValueAt(v.fields, n - 1);
      assert WellFormed(x);
      if x.JObj? {
        LeafPathsReachLeaves(x, |x.fields|);
        var pb := Prepend(k, LeafPathsFields(x, |x.fields|));
        forall p | p in pb
          ensures IsLeafAt(v, p)
        {
          var j :| 0 <= j < |pb| && pb[j] == p;
          var q := LeafPathsFields(x, |x.fields|)[j];
          assert p == [k] + q && p[1..] == q;
          assert IsLeafAt(x, q);
        }
      } else {
        assert [k][1..] == [];
        assert ObjWalk(v, [k]) == Some(x);
        assert IsLeafAt(v, [k]);
      }
      assert LeafPathsFields(v, n) == LeafPathsFields(v, n - 1)
        + (if x.JObj? then Prepend(k, LeafPathsFields(x, |x.fields|)) else [[k]]);
    }
  }

  /** The contribution of field `i` appears among the leaf paths of the first
      `n > i` fields. */
  lemma {:induction false} FieldContributes(v: Json, n: nat, i: nat, p: seq<string>)
    requires v.JObj? && i < n <= |v.fields|
    requires var x := v.fields[i].1;
      p in (if x.JObj? then Prepend(v.fields[i].0, LeafPathsFields(x, |x.fields|)) else [[v.fields[i].0]])
    ensures p in LeafPathsFields(v, n)
    decreases n
  {
    if i < n - 1 {
      FieldContributes(v, n - 1, i, p);
    }
  }

  /** Every path through objects to a non-object value is a leaf path. */
  lemma {:induction false} LeafPathsComplete(v: Json, p: seq<string>)
    requires v.JObj? && IsLeafAt(v, p)
    ensures p in LeafPaths(v)
    decreases |p|
  {
    var k := p[0];
    var x := FieldValue(v.fields, k).value;
    var i :| 0 <= i < |v.fields| && v.fields[i] == (k, x);
    if |p| == 1 {
      assert p == [k] && p[1..] == [];
      assert ObjWalk(v, p) == Some(x);
      FieldContributes(v, |v.fields|, i, p);
    } else {
      assert ObjWalk(v, p) == ObjWalk(x, p[1..]);
      assert x.JObj?;
      LeafPathsComplete(x, p[1..]);
      var q := LeafPathsFields(x, |x.fields|);
      var j :| 0 <= j < |q| && q[j] == p[1..];
      assert Prepend(k, q)[j] == p;
      FieldContributes(v, |v.fields|, i, p);
    }
  }

  // ----------------------------------------------- keys and their paths

  /** Field names that are non-empty and contain no dot, at every level. */
  predicate PlainKeys(v: Json) {
    match v
    case JObj(fs) => forall i :: 0 <= i < |fs| ==>
      fs[i].0 != "" && '.' !in fs[i].0 && PlainKeys(fs[i].1)
    case _ => true
  }

  predicate PlainSegments(p: seq<string>) {
    forall j :: 0 <= j < |p| ==> p[j] != "" && '.' !in p[j]
  }

  /** A path that walks through a record with plain keys has plain segments. */
  lemma {:induction false} WalkedPathIsPlain(v: Json, p: seq<string>)
    requires PlainKeys(v) && ObjWalk(v, p).Some?
    ensures PlainSegments(p)
    decreases |p|
  {
    if p != [] {
      var x := FieldValue(v.fields, p[0]).value;
      var i :| 0 <= i < |v.fields| && v.fields[i] == (p[0], x);
      assert PlainKeys(x);
      WalkedPathIsPlain(x, p[1..]);
      forall j | 0 <= j < |p|
        ensures p[j] != "" && '.' !in p[j]
      {
        if j > 0 {
          assert p[j] == p[1..][j - 1];
        }
      }
    }
  }

  lemma {:induction false} SplitJoinPathBelow(prefix: string, p: seq<string>)
    requires prefix != "" && PlainSegments(p)
    ensures Split(JoinPath(prefix, p), '.') == Split(prefix, '.') + p
    decreases |p|
  {
    if p != [] {
      var next := prefix + "." + p[0];
      assert JoinPath(prefix, p) == JoinPath(next, p[1..]);
      assert PlainSegments(p[1..]) by {
        forall j | 0 <= j < |p[1..]| ensures p[1..][j] != "" && '.' !in p[1..][j] {
          assert p[1..][j] == p[j + 1];
        }
      }
      SplitJoinPathBelow(next, p[1..]);
      SplitSnoc(prefix, '.', p[0]);
      SnocThenRest(Split(prefix, '.'), p);
    }
  }

  lemma SnocThenRest(a: seq<string>, p: seq<string>)
    requires p != []
    ensures (a + [p[0]]) + p[1..] == a + p
  {
    assert [p[0]] + p[1..] == p;
  }

  /** `keyPath.split(".")` recovers the path a key was built from, when its
      segments are plain. */
  lemma JoinPathRoundTrip(p: seq<string>)
    requires p != [] && PlainSegments(p)
    ensures Split(JoinPath("", p), '.') == p
  {
    SplitNoSep(p[0], '.');
    SplitJoinPathBelow(p[0], p[1..]);
  }

  lemma {:induction false} JoinPathShift(x: string, y: string, p: seq<string>)
    requires y != ""
    ensures JoinPath(x + y, p) == x + JoinPath(y, p)
    decreases |p|
  {
    if p != [] {
      assert (x + y) + "." + p[0] == x + (y + "." + p[0]);
      JoinPathShift(x, y + "." + p[0], p[1..]);
    }
  }

  /** Under a non-empty prefix, a record with plain keys yields exactly its
      own keys, each preceded by the prefix and a dot: an object holding n
      leaves contributes n keys, all under its path. */
  lemma FlattenUnderPrefix(v: Json, prefix: string)
    requires v.JObj? && PlainKeys(v) && prefix != ""
    ensures |Flatten(v, prefix)| == |Flatten(v, "")|
    ensures forall i :: 0 <= i < |Flatten(v, prefix)| ==>
      Flatten(v, prefix)[i] == prefix + "." + Flatten(v, "")[i]
  {
    var n := |v.fields|;
    FlattenIsJoinedLeafPaths(v, n, prefix);
    FlattenIsJoinedLeafPaths(v, n, "");
    forall i | 0 <= i < |Flatten(v, prefix)|
      ensures Flatten(v, prefix)[i] == prefix + "." + Flatten(v, "")[i]
    {
      var p := LeafPathsFields(v, n)[i];
      assert p in LeafPathsFields(v, n);
      WalkedPathIsPlainLeaf(v, n, p);
      JoinPathShift(prefix + ".", p[0], p[1..]);
      assert JoinPath(prefix, p) == JoinPath(prefix + "." + p[0], p[1..]);
      assert JoinPath("", p) == JoinPath(p[0], p[1..]);
    }
  }

  /** Leaf paths are non-empty and, for plain keys, plain. */
  lemma {:induction false} WalkedPathIsPlainLeaf(v: Json, n: nat, p: seq<string>)
    requires v.JObj? && n <= |v.fields| && PlainKeys(v) && p in LeafPathsFields(v, n)
    ensures p != [] && PlainSegments(p)
    decreases v, n
  {
    var k := v.fields[n - 1].0;
    var x := v.fields[n - 1].1;
    if p in LeafPathsFields(v, n - 1) {
      WalkedPathIsPlainLeaf(v, n - 1, p);
    } else if x.JObj? {
      var q := LeafPathsFields(x, |x.fields|);
      var j :| 0 <= j < |q| && Prepend(k, q)[j] == p;
      WalkedPathIsPlainLeaf(x, |x.fields|, q[j]);
      assert p == [k] + q[j];
      forall m | 0 <= m < |p|
        ensures p[m] != "" && '.' !in p[m]
      {
        if m > 0 {
          assert p[m] == q[j][m - 1];
        }
      }
    } else {
      assert p == [k];
    }
  }

  // ------------------------------------------------------ determineType

  /** How one step of `determineType`'s loop reads a property:
      `val ? val[k] : undefined` (Truthy) or `val?.[k]` (Optional). */
  datatype Access = TruthyAccess | OptionalAccess

  function Step(a: Access, val: Option<Json>, k: string): Option<Json> {
    match val
    case None => None
    case Some(x) =>
      if a.TruthyAccess? && !Truthy(x) then None
      else if x.JNull? then None
      else Prop(x, k)
  }

  /** The value a dot-path resolves to, one property read per segment. */
  function Resolve(a: Access, val: Option<Json>, segs: seq<string>): Option<Json>
    decreases |segs|
  {
    if segs == [] then val else Resolve(a, Step(a, val, segs[0]), segs[1..])
  }

  /** The classification: undefined, null and strings are text; booleans,
      numbers; objects and arrays, json. */
  function KindOf(val: Option<Json>): (k: Kind)
    ensures k == JsonKind <==> val.Some? && (val.value.JObj? || val.value.JArr?)
    ensures k == Boolean <==> val.Some? && val.value.JBool?
    ensures k == Number <==> val.Some? && val.value.JNum?
    ensures k == Text <==> val.None? || val.value.JNull? || val.value.JStr?
  {
    match val
    case None => Text
    case Some(JNull) => Text
    case Some(JBool(_)) => Boolean
    case Some(JNum(_)) => Number
    case Some(JStr(_)) => Text
    case Some(_) => JsonKind
  }

  /** `determineType(obj, keyPath)`: split the path, walk it reassigning
      `val`, classify what is left. */
  method DetermineType(a: Access, obj: Json, keyPath: string) returns (kind: Kind)
    ensures kind == KindOf(Resolve(a, Some(obj), Split(keyPath, '.')))
  {
    var keys := Split(keyPath, '.');
    var val: Option<Json> := Some(obj);
    var i := 0;
    while i < |keys|
      invariant 0 <= i <= |keys|
      invariant Resolve(a, val, keys[i..]) == Resolve(a, Some(obj), keys)
    {
      assert keys[i..][1..] == keys[i + 1..];
      val := match val
        case None => None
        case Some(x) =>
          if a.TruthyAccess? && !Truthy(x) then None
          else if x.JNull? then None
          else Prop(x, keys[i]);
      i := i + 1;
    }
    kind := match val
      case None => Text
      case Some(JNull) => Text
      case Some(JBool(_)) => Boolean
      case Some(JNum(_)) => Number
      case Some(JStr(_)) => Text
      case Some(_) => JsonKind;
  }

  /** Along a path through objects, both property-access forms read the
      same values as the reference walk. */
  lemma {:induction false} ResolveFollowsObjects(a: Access, v: Json, p: seq<string>)
    requires ObjWalk(v, p).Some?
    ensures Resolve(a, Some(v), p) == ObjWalk(v, p)
    decreases |p|
  {
    if p != [] {
      var x := FieldValue(v.fields, p[0]).value;
      assert Step(a, Some(v), p[0]) == Some(x);
      ResolveFollowsObjects(a, x, p[1..]);
    }
  }

  /** The key-discovery theorem: for a record whose field names are plain,
      the i-th extracted key resolves, under either access form, to the i-th
      leaf, which is never an object; its kind is therefore json exactly for
      an array, and text for null. */
  lemma ExtractedKeyKind(a: Access, v: Json, i: nat)
    requires v.JObj? && WellFormed(v) && PlainKeys(v)
    requires i < |Flatten(v, "")|
    ensures i < |LeafPaths(v)| && IsLeafAt(v, LeafPaths(v)[i])
    ensures Resolve(a, Some(v), Split(Flatten(v, "")[i], '.')) == ObjWalk(v, LeafPaths(v)[i])
    ensures var leaf := ObjWalk(v, LeafPaths(v)[i]).value;
      KindOf(Some(leaf)) == JsonKind <==> leaf.JArr?
  {
    var n := |v.fields|;
    FlattenIsJoinedLeafPaths(v, n, "");
    var p := LeafPathsFields(v, n)[i];
    assert p in LeafPathsFields(v, n);
    LeafPathsReachLeaves(v, n);
    WalkedPathIsPlain(v, p);
    JoinPathRoundTrip(p);
    ResolveFollowsObjects(a, v, p);
  }

  /** Conversely, every path to a non-object value is extracted as a key. */
  lemma EveryLeafIsExtracted(v: Json, p: seq<string>)
    requires v.JObj? && IsLeafAt(v, p)
    ensures JoinPath("", p) in Flatten(v, "")
  {
    LeafPathsComplete(v, p);
    FlattenIsJoinedLeafPaths(v, |v.fields|, "");
    var j :| 0 <= j < |LeafPaths(v)| && LeafPaths(v)[j] == p;
    assert Flatten(v, "")[j] == JoinPath("", p);
  }

  /** A two-segment key splits into its segments. */
  lemma SplitTwoSegments(a: string, b: string)
    requires '.' !in a && '.' !in b
    ensures Split(a + "." + b, '.') == [a, b]
  {
    SplitNoSep(a, '.');
    SplitSnoc(a, '.', b);
  }

  /** The two `determineType` copies can disagree on a path that is not an
      extracted key: through an empty string, `val ? ...` stops while
      `val?.[k]` reads the string's length. */
  lemma AccessFormsDiffer()
    ensures Split("a.length", '.') == ["a", "length"]
    ensures KindOf(Resolve(TruthyAccess, Some(JObj([("a", JStr(""))])), ["a", "length"])) == Text
    ensures KindOf(Resolve(OptionalAccess, Some(JObj([("a", JStr(""))])), ["a", "length"])) == Number
  {
    SplitTwoSegments("a", "length");
    assert "a" + "." + "length" == "a.length";
    var v := JObj([("a", JStr(""))]);
    var s := Some(JStr(""));
    assert ["a", "length"][1..] == ["length"];
    assert ["length"][1..] == [];
    assert Step(TruthyAccess, Some(v), "a") == s;
    assert Step(TruthyAccess, s, "length") == None;
    assert Step(OptionalAccess, Some(v), "a") == s;
    assert Step(OptionalAccess, s, "length") == Some(JNum(0.0));
  }
}
