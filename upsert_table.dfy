/** A table written with `upsert(..., { onConflict: "location_id,attribute_id,language_code" })`:
    a write replaces the row under its conflict key, a failing write is
    logged and changes nothing. Both location-value scripts write this way. */
module UpsertTable {

  /** The conflict key: location, attribute, language code. */
  type RowKey = (int, int, string)

  /** The table after a sequence of upserts, in order. */
  function ApplyUpserts<R>(rows: map<RowKey, R>, ws: seq<(RowKey, R)>, faults: set<RowKey>): map<RowKey, R>
    decreases |ws|
  {
    if ws == [] then rows
    else
      var before := ApplyUpserts(rows, ws[..|ws| - 1], faults);
      var w := ws[|ws| - 1];
      if w.0 in faults then before else before[w.0 := w.1]
  }

  lemma {:induction false} ApplyUpsertsAppend<R>(rows: map<RowKey, R>, a: seq<(RowKey, R)>, b: seq<(RowKey, R)>, faults: set<RowKey>)
    ensures ApplyUpserts(rows, a + b, faults) == ApplyUpserts(ApplyUpserts(rows, a, faults), b, faults)
    decreases |b|
  {
    if b == [] {
      assert a + b == a;
    } else {
      assert (a + b)[..|a + b| - 1] == a + b[..|b| - 1];
      assert (a + b)[|a + b| - 1] == b[|b| - 1];
      ApplyUpsertsAppend(rows, a, b[..|b| - 1], faults);
    }
  }

  /** One more upsert: a failing one changes nothing, a successful one
      replaces the row under its key. */
  lemma ApplyUpsertsSnoc<R>(rows: map<RowKey, R>, ws: seq<(RowKey, R)>, w: (RowKey, R), faults: set<RowKey>)
    ensures ApplyUpserts(rows, ws + [w], faults)
      == var before := ApplyUpserts(rows, ws, faults); if w.0 in faults then before else before[w.0 := w.1]
  {
    assert (ws + [w])[..|ws|] == ws;
  }

  /** A key that no successful write touches keeps its old row, or stays
      absent: an upsert changes no other row. */
  lemma {:induction false} UntouchedRowsKept<R>(rows: map<RowKey, R>, ws: seq<(RowKey, R)>, faults: set<RowKey>, k: RowKey)
    requires forall j :: 0 <= j < |ws| ==> ws[j].0 != k || ws[j].0 in faults
    ensures var r := ApplyUpserts(rows, ws, faults);
      (k in r <==> k in rows) && (k in rows ==> r[k] == rows[k])
    decreases |ws|
  {
    if ws != [] {
      UntouchedRowsKept(rows, ws[..|ws| - 1], faults, k);
    }
  }

  /** A key holds the row of its last successful write: a later upsert with
      the same location, attribute and language replaces the earlier row. */
  lemma {:induction false} LastWriteWins<R>(rows: map<RowKey, R>, ws: seq<(RowKey, R)>, faults: set<RowKey>, i: nat)
    requires i < |ws| && ws[i].0 !in faults
    requires forall j :: i < j < |ws| ==> ws[j].0 != ws[i].0
    ensures var r := ApplyUpserts(rows, ws, faults);
      ws[i].0 in r && r[ws[i].0] == ws[i].1
    decreases |ws|
  {
    if i < |ws| - 1 {
      LastWriteWins(rows, ws[..|ws| - 1], faults, i);
    }
  }
}
