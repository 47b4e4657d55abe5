/**
 * Rows of a historical table and the field diff that decides whether two
 * snapshots are duplicates.
 */
module History {

  /**
   * One row of a historical table. `historyId` is the table's primary key
   * (`history_id`); `id` is the tracked object's own `id`, which the
   * historical table keeps as an ordinary column; `date` is `history_date`;
   * `fields` maps each tracked field name to its value.
   */
  datatype Snapshot = Snapshot(historyId: nat, id: nat, date: int, fields: map<string, string>)

  /**
   * The names the diff reports as changed between `newer` and `older`: every
   * tracked field outside `excluded` that is missing on one side or has a
   * different value on the two sides. This is what `diff_against` computes;
   * its implementation is not part of this model.
   */
  function ChangedFields(newer: Snapshot, older: Snapshot, excluded: set<string>): (changed: set<string>)
    ensures changed !! excluded
    ensures changed <= newer.fields.Keys + older.fields.Keys
    ensures forall f :: f in newer.fields && f in older.fields && f !in excluded ==>
              (f in changed <==> newer.fields[f] != older.fields[f])
  {
    set f | f in newer.fields.Keys + older.fields.Keys && f !in excluded &&
            !(f in newer.fields && f in older.fields && newer.fields[f] == older.fields[f])
  }

  /**
   * The duplicate test: every tracked field outside `excluded` is present on
   * both sides with the same value.
   */
  predicate Unchanged(newer: Snapshot, older: Snapshot, excluded: set<string>)
  {
    forall f :: f in newer.fields.Keys + older.fields.Keys && f !in excluded ==>
      f in newer.fields && f in older.fields && newer.fields[f] == older.fields[f]
  }

  /** `not delta.changed_fields` holds exactly when the two rows are `Unchanged`. */
  lemma NoChangedFieldsIffUnchanged(newer: Snapshot, older: Snapshot, excluded: set<string>)
    ensures ChangedFields(newer, older, excluded) == {} <==> Unchanged(newer, older, excluded)
  {
    var changed := ChangedFields(newer, older, excluded);
    if changed == {} {
      forall f | f in newer.fields.Keys + older.fields.Keys && f !in excluded
        ensures f in newer.fields && f in older.fields && newer.fields[f] == older.fields[f]
      {
        assert f !in changed;
      }
    } else {
      var f :| f in changed;
      assert !(f in newer.fields && f in older.fields && newer.fields[f] == older.fields[f]);
    }
  }

  /** A snapshot has no changed field against itself. */
  lemma UnchangedReflexive(e: Snapshot, excluded: set<string>)
    ensures ChangedFields(e, e, excluded) == {}
    ensures Unchanged(e, e, excluded)
  {
    assert ChangedFields(e, e, excluded) == {};
  }

  /**
   * The order of a history query: `-history_date`, then `-history_id`
   * (newest first).
   */
  ghost predicate NewestFirst(h: seq<Snapshot>)
  {
    forall i, j :: 0 <= i < j < |h| ==>
      h[j].date < h[i].date || (h[j].date == h[i].date && h[j].historyId < h[i].historyId)
  }

  /** No two rows share a primary key. */
  ghost predicate DistinctKeys(h: seq<Snapshot>)
  {
    forall i, j :: 0 <= i < j < |h| ==> h[i].historyId != h[j].historyId
  }

  /** Primary keys of a sequence of rows, as a set. */
  function HistoryIds(s: seq<Snapshot>): set<nat>
    decreases |s|
  {
    if |s| == 0 then {} else HistoryIds(s[..|s| - 1]) + {s[|s| - 1].historyId}
  }

  /** A key is in `HistoryIds(s)` exactly when some row of `s` has it. */
  lemma {:induction false} HistoryIdsMembers(s: seq<Snapshot>)
    ensures forall k :: k in HistoryIds(s) <==> exists e :: e in s && e.historyId == k
    decreases |s|
  {
    if |s| > 0 {
      var p := s[..|s| - 1];
      HistoryIdsMembers(p);
      assert forall e :: e in s <==> e in p || e == s[|s| - 1];
    }
  }

  /** The `id` column of each row, in order (what batch mode collects). */
  function ObjectIds(s: seq<Snapshot>): (ids: seq<nat>)
    ensures |ids| == |s|
    decreases |s|
  {
    if |s| == 0 then [] else ObjectIds(s[..|s| - 1]) + [s[|s| - 1].id]
  }

  /** The `id` listed at position `i` is that of the `i`-th row. */
  lemma {:induction false} ObjectIdsAt(s: seq<Snapshot>, i: nat)
    requires i < |s|
    ensures ObjectIds(s)[i] == s[i].id
    decreases |s|
  {
    if i < |s| - 1 {
      ObjectIdsAt(s[..|s| - 1], i);
    }
  }

  /** Primary keys of a sequence of rows, in order. */
  function KeyList(s: seq<Snapshot>): (ks: seq<nat>)
    ensures |ks| == |s|
    decreases |s|
  {
    if |s| == 0 then [] else KeyList(s[..|s| - 1]) + [s[|s| - 1].historyId]
  }

  lemma {:induction false} HistoryIdsAppend(a: seq<Snapshot>, b: seq<Snapshot>)
    ensures HistoryIds(a + b) == HistoryIds(a) + HistoryIds(b)
    decreases |b|
  {
    if |b| == 0 {
      assert a + b == a;
    } else {
      assert (a + b)[..|a + b| - 1] == a + b[..|b| - 1];
      HistoryIdsAppend(a, b[..|b| - 1]);
    }
  }

  lemma {:induction false} ObjectIdsAppend(a: seq<Snapshot>, b: seq<Snapshot>)
    ensures ObjectIds(a + b) == ObjectIds(a) + ObjectIds(b)
    decreases |b|
  {
    if |b| == 0 {
      assert a + b == a;
    } else {
      assert (a + b)[..|a + b| - 1] == a + b[..|b| - 1];
      ObjectIdsAppend(a, b[..|b| - 1]);
    }
  }

  /** The deletion list after one more scan step that appended the ids of `more`. */
  lemma ObjectIdsStep(start: seq<nat>, mid: seq<nat>, now: seq<nat>, done: seq<Snapshot>, more: seq<Snapshot>)
    requires mid == start + ObjectIds(done)
    requires now == mid + ObjectIds(more)
    ensures now == start + ObjectIds(done + more)
  {
    ObjectIdsAppend(done, more);
  }

  /** Extending a prefix of `s` by the next element. */
  lemma PrefixSnoc<T>(s: seq<T>, i: nat)
    requires i < |s|
    ensures s[..i] + [s[i]] == s[..i + 1]
  {
  }

  lemma ObjectIdsOne(e: Snapshot)
    ensures ObjectIds([e]) == [e.id]
  {
  }
}
