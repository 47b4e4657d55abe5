/**
 * The historical table of one model, keyed by `history_id`, and the two ways
 * the command removes rows from it: `entry.delete()` by primary key, and
 * `filter(id__in=ids).delete()` by the `id` column.
 */
module Table {
  import opened Wrappers
  import opened History
  import opened Window
  import opened Scan
  import opened Batching

  /** The rows whose `id` column is not in `ids`: what `filter(id__in=ids).delete()` leaves. */
  function WithoutIds(rows: map<nat, Snapshot>, ids: seq<nat>): (left: map<nat, Snapshot>)
    ensures forall k :: k in left <==> k in rows && rows[k].id !in ids
    ensures forall k :: k in left ==> left[k] == rows[k]
  {
    map k | k in rows && rows[k].id !in ids :: rows[k]
  }

  /** The rows whose primary key is not in `keys`. */
  function WithoutKeys(rows: map<nat, Snapshot>, keys: seq<nat>): (left: map<nat, Snapshot>)
    ensures forall k :: k in left <==> k in rows && k !in keys
    ensures forall k :: k in left ==> left[k] == rows[k]
  {
    map k | k in rows && k !in keys :: rows[k]
  }

  /** Each row is stored under its own primary key, as in the database. */
  ghost predicate KeyedByHistoryId(rows: map<nat, Snapshot>)
  {
    forall k :: k in rows ==> rows[k].historyId == k
  }

  class HistoryTable {
    var rows: map<nat, Snapshot>

    constructor (rows: map<nat, Snapshot>)
      ensures this.rows == rows
    {
      this.rows := rows;
    }

    /** `entry.delete()`: removes the row with this primary key. */
    method Delete(historyId: nat)
      modifies this
      ensures rows == old(rows) - {historyId}
      ensures KeyedByHistoryId(old(rows)) ==>
                KeyedByHistoryId(rows) && forall k :: k in rows ==> rows[k].historyId != historyId
    {
      rows := rows - {historyId};
    }

    /** `filter(id__in=ids).delete()`: removes every row whose `id` column is listed. */
    method DeleteWhereIdIn(ids: seq<nat>)
      modifies this
      ensures rows == WithoutIds(old(rows), ids)
      ensures KeyedByHistoryId(old(rows)) ==> KeyedByHistoryId(rows)
    {
      rows := WithoutIds(rows, ids);
    }
  }

  /** Deleting the rows of `d` and then row `e` is deleting the rows of `d + [e]`. */
  lemma DeleteOneMore(rows: map<nat, Snapshot>, d: seq<Snapshot>, e: Snapshot)
    ensures (rows - HistoryIds(d)) - {e.historyId} == rows - HistoryIds(d + [e])
  {
    assert (d + [e])[..|d|] == d;
    assert HistoryIds(d + [e]) == HistoryIds(d) + {e.historyId};
  }

  /**
   * One comparison of the direct scan: the newest row of `p` is compared
   * with `x` and, when the diff is empty and this is no dry run, deleted.
   */
  lemma DeleteScanStep(p: seq<Snapshot>, x: Snapshot, excluded: set<string>, n: nat, dryRun: bool,
                       start: map<nat, Snapshot>, mid: map<nat, Snapshot>, now: map<nat, Snapshot>)
    requires |p| > 0
    requires n == if Unchanged(p[|p| - 1], x, excluded) then 1 else 0
    requires mid == if dryRun then start else start - HistoryIds(Duplicates(p, excluded))
    requires now == if n == 1 && !dryRun then mid - {p[|p| - 1].historyId} else mid
    ensures |Duplicates(p + [x], excluded)| == |Duplicates(p, excluded)| + n
    ensures now == if dryRun then start else start - HistoryIds(Duplicates(p + [x], excluded))
  {
    DuplicatesSnoc(p, x, excluded);
    if n == 1 && !dryRun {
      DeleteOneMore(start, Duplicates(p, excluded), p[|p| - 1]);
    } else if n == 0 {
      assert Duplicates(p + [x], excluded) == Duplicates(p, excluded);
    }
  }

  /** `DeleteScanStep` at position `i` of the window: `qs[i - 1]` is compared with `qs[i]`. */
  lemma DeleteScanStepAt(qs: seq<Snapshot>, i: nat, excluded: set<string>, n: nat, dryRun: bool,
                         start: map<nat, Snapshot>, mid: map<nat, Snapshot>, now: map<nat, Snapshot>)
    requires 1 <= i < |qs|
    requires n == if Unchanged(qs[i - 1], qs[i], excluded) then 1 else 0
    requires mid == if dryRun then start else start - HistoryIds(Duplicates(qs[..i], excluded))
    requires now == if n == 1 && !dryRun then mid - {qs[i - 1].historyId} else mid
    ensures |Duplicates(qs[..i + 1], excluded)| == |Duplicates(qs[..i], excluded)| + n
    ensures now == if dryRun then start else start - HistoryIds(Duplicates(qs[..i + 1], excluded))
  {
    assert qs[..i][i - 1] == qs[i - 1];
    DeleteScanStep(qs[..i], qs[i], excluded, n, dryRun, start, mid, now);
    PrefixSnoc(qs, i);
  }

  /** Deleting the rows of `a` and then those of `b` is deleting the rows of `a + b`. */
  lemma DeleteRowsAppend(rows: map<nat, Snapshot>, a: seq<Snapshot>, b: seq<Snapshot>)
    ensures (rows - HistoryIds(a)) - HistoryIds(b) == rows - HistoryIds(a + b)
  {
    HistoryIdsAppend(a, b);
  }

  /** Deleting by `id` in two steps is deleting by the concatenated list. */
  lemma WithoutIdsAppend(rows: map<nat, Snapshot>, a: seq<nat>, b: seq<nat>)
    ensures WithoutIds(WithoutIds(rows, a), b) == WithoutIds(rows, a + b)
  {
    assert forall x :: x in a + b <==> x in a || x in b;
  }

  /** Deleting the slice `l[start..end]` after the prefix `l[..start]` deletes the prefix `l[..end]`. */
  lemma DeleteSliceStep(rows: map<nat, Snapshot>, l: seq<nat>, start: nat, end: nat)
    requires start <= end <= |l|
    ensures WithoutIds(WithoutIds(rows, l[..start]), l[start..end]) == WithoutIds(rows, l[..end])
  {
    WithoutIdsAppend(rows, l[..start], l[start..end]);
    assert l[..start] + l[start..end] == l[..end];
  }

  /** Deleting by primary key in two steps is deleting by the concatenated list. */
  lemma WithoutKeysAppend(rows: map<nat, Snapshot>, a: seq<nat>, b: seq<nat>)
    ensures WithoutKeys(WithoutKeys(rows, a), b) == WithoutKeys(rows, a + b)
  {
    assert forall x :: x in a + b <==> x in a || x in b;
  }

  /** The primary keys of rows, listed in order, name the same rows as their set. */
  lemma {:induction false} KeyListMembers(s: seq<Snapshot>)
    ensures forall k :: k in KeyList(s) <==> k in HistoryIds(s)
    decreases |s|
  {
    if |s| > 0 {
      var p := s[..|s| - 1];
      KeyListMembers(p);
      assert KeyList(s) == KeyList(p) + [s[|s| - 1].historyId];
    }
  }

  /** The corrected batch deletion: each batch of primary keys deleted in turn. */
  function DeleteBatchesByKey(rows: map<nat, Snapshot>, batches: seq<seq<nat>>): map<nat, Snapshot>
    decreases |batches|
  {
    if |batches| == 0 then rows else DeleteBatchesByKey(WithoutKeys(rows, batches[0]), batches[1..])
  }

  lemma {:induction false} DeleteBatchesByKeyFlatten(rows: map<nat, Snapshot>, batches: seq<seq<nat>>)
    ensures DeleteBatchesByKey(rows, batches) == WithoutKeys(rows, Flatten(batches))
    decreases |batches|
  {
    if |batches| == 0 {
      assert WithoutKeys(rows, []) == rows;
    } else {
      DeleteBatchesByKeyFlatten(WithoutKeys(rows, batches[0]), batches[1..]);
      WithoutKeysAppend(rows, batches[0], Flatten(batches[1..]));
    }
  }

  /**
   * Corrected batch mode: collecting each redundant row's primary key and
   * deleting the batches of keys leaves exactly the table that deleting each
   * redundant row directly leaves.
   */
  lemma KeyBatchesMatchDirectDeletion(rows: map<nat, Snapshot>, dups: seq<Snapshot>, size: nat)
    requires size > 0
    ensures DeleteBatchesByKey(rows, Chunks(KeyList(dups), size)) == rows - HistoryIds(dups)
  {
    DeleteBatchesByKeyFlatten(rows, Chunks(KeyList(dups), size));
    ChunksFlatten(KeyList(dups), size);
    KeyListMembers(dups);
  }

  /** Every redundant row of an instance comes from its history. */
  lemma InstanceDuplicatesFromHistory(h: seq<Snapshot>, stopDate: Option<int>, excluded: set<string>)
    ensures forall e :: e in InstanceDuplicates(h, stopDate, excluded) ==> e in h
  {
    var c := Chain(ScanWindow(h, stopDate), ScanExtra(h, stopDate));
    forall e | e in Duplicates(c, excluded) ensures e in h {
      DuplicatesExactly(c, excluded, e);
    }
  }

  /**
   * As written, batch mode lists `entry1.id`, the tracked object's id, and
   * deletes with `filter(id__in=...)`: as soon as one row of an object's
   * history is redundant, every row of that object is deleted.
   */
  lemma ObjectIdBatchRemovesWholeHistory(rows: map<nat, Snapshot>, h: seq<Snapshot>, stopDate: Option<int>, excluded: set<string>, o: nat)
    requires forall e :: e in h ==> e.id == o
    requires InstanceDuplicates(h, stopDate, excluded) != []
    ensures forall k :: k in rows && rows[k].id == o ==>
              k !in WithoutIds(rows, ObjectIds(InstanceDuplicates(h, stopDate, excluded)))
  {
    var d := InstanceDuplicates(h, stopDate, excluded);
    InstanceDuplicatesFromHistory(h, stopDate, excluded);
    assert d[0] in d;
    ObjectIdsAt(d, 0);
    assert o in ObjectIds(d);
  }

  /** The redundant rows of the three-row history used below. */
  lemma ThreeRowDuplicates(a: Snapshot, b: Snapshot, c: Snapshot)
    requires a == Snapshot(3, 7, 30, map["v" := "1"])
    requires b == Snapshot(2, 7, 20, map["v" := "1"])
    requires c == Snapshot(1, 7, 10, map["v" := "0"])
    ensures InstanceDuplicates([a, b, c], None, {}) == [a]
  {
    assert ChangedFields(a, b, {}) == {};
    assert "v" in ChangedFields(b, c, {});
    NoChangedFieldsIffUnchanged(a, b, {});
    NoChangedFieldsIffUnchanged(b, c, {});
    assert Chain([a, b, c], None) == [a, b, c];
    assert [a, b, c][..2] == [a, b];
    assert [a, b][..1] == [a];
    assert Duplicates([a, b], {}) == Duplicates([a], {}) + [a];
    assert Duplicates([a, b, c], {}) == Duplicates([a, b], {});
  }

  /**
   * A concrete table showing it: three rows of object 7, where only the
   * newest repeats its neighbour. Direct deletion removes that one row;
   * batch deletion by `id` empties the table, losing the two rows that hold
   * the only record of the earlier state.
   */
  lemma ObjectIdBatchLosesDistinctRows()
    ensures var a := Snapshot(3, 7, 30, map["v" := "1"]);
            var b := Snapshot(2, 7, 20, map["v" := "1"]);
            var c := Snapshot(1, 7, 10, map["v" := "0"]);
            var rows := map[3 := a, 2 := b, 1 := c];
            var d := InstanceDuplicates([a, b, c], None, {});
            d == [a] &&
            rows - HistoryIds(d) == map[2 := b, 1 := c] &&
            WithoutIds(rows, ObjectIds(d)) == map[]
  {
    var a := Snapshot(3, 7, 30, map["v" := "1"]);
    var b := Snapshot(2, 7, 20, map["v" := "1"]);
    var c := Snapshot(1, 7, 10, map["v" := "0"]);
    var rows := map[3 := a, 2 := b, 1 := c];
    ThreeRowDuplicates(a, b, c);
    var d := [a];
    assert HistoryIds(d) == {3} by {
      assert d[..0] == [];
    }
    assert rows - {3} == map[2 := b, 1 := c];
    assert ObjectIds(d) == [7];
    assert WithoutIds(rows, [7]) == map[] by {
      assert forall k :: k in rows ==> rows[k].id == 7;
    }
  }
}
