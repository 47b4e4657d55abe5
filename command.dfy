/**
 * The command `clean_duplicate_history`: the pair checks, the scan of one
 * object's history, the batch deletion loop and the per-model driver.
 */
module CleanDuplicateHistory {
  import opened Wrappers
  import opened History
  import opened Window
  import opened Scan
  import opened Batching
  import opened Table

  /** The `deletion_list` that batch mode fills across all objects of a model. */
  class DeletionList {
    var ids: seq<nat>

    constructor ()
      ensures ids == []
    {
      ids := [];
    }

    /** `deletion_list.append(id)`. */
    method Append(id: nat)
      modifies this
      ensures ids == old(ids) + [id]
    {
      ids := ids + [id];
    }
  }

  /**
   * How the batch loop ended: the `id` slices it deleted, one per
   * transaction, and the number of pauses taken between them; or the
   * ZeroDivisionError a batch size of zero raises.
   */
  datatype BatchOutcome = Deleted(batches: seq<seq<nat>>, pauses: nat) | ZeroBatchSize

  /**
   * `m_qs.count()`: the rows of the table in the window, or all rows without
   * one. It is zero, and the model is skipped, exactly when every row lies
   * before `stop_date`; without a window, exactly when the table is empty.
   */
  function Found(rows: map<nat, Snapshot>, stopDate: Option<int>): (r: nat)
    ensures r == 0 <==> forall k :: k in rows ==> stopDate.Some? && rows[k].date < stopDate.value
    ensures r <= |rows|
  {
    var inWindow := set k | k in rows && (stopDate.None? || rows[k].date >= stopDate.value);
    assert inWindow <= rows.Keys;
    CardinalitySubset(inWindow, rows.Keys);
    EmptyWindowKeys(rows, stopDate, inWindow);
    |inWindow|
  }

  /** The keys in the window are none exactly when every row lies before `stop_date`. */
  lemma EmptyWindowKeys(rows: map<nat, Snapshot>, stopDate: Option<int>, inWindow: set<nat>)
    requires forall k :: k in inWindow <==> k in rows && (stopDate.None? || rows[k].date >= stopDate.value)
    ensures inWindow == {} <==> forall k :: k in rows ==> stopDate.Some? && rows[k].date < stopDate.value
  {
    if inWindow == {} {
      forall k | k in rows ensures stopDate.Some? && rows[k].date < stopDate.value {
        assert k !in inWindow;
      }
    } else {
      var k :| k in inWindow;
      assert k in rows && !(stopDate.Some? && rows[k].date < stopDate.value);
    }
  }

  lemma CardinalitySubset(a: set<nat>, b: set<nat>)
    requires a <= b
    ensures |a| <= |b|
  {
    if a != {} {
      var x :| x in a;
      CardinalitySubset(a - {x}, b - {x});
    }
  }

  class Command {
    /** `verbosity` and `excluded_fields` are set once from the options and then only read. */
    const verbosity: int
    /** `excluded_fields`; no option given is the empty set. */
    const excludedFields: set<string>
    /** What `log` has written to standard output. */
    var written: seq<string>

    constructor (verbosity: int, excludedFields: set<string>)
      ensures this.verbosity == verbosity && this.excludedFields == excludedFields
      ensures written == []
    {
      this.verbosity := verbosity;
      this.excludedFields := excludedFields;
      written := [];
    }

    /** `log`: writes the message only when the verbosity reaches its level. */
    method Log(message: string, verbosityLevel: int := 1)
      modifies this`written
      ensures written == if verbosity >= verbosityLevel then old(written) + [message] else old(written)
    {
      if verbosity >= verbosityLevel {
        written := written + [message];
      }
    }

    /**
     * `_check_and_delete`: counts `entry1` when the diff against `entry2`
     * reports no changed field, and deletes it unless this is a dry run.
     */
    method CheckAndDelete(entry1: Snapshot, entry2: Snapshot, dryRun: bool, table: HistoryTable) returns (n: nat)
      modifies table
      ensures n == if Unchanged(entry1, entry2, excludedFields) then 1 else 0
      ensures table.rows == if Unchanged(entry1, entry2, excludedFields) && !dryRun
                            then old(table.rows) - {entry1.historyId} else old(table.rows)
    {
      var changedFields := ChangedFields(entry1, entry2, excludedFields);
      NoChangedFieldsIffUnchanged(entry1, entry2, excludedFields);
      if changedFields == {} {
        if !dryRun {
          table.Delete(entry1.historyId);
        }
        return 1;
      }
      return 0;
    }

    /**
     * `_check_and_batch`: counts `entry1` when the diff against `entry2`
     * reports no changed field, and appends its `id` to the deletion list.
     */
    method CheckAndBatch(entry1: Snapshot, entry2: Snapshot, deletionList: DeletionList) returns (n: nat)
      modifies deletionList
      ensures n == if Unchanged(entry1, entry2, excludedFields) then 1 else 0
      ensures deletionList.ids == if Unchanged(entry1, entry2, excludedFields)
                                  then old(deletionList.ids) + [entry1.id] else old(deletionList.ids)
    {
      var changedFields := ChangedFields(entry1, entry2, excludedFields);
      NoChangedFieldsIffUnchanged(entry1, entry2, excludedFields);
      if changedFields == {} {
        deletionList.Append(entry1.id);
        return 1;
      }
      return 0;
    }

    /**
     * `_process_instance`: walks one object's history newest first,
     * comparing each row with the next older one and then the oldest row
     * of the window with `extra_one`. Returns `entries_deleted`, the count
     * the command logs. In batch mode the redundant rows' `id`s go to the
     * deletion list; otherwise they are deleted, or only counted on a dry run.
     */
    method ProcessInstance(history: seq<Snapshot>, stopDate: Option<int>, dryRun: bool, batchMode: bool,
                           deletionList: DeletionList, table: HistoryTable) returns (entriesDeleted: nat)
      modifies deletionList, table
      ensures var dups := InstanceDuplicates(history, stopDate, excludedFields);
              && entriesDeleted == |dups|
              && (batchMode ==> deletionList.ids == old(deletionList.ids) + ObjectIds(dups)
                                && table.rows == old(table.rows))
              && (!batchMode ==> deletionList.ids == old(deletionList.ids)
                                 && table.rows == if dryRun then old(table.rows)
                                                  else old(table.rows) - HistoryIds(dups))
    {
      var qs := history;
      var extraOne: Option<Snapshot>;
      if stopDate.Some? {
        extraOne := ExtraOne(history, stopDate.value);
        qs := AtOrAfter(history, stopDate.value);
      } else {
        extraOne := None;
      }
      if batchMode {
        entriesDeleted := ScanIntoBatch(qs, extraOne, deletionList);
      } else {
        entriesDeleted := ScanAndDelete(qs, extraOne, dryRun, table);
      }
    }

    /**
     * The batch-mode scan of `_process_instance`: appends the `id` of every
     * redundant row of the chain to the deletion list, newest first.
     */
    method ScanIntoBatch(qs: seq<Snapshot>, extraOne: Option<Snapshot>, deletionList: DeletionList)
      returns (entriesDeleted: nat)
      modifies deletionList
      ensures var dups := Duplicates(Chain(qs, extraOne), excludedFields);
              entriesDeleted == |dups| && deletionList.ids == old(deletionList.ids) + ObjectIds(dups)
    {
      if |qs| == 0 {
        assert Chain(qs, extraOne) == [];
        assert ObjectIds([]) == [];
        return 0;
      }
      entriesDeleted := BatchWindowPairs(qs, deletionList);
      var f1 := qs[|qs| - 1];
      if extraOne.Some? {
        ghost var mid := deletionList.ids;
        var n := CheckAndBatch(f1, extraOne.value, deletionList);
        BatchScanStep(qs, extraOne.value, excludedFields, n, old(deletionList.ids), mid, deletionList.ids);
        assert Chain(qs, extraOne) == qs + [extraOne.value];
        entriesDeleted := entriesDeleted + n;
      } else {
        assert Chain(qs, extraOne) == qs;
      }
    }

    /**
     * The `for f2 in o_qs[1:]` loop of the batch scan: compares every row of
     * the window with the next older one, carrying `f1` along.
     */
    method BatchWindowPairs(qs: seq<Snapshot>, deletionList: DeletionList) returns (entriesDeleted: nat)
      requires |qs| > 0
      modifies deletionList
      ensures entriesDeleted == |Duplicates(qs, excludedFields)|
      ensures deletionList.ids == old(deletionList.ids) + ObjectIds(Duplicates(qs, excludedFields))
    {
      entriesDeleted := 0;
      var f1 := qs[0];
      var i := 1;
      while i < |qs|
        invariant 1 <= i <= |qs|
        invariant f1 == qs[i - 1]
        invariant entriesDeleted == |Duplicates(qs[..i], excludedFields)|
        invariant deletionList.ids == old(deletionList.ids) + ObjectIds(Duplicates(qs[..i], excludedFields))
      {
        var f2 := qs[i];
        ghost var mid := deletionList.ids;
        var n := CheckAndBatch(f1, f2, deletionList);
        BatchScanStepAt(qs, i, excludedFields, n, old(deletionList.ids), mid, deletionList.ids);
        entriesDeleted := entriesDeleted + n;
        f1 := f2;
        i := i + 1;
      }
      assert qs[..|qs|] == qs;
    }

    /**
     * The direct scan of `_process_instance`: deletes every redundant row of
     * the chain, or on a dry run only counts them.
     */
    method ScanAndDelete(qs: seq<Snapshot>, extraOne: Option<Snapshot>, dryRun: bool, table: HistoryTable)
      returns (entriesDeleted: nat)
      modifies table
      ensures var dups := Duplicates(Chain(qs, extraOne), excludedFields);
              entriesDeleted == |dups| &&
              table.rows == if dryRun then old(table.rows) else old(table.rows) - HistoryIds(dups)
    {
      if |qs| == 0 {
        assert Chain(qs, extraOne) == [];
        assert old(table.rows) - HistoryIds([]) == old(table.rows);
        return 0;
      }
      entriesDeleted := DeleteWindowPairs(qs, dryRun, table);
      var f1 := qs[|qs| - 1];
      if extraOne.Some? {
        ghost var mid := table.rows;
        var n := CheckAndDelete(f1, extraOne.value, dryRun, table);
        DeleteScanStep(qs, extraOne.value, excludedFields, n, dryRun, old(table.rows), mid, table.rows);
        assert Chain(qs, extraOne) == qs + [extraOne.value];
        entriesDeleted := entriesDeleted + n;
      } else {
        assert Chain(qs, extraOne) == qs;
      }
    }

    /**
     * The `for f2 in o_qs[1:]` loop of the direct scan: compares every row of
     * the window with the next older one, carrying `f1` along.
     */
    method DeleteWindowPairs(qs: seq<Snapshot>, dryRun: bool, table: HistoryTable) returns (entriesDeleted: nat)
      requires |qs| > 0
      modifies table
      ensures entriesDeleted == |Duplicates(qs, excludedFields)|
      ensures table.rows == if dryRun then old(table.rows)
                            else old(table.rows) - HistoryIds(Duplicates(qs, excludedFields))
    {
      entriesDeleted := 0;
      var f1 := qs[0];
      var i := 1;
      while i < |qs|
        invariant 1 <= i <= |qs|
        invariant f1 == qs[i - 1]
        invariant entriesDeleted == |Duplicates(qs[..i], excludedFields)|
        invariant table.rows == if dryRun then old(table.rows)
                                else old(table.rows) - HistoryIds(Duplicates(qs[..i], excludedFields))
      {
        var f2 := qs[i];
        ghost var mid := table.rows;
        var n := CheckAndDelete(f1, f2, dryRun, table);
        DeleteScanStepAt(qs, i, excludedFields, n, dryRun, old(table.rows), mid, table.rows);
        entriesDeleted := entriesDeleted + n;
        f1 := f2;
        i := i + 1;
      }
      assert qs[..|qs|] == qs;
    }

    /**
     * The batch loop of `_process`: splits the deletion list into
     * `batch_count` slices of `batch_size` ids, deletes each slice with
     * `filter(id__in=...)`, and pauses after every slice but the last when
     * `batch_sleep` is positive. A zero batch size raises; a negative one
     * gives no batch at all.
     */
    method DeleteInBatches(deletionList: seq<nat>, batchSize: int, batchSleep: int, table: HistoryTable)
      returns (r: BatchOutcome)
      modifies table
      ensures r.ZeroBatchSize? <==> batchSize == 0
      ensures batchSize <= 0 ==> table.rows == old(table.rows)
      ensures batchSize < 0 ==> r == Deleted([], 0)
      ensures batchSize > 0 ==>
                && r.Deleted?
                && r.batches == Chunks(deletionList, batchSize)
                && r.pauses == (if batchSleep > 0 && |r.batches| > 0 then |r.batches| - 1 else 0)
                && table.rows == WithoutIds(old(table.rows), deletionList)
    {
      var n := |deletionList|;
      var count := BatchCount(n, batchSize);
      if count.None? {
        return ZeroBatchSize;
      }
      var batchCount := count.value;
      var batches: seq<seq<nat>> := [];
      var pauses := 0;
      var batchIndex := 0;
      ghost var done := 0;
      assert WithoutIds(old(table.rows), deletionList[..0]) == old(table.rows);
      while batchIndex < batchCount
        invariant 0 <= batchIndex && |batches| == batchIndex
        invariant batchIndex > 0 ==> batchSize > 0 && batchIndex <= batchCount
        invariant 0 <= done <= n
        invariant batchSize > 0 ==> done == Min(batchSize * batchIndex, n)
        invariant batchSize > 0 ==> batches + Chunks(deletionList[done..], batchSize) == Chunks(deletionList, batchSize)
        invariant batchSize <= 0 ==> done == 0 && batches == []
        invariant table.rows == WithoutIds(old(table.rows), deletionList[..done])
        invariant pauses == if batchSleep > 0 && batchIndex > 0
                            then (if batchIndex == batchCount then batchIndex - 1 else batchIndex) else 0
      {
        BatchBounds(n, batchSize, batchCount, batchIndex);
        var batchStart := batchSize * batchIndex;
        var batchEnd := Min(batchStart + batchSize, n);
        var batchIds := deletionList[batchStart..batchEnd];
        table.DeleteWhereIdIn(batchIds);
        BatchLoopStep(deletionList, batchSize, batchStart, batches);
        DeleteSliceStep(old(table.rows), deletionList, batchStart, batchEnd);
        batches := batches + [batchIds];
        if batchIndex != batchCount - 1 && batchSleep > 0 {
          pauses := pauses + 1;
        }
        batchIndex := batchIndex + 1;
        done := batchEnd;
      }
      if batchSize > 0 {
        BatchesComplete(n, batchSize, batchCount);
        assert deletionList[n..] == [] && deletionList[..n] == deletionList;
        ChunksCount(deletionList, batchSize);
      }
      return Deleted(batches, pauses);
    }

    /**
     * The loop of `_process` over the objects of a model: scans each
     * object's history in turn with the same deletion list.
     */
    method ProcessInstances(histories: seq<seq<Snapshot>>, stopDate: Option<int>, dryRun: bool, batchMode: bool,
                            deletionList: DeletionList, table: HistoryTable)
      modifies deletionList, table
      ensures var dups := AllDuplicates(histories, stopDate, excludedFields);
              && (batchMode ==> deletionList.ids == old(deletionList.ids) + ObjectIds(dups)
                                && table.rows == old(table.rows))
              && (!batchMode ==> deletionList.ids == old(deletionList.ids)
                                 && table.rows == if dryRun then old(table.rows)
                                                  else old(table.rows) - HistoryIds(dups))
    {
      var k := 0;
      ghost var scanned: seq<Snapshot> := [];
      assert histories[..k] == [];
      assert scanned == AllDuplicates(histories[..k], stopDate, excludedFields);
      assert old(deletionList.ids) + ObjectIds([]) == old(deletionList.ids);
      assert old(table.rows) - HistoryIds([]) == old(table.rows);
      while k < |histories|
        invariant 0 <= k <= |histories|
        invariant scanned == AllDuplicates(histories[..k], stopDate, excludedFields)
        invariant batchMode ==> deletionList.ids == old(deletionList.ids) + ObjectIds(scanned)
        invariant !batchMode ==> deletionList.ids == old(deletionList.ids)
        invariant batchMode || dryRun ==> table.rows == old(table.rows)
        invariant !batchMode && !dryRun ==> table.rows == old(table.rows) - HistoryIds(scanned)
      {
        ghost var found := InstanceDuplicates(histories[k], stopDate, excludedFields);
        ghost var idsBefore := deletionList.ids;
        var entriesDeleted := ProcessInstance(histories[k], stopDate, dryRun, batchMode, deletionList, table);
        AllDuplicatesStep(histories, k, stopDate, excludedFields);
        if batchMode {
          ObjectIdsStep(old(deletionList.ids), idsBefore, deletionList.ids, scanned, found);
        } else if !dryRun {
          DeleteRowsAppend(old(table.rows), scanned, found);
        }
        assert scanned + found == AllDuplicates(histories[..k + 1], stopDate, excludedFields);
        scanned := scanned + found;
        k := k + 1;
      }
      assert histories[..|histories|] == histories;
    }

    /**
     * One iteration of `_process` over a model: `histories` holds the
     * history of each object of the model, newest first. Nothing happens
     * when the window of the table is empty. Otherwise every object is
     * scanned; in batch mode the collected ids are then deleted in batches,
     * unless this is a dry run.
     */
    method ProcessModel(histories: seq<seq<Snapshot>>, stopDate: Option<int>, dryRun: bool,
                        batchSize: Option<int>, batchSleep: int, table: HistoryTable)
      returns (r: BatchOutcome)
      modifies table
      ensures var dups := AllDuplicates(histories, stopDate, excludedFields);
              if Found(old(table.rows), stopDate) == 0 || dryRun then
                r == Deleted([], 0) && table.rows == old(table.rows)
              else if batchSize.None? then
                r == Deleted([], 0) && table.rows == old(table.rows) - HistoryIds(dups)
              else
                && (r.ZeroBatchSize? <==> batchSize.value == 0)
                && (batchSize.value <= 0 ==> table.rows == old(table.rows))
                && (batchSize.value < 0 ==> r == Deleted([], 0))
                && (batchSize.value > 0 ==>
                      && r.Deleted?
                      && r.batches == Chunks(ObjectIds(dups), batchSize.value)
                      && r.pauses == (if batchSleep > 0 && |r.batches| > 0 then |r.batches| - 1 else 0)
                      && table.rows == WithoutIds(old(table.rows), ObjectIds(dups)))
    {
      var batchMode := batchSize.Some?;
      var deletionList := new DeletionList();
      var found := Found(table.rows, stopDate);
      if found == 0 {
        return Deleted([], 0);
      }
      ProcessInstances(histories, stopDate, dryRun, batchMode, deletionList, table);
      assert batchMode ==> deletionList.ids == ObjectIds(AllDuplicates(histories, stopDate, excludedFields));
      if batchMode && !dryRun {
        r := DeleteInBatches(deletionList.ids, batchSize.value, batchSleep, table);
      } else {
        r := Deleted([], 0);
      }
    }
}
}
