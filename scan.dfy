/**
 * The adjacent-pair duplicate scan of `_process_instance`, as functions of the
 * scanned chain: which rows it finds redundant, and in what order.
 */
module Scan {
  import opened Wrappers
  import opened History
  import opened Window

  /**
   * The rows the scan finds redundant, oldest pair last: for each pair of
   * neighbours `(c[i], c[i+1])` whose diff reports no change, the newer row
   * `c[i]`.
   */
  function Duplicates(c: seq<Snapshot>, excluded: set<string>): (d: seq<Snapshot>)
    ensures |d| <= if |c| == 0 then 0 else |c| - 1
    decreases |c|
  {
    if |c| < 2 then []
    else
      Duplicates(c[..|c| - 1], excluded) +
      (if Unchanged(c[|c| - 2], c[|c| - 1], excluded) then [c[|c| - 2]] else [])
  }

  /** The redundant rows of one object's history for an optional `stop_date`. */
  function InstanceDuplicates(h: seq<Snapshot>, stopDate: Option<int>, excluded: set<string>): seq<Snapshot>
  {
    Duplicates(Chain(ScanWindow(h, stopDate), ScanExtra(h, stopDate)), excluded)
  }

  /** The redundant rows of a list of histories, one history after the other. */
  function AllDuplicates(hs: seq<seq<Snapshot>>, stopDate: Option<int>, excluded: set<string>): seq<Snapshot>
    decreases |hs|
  {
    if |hs| == 0 then []
    else AllDuplicates(hs[..|hs| - 1], stopDate, excluded) + InstanceDuplicates(hs[|hs| - 1], stopDate, excluded)
  }

  /** One more element at the old end of the chain adds at most its newer neighbour. */
  lemma DuplicatesSnoc(c: seq<Snapshot>, x: Snapshot, excluded: set<string>)
    requires |c| > 0
    ensures Duplicates(c + [x], excluded) ==
            Duplicates(c, excluded) + (if Unchanged(c[|c| - 1], x, excluded) then [c[|c| - 1]] else [])
  {
    assert (c + [x])[..|c|] == c;
  }

  /**
   * One comparison of the batch scan: the newest row of `p` is compared with
   * `x`, and its `id` is appended when the diff is empty.
   */
  lemma BatchScanStep(p: seq<Snapshot>, x: Snapshot, excluded: set<string>, n: nat,
                      start: seq<nat>, mid: seq<nat>, now: seq<nat>)
    requires |p| > 0
    requires n == if Unchanged(p[|p| - 1], x, excluded) then 1 else 0
    requires mid == start + ObjectIds(Duplicates(p, excluded))
    requires now == if n == 1 then mid + [p[|p| - 1].id] else mid
    ensures |Duplicates(p + [x], excluded)| == |Duplicates(p, excluded)| + n
    ensures now == start + ObjectIds(Duplicates(p + [x], excluded))
  {
    var before := Duplicates(p, excluded);
    var more: seq<Snapshot> := if n == 1 then [p[|p| - 1]] else [];
    DuplicatesSnoc(p, x, excluded);
    ObjectIdsOne(p[|p| - 1]);
    assert now == mid + ObjectIds(more);
    ObjectIdsStep(start, mid, now, before, more);
  }

  /** `BatchScanStep` at position `i` of the window: `qs[i - 1]` is compared with `qs[i]`. */
  lemma BatchScanStepAt(qs: seq<Snapshot>, i: nat, excluded: set<string>, n: nat,
                        start: seq<nat>, mid: seq<nat>, now: seq<nat>)
    requires 1 <= i < |qs|
    requires n == if Unchanged(qs[i - 1], qs[i], excluded) then 1 else 0
    requires mid == start + ObjectIds(Duplicates(qs[..i], excluded))
    requires now == if n == 1 then mid + [qs[i - 1].id] else mid
    ensures |Duplicates(qs[..i + 1], excluded)| == |Duplicates(qs[..i], excluded)| + n
    ensures now == start + ObjectIds(Duplicates(qs[..i + 1], excluded))
  {
    assert qs[..i][i - 1] == qs[i - 1];
    BatchScanStep(qs[..i], qs[i], excluded, n, start, mid, now);
    PrefixSnoc(qs, i);
  }

  /**
   * A row is found redundant exactly when it is the newer member of a pair
   * of neighbours whose diff reports no change.
   */
  lemma {:induction false} DuplicatesExactly(c: seq<Snapshot>, excluded: set<string>, x: Snapshot)
    ensures x in Duplicates(c, excluded) <==>
            exists i :: 0 <= i < |c| - 1 && c[i] == x && Unchanged(c[i], c[i + 1], excluded)
    decreases |c|
  {
    if |c| >= 2 {
      var p := c[..|c| - 1];
      DuplicatesExactly(p, excluded, x);
      assert forall i :: 0 <= i < |p| ==> p[i] == c[i];
      if x in Duplicates(c, excluded) && x !in Duplicates(p, excluded) {
        var i := |c| - 2;
        assert c[i] == x && Unchanged(c[i], c[i + 1], excluded);
      }
    }
  }

  /** The pair of neighbours `(c[i], c[i+1])` exists and the diff finds it unchanged. */
  ghost predicate PairUnchanged(c: seq<Snapshot>, i: int, excluded: set<string>)
  {
    0 <= i < |c| - 1 && Unchanged(c[i], c[i + 1], excluded)
  }

  /** The positions of the unchanged pairs of neighbours. */
  ghost function UnchangedPairs(c: seq<Snapshot>, excluded: set<string>): set<int>
  {
    set i | 0 <= i < |c| - 1 && PairUnchanged(c, i, excluded)
  }

  /** The unchanged pairs of `c` are those of `c` without its oldest row, plus possibly the last pair. */
  lemma UnchangedPairsSnoc(c: seq<Snapshot>, excluded: set<string>)
    requires |c| >= 2
    ensures var last := |c| - 2;
            UnchangedPairs(c, excluded) ==
            UnchangedPairs(c[..|c| - 1], excluded) + (if PairUnchanged(c, last, excluded) then {last} else {})
    ensures |c| - 2 !in UnchangedPairs(c[..|c| - 1], excluded)
  {
    var p := c[..|c| - 1];
    var last := |c| - 2;
    forall i ensures PairUnchanged(c, i, excluded) <==> PairUnchanged(p, i, excluded) || (i == last && PairUnchanged(c, last, excluded)) {
      if 0 <= i < last {
        assert p[i] == c[i] && p[i + 1] == c[i + 1];
      }
    }
  }

  /** `entries_deleted` counts the unchanged pairs of neighbours: each pair is compared once. */
  lemma {:induction false} DuplicatesCount(c: seq<Snapshot>, excluded: set<string>)
    ensures |Duplicates(c, excluded)| == |UnchangedPairs(c, excluded)|
    decreases |c|
  {
    if |c| < 2 {
      assert UnchangedPairs(c, excluded) == {};
    } else {
      DuplicatesCount(c[..|c| - 1], excluded);
      UnchangedPairsSnoc(c, excluded);
    }
  }

  /**
   * An empty window finds nothing, even when `extra_one` exists: the scan
   * returns before its first comparison. This covers an empty history.
   */
  lemma EmptyWindowFindsNothing(h: seq<Snapshot>, stopDate: Option<int>, excluded: set<string>)
    requires ScanWindow(h, stopDate) == []
    ensures InstanceDuplicates(h, stopDate, excluded) == []
  {
  }

  /** The oldest row of a chain of distinct rows is never found redundant. */
  lemma OldestNeverListed(c: seq<Snapshot>, excluded: set<string>)
    requires DistinctKeys(c) && |c| > 0
    ensures c[|c| - 1].historyId !in HistoryIds(Duplicates(c, excluded))
  {
    var d := Duplicates(c, excluded);
    HistoryIdsMembers(d);
    forall e | e in d
      ensures e.historyId != c[|c| - 1].historyId
    {
      DuplicatesExactly(c, excluded, e);
    }
  }

  /**
   * The scan compares neighbours, not a row with the last survivor: when
   * every pair of neighbours is unchanged, every row but the oldest is
   * redundant, so a run of k identical rows yields k - 1 of them.
   */
  lemma {:induction false} RunOfDuplicates(c: seq<Snapshot>, excluded: set<string>)
    requires |c| > 0
    requires forall i :: 0 <= i < |c| - 1 ==> Unchanged(c[i], c[i + 1], excluded)
    ensures Duplicates(c, excluded) == c[..|c| - 1]
    decreases |c|
  {
    if |c| >= 2 {
      var p := c[..|c| - 1];
      assert forall i :: 0 <= i < |p| ==> p[i] == c[i];
      RunOfDuplicates(p, excluded);
      assert Unchanged(c[|c| - 2], c[|c| - 1], excluded);
      assert p[..|p| - 1] + [c[|c| - 2]] == c[..|c| - 1];
    }
  }

  /** Without a time window the chain is the whole history and its oldest row survives. */
  lemma OldestSurvivesWithoutWindow(h: seq<Snapshot>, excluded: set<string>)
    requires DistinctKeys(h) && |h| > 0
    ensures h[|h| - 1].historyId !in HistoryIds(InstanceDuplicates(h, None, excluded))
  {
    assert Chain(h, None) == h;
    OldestNeverListed(h, excluded);
  }

  /** Scanning one more history appends its redundant rows. */
  lemma AllDuplicatesStep(hs: seq<seq<Snapshot>>, k: nat, stopDate: Option<int>, excluded: set<string>)
    requires k < |hs|
    ensures AllDuplicates(hs[..k + 1], stopDate, excluded) ==
            AllDuplicates(hs[..k], stopDate, excluded) + InstanceDuplicates(hs[k], stopDate, excluded)
  {
    assert hs[..k + 1][..k] == hs[..k];
  }

  /**
   * The tie the command reproduces: when exactly one row `h[k]` is dated
   * `stop`, it is both the oldest row of the window (`>=`) and `extra_one`
   * (`<=`), so the last pair compares it with itself and it is found
   * redundant whatever its older neighbour holds.
   */
  lemma TieComparesBoundaryWithItself(h: seq<Snapshot>, stop: int, excluded: set<string>, k: nat)
    requires NewestFirst(h)
    requires k < |h| && h[k].date == stop
    requires forall j :: 0 <= j < |h| && j != k ==> h[j].date != stop
    ensures AtOrAfter(h, stop) == h[..k + 1]
    ensures ExtraOne(h, stop) == Some(h[k])
    ensures InstanceDuplicates(h, Some(stop), excluded) == Duplicates(h[..k + 1], excluded) + [h[k]]
  {
    TieWindow(h, stop, k);
    UnchangedReflexive(h[k], excluded);
    assert Chain(h[..k + 1], Some(h[k])) == h[..k + 1] + [h[k]];
    DuplicatesSnoc(h[..k + 1], h[k], excluded);
  }

  /** The window and `extra_one` when exactly one row `h[k]` is dated `stop`. */
  lemma TieWindow(h: seq<Snapshot>, stop: int, k: nat)
    requires NewestFirst(h)
    requires k < |h| && h[k].date == stop
    requires forall j :: 0 <= j < |h| && j != k ==> h[j].date != stop
    ensures AtOrAfter(h, stop) == h[..k + 1]
    ensures ExtraOne(h, stop) == Some(h[k])
  {
    forall j | 0 <= j < k ensures h[j].date > stop {
      assert h[k].date <= h[j].date;
    }
    forall j | k + 1 <= j < |h| ensures h[j].date < stop {
      assert h[j].date <= h[k].date;
    }
    WindowIsPrefix(h, stop, k + 1);
    ExtraOneAt(h, stop, k);
  }

  /**
   * A concrete history showing the tie: the newer row differs from the only
   * older row, yet with `stop_date` equal to its date the command finds it
   * redundant; with the strict boundary nothing is redundant.
   */
  lemma TieDeletesChangedBoundary()
    ensures var a := Snapshot(2, 7, 10, map["name" := "new"]);
            var b := Snapshot(1, 7, 5, map["name" := "old"]);
            !Unchanged(a, b, {}) &&
            InstanceDuplicates([a, b], Some(10), {}) == [a] &&
            Duplicates(Chain(AtOrAfter([a, b], 10), ExtraBefore([a, b], 10)), {}) == []
  {
    var a := Snapshot(2, 7, 10, map["name" := "new"]);
    var b := Snapshot(1, 7, 5, map["name" := "old"]);
    TieExampleDiffers(a, b);
    assert NewestFirst([a, b]);
    TieComparesBoundaryWithItself([a, b], 10, {}, 0);
    assert [a, b][..1] == [a];
    TieExampleStrict(a, b);
  }

  lemma TieExampleDiffers(a: Snapshot, b: Snapshot)
    requires a.fields == map["name" := "new"] && b.fields == map["name" := "old"]
    ensures !Unchanged(a, b, {})
  {
    assert "name" in ChangedFields(a, b, {});
    NoChangedFieldsIffUnchanged(a, b, {});
  }

  /** With the strict boundary the example's chain is the two rows, which differ. */
  lemma TieExampleStrict(a: Snapshot, b: Snapshot)
    requires a.date == 10 && b.date == 5 && !Unchanged(a, b, {})
    ensures Duplicates(Chain(AtOrAfter([a, b], 10), ExtraBefore([a, b], 10)), {}) == []
  {
    assert [a, b][1..] == [b];
    assert AtOrAfter([a, b], 10) == [a];
    assert ExtraBefore([a, b], 10) == Some(b);
    assert Chain([a], Some(b)) == [a, b];
    assert [a, b][..1] == [a];
  }

  /**
   * The tie with two rows dated `stop_date`: `extra_one` is the newer of
   * them, so the oldest windowed row is compared with it rather than with
   * the changed row before `stop_date`, and the whole window is found
   * redundant.
   */
  lemma TieTwoRowsDeletesWindow()
    ensures var a := Snapshot(3, 7, 10, map["name" := "new"]);
            var b := Snapshot(2, 7, 10, map["name" := "new"]);
            var c := Snapshot(1, 7, 5, map["name" := "old"]);
            !Unchanged(b, c, {}) &&
            InstanceDuplicates([a, b, c], Some(10), {}) == [a, b]
  {
    var a := Snapshot(3, 7, 10, map["name" := "new"]);
    var b := Snapshot(2, 7, 10, map["name" := "new"]);
    var c := Snapshot(1, 7, 5, map["name" := "old"]);
    TieExampleDiffers(b, c);
    TieTwoRowsChain(a, b, c);
    assert ChangedFields(a, b, {}) == {};
    assert ChangedFields(b, a, {}) == {};
    NoChangedFieldsIffUnchanged(a, b, {});
    NoChangedFieldsIffUnchanged(b, a, {});
    assert [a, b, a][..2] == [a, b];
    assert [a, b][..1] == [a];
  }

  /** The chain of the two-row tie: both windowed rows, then the newer of them again. */
  lemma TieTwoRowsChain(a: Snapshot, b: Snapshot, c: Snapshot)
    requires a.date == 10 && b.date == 10 && c.date == 5
    ensures Chain(AtOrAfter([a, b, c], 10), ExtraOne([a, b, c], 10)) == [a, b, a]
  {
    assert [a, b, c][1..] == [b, c];
    assert [b, c][1..] == [c];
    assert [c][1..] == [];
    assert AtOrAfter([c], 10) == [] + AtOrAfter([], 10) == [];
    assert AtOrAfter([b, c], 10) == [b] + AtOrAfter([c], 10) == [b];
    assert AtOrAfter([a, b, c], 10) == [a] + AtOrAfter([b, c], 10) == [a, b];
    assert ExtraOne([a, b, c], 10) == Some(a);
  }
}
