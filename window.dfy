/**
 * The time window of `_process_instance`: the rows at or after `stop_date`
 * and the extra boundary row `extra_one` compared with the oldest of them.
 */
module Window {
  import opened Wrappers
  import opened History

  /**
   * `filter(history_date__gte=stop_date)`: the rows dated at or after `stop`,
   * in order. A row is kept exactly when it is dated at or after `stop`.
   */
  function AtOrAfter(h: seq<Snapshot>, stop: int): (w: seq<Snapshot>)
    ensures |w| <= |h|
    ensures forall e :: e in w <==> e in h && e.date >= stop
    decreases |h|
  {
    if |h| == 0 then []
    else
      var rest := AtOrAfter(h[1..], stop);
      assert forall e :: e in h <==> e == h[0] || e in h[1..];
      (if h[0].date >= stop then [h[0]] else []) + rest
  }

  /**
   * `filter(history_date__lte=stop_date).first()`: the newest row dated at or
   * before `stop`, as the command computes `extra_one`.
   */
  function ExtraOne(h: seq<Snapshot>, stop: int): (x: Option<Snapshot>)
    ensures x.Some? <==> exists e :: e in h && e.date <= stop
    ensures x.Some? ==> x.value in h && x.value.date <= stop
  {
    if |h| == 0 then None
    else if h[0].date <= stop then Some(h[0])
    else ExtraOne(h[1..], stop)
  }

  /**
   * The boundary row with a strict comparison, `history_date__lt`: the
   * newest row dated before `stop`. This is the corrected `extra_one`.
   */
  function ExtraBefore(h: seq<Snapshot>, stop: int): (x: Option<Snapshot>)
    ensures x.Some? <==> exists e :: e in h && e.date < stop
    ensures x.Some? ==> x.value in h && x.value.date < stop
  {
    if |h| == 0 then None
    else if h[0].date < stop then Some(h[0])
    else ExtraBefore(h[1..], stop)
  }

  /**
   * The sequence the scan walks: the window followed by the boundary row when
   * there is one. An empty window is never scanned (`if not f1: return`).
   */
  function Chain(w: seq<Snapshot>, extra: Option<Snapshot>): (c: seq<Snapshot>)
    ensures w == [] ==> c == []
    ensures w != [] ==> c == w + OptionToSeq(extra)
  {
    if w == [] then [] else w + OptionToSeq(extra)
  }

  /** The window and its boundary row for an optional `stop_date`. */
  function ScanWindow(h: seq<Snapshot>, stopDate: Option<int>): seq<Snapshot>
  {
    if stopDate.Some? then AtOrAfter(h, stopDate.value) else h
  }

  function ScanExtra(h: seq<Snapshot>, stopDate: Option<int>): Option<Snapshot>
  {
    if stopDate.Some? then ExtraOne(h, stopDate.value) else None
  }

  /** Dates never increase from one row to the next. */
  ghost predicate DatesNewestFirst(h: seq<Snapshot>)
  {
    forall i :: 0 < i < |h| ==> h[i].date <= h[i - 1].date
  }

  lemma NewestFirstDates(h: seq<Snapshot>)
    requires NewestFirst(h)
    ensures DatesNewestFirst(h)
  {
    forall i | 0 < i < |h| ensures h[i].date <= h[i - 1].date {
      assert i - 1 < i;
    }
  }

  lemma DatesTail(h: seq<Snapshot>)
    requires |h| > 0 && DatesNewestFirst(h)
    ensures DatesNewestFirst(h[1..])
  {
    var t := h[1..];
    forall i | 0 < i < |t| ensures t[i].date <= t[i - 1].date {
      assert t[i] == h[i + 1] && t[i - 1] == h[i];
    }
  }

  /** In newest-first order, once a row is before `stop` no later row is in the window. */
  lemma {:induction false} NothingAfterOlderRow(h: seq<Snapshot>, stop: int)
    requires DatesNewestFirst(h)
    requires |h| > 0 && h[0].date < stop
    ensures AtOrAfter(h, stop) == []
    decreases |h|
  {
    if |h| > 1 {
      DatesTail(h);
      assert h[1..][0] == h[1];
      NothingAfterOlderRow(h[1..], stop);
    }
  }

  /** The first row of a history whose window is empty lies before `stop`. */
  lemma EmptyWindowHead(t: seq<Snapshot>, stop: int)
    requires |t| > 0 && AtOrAfter(t, stop) == []
    ensures ExtraBefore(t, stop) == Some(t[0])
  {
  }

  /** A row inside the window extends the tail's chain by one row at the front. */
  lemma PrefixCons(h: seq<Snapshot>, stop: int)
    requires |h| > 0 && h[0].date >= stop
    requires var t := h[1..];
             var ct := Chain(AtOrAfter(t, stop), ExtraBefore(t, stop));
             |ct| <= |t| && ct == t[..|ct|]
    ensures var c := Chain(AtOrAfter(h, stop), ExtraBefore(h, stop));
            |c| <= |h| && c == h[..|c|]
  {
    var t := h[1..];
    var wt, xt := AtOrAfter(t, stop), ExtraBefore(t, stop);
    WindowCons(h, stop);
    if wt == [] {
      PrefixConsEmpty(h, stop);
    } else {
      var ct := Chain(wt, xt);
      assert Chain([h[0]] + wt, xt) == [h[0]] + ct;
      ConsPrefix(h, |ct| + 1);
    }
  }

  /** A first row inside the window heads the window; the boundary row comes from the rest. */
  lemma WindowCons(h: seq<Snapshot>, stop: int)
    requires |h| > 0 && h[0].date >= stop
    ensures AtOrAfter(h, stop) == [h[0]] + AtOrAfter(h[1..], stop)
    ensures ExtraBefore(h, stop) == ExtraBefore(h[1..], stop)
  {
  }

  /** The window holds only `h[0]`: the chain is `h[0]` and the row after it, if any. */
  lemma PrefixConsEmpty(h: seq<Snapshot>, stop: int)
    requires |h| > 0 && h[0].date >= stop && AtOrAfter(h[1..], stop) == []
    ensures var c := Chain(AtOrAfter(h, stop), ExtraBefore(h, stop));
            |c| <= |h| && c == h[..|c|]
  {
    var t := h[1..];
    assert AtOrAfter(h, stop) == [h[0]];
    assert ExtraBefore(h, stop) == ExtraBefore(t, stop);
    if |t| > 0 {
      EmptyWindowHead(t, stop);
      assert Chain([h[0]], Some(t[0])) == h[..2];
    } else {
      assert ExtraBefore(t, stop) == None;
      assert Chain([h[0]], None) == h[..1];
    }
  }

  lemma {:induction false} DatesPrefix(h: seq<Snapshot>, stop: int)
    requires DatesNewestFirst(h)
    ensures var c := Chain(AtOrAfter(h, stop), ExtraBefore(h, stop));
            |c| <= |h| && c == h[..|c|]
    decreases |h|
  {
    if |h| == 0 {
    } else if h[0].date < stop {
      NothingAfterOlderRow(h, stop);
    } else {
      DatesTail(h);
      DatesPrefix(h[1..], stop);
      PrefixCons(h, stop);
    }
  }

  /**
   * With the strict boundary the scanned chain is a prefix of the full
   * history: every compared pair is a pair of neighbours in the history, and
   * no row is compared with itself.
   */
  lemma StrictBoundaryChainIsPrefix(h: seq<Snapshot>, stop: int)
    requires NewestFirst(h)
    ensures var c := Chain(AtOrAfter(h, stop), ExtraBefore(h, stop));
            |c| <= |h| && c == h[..|c|]
  {
    NewestFirstDates(h);
    DatesPrefix(h, stop);
  }

  /** Without a row dated exactly `stop`, the command's `extra_one` is the strict boundary row. */
  lemma {:induction false} NoTieSameBoundary(h: seq<Snapshot>, stop: int)
    requires forall e :: e in h ==> e.date != stop
    ensures ExtraOne(h, stop) == ExtraBefore(h, stop)
    decreases |h|
  {
    if |h| > 0 {
      assert h[0] in h;
      assert forall e :: e in h[1..] ==> e in h;
      NoTieSameBoundary(h[1..], stop);
    }
  }

  /** When the rows before index `k` are in the window and the rest are not, the window is `h[..k]`. */
  lemma {:induction false} WindowIsPrefix(h: seq<Snapshot>, stop: int, k: nat)
    requires k <= |h|
    requires forall j :: 0 <= j < k ==> h[j].date >= stop
    requires forall j :: k <= j < |h| ==> h[j].date < stop
    ensures AtOrAfter(h, stop) == h[..k]
    decreases |h|
  {
    if |h| > 0 {
      var t := h[1..];
      assert forall j :: 0 <= j < |t| ==> t[j] == h[j + 1];
      if k == 0 {
        WindowIsPrefix(t, stop, 0);
        assert AtOrAfter(h, stop) == AtOrAfter(t, stop);
      } else {
        WindowIsPrefix(t, stop, k - 1);
        WindowCons(h, stop);
        ConsPrefix(h, k);
      }
    }
  }

  /** A non-empty prefix is the first element followed by a prefix of the tail. */
  lemma ConsPrefix<T>(h: seq<T>, k: nat)
    requires 0 < k <= |h|
    ensures h[..k] == [h[0]] + h[1..][..k - 1]
  {
    assert forall j :: 0 <= j < k ==> h[..k][j] == ([h[0]] + h[1..][..k - 1])[j];
  }

  /** `extra_one` is the first row at index `k` or later dated at or before `stop`. */
  lemma {:induction false} ExtraOneAt(h: seq<Snapshot>, stop: int, k: nat)
    requires k < |h| && h[k].date <= stop
    requires forall j :: 0 <= j < k ==> h[j].date > stop
    ensures ExtraOne(h, stop) == Some(h[k])
    decreases k
  {
    if k > 0 {
      var t := h[1..];
      assert forall j :: 0 <= j < |t| ==> t[j] == h[j + 1];
      ExtraOneAt(t, stop, k - 1);
    }
  }

  /**
   * Every pair the scan compares is a pair of neighbours of the window, or
   * the oldest windowed row with the boundary row.
   */
  lemma ChainPairs(w: seq<Snapshot>, extra: Option<Snapshot>)
    ensures var c := Chain(w, extra);
            forall i :: 0 <= i < |c| - 1 ==>
              (i + 1 < |w| && c[i] == w[i] && c[i + 1] == w[i + 1]) ||
              (i + 1 == |w| && extra.Some? && c[i] == w[i] && c[i + 1] == extra.value)
  {
  }

  lemma NewestFirstTail(h: seq<Snapshot>)
    requires |h| > 0 && NewestFirst(h)
    ensures NewestFirst(h[1..])
  {
    var t := h[1..];
    forall i, j | 0 <= i < j < |t|
      ensures t[j].date < t[i].date || (t[j].date == t[i].date && t[j].historyId < t[i].historyId)
    {
      assert t[i] == h[i + 1] && t[j] == h[j + 1];
    }
  }

  /** When some row is dated exactly `stop`, `extra_one` is dated `stop` too. */
  lemma {:induction false} TieBoundaryAtStop(h: seq<Snapshot>, stop: int, k: nat)
    requires NewestFirst(h)
    requires k < |h| && h[k].date == stop
    ensures ExtraOne(h, stop).Some? && ExtraOne(h, stop).value.date == stop
    decreases k
  {
    if h[0].date <= stop {
      if k > 0 {
        assert h[k].date <= h[0].date;
      }
    } else {
      NewestFirstTail(h);
      assert h[1..][k - 1] == h[k];
      TieBoundaryAtStop(h[1..], stop, k - 1);
    }
  }

  /**
   * As written, once any row is dated exactly `stop` the scan never reaches
   * a row dated before it: every row of the chain, `extra_one` included, is
   * dated at or after `stop`. The oldest windowed row is compared with a row
   * of its own date, itself when only one row has that date.
   */
  lemma TieChainStaysAtStop(h: seq<Snapshot>, stop: int, k: nat)
    requires NewestFirst(h)
    requires k < |h| && h[k].date == stop
    ensures forall e :: e in Chain(AtOrAfter(h, stop), ExtraOne(h, stop)) ==> e.date >= stop
  {
    TieBoundaryAtStop(h, stop, k);
    var w := AtOrAfter(h, stop);
    var x := ExtraOne(h, stop);
    assert h[k] in w;
    assert Chain(w, x) == w + [x.value];
  }
}
