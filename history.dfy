/**
 * The rolling history of one data source's SQL execution times: a FIFO
 * window of at most `capacity` values, where `Long.MAX_VALUE` (Infinity)
 * stands for a time that could not be measured. Alongside the window the
 * history keeps running counters, updated in lockstep on every eviction and
 * append, from which each update's Average is computed.
 */
module ExecutionTimeHistory {

  /** `Long.MAX_VALUE`: an execution time that could not be measured. */
  const Infinity: int := 0x7FFF_FFFF_FFFF_FFFF
  const LongMin: int := -0x8000_0000_0000_0000

  /** A Java `long`. */
  type Long = x: int | LongMin <= x <= Infinity

  predicate IsFinite(x: int) { x < Infinity }

  /** The value object returned by every update. */
  datatype Average = Average(value: int, count: int, newest: int)

  /** Java's `/` on `long`, which truncates toward zero. */
  function JavaDiv(a: int, b: int): int
    requires b > 0
  {
    if a >= 0 then a / b else -((-a) / b)
  }

  function Last(s: seq<int>): int
    requires |s| > 0
  {
    s[|s| - 1]
  }

  function Min(a: int, b: int): int { if a <= b then a else b }

  // ---------------------------------------------------------------------
  // The window's contents, stated without the counters
  // ---------------------------------------------------------------------

  /** The sum of all items. */
  function Sum(s: seq<int>): int
  {
    if s == [] then 0 else Sum(s[..|s| - 1]) + Last(s)
  }

  /** The sum of the finite items. */
  function FiniteSum(s: seq<int>): int
  {
    if s == [] then 0
    else FiniteSum(s[..|s| - 1]) + (if IsFinite(Last(s)) then Last(s) else 0)
  }

  /** The number of infinities. */
  function InfinityCount(s: seq<int>): nat
  {
    if s == [] then 0
    else InfinityCount(s[..|s| - 1]) + (if IsFinite(Last(s)) then 0 else 1)
  }

  /** The finite items, in order. */
  function Finites(s: seq<int>): (r: seq<int>)
    ensures forall i :: 0 <= i < |r| ==> IsFinite(r[i])
    ensures |r| + InfinityCount(s) == |s|
  {
    if s == [] then []
    else if IsFinite(Last(s)) then Finites(s[..|s| - 1]) + [Last(s)]
    else Finites(s[..|s| - 1])
  }

  /**
   * The values since the last recovery: the longest run of finite items at
   * the newest end of `s` (all of `s` when it holds no infinity).
   */
  function SinceRecovery(s: seq<int>): (r: seq<int>)
    ensures |r| <= |s|
  {
    if s == [] || !IsFinite(Last(s)) then []
    else SinceRecovery(s[..|s| - 1]) + [Last(s)]
  }

  /**
   * SinceRecovery is the longest finite suffix: a suffix of `s`, all of it
   * finite, and preceded (if at all) by an infinity.
   */
  lemma {:induction false} SinceRecoveryIsFiniteSuffix(s: seq<int>)
    ensures var r := SinceRecovery(s);
            && r == s[|s| - |r|..]
            && (forall i :: 0 <= i < |r| ==> IsFinite(r[i]))
            && (|r| < |s| ==> !IsFinite(s[|s| - |r| - 1]))
  {
    if s != [] && IsFinite(Last(s)) {
      var t := s[..|s| - 1];
      SinceRecoveryIsFiniteSuffix(t);
      var rt := SinceRecovery(t);
      assert s[|s| - |rt| - 1..] == t[|t| - |rt|..] + [Last(s)];
    }
  }

  /** The last `min(|log|, capacity)` values of `log`: what a FIFO window of that capacity retains. */
  function Window(log: seq<int>, capacity: nat): seq<int>
  {
    log[|log| - Min(|log|, capacity)..]
  }

  /**
   * The three-way average rule over a window's contents, with the policy
   * flags `excluding` (infinities are left out of the average after a
   * recovery) and `erasing` (a recovery also discards the finite values
   * before it).
   */
  function WindowAverage(w: seq<int>, excluding: bool, erasing: bool): Average
    requires |w| > 0
  {
    var run := SinceRecovery(w);
    if InfinityCount(w) == 0 then
      Average(JavaDiv(FiniteSum(w), |w|), |w|, Last(w))
    else if |run| > 0 && excluding then
      if erasing then Average(JavaDiv(FiniteSum(run), |run|), |run|, Last(w))
      else
        FiniteCountBound(w);
        Average(JavaDiv(FiniteSum(w), |w| - InfinityCount(w)), |w| - InfinityCount(w), Last(w))
    else
      Average(Infinity, |w|, Last(w))
  }

  // ---------------------------------------------------------------------
  // Lemmas about the contents functions
  // ---------------------------------------------------------------------

  lemma {:induction false} FiniteSumDropFirst(s: seq<int>)
    requires |s| > 0
    ensures FiniteSum(s) == (if IsFinite(s[0]) then s[0] else 0) + FiniteSum(s[1..])
  {
    if |s| > 1 {
      var t := s[..|s| - 1];
      assert s[1..][..|s| - 2] == t[1..];
      FiniteSumDropFirst(t);
    } else {
      assert s[..0] == [] && s[1..] == [];
    }
  }

  lemma {:induction false} InfinityCountDropFirst(s: seq<int>)
    requires |s| > 0
    ensures InfinityCount(s) == (if IsFinite(s[0]) then 0 else 1) + InfinityCount(s[1..])
  {
    if |s| > 1 {
      var t := s[..|s| - 1];
      assert s[1..][..|s| - 2] == t[1..];
      InfinityCountDropFirst(t);
    } else {
      assert s[..0] == [] && s[1..] == [];
    }
  }

  /** With no infinity in the window, every item is since the last recovery. */
  lemma {:induction false} SinceRecoveryWithoutInfinity(s: seq<int>)
    requires InfinityCount(s) == 0
    ensures SinceRecovery(s) == s
  {
    if s != [] {
      SinceRecoveryWithoutInfinity(s[..|s| - 1]);
      assert s == s[..|s| - 1] + [Last(s)];
    }
  }

  /**
   * Evicting the oldest item shortens the since-recovery run only when the
   * window holds no infinity; otherwise the run lies after an infinity
   * and is untouched.
   */
  lemma {:induction false} SinceRecoveryDropFirst(s: seq<int>)
    requires |s| > 0
    ensures SinceRecovery(s[1..]) == if InfinityCount(s) == 0 then s[1..] else SinceRecovery(s)
  {
    if |s| == 1 {
      assert s[1..] == [] && s[..0] == [];
    } else {
      var t := s[..|s| - 1];
      assert s[1..][..|s| - 2] == t[1..];
      assert s[1..] == t[1..] + [Last(s)];
      SinceRecoveryDropFirst(t);
    }
  }

  /** The since-recovery run is made of finite items, so it is no longer than the finite part. */
  lemma {:induction false} FiniteCountBound(s: seq<int>)
    ensures |SinceRecovery(s)| <= |s| - InfinityCount(s)
  {
    if s != [] {
      FiniteCountBound(s[..|s| - 1]);
    }
  }

  lemma {:induction false} FiniteSumOfFinites(s: seq<int>)
    ensures FiniteSum(s) == Sum(Finites(s))
  {
    if s != [] {
      FiniteSumOfFinites(s[..|s| - 1]);
      var f := Finites(s[..|s| - 1]);
      if IsFinite(Last(s)) {
        assert (f + [Last(s)])[..|f|] == f;
      }
    }
  }

  lemma {:induction false} FiniteSumWithoutInfinity(s: seq<int>)
    requires InfinityCount(s) == 0
    ensures FiniteSum(s) == Sum(s)
  {
    if s != [] {
      FiniteSumWithoutInfinity(s[..|s| - 1]);
    }
  }

  /** Appending one value to the log moves the window exactly as one FIFO step does. */
  lemma WindowStep(log: seq<int>, x: int, capacity: nat)
    requires capacity >= 1
    ensures var w := Window(log, capacity);
            Window(log + [x], capacity) == (if |w| == capacity then w[1..] else w) + [x]
  {
    var w := Window(log, capacity);
    var l := log + [x];
    if |log| >= capacity {
      assert |w| == capacity;
      assert l[|l| - capacity..] == log[|log| - capacity + 1..] + [x];
    } else {
      assert Window(l, capacity) == l;
      assert w == log;
    }
  }

  // ---------------------------------------------------------------------
  // What the average rule promises
  // ---------------------------------------------------------------------

  /** With no infinity in the window, the average is the integer mean of every item. */
  lemma AverageWithoutInfinities(w: seq<int>, excluding: bool, erasing: bool)
    requires |w| > 0 && InfinityCount(w) == 0
    ensures WindowAverage(w, excluding, erasing) == Average(JavaDiv(Sum(w), |w|), |w|, Last(w))
  {
    FiniteSumWithoutInfinity(w);
  }

  /** An infinity as the newest value always gives an infinite average over the whole window, whatever the flags. */
  lemma AverageAfterInfinity(w: seq<int>, excluding: bool, erasing: bool)
    requires |w| > 0 && Last(w) == Infinity
    ensures WindowAverage(w, excluding, erasing) == Average(Infinity, |w|, Infinity)
  {
    assert InfinityCount(w) > 0;
  }

  /**
   * With infinities present, a non-empty since-recovery run and the
   * excluding flag set: the newest value is finite, and the average is the
   * mean of the run when erasing, otherwise the mean of all finite items.
   */
  lemma AverageAfterRecovery(w: seq<int>, erasing: bool)
    requires |w| > 0 && InfinityCount(w) > 0 && |SinceRecovery(w)| > 0
    ensures IsFinite(Last(w))
    ensures var a := WindowAverage(w, true, erasing);
            var run := SinceRecovery(w);
            var finite := Finites(w);
            if erasing then a == Average(JavaDiv(Sum(run), |run|), |run|, Last(w))
            else 0 < |finite| && a == Average(JavaDiv(Sum(finite), |finite|), |finite|, Last(w))
  {
    var run := SinceRecovery(w);
    if erasing {
      SinceRecoveryIsFiniteSuffix(w);
      AllFiniteWithoutInfinity(run);
      FiniteSumWithoutInfinity(run);
    } else {
      FiniteSumOfFinites(w);
      FiniteCountBound(w);
    }
  }

  lemma {:induction false} AllFiniteWithoutInfinity(s: seq<int>)
    requires forall i :: 0 <= i < |s| ==> IsFinite(s[i])
    ensures InfinityCount(s) == 0
  {
    if s != [] {
      AllFiniteWithoutInfinity(s[..|s| - 1]);
    }
  }

  /**
   * Without the excluding flag, or before any recovery, a window with an
   * infinity averages to Infinity over its whole size.
   */
  lemma AverageWithInfinityNoRecovery(w: seq<int>, excluding: bool, erasing: bool)
    requires |w| > 0 && InfinityCount(w) > 0 && (!excluding || |SinceRecovery(w)| == 0)
    ensures WindowAverage(w, excluding, erasing) == Average(Infinity, |w|, Last(w))
  {
  }

  /**
   * Every average names the newest value and counts between one and all of
   * the window; a finite average from a window holding an infinity only
   * comes after a finite newest value.
   */
  lemma AverageShape(w: seq<int>, excluding: bool, erasing: bool)
    requires |w| > 0
    ensures var a := WindowAverage(w, excluding, erasing);
            && a.newest == Last(w)
            && 1 <= a.count <= |w|
            && (InfinityCount(w) > 0 && a.value != Infinity ==> IsFinite(a.newest))
  {
    FiniteCountBound(w);
  }

  // ---------------------------------------------------------------------
  // The class
  // ---------------------------------------------------------------------

  class SqlExecutionTimeHistory {
    /** `itemsCountIncludedInAverage`: the maximal history size. */
    const capacity: int
    const infinitiesNotIncludedInAverageAfterRecovery: bool
    const recoveryErasesHistory: bool

    var items: seq<Long>
    var total: int
    var infinitiesCount: int
    var totalFromLastRecovery: int
    var itemsCountFromLastRecovery: int

    /** Every execution time passed to UpdateAverage so far, oldest first. */
    ghost var appended: seq<Long>

    /** The counters agree with the items. */
    ghost predicate CountersMatch()
      reads this
    {
      && total == FiniteSum(items)
      && infinitiesCount == InfinityCount(items)
      && totalFromLastRecovery == FiniteSum(SinceRecovery(items))
      && itemsCountFromLastRecovery == |SinceRecovery(items)|
    }

    ghost predicate Valid()
      reads this
    {
      && 1 <= capacity
      && |items| <= capacity
      && items == Window(appended, capacity)
      && CountersMatch()
    }

    constructor (capacity: int, infinitiesNotIncludedInAverageAfterRecovery: bool, recoveryErasesHistory: bool)
      requires capacity >= 1
      ensures Valid()
      ensures items == [] && appended == []
      ensures this.capacity == capacity
      ensures this.infinitiesNotIncludedInAverageAfterRecovery == infinitiesNotIncludedInAverageAfterRecovery
      ensures this.recoveryErasesHistory == recoveryErasesHistory
    {
      this.capacity := capacity;
      this.infinitiesNotIncludedInAverageAfterRecovery := infinitiesNotIncludedInAverageAfterRecovery;
      this.recoveryErasesHistory := recoveryErasesHistory;
      items := [];
      total := 0;
      infinitiesCount := 0;
      totalFromLastRecovery := 0;
      itemsCountFromLastRecovery := 0;
      appended := [];
      new;
      var e: seq<int> := [];
      assert FiniteSum(e) == 0 && InfinityCount(e) == 0 && SinceRecovery(e) == [];
      assert Window(e, capacity) == e;
      assert items == e && appended == e;
      assert CountersMatch();
    }

    /**
     * Adds an execution time, evicting the oldest one when the history is
     * full, and returns the new average.
     */
    method UpdateAverage(executionTime: Long) returns (a: Average)
      requires Valid()
      modifies this
      ensures Valid()
      ensures appended == old(appended) + [executionTime]
      ensures items == (if |old(items)| == capacity then old(items)[1..] else old(items)) + [executionTime]
      ensures 1 <= |items| <= capacity
      ensures a == WindowAverage(items, infinitiesNotIncludedInAverageAfterRecovery, recoveryErasesHistory)
    {
      WindowStep(appended, executionTime, capacity);
      RemoveFirstItem();
      AddLastItem(executionTime);
      appended := appended + [executionTime];
      a := GetAverage();
    }

    /** The average computed from the counters. */
    method GetAverage() returns (a: Average)
      requires CountersMatch() && |items| > 0
      ensures a == WindowAverage(items, infinitiesNotIncludedInAverageAfterRecovery, recoveryErasesHistory)
    {
      FiniteCountBound(items);
      var size := |items|;
      if infinitiesCount == 0 {
        a := Average(JavaDiv(total, size), size, items[size - 1]);
      } else if itemsCountFromLastRecovery > 0 && infinitiesNotIncludedInAverageAfterRecovery {
        if recoveryErasesHistory {
          a := Average(JavaDiv(totalFromLastRecovery, itemsCountFromLastRecovery), itemsCountFromLastRecovery, items[size - 1]);
        } else {
          a := Average(JavaDiv(total, size - infinitiesCount), size - infinitiesCount, items[size - 1]);
        }
      } else {
        a := Average(Infinity, size, items[size - 1]);
      }
    }

    /** Evicts the oldest item when the history is full, and keeps the counters in step. */
    method RemoveFirstItem()
      requires 1 <= capacity && |items| <= capacity && CountersMatch()
      modifies this
      ensures CountersMatch()
      ensures items == if |old(items)| == capacity then old(items)[1..] else old(items)
      ensures appended == old(appended)
    {
      if |items| == capacity {
        var removed := items[0];
        FiniteSumDropFirst(items);
        InfinityCountDropFirst(items);
        SinceRecoveryDropFirst(items);
        if infinitiesCount == 0 {
          SinceRecoveryWithoutInfinity(items);
          FiniteSumDropFirst(items);
        }
        items := items[1..];
        if removed < Infinity {
          total := total - removed;
          if infinitiesCount == 0 {
            totalFromLastRecovery := totalFromLastRecovery - removed;
            itemsCountFromLastRecovery := itemsCountFromLastRecovery - 1;
          }
        } else {
          infinitiesCount := infinitiesCount - 1;
        }
      }
    }

    /** Appends an item; an infinity resets the since-recovery counters. */
    method AddLastItem(item: Long)
      requires CountersMatch()
      modifies this
      ensures CountersMatch()
      ensures items == old(items) + [item]
      ensures appended == old(appended)
    {
      assert (items + [item])[..|items|] == items;
      items := items + [item];
      if item < Infinity {
        total := total + item;
        totalFromLastRecovery := totalFromLastRecovery + item;
        itemsCountFromLastRecovery := itemsCountFromLastRecovery + 1;
      } else {
        infinitiesCount := infinitiesCount + 1;
        totalFromLastRecovery := 0;
        itemsCountFromLastRecovery := 0;
      }
    }
  }

  /** The outcome of constructing a history: the object, or the IllegalArgumentException. */
  datatype Construction = Constructed(history: SqlExecutionTimeHistory) | IllegalArgument

  /** The constructor, with its rejection of a capacity below one. */
  method NewHistory(capacity: int, infinitiesNotIncludedInAverageAfterRecovery: bool, recoveryErasesHistory: bool)
    returns (r: Construction)
    ensures r.IllegalArgument? <==> capacity < 1
    ensures r.Constructed? ==>
      && fresh(r.history) && r.history.Valid()
      && r.history.items == [] && r.history.appended == []
      && r.history.capacity == capacity
      && r.history.infinitiesNotIncludedInAverageAfterRecovery == infinitiesNotIncludedInAverageAfterRecovery
      && r.history.recoveryErasesHistory == recoveryErasesHistory
  {
    if capacity < 1 {
      r := IllegalArgument;
    } else {
      var h := new SqlExecutionTimeHistory(capacity, infinitiesNotIncludedInAverageAfterRecovery, recoveryErasesHistory);
      r := Constructed(h);
    }
  }

  /**
   * Capacity three, appending 100, 200, an infinity and 50: with both flags
   * set the averages are 100/1, 150/2, Infinity/3 and 50/1 (the recovery
   * erases the history); with only the excluding flag the last one is
   * (200 + 50) / 2 over two values.
   */
  lemma ScenarioAverages()
    ensures WindowAverage([100], true, true) == Average(100, 1, 100)
    ensures WindowAverage([100, 200], true, true) == Average(150, 2, 200)
    ensures WindowAverage([100, 200, Infinity], true, true) == Average(Infinity, 3, Infinity)
    ensures WindowAverage([200, Infinity, 50], true, true) == Average(50, 1, 50)
    ensures WindowAverage([200, Infinity, 50], true, false) == Average(125, 2, 50)
  {
    assert [100][..0] == [] && [100, 200][..1] == [100];
    AverageWithoutInfinities([100], true, true);
    AverageWithoutInfinities([100, 200], true, true);
    AverageAfterInfinity([100, 200, Infinity], true, true);
    var w := [200, Infinity, 50];
    assert w[..2] == [200, Infinity] && w[..2][..1] == [200] && w[..2][..1][..0] == [];
    assert SinceRecovery(w[..2]) == [];
    assert SinceRecovery(w) == [50];
    assert InfinityCount([200]) == 0 && FiniteSum([200]) == 200;
    assert InfinityCount(w[..2]) == 1 && FiniteSum(w[..2]) == 200;
    assert InfinityCount(w) == 1 && FiniteSum(w) == 250;
  }

  /** The windows of capacity three that appending 100, 200, an infinity and 50 passes through. */
  lemma ScenarioWindows()
    ensures Window([100], 3) == [100]
    ensures Window([100, 200], 3) == [100, 200]
    ensures Window([100, 200, Infinity], 3) == [100, 200, Infinity]
    ensures Window([100, 200, Infinity, 50], 3) == [200, Infinity, 50]
  {
    var log := [100, 200, Infinity, 50];
    assert log[1..] == [200, Infinity, 50];
  }
}
