/**
 * The "most active day" of `fetchUserData`: one scan over the day histogram
 * in enumeration order that keeps the first day with the largest count.
 */
module MostActive {
  import opened Wrappers
  import opened Counters

  /**
   * Entry `i` holds the largest count, that count is positive, and every
   * entry before it holds a strictly smaller count: the entry a scan with a
   * strict `>` against a running maximum starting at 0 settles on.
   */
  ghost predicate IsFirstMaximum(es: seq<Entry>, i: int)
  {
    0 <= i < |es|
    && es[i].count > 0
    && (forall j :: 0 <= j < |es| ==> es[j].count <= es[i].count)
    && (forall j :: 0 <= j < i ==> es[j].count < es[i].count)
  }

  /** At most one entry is the first maximum, so the characterization fixes the answer. */
  lemma FirstMaximumIsUnique(es: seq<Entry>, i: int, i': int)
    requires IsFirstMaximum(es, i) && IsFirstMaximum(es, i')
    ensures i == i'
  {
  }

  /** The pair `maxDay`, `maxCount` the scan keeps. */
  datatype Scan = Scan(maxDay: Option<string>, maxCount: nat)

  /**
   * The pair held once the scan of lines 83-88 has visited the first `n`
   * entries: it starts at `null` and 0, and an entry replaces it only when
   * its count is strictly larger.
   */
  function ScanCounts(es: seq<Entry>, n: nat): Scan
    requires n <= |es|
  {
    if n == 0 then Scan(None, 0)
    else
      var previous := ScanCounts(es, n - 1);
      if es[n - 1].count > previous.maxCount then Scan(Some(es[n - 1].key), es[n - 1].count) else previous
  }

  /**
   * After `n` entries the scan holds the largest count among them, no day
   * exactly when they are all 0, and otherwise the key of the first of them
   * holding that count, at index `best`.
   */
  lemma {:induction false} ScanKeepsFirstMaximum(es: seq<Entry>, n: nat) returns (best: nat)
    requires n <= |es|
    ensures ScanCounts(es, n).maxDay.None? <==> forall j :: 0 <= j < n ==> es[j].count == 0
    ensures ScanCounts(es, n).maxDay.None? ==> ScanCounts(es, n).maxCount == 0
    ensures forall j :: 0 <= j < n ==> es[j].count <= ScanCounts(es, n).maxCount
    ensures ScanCounts(es, n).maxDay.Some? ==>
      best < n && es[best].count == ScanCounts(es, n).maxCount > 0 && es[best].key == ScanCounts(es, n).maxDay.value
      && forall j :: 0 <= j < best ==> es[j].count < es[best].count
  {
    if n == 0 {
      best := 0;
    } else {
      best := ScanKeepsFirstMaximum(es, n - 1);
      if es[n - 1].count > ScanCounts(es, n - 1).maxCount {
        best := n - 1;
      }
    }
  }

  /**
   * The scan over the whole histogram finds no day exactly when every count
   * is 0, and otherwise the first entry holding the largest count.
   */
  lemma ScanFindsFirstMaximum(es: seq<Entry>)
    ensures ScanCounts(es, |es|).maxDay.None? <==> forall j :: 0 <= j < |es| ==> es[j].count == 0
    ensures ScanCounts(es, |es|).maxDay.Some? ==>
      exists i :: IsFirstMaximum(es, i)
        && es[i].key == ScanCounts(es, |es|).maxDay.value && es[i].count == ScanCounts(es, |es|).maxCount
  {
    var best := ScanKeepsFirstMaximum(es, |es|);
    if ScanCounts(es, |es|).maxDay.Some? {
      assert IsFirstMaximum(es, best);
    }
  }

  /** Lines 80-88 of src/App.tsx: the scan, one entry at a time in enumeration order. */
  method FindMostActiveDay(commitsByDay: seq<Entry>) returns (maxDay: Option<string>, maxCount: nat)
    ensures Scan(maxDay, maxCount) == ScanCounts(commitsByDay, |commitsByDay|)
  {
    maxDay, maxCount := None, 0;
    for i := 0 to |commitsByDay|
      invariant Scan(maxDay, maxCount) == ScanCounts(commitsByDay, i)
    {
      var entry := commitsByDay[i];
      if entry.count > maxCount {
        maxCount := entry.count;
        maxDay := Some(entry.key);
      }
    }
  }

  /** A histogram built by counting (every count positive) has a most active day exactly when it is not empty. */
  lemma MostActiveDayExistsUnlessEmpty(commitsByDay: seq<Entry>)
    requires Positive(commitsByDay)
    ensures (forall j :: 0 <= j < |commitsByDay| ==> commitsByDay[j].count == 0) <==> |commitsByDay| == 0
  {
    if |commitsByDay| > 0 {
      assert commitsByDay[0].count >= 1;
    }
  }
}
