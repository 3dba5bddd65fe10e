/**
 * The commit streak of `fetchUserData`: the date keys become millisecond
 * timestamps (`new Date(key).getTime()`), are sorted numerically, and one
 * scan over neighbouring timestamps measures runs of consecutive days.
 */
module Streak {
  import opened Calendar
  import opened Sorting
  import opened Wrappers

  /** `1000 * 60 * 60 * 24`, the divisor of line 110 of src/App.tsx. */
  const MsPerDay: int := 86400000

  /** The timestamp of UTC midnight starting day `day` (day 0 is 1970-01-01). */
  function Midnight(day: int): int
  {
    day * MsPerDay
  }

  /** The day a midnight timestamp starts. */
  function Day(t: int): int
  {
    t / MsPerDay
  }

  lemma DayOfMidnight(day: int)
    ensures Day(Midnight(day)) == day
  {
  }

  lemma MidnightIsInjective(a: int, b: int)
    requires Midnight(a) == Midnight(b)
    ensures a == b
  {
  }

  function Abs(x: int): nat
  {
    if x < 0 then -x else x
  }

  /** `Math.ceil(n / d)` for a non-negative `n`. */
  function CeilDiv(n: nat, d: nat): nat
    requires d > 0
  {
    (n + d - 1) / d
  }

  /** The day a `full-date` key names. */
  function DayOf(key: string): int
    requires IsFullDate(key)
  {
    DayNumber(ParseFullDate(key).value)
  }

  /** `new Date(key).getTime()` for a `full-date` key, which JavaScript reads as UTC midnight. */
  function TimeOf(key: string): int
    requires IsFullDate(key)
  {
    Midnight(DayOf(key))
  }

  /** Line 98 of src/App.tsx: `commitDates.map(date => new Date(date).getTime())`. */
  function Times(keys: seq<string>): (ts: seq<int>)
    requires forall i :: 0 <= i < |keys| ==> IsFullDate(keys[i])
    ensures |ts| == |keys|
    ensures forall i :: 0 <= i < |keys| ==> ts[i] == TimeOf(keys[i])
  {
    seq(|keys|, i requires 0 <= i < |keys| => TimeOf(keys[i]))
  }

  /** The key of the numeric comparator `(a, b) => a - b`. */
  function Identity(t: int): int
  {
    t
  }

  /**
   * The `len` days from `start` on are consecutive commit days: the last of
   * them has its midnight among `ts`, and so do the ones before it.
   */
  ghost predicate HasRun(ts: seq<int>, start: int, len: nat)
  {
    len == 0 || (Midnight(start + len - 1) in ts && HasRun(ts, start, len - 1))
  }

  /** Every day from `start` to `start + len - 1` has its midnight among `ts`. */
  ghost predicate AllPresent(ts: seq<int>, start: int, len: nat)
  {
    forall d :: start <= d < start + len ==> Midnight(d) in ts
  }

  /** The recursive run and the day-by-day description agree. */
  lemma {:induction false} RunIsAllPresent(ts: seq<int>, start: int, len: nat)
    ensures HasRun(ts, start, len) <==> AllPresent(ts, start, len)
    decreases len
  {
    if len > 0 {
      RunIsAllPresent(ts, start, len - 1);
    }
  }

  /** `n` is the length of the longest run of consecutive days among `ts`. */
  ghost predicate IsLongestRun(ts: seq<int>, n: nat)
  {
    (exists start :: HasRun(ts, start, n))
    && forall start, len: nat :: HasRun(ts, start, len) ==> len <= n
  }

  /** The longest run is well defined: two lengths that are both longest are equal. */
  lemma LongestRunIsUnique(ts: seq<int>, n: nat, m: nat)
    requires IsLongestRun(ts, n) && IsLongestRun(ts, m)
    ensures n == m
  {
    var s :| HasRun(ts, s, n);
    var s' :| HasRun(ts, s', m);
  }

  /** A midnight timestamp occurs among the times of `keys` exactly when one of the keys names that day. */
  lemma MidnightOfCommitDay(keys: seq<string>, d: int)
    requires forall i :: 0 <= i < |keys| ==> IsFullDate(keys[i])
    ensures Midnight(d) in Times(keys) <==> exists i :: 0 <= i < |keys| && DayOf(keys[i]) == d
  {
    var ts := Times(keys);
    if Midnight(d) in ts {
      var i :| 0 <= i < |ts| && ts[i] == Midnight(d);
      MidnightIsInjective(DayOf(keys[i]), d);
    }
    if exists i :: 0 <= i < |keys| && DayOf(keys[i]) == d {
      var i :| 0 <= i < |keys| && DayOf(keys[i]) == d;
      assert ts[i] == Midnight(d);
    }
  }

  /** Lines 109-110 of src/App.tsx: between two midnights the ceiling of the gap in days is the difference of their days. */
  lemma GapInDays(prev: int, curr: int)
    requires prev == Midnight(Day(prev)) && curr == Midnight(Day(curr)) && prev <= curr
    ensures CeilDiv(Abs(curr - prev), MsPerDay) == Day(curr) - Day(prev)
  {
    var k := Day(curr) - Day(prev);
    assert Abs(curr - prev) == k * MsPerDay;
  }

  /** Sequences with the same members have the same runs. */
  lemma SameMembersSameRuns(a: seq<int>, b: seq<int>)
    requires forall t :: t in a <==> t in b
    ensures forall start, len: nat :: HasRun(a, start, len) <==> HasRun(b, start, len)
  {
    forall start, len: nat
      ensures HasRun(a, start, len) <==> HasRun(b, start, len)
    {
      RunIsAllPresent(a, start, len);
      RunIsAllPresent(b, start, len);
    }
  }

  /** The longest run depends only on which timestamps occur, not on their order or repetition. */
  lemma LongestRunOfPermutation(a: seq<int>, b: seq<int>, n: nat)
    requires multiset(a) == multiset(b) && IsLongestRun(a, n)
    ensures IsLongestRun(b, n)
  {
    assert forall t :: t in a <==> t in multiset(b);
    SameMembersSameRuns(a, b);
    var start :| HasRun(a, start, n);
    assert HasRun(b, start, n);
  }

  /** The midnights of the `len` days from `start` on. */
  function RunMidnights(start: int, len: nat): set<int>
  {
    if len == 0 then {} else RunMidnights(start, len - 1) + {Midnight(start + len - 1)}
  }

  /** A run of `len` days has `len` different midnights, all within the run. */
  lemma {:induction false} RunMidnightsAreDistinct(start: int, len: nat)
    ensures |RunMidnights(start, len)| == len
    ensures forall t :: t in RunMidnights(start, len) ==> Midnight(start) <= t < Midnight(start + len)
  {
    if len > 0 {
      RunMidnightsAreDistinct(start, len - 1);
      assert Midnight(start + len - 1) !in RunMidnights(start, len - 1);
    }
  }

  lemma {:induction false} RunMidnightsArePresent(ts: seq<int>, start: int, len: nat)
    requires HasRun(ts, start, len)
    ensures RunMidnights(start, len) <= set t | t in ts
  {
    if len > 0 {
      RunMidnightsArePresent(ts, start, len - 1);
    }
  }

  /** A longest run never exceeds the number of distinct timestamps, that is of distinct commit days. */
  lemma LongestRunFitsDistinctDays(ts: seq<int>, n: nat)
    requires IsLongestRun(ts, n)
    ensures n <= |set t | t in ts|
  {
    var start :| HasRun(ts, start, n);
    RunMidnightsAreDistinct(start, n);
    RunMidnightsArePresent(ts, start, n);
    SubsetIsNotLarger(RunMidnights(start, n), set t | t in ts);
  }

  /** Distinct keys never give more distinct timestamps than there are keys. */
  lemma {:induction false} FewerTimesThanKeys(keys: seq<string>)
    requires forall i :: 0 <= i < |keys| ==> IsFullDate(keys[i])
    ensures |set t | t in Times(keys)| <= |set k | k in keys|
  {
    if keys != [] {
      var prefix, last := keys[..|keys| - 1], keys[|keys| - 1];
      assert keys == prefix + [last];
      var ts := Times(prefix);
      assert Times(keys) == ts + [TimeOf(last)];
      FewerTimesThanKeys(prefix);
      MembersOfSnoc(ts, TimeOf(last));
      MembersOfSnoc(prefix, last);
      if last in prefix {
        var i :| 0 <= i < |prefix| && prefix[i] == last;
        assert ts[i] == TimeOf(last);
      }
      AddingKeepsNotLarger((set t | t in ts), TimeOf(last), (set k | k in prefix), last);
    }
  }

  /** The streak of a non-empty list of commit dates never exceeds the number of distinct dates. */
  lemma LongestRunFitsDistinctDates(keys: seq<string>, n: nat)
    requires forall i :: 0 <= i < |keys| ==> IsFullDate(keys[i])
    requires IsLongestRun(Times(keys), n)
    ensures n <= |set k | k in keys|
  {
    LongestRunFitsDistinctDays(Times(keys), n);
    FewerTimesThanKeys(keys);
  }

  /** Every element is a midnight, in ascending order: the sorted timestamps. */
  ghost predicate AscendingMidnights(ts: seq<int>)
  {
    (forall j, k :: 0 <= j < k < |ts| ==> ts[j] <= ts[k])
    && forall j :: 0 <= j < |ts| ==> ts[j] == Midnight(Day(ts[j]))
  }

  /**
   * What the scan knows after looking at the timestamps `seen`, whose last
   * day is `top`: `current` is the length of the run ending at `top` (the
   * day before that run is missing), and `longest` is the longest run,
   * witnessed by `bestStart`.
   */
  ghost predicate Scanned(seen: seq<int>, top: int, current: nat, longest: nat, bestStart: int)
  {
    1 <= current <= longest <= |seen|
    && HasRun(seen, top - current + 1, current)
    && Midnight(top - current) !in seen
    && HasRun(seen, bestStart, longest)
    && forall start, len: nat :: HasRun(seen, start, len) ==> len <= longest
  }

  /** Every timestamp of `ts[..i]` starts a day no later than the last of them. */
  lemma SeenAreNotLater(ts: seq<int>, i: nat, d: int)
    requires AscendingMidnights(ts) && 1 <= i <= |ts|
    requires Midnight(d) in ts[..i]
    ensures d <= Day(ts[i - 1])
  {
    var j :| 0 <= j < i && ts[j] == Midnight(d);
    assert ts[j] <= ts[i - 1];
  }

  /** A non-empty run ends no later than the last day present. */
  lemma RunEndsByTop(ts: seq<int>, start: int, len: nat, top: int)
    requires HasRun(ts, start, len) && len > 0
    requires forall d :: Midnight(d) in ts ==> d <= top
    ensures start + len - 1 <= top
  {
    assert Midnight(start + len - 1) in ts;
  }

  /** A run that reaches past a missing day starts after it. */
  lemma RunStartsAfterGap(ts: seq<int>, start: int, len: nat, gap: int)
    requires HasRun(ts, start, len) && Midnight(gap) !in ts && gap < start + len
    ensures gap < start
  {
    RunIsAllPresent(ts, start, len);
  }

  /** Adding a timestamp keeps every run. */
  lemma RunSurvivesAddition(ts: seq<int>, t: int, start: int, len: nat)
    requires HasRun(ts, start, len)
    ensures HasRun(ts + [t], start, len)
  {
    RunIsAllPresent(ts, start, len);
    RunIsAllPresent(ts + [t], start, len);
  }

  /** Adding the midnight right after a run extends the run by one day. */
  lemma RunGrows(ts: seq<int>, start: int, len: nat, len': nat, next: int)
    requires HasRun(ts, start, len) && len' == len + 1 && next == start + len
    ensures HasRun(ts + [Midnight(next)], start, len')
  {
    RunSurvivesAddition(ts, Midnight(next), start, len);
  }

  /** A run among `seen + [Midnight(x)]` that ends before `x` is a run among `seen`. */
  lemma RunBeforeAddition(seen: seq<int>, x: int, start: int, len: nat)
    requires HasRun(seen + [Midnight(x)], start, len) && start + len - 1 < x
    ensures HasRun(seen, start, len)
  {
    RunIsAllPresent(seen + [Midnight(x)], start, len);
    RunIsAllPresent(seen, start, len);
    forall d | start <= d < start + len
      ensures Midnight(d) in seen
    {
      assert Midnight(d) in seen + [Midnight(x)];
      assert Midnight(d) < Midnight(x);
    }
  }

  /**
   * After adding day `x` later than every day of `seen`, a run is either an
   * old run, bounded by `longest`, or ends at `x` and so starts after the
   * missing day `g`.
   */
  lemma RunsAfterAddition(seen: seq<int>, top: int, x: int, longest: nat, g: int)
    requires forall d :: Midnight(d) in seen ==> d <= top
    requires top < x
    requires forall start, len: nat :: HasRun(seen, start, len) ==> len <= longest
    requires g < x && Midnight(g) !in seen
    ensures forall start, len: nat :: HasRun(seen + [Midnight(x)], start, len) ==> len <= longest || len <= x - g
  {
    var next := seen + [Midnight(x)];
    assert forall d :: Midnight(d) in next ==> d <= x;
    assert Midnight(g) !in next;
    forall start, len: nat | HasRun(next, start, len) && len > 0
      ensures len <= longest || len <= x - g
    {
      RunEndsByTop(next, start, len, x);
      if start + len - 1 < x {
        RunBeforeAddition(seen, x, start, len);
      } else {
        RunStartsAfterGap(next, start, len, g);
      }
    }
  }

  /** The scan before its first step: one timestamp, a run of length 1. */
  lemma FirstDay(ts: seq<int>)
    requires AscendingMidnights(ts) && |ts| >= 1
    ensures Scanned(ts[..1], Day(ts[0]), 1, 1, Day(ts[0]))
  {
    var top := Day(ts[0]);
    assert ts[..1] == [Midnight(top)];
    forall start, len: nat | HasRun(ts[..1], start, len)
      ensures len <= 1
    {
      if len > 0 {
        RunIsAllPresent(ts[..1], start, len);
        assert Midnight(start) in ts[..1];
        RunEndsByTop(ts[..1], start, len, top);
      }
    }
  }

  /** Lines 112-114 of src/App.tsx: the next day is consecutive, so the current run grows by one. */
  lemma ConsecutiveStep(seen: seq<int>, top: int, x: int, current: nat, longest: nat, bestStart: int,
                        current': nat, longest': nat, bestStart': int)
    requires forall d :: Midnight(d) in seen ==> d <= top
    requires Scanned(seen, top, current, longest, bestStart)
    requires x == top + 1
    requires current' == current + 1 && longest' == Max(longest, current')
    requires bestStart' == if current' > longest then x - current' + 1 else bestStart
    ensures Scanned(seen + [Midnight(x)], x, current', longest', bestStart')
  {
    var g := top - current;
    var next := seen + [Midnight(x)];
    RunGrows(seen, x - current' + 1, current, current', x);
    assert Midnight(x - current') !in next by {
      assert x - current' == g;
      assert Midnight(g) < Midnight(x);
    }
    if current' <= longest {
      RunSurvivesAddition(seen, Midnight(x), bestStart, longest);
    }
    RunsAfterAddition(seen, top, x, longest, g);
  }

  /** Lines 115-116 of src/App.tsx: a gap of more than one day starts a new run of length 1. */
  lemma GapStep(seen: seq<int>, top: int, x: int, current: nat, longest: nat, bestStart: int)
    requires forall d :: Midnight(d) in seen ==> d <= top
    requires Scanned(seen, top, current, longest, bestStart)
    requires x > top + 1
    ensures Scanned(seen + [Midnight(x)], x, 1, longest, bestStart)
  {
    RunGrows(seen, x - 1 + 1, 0, 1, x);
    RunSurvivesAddition(seen, Midnight(x), bestStart, longest);
    assert Midnight(x - 1) !in seen by {
      assert Midnight(top) < Midnight(x - 1);
    }
    RunsAfterAddition(seen, top, x, longest, x - 1);
    assert Midnight(x - 1) != Midnight(x);
  }

  /** The next timestamp repeats the last day: nothing changes (a `diffDays` of 0 takes neither branch). */
  lemma RepeatStep(seen: seq<int>, top: int, current: nat, longest: nat, bestStart: int)
    requires Midnight(top) in seen
    requires Scanned(seen, top, current, longest, bestStart)
    ensures Scanned(seen + [Midnight(top)], top, current, longest, bestStart)
  {
    SameMembersSameRuns(seen, seen + [Midnight(top)]);
  }

  /** The days present in `ts[..i + 1]` are those of `ts[..i]` and the day of `ts[i]`, the last. */
  lemma NextPrefix(ts: seq<int>, i: nat)
    requires AscendingMidnights(ts) && 1 <= i < |ts|
    ensures ts[..i + 1] == ts[..i] + [Midnight(Day(ts[i]))]
    ensures Day(ts[i - 1]) <= Day(ts[i])
    ensures Midnight(Day(ts[i - 1])) in ts[..i]
    ensures forall d :: Midnight(d) in ts[..i] ==> d <= Day(ts[i - 1])
  {
    assert ts[i - 1] <= ts[i];
    assert ts[..i][i - 1] == ts[i - 1];
    forall d | Midnight(d) in ts[..i]
      ensures d <= Day(ts[i - 1])
    {
      SeenAreNotLater(ts, i, d);
    }
  }

  /**
   * One turn of the loop of lines 104-118 of src/App.tsx, from the gap
   * `diffDays` between neighbouring timestamps to the new counters.
   */
  lemma Advance(ts: seq<int>, i: nat, current: nat, longest: nat, bestStart: int, diffDays: nat,
                current': nat, longest': nat, bestStart': int)
    requires AscendingMidnights(ts) && 1 <= i < |ts|
    requires Scanned(ts[..i], Day(ts[i - 1]), current, longest, bestStart)
    requires diffDays == CeilDiv(Abs(ts[i] - ts[i - 1]), MsPerDay)
    requires diffDays == 1 ==>
      current' == current + 1 && longest' == Max(longest, current')
      && bestStart' == if current' > longest then Day(ts[i]) - current' + 1 else bestStart
    requires diffDays > 1 ==> current' == 1 && longest' == longest && bestStart' == bestStart
    requires diffDays == 0 ==> current' == current && longest' == longest && bestStart' == bestStart
    ensures Scanned(ts[..i + 1], Day(ts[i]), current', longest', bestStart')
  {
    var top, x := Day(ts[i - 1]), Day(ts[i]);
    NextPrefix(ts, i);
    GapInDays(ts[i - 1], ts[i]);
    if diffDays == 1 {
      ConsecutiveStep(ts[..i], top, x, current, longest, bestStart, current', longest', bestStart');
    } else if diffDays > 1 {
      GapStep(ts[..i], top, x, current, longest, bestStart);
    } else {
      RepeatStep(ts[..i], top, current, longest, bestStart);
    }
  }

  /** Once every timestamp is scanned, `longest` is the longest run and at most the number of timestamps. */
  lemma ScanComplete(ts: seq<int>, top: int, current: nat, longest: nat, bestStart: int)
    requires Scanned(ts, top, current, longest, bestStart)
    ensures IsLongestRun(ts, longest) && longest <= |ts|
  {
  }

  /** Every timestamp is a UTC midnight. */
  ghost predicate AllMidnights(ts: seq<int>)
  {
    forall j :: 0 <= j < |ts| ==> ts[j] == Midnight(Day(ts[j]))
  }

  /** The timestamps of full-date keys are midnights. */
  lemma TimesAreMidnights(keys: seq<string>)
    requires forall i :: 0 <= i < |keys| ==> IsFullDate(keys[i])
    ensures AllMidnights(Times(keys))
  {
    var ts := Times(keys);
    forall j | 0 <= j < |ts|
      ensures ts[j] == Midnight(Day(ts[j]))
    {
      DayOfMidnight(DayOf(keys[j]));
    }
  }

  /** Sorting midnights numerically gives ascending midnights. */
  lemma SortedMidnights(ts: seq<int>)
    requires AllMidnights(ts)
    ensures AscendingMidnights(SortBy(ts, Identity))
  {
    var sorted := SortBy(ts, Identity);
    forall j, k | 0 <= j < k < |sorted|
      ensures sorted[j] <= sorted[k]
    {
      assert Identity(sorted[j]) <= Identity(sorted[k]);
    }
    forall j | 0 <= j < |sorted|
      ensures sorted[j] == Midnight(Day(sorted[j]))
    {
      assert sorted[j] in multiset(ts);
    }
  }

  /**
   * Lines 101-118 of src/App.tsx, the scan over the sorted timestamps: start
   * both counters at 1, and for each neighbouring pair extend the current
   * run on a one-day gap, restart it on a longer gap and leave it alone on a
   * repeated day (`diffDays` 0 takes neither branch).
   */
  method ScanSorted(sortedDates: seq<int>) returns (maxStreak: nat)
    requires AscendingMidnights(sortedDates)
    ensures 1 <= maxStreak
    ensures |sortedDates| == 0 ==> maxStreak == 1
    ensures |sortedDates| > 0 ==> maxStreak <= |sortedDates| && IsLongestRun(sortedDates, maxStreak)
  {
    var currentStreak := 1;
    maxStreak := 1;
    ghost var bestStart := 0;
    if |sortedDates| > 0 {
      bestStart := Day(sortedDates[0]);
      FirstDay(sortedDates);
    }
    var i := 1;
    while i < |sortedDates|
      invariant 1 <= i && 1 <= maxStreak
      invariant |sortedDates| == 0 ==> maxStreak == 1
      invariant |sortedDates| > 0 ==>
        i <= |sortedDates| && Scanned(sortedDates[..i], Day(sortedDates[i - 1]), currentStreak, maxStreak, bestStart)
    {
      var prevDate := sortedDates[i - 1];
      var currDate := sortedDates[i];
      var diffTime := Abs(currDate - prevDate);
      var diffDays := CeilDiv(diffTime, MsPerDay);
      ghost var current, longest, best := currentStreak, maxStreak, bestStart;
      if diffDays == 1 {
        currentStreak := currentStreak + 1;
        if currentStreak > maxStreak {
          bestStart := Day(currDate) - currentStreak + 1;
        }
        maxStreak := Max(maxStreak, currentStreak);
      } else if diffDays > 1 {
        currentStreak := 1;
      }
      Advance(sortedDates, i, current, longest, best, diffDays, currentStreak, maxStreak, bestStart);
      i := i + 1;
    }
    if |sortedDates| > 0 {
      assert sortedDates[..i] == sortedDates;
      ScanComplete(sortedDates, Day(sortedDates[i - 1]), currentStreak, maxStreak, bestStart);
    }
  }

  /**
   * Lines 96-119 of src/App.tsx, from the timestamps of the commit dates:
   * sort them numerically and scan them.  The result is 1 when there are no
   * commits, and otherwise the length of the longest run of consecutive
   * commit days.
   */
  method LongestStreak(times: seq<int>) returns (maxStreak: nat)
    requires AllMidnights(times)
    ensures 1 <= maxStreak
    ensures |times| == 0 ==> maxStreak == 1
    ensures |times| > 0 ==> maxStreak <= |times| && IsLongestRun(times, maxStreak)
  {
    var sortedDates := SortBy(times, Identity);
    SortedMidnights(times);
    maxStreak := ScanSorted(sortedDates);
    if |times| > 0 {
      LongestRunOfPermutation(sortedDates, times, maxStreak);
    }
  }
}
