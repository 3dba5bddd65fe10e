/**
 * The bar chart of src/components/CommitChart.tsx: one bar per entry of the
 * day histogram, ordered by the time value of its date.
 */
module Chart {
  import opened Counters
  import opened Calendar
  import opened Sorting
  import opened Streak
  import opened GitHubData
  import Activity

  /** One bar: `{ date, count }`. */
  datatype Point = Point(date: string, count: nat)

  /** Lines 11-13: `Object.entries(commitData).map(([date, count]) => ({ date, count }))`. */
  function Points(commitData: seq<Entry>): (points: seq<Point>)
    ensures |points| == |commitData|
    ensures forall i :: 0 <= i < |commitData| ==> points[i] == Point(commitData[i].key, commitData[i].count)
  {
    seq(|commitData|, i requires 0 <= i < |commitData| => Point(commitData[i].key, commitData[i].count))
  }

  /** Every key of the histogram is a `YYYY-MM-DD` date. */
  predicate DateKeys(commitData: seq<Entry>)
  {
    forall i :: 0 <= i < |commitData| ==> IsFullDate(commitData[i].key)
  }

  /**
   * The key of the comparator `new Date(a.date).getTime() - new Date(b.date).getTime()`
   * (line 14).  Only full-date keys are charted; the other branch is never taken.
   */
  function PointTime(p: Point): int
  {
    if IsFullDate(p.date) then TimeOf(p.date) else 0
  }

  /** Lines 11-14: the bars, sorted by time value with a stable sort. */
  function ChartData(commitData: seq<Entry>): (chart: seq<Point>)
    requires DateKeys(commitData)
    ensures |chart| == |commitData|
    ensures forall i :: 0 <= i < |chart| ==> IsFullDate(chart[i].date)
  {
    SortedBarsHaveDates(commitData);
    SortBy(Points(commitData), PointTime)
  }

  /**
   * Line 41: the chart is drawn when it has a bar, and lines 64-67 show the
   * "No commit data" placeholder otherwise.
   */
  predicate ShowsChart(commitData: seq<Entry>)
    requires DateKeys(commitData)
  {
    |ChartData(commitData)| > 0
  }

  /** The bars are exactly the histogram's entries, each once. */
  lemma ChartHasEveryDay(commitData: seq<Entry>, date: string, count: nat)
    requires DateKeys(commitData)
    ensures multiset(ChartData(commitData))[Point(date, count)] == multiset(commitData)[Entry(date, count)]
  {
    PointsCountEntries(commitData, date, count);
  }

  lemma {:induction false} PointsCountEntries(commitData: seq<Entry>, date: string, count: nat)
    ensures multiset(Points(commitData))[Point(date, count)] == multiset(commitData)[Entry(date, count)]
  {
    if commitData != [] {
      var prefix, last := commitData[..|commitData| - 1], commitData[|commitData| - 1];
      assert commitData == prefix + [last];
      assert Points(commitData) == Points(prefix) + [Point(last.key, last.count)];
      PointsCountEntries(prefix, date, count);
    }
  }

  /** Every bar carries a full-date key. */
  lemma SortedBarsHaveDates(commitData: seq<Entry>)
    requires DateKeys(commitData)
    ensures forall i :: 0 <= i < |commitData| ==> IsFullDate(SortBy(Points(commitData), PointTime)[i].date)
  {
    var points := Points(commitData);
    var bars := SortBy(points, PointTime);
    forall i | 0 <= i < |commitData|
      ensures IsFullDate(bars[i].date)
    {
      assert bars[i] in multiset(points);
      var j :| 0 <= j < |points| && points[j] == bars[i];
    }
  }

  /** Midnights are ordered as their days. */
  lemma MidnightOrder(a: int, b: int)
    requires Midnight(a) <= Midnight(b)
    ensures a <= b
  {
  }

  /**
   * The bars run from the earliest day to the latest: a later bar is never
   * on an earlier day, and its date never sorts before an earlier bar's as
   * a string.
   */
  lemma ChartDataIsChronological(commitData: seq<Entry>, i: nat, j: nat)
    requires DateKeys(commitData) && i < j < |ChartData(commitData)|
    ensures DayOf(ChartData(commitData)[i].date) <= DayOf(ChartData(commitData)[j].date)
    ensures !LexLess(ChartData(commitData)[j].date, ChartData(commitData)[i].date)
  {
    var chart := ChartData(commitData);
    assert PointTime(chart[i]) <= PointTime(chart[j]);
    MidnightOrder(DayOf(chart[i].date), DayOf(chart[j].date));
    FullDateOrderIsDayOrder(chart[j].date, chart[i].date);
  }

  /**
   * For the histogram built by `fetchUserData`, the chart is drawn exactly
   * when at least one commit date was collected.
   */
  lemma ChartShownIffCommits(repos: seq<Repository>, fetch: CommitFetch)
    requires DateKeys(Activity.Histogram(repos, fetch))
    ensures ShowsChart(Activity.Histogram(repos, fetch)) <==> |Activity.CommitDates(repos, fetch)| > 0
  {
    var dates := Activity.CommitDates(repos, fetch);
    Activity.HistogramMatchesDates(repos, fetch);
    var histogram := Tally(dates);
    assert Total(histogram) == |dates|;
    if histogram == [] {
      assert Total(histogram) == 0;
    }
  }
}
