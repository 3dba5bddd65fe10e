/**
 * The state of the `App` component in src/App.tsx and its `fetchUserData`
 * handler: a username is checked, the profile and the repositories are
 * fetched, and the analytics (language counts, day histogram, most active
 * day, longest streak) are computed and stored.
 */
module Session {
  import opened Wrappers
  import opened Counters
  import opened Calendar
  import opened GitHubData
  import Languages
  import Activity
  import MostActive
  import Streak

  /**
   * JavaScript's `WhiteSpace` and `LineTerminator` code points, the ones
   * `String.prototype.trim` removes.
   */
  predicate IsJsWhitespace(c: char)
  {
    c == '\t' || c == '\U{000B}' || c == '\U{000C}' || c == ' ' || c == '\U{00A0}' || c == '\U{FEFF}'
    || c == '\n' || c == '\r' || c == '\U{2028}' || c == '\U{2029}'
    || c == '\U{1680}' || ('\U{2000}' <= c <= '\U{200A}') || c == '\U{202F}' || c == '\U{205F}' || c == '\U{3000}'
  }

  predicate AllWhitespace(s: string)
  {
    forall k :: 0 <= k < |s| ==> IsJsWhitespace(s[k])
  }

  /** The number of leading whitespace characters of `s`. */
  function LeadingWhitespace(s: string): (n: nat)
    ensures n <= |s|
  {
    if s == [] || !IsJsWhitespace(s[0]) then 0 else 1 + LeadingWhitespace(s[1..])
  }

  /** The length of `s` without its trailing whitespace. */
  function WithoutTrailingWhitespace(s: string): (n: nat)
    ensures n <= |s|
  {
    if s == [] || !IsJsWhitespace(s[|s| - 1]) then |s| else WithoutTrailingWhitespace(s[..|s| - 1])
  }

  /** `String.prototype.trim`. */
  function Trim(s: string): string
  {
    var rest := s[LeadingWhitespace(s)..];
    rest[..WithoutTrailingWhitespace(rest)]
  }

  /** The leading run is all whitespace, and the character after it is not. */
  lemma {:induction false} LeadingWhitespaceRun(s: string)
    ensures AllWhitespace(s[..LeadingWhitespace(s)])
    ensures LeadingWhitespace(s) < |s| ==> !IsJsWhitespace(s[LeadingWhitespace(s)])
  {
    if s != [] && IsJsWhitespace(s[0]) {
      LeadingWhitespaceRun(s[1..]);
      assert s[..LeadingWhitespace(s)] == [s[0]] + s[1..][..LeadingWhitespace(s[1..])];
    }
  }

  /** The trailing run is all whitespace, and the character before it is not. */
  lemma {:induction false} TrailingWhitespaceRun(s: string)
    ensures AllWhitespace(s[WithoutTrailingWhitespace(s)..])
    ensures WithoutTrailingWhitespace(s) > 0 ==> !IsJsWhitespace(s[WithoutTrailingWhitespace(s) - 1])
  {
    if s != [] && IsJsWhitespace(s[|s| - 1]) {
      var prefix := s[..|s| - 1];
      TrailingWhitespaceRun(prefix);
      assert s[WithoutTrailingWhitespace(s)..] == prefix[WithoutTrailingWhitespace(prefix)..] + [s[|s| - 1]];
    }
  }

  /** The trimmed string neither starts nor ends with whitespace. */
  lemma TrimmedEndsAreNotWhitespace(s: string)
    ensures Trim(s) != [] ==> !IsJsWhitespace(Trim(s)[0]) && !IsJsWhitespace(Trim(s)[|Trim(s)| - 1])
  {
    var rest := s[LeadingWhitespace(s)..];
    LeadingWhitespaceRun(s);
    TrailingWhitespaceRun(rest);
    if Trim(s) != [] {
      assert Trim(s)[0] == rest[0];
      assert Trim(s)[|Trim(s)| - 1] == rest[WithoutTrailingWhitespace(rest) - 1];
    }
  }

  /** `Trim(s)` is the slice of `s` between its leading and its trailing whitespace. */
  lemma TrimIsSlice(s: string)
    ensures Trim(s) == s[LeadingWhitespace(s)..LeadingWhitespace(s) + WithoutTrailingWhitespace(s[LeadingWhitespace(s)..])]
  {
  }

  lemma SplitAround(s: string, i: nat, j: nat)
    requires i <= j <= |s|
    ensures s == s[..i] + s[i..j] + s[j..]
  {
  }

  /**
   * `trim` removes exactly the whitespace at both ends: `s` is the trimmed
   * string between a run of whitespace and another.
   */
  lemma TrimRemovesOuterWhitespace(s: string)
    ensures LeadingWhitespace(s) + |Trim(s)| <= |s|
    ensures s == s[..LeadingWhitespace(s)] + Trim(s) + s[LeadingWhitespace(s) + |Trim(s)|..]
    ensures AllWhitespace(s[..LeadingWhitespace(s)]) && AllWhitespace(s[LeadingWhitespace(s) + |Trim(s)|..])
  {
    var i := LeadingWhitespace(s);
    var rest := s[i..];
    var n := WithoutTrailingWhitespace(rest);
    TrimIsSlice(s);
    SplitAround(s, i, i + n);
    LeadingWhitespaceRun(s);
    TrailingWhitespaceRun(rest);
    assert s[i + n..] == rest[n..];
  }

  /** Lines 28-31: `!username.trim()` holds exactly when the name is empty or all whitespace. */
  lemma BlankMeansOnlyWhitespace(s: string)
    ensures Trim(s) == [] <==> AllWhitespace(s)
  {
    var i := LeadingWhitespace(s);
    var rest := s[i..];
    LeadingWhitespaceRun(s);
    TrailingWhitespaceRun(rest);
    if i < |s| {
      assert rest[0] == s[i];
      assert !IsJsWhitespace(rest[0]);
      assert WithoutTrailingWhitespace(rest) > 0;
    } else {
      assert s[..i] == s;
    }
  }

  /** Every key is a `YYYY-MM-DD` date. */
  predicate FullDates(keys: seq<string>)
  {
    forall i :: 0 <= i < |keys| ==> IsFullDate(keys[i])
  }

  /** A full date is never the empty string, so it is truthy. */
  lemma FullDateIsTruthy(key: string)
    requires IsFullDate(key)
    ensures key != ""
  {
    assert |FormatDate(ParseFullDate(key).value)| == 10;
  }

  /** The keys of a histogram of full dates are full dates. */
  lemma HistogramKeysAreDates(dates: seq<string>, i: nat)
    requires FullDates(dates) && i < |Tally(dates)|
    ensures IsFullDate(Tally(dates)[i].key)
  {
    TallyCounts(dates);
    var key := Tally(dates)[i].key;
    assert key == Keys(Tally(dates))[i];
    assert key in dates;
  }

  /** The toast shown for a blank username (line 29). */
  const EnterUsername: string := "Please enter a GitHub username"

  /** The toast shown when the profile or the repositories cannot be fetched (line 123). */
  const FetchFailed: string := "Error fetching user data. Please check the username and try again."

  /**
   * `mostActiveDay`: the date key of the day and its count.  The label
   * `format(new Date(maxDay), 'EEEE, MMM d')` is left out.
   */
  datatype ActiveDay = ActiveDay(day: string, count: nat)

  /**
   * Lines 89-94: `if (maxDay)` reports the day the scan settled on, unless
   * there is none or its key is the empty string.
   */
  function Reported(scan: MostActive.Scan): Option<ActiveDay>
  {
    if scan.maxDay.Some? && scan.maxDay.value != "" then Some(ActiveDay(scan.maxDay.value, scan.maxCount)) else None
  }

  /** `day` is the first entry of `commitsByDay` holding its largest count. */
  ghost predicate IsMostActiveDay(commitsByDay: seq<Entry>, day: ActiveDay)
  {
    exists i :: MostActive.IsFirstMaximum(commitsByDay, i) && day == ActiveDay(commitsByDay[i].key, commitsByDay[i].count)
  }

  /**
   * For the histogram of the commit dates, a most active day is reported
   * exactly when a commit date was collected, and it is the first day
   * holding the largest count.
   */
  lemma MostActiveDayIsReported(dates: seq<string>)
    requires FullDates(dates)
    ensures Reported(MostActive.ScanCounts(Tally(dates), |Tally(dates)|)).None? <==> dates == []
    ensures Reported(MostActive.ScanCounts(Tally(dates), |Tally(dates)|)).Some? ==>
      IsMostActiveDay(Tally(dates), Reported(MostActive.ScanCounts(Tally(dates), |Tally(dates)|)).value)
  {
    var commitsByDay := Tally(dates);
    TallyCounts(dates);
    var scan := MostActive.ScanCounts(commitsByDay, |commitsByDay|);
    MostActive.ScanFindsFirstMaximum(commitsByDay);
    MostActive.MostActiveDayExistsUnlessEmpty(commitsByDay);
    if scan.maxDay.Some? {
      var i :| MostActive.IsFirstMaximum(commitsByDay, i)
        && commitsByDay[i].key == scan.maxDay.value && commitsByDay[i].count == scan.maxCount;
      HistogramKeysAreDates(dates, i);
      FullDateIsTruthy(scan.maxDay.value);
      assert IsMostActiveDay(commitsByDay, ActiveDay(commitsByDay[i].key, commitsByDay[i].count));
    } else {
      assert Total(commitsByDay) == |dates|;
      assert Total(commitsByDay) == 0;
    }
  }

  /**
   * The analytics of lines 45-119 for `repositories`: the language counts,
   * the day histogram of the commit dates collected and the longest streak.
   */
  ghost predicate Analysed(repositories: seq<Repository>, fetch: CommitFetch, langData: seq<Entry>, commitsByDay: seq<Entry>, maxStreak: nat)
    requires FullDates(Activity.CommitDates(repositories, fetch))
  {
    var dates := Activity.CommitDates(repositories, fetch);
    && langData == Languages.LanguageCounts(repositories)
    && commitsByDay == Tally(dates)
    && (dates == [] ==> maxStreak == 1)
    && (dates != [] ==> maxStreak <= |dates| && Streak.IsLongestRun(Streak.Times(dates), maxStreak))
  }

  /**
   * Lines 45-119 once both requests have succeeded: count the languages,
   * collect the commit dates of the first five repositories, find the most
   * active day and the longest streak.  `activeDay` is what `if (maxDay)`
   * lets through.
   */
  method ComputeInsights(repositories: seq<Repository>, fetch: CommitFetch)
    returns (langData: seq<Entry>, commitsByDay: seq<Entry>, activeDay: Option<ActiveDay>, maxStreak: nat)
    requires FullDates(Activity.CommitDates(repositories, fetch))
    ensures Analysed(repositories, fetch, langData, commitsByDay, maxStreak)
    ensures activeDay == Reported(MostActive.ScanCounts(commitsByDay, |commitsByDay|))
  {
    langData := Languages.CountLanguages(repositories);
    var commitDates;
    commitsByDay, commitDates := Activity.CollectCommits(repositories, fetch);
    var maxDay, maxCount := MostActive.FindMostActiveDay(commitsByDay);
    if maxDay.Some? && maxDay.value != "" {
      activeDay := Some(ActiveDay(maxDay.value, maxCount));
    } else {
      activeDay := None;
    }
    Streak.TimesAreMidnights(commitDates);
    maxStreak := Streak.LongestStreak(Streak.Times(commitDates));
  }

  /** The state hooks of `App` (lines 16-24) that `fetchUserData` sets. */
  class Dashboard {
    var username: string
    var isLoading: bool
    var repos: seq<Repository>
    var commitData: seq<Entry>
    var languages: seq<Entry>
    var mostActiveDay: Option<ActiveDay>
    var commitStreak: nat
    var userProfile: Option<Profile>

    /** Lines 16-24: the initial state. */
    constructor()
      ensures username == "" && !isLoading && repos == [] && commitData == [] && languages == []
      ensures mostActiveDay.None? && commitStreak == 0 && userProfile.None?
    {
      username, isLoading, repos, commitData, languages := "", false, [], [], [];
      mostActiveDay, commitStreak, userProfile := None, 0, None;
    }

    /**
     * What the state holds once `fetchUserData` has analysed `repositories`
     * (lines 42-119): the repositories, their language counts and day
     * histogram, the day the scan reports (the `previous` one when it reports
     * none) and the longest streak.
     */
    ghost predicate ShowsAnalysis(repositories: seq<Repository>, fetch: CommitFetch, previous: Option<ActiveDay>)
      requires FullDates(Activity.CommitDates(repositories, fetch))
      reads this`repos, this`languages, this`commitData, this`mostActiveDay, this`commitStreak
    {
      var found := Reported(MostActive.ScanCounts(commitData, |commitData|));
      && repos == repositories
      && Analysed(repositories, fetch, languages, commitData, commitStreak)
      && mostActiveDay == if found.Some? then found else previous
    }

    /** Lines 42-119 once both requests have succeeded: store the repositories and their analytics. */
    method ShowInsights(repositories: seq<Repository>, fetch: CommitFetch)
      requires FullDates(Activity.CommitDates(repositories, fetch))
      modifies this`repos, this`languages, this`commitData, this`mostActiveDay, this`commitStreak
      ensures ShowsAnalysis(repositories, fetch, old(mostActiveDay))
    {
      var langData, commitsByDay, activeDay, maxStreak := ComputeInsights(repositories, fetch);
      repos, languages, commitData, commitStreak := repositories, langData, commitsByDay, maxStreak;
      if activeDay.Some? {
        mostActiveDay := activeDay;
      }
      assert Analysed(repositories, fetch, languages, commitData, commitStreak);
    }

    /**
     * Lines 27-127.  `profile` and `repositories` are the outcomes of
     * `getUserProfile` and `getUserRepos` (`None` when the request throws),
     * `fetch` is `getCommits` for this user, and `notice` is the error toast
     * shown, if any.  A blank name changes nothing.  Otherwise the name is
     * stored; a failed profile request stops there, a failed repository
     * request stops after storing the profile, and on success every
     * analytic is recomputed, except that `mostActiveDay` keeps its previous
     * value when no commit was collected.  Loading is over when it returns.
     */
    method FetchUserData(name: string, profile: Option<Profile>, repositories: Option<seq<Repository>>, fetch: CommitFetch)
      returns (notice: Option<string>)
      requires profile.Some? && repositories.Some? ==> FullDates(Activity.CommitDates(repositories.value, fetch))
      modifies this
      ensures Trim(name) == [] ==> notice == Some(EnterUsername) && unchanged(this)
      ensures Trim(name) != [] ==> username == name && !isLoading
      ensures Trim(name) != [] && profile.None? ==>
        notice == Some(FetchFailed) && userProfile == old(userProfile) && repos == old(repos)
        && languages == old(languages) && commitData == old(commitData)
        && mostActiveDay == old(mostActiveDay) && commitStreak == old(commitStreak)
      ensures Trim(name) != [] && profile.Some? && repositories.None? ==>
        notice == Some(FetchFailed) && userProfile == profile && repos == old(repos)
        && languages == old(languages) && commitData == old(commitData)
        && mostActiveDay == old(mostActiveDay) && commitStreak == old(commitStreak)
      ensures Trim(name) != [] && profile.Some? && repositories.Some? ==>
        notice.None? && userProfile == profile && ShowsAnalysis(repositories.value, fetch, old(mostActiveDay))
    {
      if Trim(name) == [] {
        notice := Some(EnterUsername);
      } else {
        isLoading := true;
        username := name;
        if profile.None? {
          notice := Some(FetchFailed);
        } else {
          userProfile := profile;
          if repositories.None? {
            notice := Some(FetchFailed);
          } else {
            ShowInsights(repositories.value, fetch);
            notice := None;
          }
        }
        isLoading := false;
      }
    }
  }
}
