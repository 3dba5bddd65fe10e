/**
 * The daily commit histogram `commitsByDay` and the flat list `commitDates`
 * of `fetchUserData` (src/App.tsx).
 */
module Activity {
  import opened Wrappers
  import opened Counters
  import opened Calendar
  import opened GitHubData

  /** `repositories.slice(0, 5)`: only these repositories have their commits fetched. */
  const ReposToProcess: nat := 5

  function FirstRepos(repos: seq<Repository>): seq<Repository>
  {
    repos[..Min(ReposToProcess, |repos|)]
  }

  /**
   * The date keys one repository contributes: its commits are visited in
   * order and the first malformed one throws out of the `forEach`, so the
   * keys are those of the longest prefix of well-formed commits.
   */
  function RepoDates(commits: seq<Commit>): seq<string>
  {
    if commits == [] then []
    else match commits[0].authorDate
      case None => []
      case Some(timestamp) => [DateKey(timestamp)] + RepoDates(commits[1..])
  }

  /**
   * A repository contributes the date key of each commit before its first
   * malformed one, in order, and nothing from that commit on.
   */
  lemma {:induction false} RepoDatesStopAtFirstMalformed(commits: seq<Commit>)
    ensures |RepoDates(commits)| <= |commits|
    ensures forall i :: 0 <= i < |RepoDates(commits)| ==>
      commits[i].authorDate.Some? && RepoDates(commits)[i] == DateKey(commits[i].authorDate.value)
    ensures |RepoDates(commits)| < |commits| ==> commits[|RepoDates(commits)|].authorDate.None?
  {
    if commits != [] && commits[0].authorDate.Some? {
      RepoDatesStopAtFirstMalformed(commits[1..]);
    }
  }

  /** A failed commit fetch is caught and logged, and the repository contributes nothing. */
  function FetchedDates(fetched: Option<seq<Commit>>): seq<string>
  {
    match fetched
    case None => []
    case Some(commits) => RepoDates(commits)
  }

  /** The keys of all the given repositories, one repository after another. */
  function DatesOf(repos: seq<Repository>, fetch: CommitFetch): seq<string>
  {
    if repos == [] then [] else FetchedDates(fetch(repos[0].name)) + DatesOf(repos[1..], fetch)
  }

  /** `commitDates` once every processed repository has been visited. */
  function CommitDates(repos: seq<Repository>, fetch: CommitFetch): seq<string>
  {
    DatesOf(FirstRepos(repos), fetch)
  }

  /** `commitsByDay` once every processed repository has been visited. */
  function Histogram(repos: seq<Repository>, fetch: CommitFetch): seq<Entry>
  {
    Tally(CommitDates(repos, fetch))
  }

  lemma {:induction false} DatesOfAppend(a: seq<Repository>, b: seq<Repository>, fetch: CommitFetch)
    ensures DatesOf(a + b, fetch) == DatesOf(a, fetch) + DatesOf(b, fetch)
  {
    if a == [] {
      assert a + b == b;
    } else {
      assert (a + b)[1..] == a[1..] + b;
      DatesOfAppend(a[1..], b, fetch);
    }
  }

  /**
   * A repository whose commit fetch fails contributes no date, and the
   * repositories after it are still processed.
   */
  lemma FailedFetchContributesNothing(repos: seq<Repository>, fetch: CommitFetch, i: nat)
    requires i < |repos| && fetch(repos[i].name).None?
    ensures DatesOf(repos, fetch) == DatesOf(repos[..i], fetch) + DatesOf(repos[i + 1..], fetch)
  {
    var before, rest, after := repos[..i], repos[i..], repos[i + 1..];
    assert DatesOf(rest, fetch) == DatesOf(after, fetch) by {
      DatesOfCons(rest, fetch);
      assert rest[0] == repos[i] && rest[1..] == after;
      assert FetchedDates(fetch(rest[0].name)) == [];
    }
    assert DatesOf(repos, fetch) == DatesOf(before, fetch) + DatesOf(rest, fetch) by {
      assert repos == before + rest;
      DatesOfAppend(before, rest, fetch);
    }
  }

  lemma DatesOfCons(repos: seq<Repository>, fetch: CommitFetch)
    requires repos != []
    ensures DatesOf(repos, fetch) == FetchedDates(fetch(repos[0].name)) + DatesOf(repos[1..], fetch)
  {
  }

  /**
   * Only the first five repositories can reach `commitDates` and
   * `commitsByDay`: whatever the others are, and whatever their commit fetches
   * would return, the result is the same.
   */
  lemma OnlyFirstFiveRepositoriesCount(repos: seq<Repository>, others: seq<Repository>, fetch: CommitFetch, fetch': CommitFetch)
    requires FirstRepos(repos) == FirstRepos(others)
    requires forall r :: r in FirstRepos(repos) ==> fetch(r.name) == fetch'(r.name)
    ensures CommitDates(repos, fetch) == CommitDates(others, fetch')
    ensures Histogram(repos, fetch) == Histogram(others, fetch')
  {
    SameFetchesSameDates(FirstRepos(repos), fetch, fetch');
  }

  lemma {:induction false} SameFetchesSameDates(repos: seq<Repository>, fetch: CommitFetch, fetch': CommitFetch)
    requires forall r :: r in repos ==> fetch(r.name) == fetch'(r.name)
    ensures DatesOf(repos, fetch) == DatesOf(repos, fetch')
  {
    if repos != [] {
      SameFetchesSameDates(repos[1..], fetch, fetch');
    }
  }

  /**
   * The histogram counts each date key as often as it occurs in the date
   * list, so its counts add up to the length of that list; its keys are
   * enumerated in the order the dates were first seen.
   */
  lemma HistogramMatchesDates(repos: seq<Repository>, fetch: CommitFetch)
    ensures forall d :: Get(Histogram(repos, fetch), d) == multiset(CommitDates(repos, fetch))[d]
    ensures Total(Histogram(repos, fetch)) == |CommitDates(repos, fetch)|
    ensures Keys(Histogram(repos, fetch)) == FirstOccurrences(CommitDates(repos, fetch))
  {
    TallyCounts(CommitDates(repos, fetch));
  }

  /** Visiting one more repository appends its dates and counts them. */
  lemma DatesOfSnoc(repos: seq<Repository>, i: nat, fetch: CommitFetch)
    requires i < |repos|
    ensures DatesOf(repos[..i + 1], fetch) == DatesOf(repos[..i], fetch) + FetchedDates(fetch(repos[i].name))
  {
    assert repos[..i + 1] == repos[..i] + [repos[i]];
    DatesOfAppend(repos[..i], [repos[i]], fetch);
    assert [repos[i]][1..] == [];
  }

  /** Visiting well-formed commit `c` moves its key from the dates still to come to the dates collected. */
  lemma VisitStep(collected: seq<string>, commits: seq<Commit>, c: nat, timestamp: string)
    requires c < |commits| && commits[c].authorDate == Some(timestamp)
    ensures (collected + [DateKey(timestamp)]) + RepoDates(commits[c + 1..]) == collected + RepoDates(commits[c..])
  {
    assert commits[c..][0] == commits[c] && commits[c..][1..] == commits[c + 1..];
  }

  /** A malformed commit `c` ends the visit: no dates are still to come. */
  lemma VisitStop(commits: seq<Commit>, c: nat)
    requires c <= |commits|
    requires c < |commits| ==> commits[c].authorDate.None?
    ensures RepoDates(commits[c..]) == []
  {
    if c < |commits| {
      assert commits[c..][0] == commits[c];
    }
  }

  /**
   * Lines 67-71 of src/App.tsx, the `forEach` over one repository's commits:
   * each well-formed commit increments `commitsByDay[date]` and pushes `date`
   * onto `commitDates`; the first malformed one throws and ends the visit.
   */
  method VisitCommits(commits: seq<Commit>, commitsByDay: seq<Entry>, commitDates: seq<string>)
    returns (commitsByDay': seq<Entry>, commitDates': seq<string>)
    requires commitsByDay == Tally(commitDates)
    ensures commitDates' == commitDates + RepoDates(commits)
    ensures commitsByDay' == Tally(commitDates')
  {
    commitsByDay', commitDates' := commitsByDay, commitDates;
    var c := 0;
    while c < |commits|
      invariant 0 <= c <= |commits|
      invariant commitDates' + RepoDates(commits[c..]) == commitDates + RepoDates(commits)
      invariant commitsByDay' == Tally(commitDates')
    {
      match commits[c].authorDate {
        case None =>
          VisitStop(commits, c);
          assert commitDates' + [] == commitDates';
          break;
        case Some(timestamp) =>
          var date := DateKey(timestamp);
          VisitStep(commitDates', commits, c, timestamp);
          TallySnoc(commitDates', date);
          commitsByDay' := Increment(commitsByDay', date);
          commitDates' := commitDates' + [date];
      }
      c := c + 1;
    }
    if c == |commits| {
      VisitStop(commits, c);
      assert commitDates' + [] == commitDates';
    }
  }

  /**
   * Lines 56-75 of src/App.tsx: for each of the first five repositories,
   * fetch its commits and visit them.  A failed fetch is caught and logged,
   * and processing moves on to the next repository.
   */
  method CollectCommits(repos: seq<Repository>, fetch: CommitFetch) returns (commitsByDay: seq<Entry>, commitDates: seq<string>)
    ensures commitDates == CommitDates(repos, fetch)
    ensures commitsByDay == Tally(commitDates)
  {
    commitsByDay, commitDates := [], [];
    var reposToProcess := repos[..Min(ReposToProcess, |repos|)];
    for r := 0 to |reposToProcess|
      invariant commitDates == DatesOf(reposToProcess[..r], fetch)
      invariant commitsByDay == Tally(commitDates)
    {
      var repo := reposToProcess[r];
      DatesOfSnoc(reposToProcess, r, fetch);
      match fetch(repo.name) {
        case None =>
          assert commitDates + [] == commitDates;
        case Some(commits) =>
          commitsByDay, commitDates := VisitCommits(commits, commitsByDay, commitDates);
      }
    }
    assert reposToProcess[..|reposToProcess|] == reposToProcess;
  }
}
