/** The language counts `langData` of `fetchUserData` (src/App.tsx). */
module Languages {
  import opened Wrappers
  import opened Counters
  import opened GitHubData

  /** `if (repo.language)`: `null` and the empty string are both falsy. */
  predicate HasLanguage(repo: Repository)
  {
    repo.language.Some? && repo.language.value != ""
  }

  /** The languages of the repositories that have one, in repository order. */
  function RepoLanguages(repos: seq<Repository>): seq<string>
  {
    if repos == [] then []
    else
      var last := repos[|repos| - 1];
      RepoLanguages(repos[..|repos| - 1]) + (if HasLanguage(last) then [last.language.value] else [])
  }

  lemma RepoLanguagesSnoc(repos: seq<Repository>, repo: Repository)
    ensures RepoLanguages(repos + [repo]) == RepoLanguages(repos) + (if HasLanguage(repo) then [repo.language.value] else [])
  {
    assert (repos + [repo])[..|repos|] == repos;
  }

  /** The object `langData` holds once every repository has been visited. */
  function LanguageCounts(repos: seq<Repository>): seq<Entry>
  {
    Tally(RepoLanguages(repos))
  }

  /** The number of repositories whose language is `lang`. */
  function ReposUsing(repos: seq<Repository>, lang: string): nat
  {
    if repos == [] then 0
    else (if repos[0].language == Some(lang) then 1 else 0) + ReposUsing(repos[1..], lang)
  }

  lemma {:induction false} ReposUsingAppend(a: seq<Repository>, b: seq<Repository>, lang: string)
    ensures ReposUsing(a + b, lang) == ReposUsing(a, lang) + ReposUsing(b, lang)
  {
    if a == [] {
      assert a + b == b;
    } else {
      assert (a + b)[1..] == a[1..] + b;
      ReposUsingAppend(a[1..], b, lang);
    }
  }

  /** Each language is counted once per repository written in it; a missing or empty language is never counted. */
  lemma {:induction false} LanguageCountIsRepoCount(repos: seq<Repository>, lang: string)
    ensures Get(LanguageCounts(repos), lang) == if lang == "" then 0 else ReposUsing(repos, lang)
  {
    if repos != [] {
      var n := |repos| - 1;
      var prefix, last := repos[..n], repos[n];
      assert repos == prefix + [last];
      assert repos[..n + 1] == repos;
      CountStep(repos, n);
      LanguageCountIsRepoCount(prefix, lang);
      ReposUsingAppend(prefix, [last], lang);
      assert [last][1..] == [];
    }
  }

  /** The languages counted are exactly the non-empty languages of the repositories (TallyCounts gives their first-seen order). */
  lemma LanguageKeys(repos: seq<Repository>, lang: string)
    ensures lang in Keys(LanguageCounts(repos)) <==> exists i :: 0 <= i < |repos| && HasLanguage(repos[i]) && repos[i].language.value == lang
  {
    TallyCounts(RepoLanguages(repos));
    LanguageCountIsRepoCount(repos, lang);
    ReposUsingPositive(repos, lang);
  }

  lemma {:induction false} ReposUsingPositive(repos: seq<Repository>, lang: string)
    ensures ReposUsing(repos, lang) > 0 <==> exists i :: 0 <= i < |repos| && repos[i].language == Some(lang)
  {
    if repos != [] {
      ReposUsingPositive(repos[1..], lang);
      assert forall i :: 0 < i < |repos| ==> repos[i] == repos[1..][i - 1];
    }
  }

  /** Visiting repository `i` increments its language, if it has one, and changes nothing else. */
  lemma CountStep(repos: seq<Repository>, i: nat)
    requires i < |repos|
    ensures LanguageCounts(repos[..i + 1]) ==
      if HasLanguage(repos[i]) then Increment(LanguageCounts(repos[..i]), repos[i].language.value)
      else LanguageCounts(repos[..i])
  {
    assert repos[..i + 1] == repos[..i] + [repos[i]];
    RepoLanguagesSnoc(repos[..i], repos[i]);
    if HasLanguage(repos[i]) {
      TallySnoc(RepoLanguages(repos[..i]), repos[i].language.value);
    } else {
      assert RepoLanguages(repos[..i + 1]) == RepoLanguages(repos[..i]);
    }
  }

  /**
   * Lines 46-51 of src/App.tsx: a `forEach` over all repositories that
   * increments `langData[repo.language]` when the language is truthy.
   */
  method CountLanguages(repos: seq<Repository>) returns (langData: seq<Entry>)
    ensures langData == LanguageCounts(repos)
  {
    langData := [];
    for i := 0 to |repos|
      invariant langData == LanguageCounts(repos[..i])
    {
      var repo := repos[i];
      CountStep(repos, i);
      if repo.language.Some? && repo.language.value != "" {
        langData := Increment(langData, repo.language.value);
      }
    }
    assert repos[..|repos|] == repos;
  }
}
