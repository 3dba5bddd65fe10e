/**
 * The shapes the GitHub REST API returns, reduced to the fields the analytics
 * read.  The HTTP calls themselves are outside the model: a fetch is an
 * `Option`, with `None` standing for a request that threw.
 */
module GitHubData {
  import opened Wrappers

  /** `GET /users/{username}`. */
  datatype Profile = Profile(
    login: string,
    name: Option<string>,
    bio: Option<string>,
    avatarUrl: string,
    publicRepos: nat,
    followers: nat)

  /** One element of `GET /users/{username}/repos`; `language` is `null` when GitHub detected none. */
  datatype Repository = Repository(name: string, language: Option<string>)

  /**
   * One element of `GET /repos/{owner}/{repo}/commits`.  `authorDate` is
   * `commit.commit.author.date`; `None` stands for a record on which reading
   * that path, or calling `split` on it, throws.
   */
  datatype Commit = Commit(authorDate: Option<string>)

  /**
   * `getCommits(username, repoName)` for the user being analysed: the commits
   * of the last 30 days, or `None` when the request throws.
   */
  type CommitFetch = string -> Option<seq<Commit>>
}
