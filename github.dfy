/** The repository-record part of the GitHub client (src/services/githubApi.ts):
    `transformRepositories` turns the REST API's repository objects into
    `Repository` records and `processRepos` turns those into the dashboard's
    `ProcessedRepo` records. */
module GitHubClient {
  import opened Types
  import opened RepoNormalise
  import Clock
  import Text

  /** The fields of a GitHub REST repository object the client reads. */
  datatype GitHubRepo = GitHubRepo(
    id: nat,
    name: string,
    fullName: string,
    description: Option<string>,
    language: Option<string>,
    stargazersCount: nat,
    forksCount: nat,
    openIssuesCount: nat,
    updatedAt: int,
    createdAt: int,
    topics: Option<seq<string>>,
    archived: bool,
    isPrivate: bool,
    defaultBranch: string,
    htmlUrl: string)

  /** One element of `transformRepositories`: the numeric id becomes its
      decimal string, absent topics become the empty list, and the counts,
      dates and flags are copied under their new names. */
  function TransformRepository(raw: GitHubRepo): (r: Repository)
    ensures r.id == Text.Decimal(raw.id)
    ensures r.id != [] && forall i :: 0 <= i < |r.id| ==> '0' <= r.id[i] <= '9'
    ensures r.name == raw.name && r.fullName == raw.fullName && r.url == raw.htmlUrl
    ensures r.updatedAt == raw.updatedAt && r.createdAt == raw.createdAt && r.defaultBranch == raw.defaultBranch
    ensures raw.topics == None ==> r.topics == []
    ensures raw.topics.Some? ==> r.topics == raw.topics.value
    ensures r.language == raw.language && r.description == raw.description
    ensures r.stars == raw.stargazersCount && r.forks == raw.forksCount && r.issues == raw.openIssuesCount
    ensures r.archived == raw.archived && r.isPrivate == raw.isPrivate
  {
    Repository(
      Text.Decimal(raw.id),
      raw.name,
      raw.fullName,
      raw.description,
      raw.language,
      raw.stargazersCount,
      raw.forksCount,
      raw.openIssuesCount,
      raw.updatedAt,
      raw.createdAt,
      if raw.topics.Some? then raw.topics.value else [],
      raw.archived,
      raw.isPrivate,
      raw.defaultBranch,
      raw.htmlUrl)
  }

  /** `toString` writes distinct numeric ids differently, so the string ids
      of two repositories are equal exactly when their numeric ids are. */
  lemma IdsStayDistinct(a: GitHubRepo, b: GitHubRepo)
    ensures TransformRepository(a).id == TransformRepository(b).id <==> a.id == b.id
  {
    Text.DecimalInjective(a.id, b.id);
  }

  /** `transformRepositories`: the element transform applied in order. */
  function TransformRepositories(raws: seq<GitHubRepo>): (r: seq<Repository>)
    ensures |r| == |raws|
    ensures forall i :: 0 <= i < |raws| ==> r[i] == TransformRepository(raws[i])
  {
    seq(|raws|, i requires 0 <= i < |raws| => TransformRepository(raws[i]))
  }

  /** The callback of `processRepos`: classify the status, push the language
      (when truthy) and then the topics, and keep the first five. */
  method ProcessRepo(repo: Repository, now: int) returns (p: ProcessedRepo)
    ensures p == Processed(repo, now, LanguageAndTopics(repo), GitHub)
  {
    var daysSinceUpdate := Clock.DaysBetween(repo.updatedAt, now);
    var status := ClassifyStatus(repo.archived, daysSinceUpdate);
    var technologies: seq<string> := [];
    if Truthy(repo.language) {
      technologies := technologies + [repo.language.value];
    }
    technologies := technologies + repo.topics;
    p := ProcessedRepo(
      repo.name,
      status,
      DescriptionOf(repo.description),
      FirstFive(technologies),
      repo.updatedAt,
      repo.stars,
      repo.forks,
      repo.issues,
      repo.isPrivate,
      repo.url,
      GitHub);
  }

  /** `processRepos`: one processed record per repository, in the same order. */
  method ProcessRepos(repos: seq<Repository>, now: int) returns (ps: seq<ProcessedRepo>)
    ensures |ps| == |repos|
    ensures forall i :: 0 <= i < |repos| ==> ps[i] == Processed(repos[i], now, LanguageAndTopics(repos[i]), GitHub)
  {
    ps := [];
    for i := 0 to |repos|
      invariant |ps| == i
      invariant forall k :: 0 <= k < i ==> ps[k] == Processed(repos[k], now, LanguageAndTopics(repos[k]), GitHub)
    {
      var p := ProcessRepo(repos[i], now);
      ps := ps + [p];
    }
  }
}
