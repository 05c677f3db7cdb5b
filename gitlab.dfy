/** The repository-record part of the GitLab client (src/services/gitlabApi.ts):
    `transformProjects` and `processRepos`. */
module GitLabClient {
  import opened Types
  import opened RepoNormalise
  import Clock
  import Text

  /** The fields of a GitLab project object the client reads. */
  datatype GitLabProject = GitLabProject(
    id: nat,
    name: string,
    nameWithNamespace: string,
    description: Option<string>,
    starCount: nat,
    forksCount: nat,
    openIssuesCount: nat,
    lastActivityAt: int,
    createdAt: int,
    topics: Option<seq<string>>,
    archived: bool,
    visibility: string,
    defaultBranch: string,
    webUrl: string)

  /** One element of `transformProjects`: GitLab lists no primary language,
      a project is private exactly when its visibility is "private", and
      absent topics become the empty list. */
  function TransformProject(raw: GitLabProject): (r: Repository)
    ensures r.id == Text.Decimal(raw.id) && r.language == None
    ensures r.name == raw.name && r.fullName == raw.nameWithNamespace && r.description == raw.description
    ensures r.createdAt == raw.createdAt && r.defaultBranch == raw.defaultBranch && r.url == raw.webUrl
    ensures r.isPrivate <==> raw.visibility == "private"
    ensures r.topics == if raw.topics.Some? then raw.topics.value else []
    ensures r.updatedAt == raw.lastActivityAt && r.archived == raw.archived
    ensures r.stars == raw.starCount && r.forks == raw.forksCount && r.issues == raw.openIssuesCount
  {
    Repository(
      Text.Decimal(raw.id),
      raw.name,
      raw.nameWithNamespace,
      raw.description,
      None,
      raw.starCount,
      raw.forksCount,
      raw.openIssuesCount,
      raw.lastActivityAt,
      raw.createdAt,
      if raw.topics.Some? then raw.topics.value else [],
      raw.archived,
      raw.visibility == "private",
      raw.defaultBranch,
      raw.webUrl)
  }

  /** `transformProjects`: the element transform applied in order. */
  function TransformProjects(raws: seq<GitLabProject>): (r: seq<Repository>)
    ensures |r| == |raws|
    ensures forall i :: 0 <= i < |raws| ==> r[i] == TransformProject(raws[i])
  {
    seq(|raws|, i requires 0 <= i < |raws| => TransformProject(raws[i]))
  }

  /** The callback of `processRepos`, the same steps as the GitHub client's. */
  method ProcessRepo(repo: Repository, now: int) returns (p: ProcessedRepo)
    ensures p == Processed(repo, now, LanguageAndTopics(repo), GitLab)
  {
    var daysSinceUpdate := Clock.DaysBetween(repo.updatedAt, now);
    var status := ClassifyStatus(repo.archived, daysSinceUpdate);
    var technologies: seq<string> := [];
    if Truthy(repo.language) {
      technologies := technologies + [repo.language.value];
    }
    technologies := technologies + repo.topics;
    p := ProcessedRepo(
      repo.name,
      status,
      DescriptionOf(repo.description),
      FirstFive(technologies),
      repo.updatedAt,
      repo.stars,
      repo.forks,
      repo.issues,
      repo.isPrivate,
      repo.url,
      GitLab);
  }

  /** `processRepos`: one processed record per repository, in the same order. */
  method ProcessRepos(repos: seq<Repository>, now: int) returns (ps: seq<ProcessedRepo>)
    ensures |ps| == |repos|
    ensures forall i :: 0 <= i < |repos| ==> ps[i] == Processed(repos[i], now, LanguageAndTopics(repos[i]), GitLab)
  {
    ps := [];
    for i := 0 to |repos|
      invariant |ps| == i
      invariant forall k :: 0 <= k < i ==> ps[k] == Processed(repos[k], now, LanguageAndTopics(repos[k]), GitLab)
    {
      var p := ProcessRepo(repos[i], now);
      ps := ps + [p];
    }
  }

  /** A project from `transformProjects` has no language, so its technologies
      are its first five topics. */
  lemma TechnologiesAreTopics(raw: GitLabProject)
    ensures LanguageAndTopics(TransformProject(raw)) == FirstFive(TransformProject(raw).topics)
  {
  }
}
