/** The repository-record part of the Azure DevOps client (src/services/azureApi.ts):
    `transformRepositories`, which stamps both dates with the current time,
    and `processRepos`, which lists no technologies. */
module AzureClient {
  import opened Types
  import opened RepoNormalise
  import Clock

  /** The fields of an Azure DevOps Git repository object the client reads. */
  datatype AzureRepository = AzureRepository(
    id: string,
    name: string,
    url: string,
    projectName: string,
    defaultBranch: string,
    size: nat,
    remoteUrl: string)

  /** One element of `transformRepositories` at clock reading `now`: no
      description or language, zero counts, both dates set to `now`, never
      archived, always private, and "main" when the default branch is empty. */
  function TransformRepository(raw: AzureRepository, now: int): (r: Repository)
    ensures r.id == raw.id && r.name == raw.name
    ensures r.description == None && r.language == None
    ensures r.stars == 0 && r.forks == 0 && r.issues == 0 && r.topics == []
    ensures r.updatedAt == now && r.createdAt == now
    ensures !r.archived && r.isPrivate
    ensures r.defaultBranch == if raw.defaultBranch == "" then "main" else raw.defaultBranch
    ensures r.fullName == raw.projectName + "/" + raw.name && r.url == raw.remoteUrl
  {
    Repository(
      raw.id,
      raw.name,
      raw.projectName + "/" + raw.name,
      None,
      None,
      0,
      0,
      0,
      now,
      now,
      [],
      false,
      true,
      if raw.defaultBranch != "" then raw.defaultBranch else "main",
      raw.remoteUrl)
  }

  /** `transformRepositories`: the element transform applied in order. */
  function TransformRepositories(raws: seq<AzureRepository>, now: int): (r: seq<Repository>)
    ensures |r| == |raws|
    ensures forall i :: 0 <= i < |raws| ==> r[i] == TransformRepository(raws[i], now)
  {
    seq(|raws|, i requires 0 <= i < |raws| => TransformRepository(raws[i], now))
  }

  /** The callback of `processRepos`: the status chain and an empty technology list. */
  method ProcessRepo(repo: Repository, now: int) returns (p: ProcessedRepo)
    ensures p == Processed(repo, now, [], Azure)
  {
    var daysSinceUpdate := Clock.DaysBetween(repo.updatedAt, now);
    var status := ClassifyStatus(repo.archived, daysSinceUpdate);
    p := ProcessedRepo(
      repo.name,
      status,
      DescriptionOf(repo.description),
      [],
      repo.updatedAt,
      repo.stars,
      repo.forks,
      repo.issues,
      repo.isPrivate,
      repo.url,
      Azure);
  }

  /** `processRepos`: one processed record per repository, in the same order. */
  method ProcessRepos(repos: seq<Repository>, now: int) returns (ps: seq<ProcessedRepo>)
    ensures |ps| == |repos|
    ensures forall i :: 0 <= i < |repos| ==> ps[i] == Processed(repos[i], now, [], Azure)
  {
    ps := [];
    for i := 0 to |repos|
      invariant |ps| == i
      invariant forall k :: 0 <= k < i ==> ps[k] == Processed(repos[k], now, [], Azure)
    {
      var p := ProcessRepo(repos[i], now);
      ps := ps + [p];
    }
  }

  /** A repository transformed and processed at the same instant is active,
      with the default description. */
  lemma FreshRepositoryIsActive(raw: AzureRepository, now: int)
    ensures var p := Processed(TransformRepository(raw, now), now, [], Azure);
      p.status == Active && p.description == NoDescription && p.technologies == []
  {
  }
}
