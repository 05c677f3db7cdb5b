/** The record-mapping part of the Bitbucket client (src/services/bitbucketApi.ts):
    the commit mapping of `getRecentCommits`, which keeps only a message's
    first line, `transformRepositories` and `processRepos`. */
module BitbucketClient {
  import opened Types
  import opened RepoNormalise
  import Clock

  /** The fields of a Bitbucket commit object the client reads. */
  datatype BitbucketCommit = BitbucketCommit(hash: string, message: string, date: int, authorRaw: string)

  /** The fields of a Bitbucket repository object the client reads. */
  datatype BitbucketRepository = BitbucketRepository(
    uuid: string,
    name: string,
    fullName: string,
    description: Option<string>,
    language: string,
    updatedOn: int,
    createdOn: int,
    isPrivate: bool,
    htmlHref: string)

  /** `message.split('\n')[0]`: everything before the first newline. */
  function FirstLine(message: string): (r: string)
    ensures '\n' !in r
    ensures |r| <= |message| && r == message[..|r|]
    ensures |r| < |message| ==> message[|r|] == '\n'
  {
    if message == [] || message[0] == '\n' then ""
    else [message[0]] + FirstLine(message[1..])
  }

  /** A message without a newline is kept whole. */
  lemma {:induction false} FirstLineOfOneLine(message: string)
    requires '\n' !in message
    ensures FirstLine(message) == message
  {
    if message != [] {
      assert message[0] in message;
      assert forall c :: c in message[1..] ==> c in message;
      FirstLineOfOneLine(message[1..]);
    }
  }

  /** The mapping in `getRecentCommits`. */
  function ToCommit(raw: BitbucketCommit): (c: Commit)
    ensures c.sha == raw.hash && c.date == raw.date && c.author == raw.authorRaw
    ensures '\n' !in c.message && |c.message| <= |raw.message| && c.message == raw.message[..|c.message|]
  {
    Commit(raw.hash, FirstLine(raw.message), raw.date, raw.authorRaw)
  }

  /** One element of `transformRepositories`: Bitbucket supplies no stars,
      forks, issues, topics or archive flag, and the default branch is
      assumed to be "main". */
  function TransformRepository(raw: BitbucketRepository): (r: Repository)
    ensures r.stars == 0 && r.forks == 0 && r.issues == 0
    ensures r.topics == [] && !r.archived && r.defaultBranch == "main"
    ensures r.id == raw.uuid && r.name == raw.name && r.fullName == raw.fullName
    ensures r.description == raw.description && r.createdAt == raw.createdOn && r.url == raw.htmlHref
    ensures r.language == Some(raw.language) && r.isPrivate == raw.isPrivate && r.updatedAt == raw.updatedOn
  {
    Repository(
      raw.uuid,
      raw.name,
      raw.fullName,
      raw.description,
      Some(raw.language),
      0,
      0,
      0,
      raw.updatedOn,
      raw.createdOn,
      [],
      false,
      raw.isPrivate,
      "main",
      raw.htmlHref)
  }

  /** `transformRepositories`: the element transform applied in order. */
  function TransformRepositories(raws: seq<BitbucketRepository>): (r: seq<Repository>)
    ensures |r| == |raws|
    ensures forall i :: 0 <= i < |raws| ==> r[i] == TransformRepository(raws[i])
  {
    seq(|raws|, i requires 0 <= i < |raws| => TransformRepository(raws[i]))
  }

  /** The callback of `processRepos`: the status chain, and the language as
      the only technology. */
  method ProcessRepo(repo: Repository, now: int) returns (p: ProcessedRepo)
    ensures p == Processed(repo, now, LanguageList(repo.language), Bitbucket)
  {
    var daysSinceUpdate := Clock.DaysBetween(repo.updatedAt, now);
    var status := ClassifyStatus(repo.archived, daysSinceUpdate);
    var technologies: seq<string> := [];
    if Truthy(repo.language) {
      technologies := technologies + [repo.language.value];
    }
    p := ProcessedRepo(
      repo.name,
      status,
      DescriptionOf(repo.description),
      FirstFive(technologies),
      repo.updatedAt,
      repo.stars,
      repo.forks,
      repo.issues,
      repo.isPrivate,
      repo.url,
      Bitbucket);
  }

  /** `processRepos`: one processed record per repository, in the same order. */
  method ProcessRepos(repos: seq<Repository>, now: int) returns (ps: seq<ProcessedRepo>)
    ensures |ps| == |repos|
    ensures forall i :: 0 <= i < |repos| ==> ps[i] == Processed(repos[i], now, LanguageList(repos[i].language), Bitbucket)
  {
    ps := [];
    for i := 0 to |repos|
      invariant |ps| == i
      invariant forall k :: 0 <= k < i ==> ps[k] == Processed(repos[k], now, LanguageList(repos[k].language), Bitbucket)
    {
      var p := ProcessRepo(repos[i], now);
      ps := ps + [p];
    }
  }

  /** A transformed repository is never archived, so it is never legacy. */
  lemma TransformedNeverLegacy(raw: BitbucketRepository, now: int)
    ensures var repo := TransformRepository(raw);
      Processed(repo, now, LanguageList(repo.language), Bitbucket).status != Legacy
  {
  }
}
