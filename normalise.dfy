/** The repository-record normalisation every platform client's
    `processRepos` performs: the status classifier, the description default,
    the five-entry technology list, and the `ProcessedRepo` record built
    from a `Repository`. */
module RepoNormalise {
  import opened Types
  import Clock

  const NoDescription: string := "No description available"

  /** The status a repository gets from whether it is archived and how many
      days ago it was last updated: archived repositories are legacy
      whatever their age, otherwise more than 90 days is planning, more than
      30 is development, and anything newer is active. */
  function Classify(archived: bool, days: real): (s: Status)
    ensures s == Legacy <==> archived
    ensures s == Planning <==> !archived && days > 90.0
    ensures s == Development <==> !archived && 30.0 < days <= 90.0
    ensures s == Active <==> !archived && days <= 30.0
  {
    if archived then Legacy
    else if days > 90.0 then Planning
    else if days > 30.0 then Development
    else Active
  }

  /** How stale a status says a repository is. */
  function Staleness(s: Status): nat {
    match s
    case Active => 0
    case Development => 1
    case Planning => 2
    case Legacy => 3
  }

  /** A repository that has gone longer without an update is never classified as more active. */
  lemma ClassifyMonotone(archived: bool, d1: real, d2: real)
    requires d1 <= d2
    ensures Staleness(Classify(archived, d1)) <= Staleness(Classify(archived, d2))
  {
  }

  /** The bounds are strict: exactly thirty days since the update is still active. */
  lemma ThirtyDaysIsActive(updatedAt: int)
    ensures Classify(false, Clock.DaysBetween(updatedAt, updatedAt + 30 * Clock.MsPerDay)) == Active
  {
    var d := Clock.DaysBetween(updatedAt, updatedAt + 30 * Clock.MsPerDay);
    assert d * Clock.MsPerDay as real == (30 * Clock.MsPerDay) as real;
    assert d == 30.0;
  }

  /** The if-chain of `processRepos`: `status` starts as active and is
      reassigned by the first matching test. */
  method ClassifyStatus(archived: bool, daysSinceUpdate: real) returns (status: Status)
    ensures status == Classify(archived, daysSinceUpdate)
  {
    status := Active;
    if archived {
      status := Legacy;
    } else if daysSinceUpdate > 90.0 {
      status := Planning;
    } else if daysSinceUpdate > 30.0 {
      status := Development;
    }
  }

  /** `description || 'No description available'`: a missing or empty description gets the default. */
  function DescriptionOf(description: Option<string>): (r: string)
    ensures r != []
    ensures description == None || description == Some("") ==> r == NoDescription
    ensures description.Some? && description.value != "" ==> r == description.value
  {
    if description.Some? && description.value != "" then description.value else NoDescription
  }

  /** JavaScript truthiness of a nullable string: present and not empty. */
  predicate Truthy(s: Option<string>) {
    s.Some? && s.value != ""
  }

  /** The language as a one-entry list when it is truthy, otherwise nothing. */
  function LanguageList(language: Option<string>): (r: seq<string>)
    ensures |r| <= 1
    ensures r == [] <==> !Truthy(language)
    ensures r != [] ==> r[0] == language.value
  {
    if Truthy(language) then [language.value] else []
  }

  /** The GitHub and GitLab technology list: the language (when truthy)
      followed by the topics, cut to the first five. */
  function LanguageAndTopics(repo: Repository): (r: seq<string>)
    ensures |r| <= 5
    ensures |r| == if |LanguageList(repo.language)| + |repo.topics| < 5 then |LanguageList(repo.language)| + |repo.topics| else 5
    ensures Truthy(repo.language) ==> r[0] == repo.language.value
    ensures !Truthy(repo.language) ==> r == FirstFive(repo.topics)
    ensures forall i :: 0 <= i < |r| ==> r[i] == (LanguageList(repo.language) + repo.topics)[i]
  {
    FirstFive(LanguageList(repo.language) + repo.topics)
  }

  /** `s.slice(0, 5)`: the first five entries, or all of them when there are fewer. */
  function FirstFive(s: seq<string>): (r: seq<string>)
    ensures |r| <= 5
    ensures |r| == if |s| < 5 then |s| else 5
    ensures r == s[..|r|]
  {
    if |s| < 5 then s else s[..5]
  }

  /** The `ProcessedRepo` a client's `processRepos` returns for one
      repository, given the technology list it built and its platform tag. */
  function Processed(repo: Repository, now: int, technologies: seq<string>, platform: Platform): (r: ProcessedRepo)
    ensures r.name == repo.name && r.url == repo.url && r.lastUpdated == repo.updatedAt
    ensures r.stars == repo.stars && r.forks == repo.forks && r.issues == repo.issues && r.isPrivate == repo.isPrivate
    ensures r.status == Legacy <==> repo.archived
    ensures r.description != [] && r.technologies == technologies && r.platform == platform
  {
    ProcessedRepo(
      repo.name,
      Classify(repo.archived, Clock.DaysBetween(repo.updatedAt, now)),
      DescriptionOf(repo.description),
      technologies,
      repo.updatedAt,
      repo.stars,
      repo.forks,
      repo.issues,
      repo.isPrivate,
      repo.url,
      platform)
  }

  /** An archived repository is legacy however recently it was updated. */
  lemma ArchivedIsLegacy(repo: Repository, now: int, technologies: seq<string>, platform: Platform)
    requires repo.archived
    ensures Processed(repo, now, technologies, platform).status == Legacy
  {
  }
}
