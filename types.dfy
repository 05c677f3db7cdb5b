/** The record shapes the scoring engine consumes and produces
    (src/services/types.ts and src/services/behavioral/types.ts).
    Dates are milliseconds since the epoch, the value `new Date(s).getTime()`
    gives for the ISO strings the platform clients return. */
module Types {

  /** What `getRecentCommits` returns: `{sha, message, date, author}`. */
  datatype Commit = Commit(sha: string, message: string, date: int, author: string)

  datatype Platform = GitHub | GitLab | Bitbucket | Azure

  datatype Status = Active | Development | Planning | Legacy

  /** A platform repository after the client's `transform*` step. */
  datatype Repository = Repository(
    id: string,
    name: string,
    fullName: string,
    description: Option<string>,
    language: Option<string>,
    stars: nat,
    forks: nat,
    issues: nat,
    updatedAt: int,
    createdAt: int,
    topics: seq<string>,
    archived: bool,
    isPrivate: bool,
    defaultBranch: string,
    url: string)

  /** The dashboard's view of a repository, produced by `processRepos`. */
  datatype ProcessedRepo = ProcessedRepo(
    name: string,
    status: Status,
    description: string,
    technologies: seq<string>,
    lastUpdated: int,
    stars: nat,
    forks: nat,
    issues: nat,
    isPrivate: bool,
    url: string,
    platform: Platform)

  datatype Option<T> = None | Some(value: T)

  /** A JavaScript computation either returns a value or throws the TypeError
      that reading a property of `undefined` raises. */
  datatype Outcome<T> = Returns(value: T) | ThrowsTypeError

  /** JavaScript's `Infinity` where a number of days has no finite value. */
  datatype Days = Infinity | Finite(days: real)

  datatype DeveloperActivity = DeveloperActivity(
    developerId: string,
    name: string,
    email: string,
    totalCommits: nat,
    linesAdded: nat,
    linesDeleted: nat,
    filesModified: nat,
    averageCommitSize: nat,
    commitFrequency: real,
    activeRepos: seq<string>,
    lastActivity: int,
    engagementScore: real)

  datatype CommitPattern = CommitPattern(
    hourlyDistribution: seq<nat>,
    weeklyDistribution: seq<nat>,
    commitMessageQuality: real,
    averageTimeBetweenCommits: real,
    burstPatterns: bool,
    consistencyScore: real)

  datatype RepositoryHealth = RepositoryHealth(
    repoName: string,
    platform: Platform,
    healthScore: real,
    lastCommitAge: Days,
    activeDevelopers: nat,
    codeChurnRate: real,
    testCoverage: real,
    documentationScore: real,
    issueResolutionTime: real,
    technicalDebtScore: real)

  datatype SecurityMetrics = SecurityMetrics(
    repoName: string,
    suspiciousPatterns: seq<string>,
    vulnerabilityCount: nat,
    secretsExposed: nat,
    dependencyRisk: real,
    lastSecurityScan: string,
    complianceScore: real)

  datatype CollaborationSignals = CollaborationSignals(
    repoName: string,
    codeReviewParticipation: real,
    crossTeamContributions: real,
    knowledgeSharing: real,
    mentorshipActivity: real,
    communicationFrequency: real,
    conflictResolution: real)

  datatype TechnicalDebtMetrics = TechnicalDebtMetrics(
    repoName: string,
    codeComplexity: real,
    duplicateCode: real,
    outdatedDependencies: nat,
    unusedCode: real,
    testDebt: real,
    documentationDebt: real,
    refactoringOpportunities: seq<string>)
}
