/** The service class the dashboard calls (src/services/behavioralIntelligence.ts).
    It repeats the six analyzers in one class; each public method here is
    assembled from the same score helpers as the factored analyzers and is
    proved to return the record the factored specification gives. The one
    difference in behaviour is in `analyzeRepositoryHealth`: its churn rate
    calls the average-gap helper, which sorts the caller's commits in place. */
module BehavioralIntelligence {
  import opened Types
  import opened CommitSeqs
  import Seqs
  import Text
  import DeveloperAnalyzer
  import CommitPatternAnalyzer
  import RepositoryHealthAnalyzer
  import SecurityAnalyzer
  import CollaborationAnalyzer
  import TechnicalDebtAnalyzer

  /** `analyzeDeveloperActivity`: the same grouping and scores as the developer analyzer. */
  method AnalyzeDeveloperActivity(commits: seq<Commit>, now: int) returns (devs: seq<DeveloperActivity>)
    ensures devs == DeveloperAnalyzer.Developers(commits, now)
  {
    devs := DeveloperAnalyzer.AnalyzeDeveloperActivity(commits, now);
  }

  /** `analyzeCommitPatterns`: the same analysis as the commit-pattern
      analyzer, leaving the caller's array sorted by date when it holds two
      or more commits. */
  method AnalyzeCommitPatterns(a: array<Commit>) returns (r: Outcome<CommitPattern>)
    modifies a
    ensures r == CommitPatternAnalyzer.CommitPatterns(old(a[..]))
    ensures a[..] == if a.Length < 2 then old(a[..]) else Seqs.SortBy(old(a[..]), DateLess)
  {
    r := CommitPatternAnalyzer.AnalyzeCommitPatterns(a);
  }

  /** `calculateCodeChurnRate` of this class: before counting, it calls the
      average-gap helper for its side effect, which sorts the caller's array
      by date when it holds two or more commits; the count, and so the rate,
      is the one of the original order. */
  method CalculateCodeChurnRate(a: array<Commit>) returns (r: real)
    modifies a
    ensures r == RepositoryHealthAnalyzer.CodeChurnRate(old(a[..]))
    ensures a[..] == if a.Length < 2 then old(a[..]) else Seqs.SortBy(old(a[..]), DateLess)
  {
    if a.Length == 0 {
      return 0.0;
    }
    var avgTimeBetween := CommitPatternAnalyzer.CalculateAverageTimeBetweenCommits(a);
    Seqs.SortByPermutes(old(a[..]), DateLess);
    assert multiset(a[..]) == multiset(old(a[..]));
    Text.MatchCountPermutation(old(a[..]), a[..], RepositoryHealthAnalyzer.ChurnKeywords);
    r := Text.Pct(Text.MatchCount(a[..], RepositoryHealthAnalyzer.ChurnKeywords), a.Length);
  }

  /** `analyzeRepositoryHealth` of this class: the age, the active developers
      and the health score are taken from the commits as given, the churn
      rate then sorts them, and the remaining percentages are counted on the
      sorted array. Every score still equals the factored analyzer's on the
      original order, and the caller's array is left sorted by date when it
      holds two or more commits. */
  method AnalyzeRepositoryHealth(repo: ProcessedRepo, a: array<Commit>, now: int) returns (r: RepositoryHealth)
    modifies a
    ensures r == RepositoryHealthAnalyzer.RepositoryHealthOf(repo, old(a[..]), now)
    ensures a[..] == if a.Length < 2 then old(a[..]) else Seqs.SortBy(old(a[..]), DateLess)
  {
    var commits := a[..];
    var lastCommitAge := RepositoryHealthAnalyzer.LastCommitAge(commits, now);
    var activeDevelopers := RepositoryHealthAnalyzer.ActiveDevelopers(commits, now);
    var healthScore := RepositoryHealthAnalyzer.HealthScore(repo, commits, now);
    var codeChurnRate := CalculateCodeChurnRate(a);
    var sorted := a[..];
    Seqs.SortByPermutes(commits, DateLess);
    assert multiset(sorted) == multiset(commits);
    ReorderKeepsPercentages(commits, sorted);
    r := RepositoryHealth(
      repo.name,
      repo.platform,
      healthScore,
      lastCommitAge,
      activeDevelopers,
      codeChurnRate,
      RepositoryHealthAnalyzer.TestCoverage(sorted),
      RepositoryHealthAnalyzer.DocumentationScore(sorted),
      RepositoryHealthAnalyzer.IssueResolutionTime(repo),
      RepositoryHealthAnalyzer.TechnicalDebtScore(sorted));
  }

  /** The keyword percentages counted after the sort are those of the original order. */
  lemma ReorderKeepsPercentages(s: seq<Commit>, t: seq<Commit>)
    requires multiset(s) == multiset(t)
    ensures RepositoryHealthAnalyzer.TestCoverage(t) == RepositoryHealthAnalyzer.TestCoverage(s)
    ensures RepositoryHealthAnalyzer.DocumentationScore(t) == RepositoryHealthAnalyzer.DocumentationScore(s)
    ensures RepositoryHealthAnalyzer.TechnicalDebtScore(t) == RepositoryHealthAnalyzer.TechnicalDebtScore(s)
  {
    assert |s| == |multiset(s)| == |multiset(t)| == |t|;
    Text.MatchCountPermutation(s, t, RepositoryHealthAnalyzer.TestKeywords);
    Text.MatchCountPermutation(s, t, RepositoryHealthAnalyzer.DocKeywords);
    Text.MatchCountPermutation(s, t, RepositoryHealthAnalyzer.DebtKeywords);
  }

  /** `detectSecurityPatterns`: the same labels, counts and compliance score
      as the security analyzer, at scan time `scanTime`. */
  method DetectSecurityPatterns(commits: seq<Commit>, scanTime: string) returns (r: SecurityMetrics)
    ensures r == SecurityAnalyzer.SecurityMetricsOf(commits, scanTime)
  {
    r := SecurityAnalyzer.DetectSecurityPatterns(commits, scanTime);
  }

  /** `analyzeCollaborationSignals` of this class, whose message quality uses
      the if/else-if form of the fourth check; it returns what the
      collaboration analyzer, with its `||` form, returns. */
  method AnalyzeCollaborationSignals(commits: seq<Commit>) returns (r: Outcome<CollaborationSignals>)
    ensures r == CollaborationAnalyzer.CollaborationSignalsOf(commits)
  {
    var crossTeamContributions := CollaborationAnalyzer.CrossTeamContributions(commits);
    var knowledgeSharing := CollaborationAnalyzer.KnowledgeSharing(commits);
    var codeReviewParticipation := CollaborationAnalyzer.CodeReviewParticipation(commits);
    var mentorshipActivity := CollaborationAnalyzer.MentorshipActivity(commits);
    var messageQuality := CommitPatternAnalyzer.AnalyzeCommitMessageQuality(commits);
    if messageQuality.ThrowsTypeError? {
      CollaborationAnalyzer.SignalsOfQuality(commits);
      return ThrowsTypeError;
    }
    CollaborationAnalyzer.SignalsOfQuality(commits);
    var communicationFrequency := (messageQuality.value + CollaborationAnalyzer.CommitActivity(|commits|)) / 2.0;
    r := Returns(CollaborationSignals(
      "repository",
      codeReviewParticipation,
      crossTeamContributions,
      knowledgeSharing,
      mentorshipActivity,
      communicationFrequency,
      CollaborationAnalyzer.ConflictResolution(commits)));
  }

  /** `analyzeTechnicalDebt`: the recommendations by conditional pushes, then
      the six scores, as in the technical-debt analyzer. */
  method AnalyzeTechnicalDebt(repo: ProcessedRepo, commits: seq<Commit>) returns (r: TechnicalDebtMetrics)
    ensures r == TechnicalDebtAnalyzer.TechnicalDebtOf(repo, commits)
  {
    var refactoringOpportunities := TechnicalDebtAnalyzer.IdentifyRefactoringOpportunities(commits);
    r := TechnicalDebtMetrics(
      repo.name,
      TechnicalDebtAnalyzer.CodeComplexity(commits),
      TechnicalDebtAnalyzer.DuplicateCode(commits),
      TechnicalDebtAnalyzer.OutdatedDependencies(commits),
      TechnicalDebtAnalyzer.UnusedCode(commits),
      TechnicalDebtAnalyzer.TestDebt(commits),
      TechnicalDebtAnalyzer.DocumentationDebt(commits),
      refactoringOpportunities);
  }
}
