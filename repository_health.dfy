/** The repository health analyzer (src/services/behavioral/repositoryHealthAnalyzer.ts):
    a composite health score, the age of the latest commit, the number of
    recently active developers and four keyword percentages. Every score is
    a pure function of the processed repository, the commits and the clock
    reading `now`. */
module RepositoryHealthAnalyzer {
  import opened Types
  import opened CommitSeqs
  import Seqs
  import Text
  import Clock

  const ChurnKeywords: seq<string> := ["fix", "bug"]
  const TestKeywords: seq<string> := ["test", "spec", "coverage"]
  const DocKeywords: seq<string> := ["doc", "readme", "comment"]
  const DebtKeywords: seq<string> := ["fix", "bug", "hotfix"]

  /** `calculateHealthScore`: an activity term (up to 30, full at ten
      commits), three tenths of the repository's recency score, a diversity
      term (10 per distinct author, up to 30) and an issue term
      (`40 - issues`, never negative), the sum capped at 100. */
  function HealthScore(repo: ProcessedRepo, commits: seq<Commit>, now: int): (r: real)
    ensures 0.0 <= r <= 100.0
    ensures repo.issues <= 40 ==> r >= (40 - repo.issues) as real
  {
    var activity := (if |commits| < 10 then |commits| as real / 10.0 else 1.0) * 30.0;
    var recency := Clock.RecencyScore(repo.lastUpdated, now) * 0.3;
    var authors := |AuthorSet(commits)|;
    var diversity := if authors * 10 < 30 then (authors * 10) as real else 30.0;
    var issueScore := if 40 - repo.issues > 0 then (40 - repo.issues) as real else 0.0;
    var total := activity + recency + diversity + issueScore;
    if total < 100.0 then total else 100.0
  }

  /** Ten commits by three or more authors and no open issues already reach the cap. */
  lemma HealthScoreFull(repo: ProcessedRepo, commits: seq<Commit>, now: int)
    requires |commits| >= 10 && |AuthorSet(commits)| >= 3 && repo.issues == 0
    ensures HealthScore(repo, commits, now) == 100.0
  {
  }

  /** No commits, a repository untouched for 50 days or more and 40 or more
      open issues score 0. */
  lemma HealthScoreNone(repo: ProcessedRepo, now: int)
    requires now - repo.lastUpdated >= 50 * Clock.MsPerDay && repo.issues >= 40
    ensures HealthScore(repo, [], now) == 0.0
  {
    assert AuthorSet([]) == {};
  }

  /** `calculateLastCommitAge`: `Infinity` without commits, otherwise the
      days elapsed from the latest commit date to `now`. */
  function LastCommitAge(commits: seq<Commit>, now: int): (r: Days)
    ensures r.Infinity? <==> commits == []
    ensures r.Finite? ==> r.days * Clock.MsPerDay as real == (now - LatestDate(commits)) as real
    ensures r.Finite? ==> forall i :: 0 <= i < |commits| ==> r.days <= Clock.DaysBetween(commits[i].date, now)
  {
    if commits == [] then Infinity
    else
      var latest := LatestDate(commits);
      assert forall i :: 0 <= i < |commits| ==> Clock.DaysBetween(latest, now) <= Clock.DaysBetween(commits[i].date, now) by {
        forall i | 0 <= i < |commits| ensures Clock.DaysBetween(latest, now) <= Clock.DaysBetween(commits[i].date, now) {
          DaysBetweenAntitone(commits[i].date, latest, now);
        }
      }
      Finite(Clock.DaysBetween(latest, now))
  }

  /** A later start leaves fewer days until `now`. */
  lemma DaysBetweenAntitone(a: int, b: int, now: int)
    requires a <= b
    ensures Clock.DaysBetween(b, now) <= Clock.DaysBetween(a, now)
  {
    var x, y := Clock.DaysBetween(b, now), Clock.DaysBetween(a, now);
    if x > y {
      Text.MulStrict(x, y, Clock.MsPerDay as real);
    }
  }

  /** The commits dated strictly after `now` minus thirty days. */
  function RecentCommits(commits: seq<Commit>, now: int): (r: seq<Commit>)
    ensures forall c :: c in r <==> c in commits && c.date > now - 30 * Clock.MsPerDay
  {
    if commits == [] then []
    else
      var p := RecentCommits(commits[..|commits| - 1], now);
      var c := commits[|commits| - 1];
      assert forall x :: x in commits <==> x in commits[..|commits| - 1] || x == c by {
        assert commits == commits[..|commits| - 1] + [c];
      }
      if c.date > now - 30 * Clock.MsPerDay then p + [c] else p
  }

  /** `countActiveDevelopers`: the distinct authors of the recent commits. */
  function ActiveDevelopers(commits: seq<Commit>, now: int): (r: nat)
    ensures r == 0 <==> forall c :: c in commits ==> c.date <= now - 30 * Clock.MsPerDay
  {
    var recent := RecentCommits(commits, now);
    assert recent != [] ==> recent[0].author in AuthorSet(recent);
    |AuthorSet(recent)|
  }

  /** Active developers are among all authors, who are no more than the commits. */
  lemma ActiveDevelopersBound(commits: seq<Commit>, now: int)
    ensures ActiveDevelopers(commits, now) <= |AuthorSet(commits)| <= |commits|
  {
    Seqs.SubsetSize(AuthorSet(RecentCommits(commits, now)), AuthorSet(commits));
    AuthorSetBound(commits);
  }

  /** When every commit is recent, every author is active. */
  lemma ActiveDevelopersAllRecent(commits: seq<Commit>, now: int)
    requires forall c :: c in commits ==> c.date > now - 30 * Clock.MsPerDay
    ensures ActiveDevelopers(commits, now) == |AuthorSet(commits)|
  {
    assert AuthorSet(RecentCommits(commits, now)) == AuthorSet(commits);
  }

  /** `calculateCodeChurnRate`: 0 without commits, otherwise the capped
      percentage of commits mentioning "fix" or "bug". */
  function CodeChurnRate(commits: seq<Commit>): (r: real)
    ensures 0.0 <= r <= 100.0
  {
    if |commits| == 0 then 0.0
    else Text.Pct(Text.MatchCount(commits, ChurnKeywords), |commits|)
  }

  /** The early return for no commits agrees with the percentage formula. */
  lemma CodeChurnRateIsPct(commits: seq<Commit>)
    ensures CodeChurnRate(commits) == Text.Pct(Text.MatchCount(commits, ChurnKeywords), |commits|)
  {
  }

  /** `estimateTestCoverage`: the capped percentage of commits mentioning "test", "spec" or "coverage". */
  function TestCoverage(commits: seq<Commit>): (r: real)
    ensures 0.0 <= r <= 100.0
    ensures commits == [] ==> r == 0.0
    ensures r == 100.0 <==> commits != [] && Text.MatchCount(commits, TestKeywords) == |commits|
  {
    Text.PctFull(Text.MatchCount(commits, TestKeywords), |commits|);
    Text.Pct(Text.MatchCount(commits, TestKeywords), |commits|)
  }

  /** `calculateDocumentationScore`: the capped percentage of commits mentioning "doc", "readme" or "comment". */
  function DocumentationScore(commits: seq<Commit>): (r: real)
    ensures 0.0 <= r <= 100.0
    ensures commits == [] ==> r == 0.0
    ensures r == 100.0 <==> commits != [] && Text.MatchCount(commits, DocKeywords) == |commits|
  {
    Text.PctFull(Text.MatchCount(commits, DocKeywords), |commits|);
    Text.Pct(Text.MatchCount(commits, DocKeywords), |commits|)
  }

  /** `calculateIssueResolutionTime`: 0 without open issues, otherwise ten
      times the issues per star-or-fork (at least one), capped at 30 days. */
  function IssueResolutionTime(repo: ProcessedRepo): (r: real)
    ensures 0.0 <= r <= 30.0
    ensures r == 0.0 <==> repo.issues == 0
    ensures repo.stars + repo.forks <= 1 && repo.issues >= 3 ==> r == 30.0
  {
    if repo.issues == 0 then 0.0
    else
      var ratio := Text.Div(repo.issues as real, (if repo.stars + repo.forks > 1 then repo.stars + repo.forks else 1) as real);
      if ratio * 10.0 < 30.0 then ratio * 10.0 else 30.0
  }

  /** `calculateTechnicalDebtScore`: the capped percentage of commits mentioning "fix", "bug" or "hotfix". */
  function TechnicalDebtScore(commits: seq<Commit>): (r: real)
    ensures 0.0 <= r <= 100.0
  {
    Text.Pct(Text.MatchCount(commits, DebtKeywords), |commits|)
  }

  /** "hotfix" contains "fix", so adding it to the keywords changes no count:
      the debt score always equals the churn rate. */
  lemma TechnicalDebtIsChurn(commits: seq<Commit>)
    ensures TechnicalDebtScore(commits) == CodeChurnRate(commits)
  {
    forall c | c in commits
      ensures Text.Mentions(c.message, DebtKeywords) <==> Text.Mentions(c.message, ChurnKeywords)
    {
      HotfixMentionsFix(c.message);
    }
    Text.MatchCountEquivalent(commits, DebtKeywords, ChurnKeywords);
  }

  lemma HotfixMentionsFix(message: string)
    ensures Text.Mentions(message, DebtKeywords) <==> Text.Mentions(message, ChurnKeywords)
  {
    var lower := Text.LowerStr(message);
    if Text.Mentions(message, DebtKeywords) {
      var k :| k in DebtKeywords && Text.Contains(lower, k);
      if k == "hotfix" {
        assert "hotfix"[3..6] == "fix";
        Text.ContainsTransitive(lower, "hotfix", 3, "fix");
        assert "fix" in ChurnKeywords;
      } else {
        assert k in ChurnKeywords;
      }
    }
    if Text.Mentions(message, ChurnKeywords) {
      var k :| k in ChurnKeywords && Text.Contains(lower, k);
      assert k in DebtKeywords;
    }
  }

  /** `analyzeRepositoryHealth`: the record of all scores, named after the repository and its platform. */
  function RepositoryHealthOf(repo: ProcessedRepo, commits: seq<Commit>, now: int): (r: RepositoryHealth)
    ensures r.repoName == repo.name && r.platform == repo.platform
    ensures 0.0 <= r.healthScore <= 100.0
    ensures r.lastCommitAge.Infinity? <==> commits == []
    ensures r.activeDevelopers <= |commits|
    ensures 0.0 <= r.codeChurnRate <= 100.0 && 0.0 <= r.testCoverage <= 100.0
    ensures 0.0 <= r.documentationScore <= 100.0 && 0.0 <= r.issueResolutionTime <= 30.0
    ensures r.technicalDebtScore == r.codeChurnRate
  {
    ActiveDevelopersBound(commits, now);
    TechnicalDebtIsChurn(commits);
    RepositoryHealth(
      repo.name,
      repo.platform,
      HealthScore(repo, commits, now),
      LastCommitAge(commits, now),
      ActiveDevelopers(commits, now),
      CodeChurnRate(commits),
      TestCoverage(commits),
      DocumentationScore(commits),
      IssueResolutionTime(repo),
      TechnicalDebtScore(commits))
  }

  /** Without commits every commit-based percentage is 0 and the age is infinite. */
  lemma RepositoryHealthEmpty(repo: ProcessedRepo, now: int)
    ensures var r := RepositoryHealthOf(repo, [], now);
      && r.lastCommitAge == Infinity && r.activeDevelopers == 0
      && r.codeChurnRate == 0.0 && r.testCoverage == 0.0
      && r.documentationScore == 0.0 && r.technicalDebtScore == 0.0
  {
  }
}
