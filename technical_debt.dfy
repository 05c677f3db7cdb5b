/** The technical-debt analyzer (src/services/behavioral/technicalDebtAnalyzer.ts):
    keyword percentages for complexity, duplication and unused code, a raw
    count of dependency updates, test and documentation debt as the
    complement of a coverage percentage, and recommendations chosen by four
    threshold rules. */
module TechnicalDebtAnalyzer {
  import opened Types
  import opened Seqs
  import opened Text
  import RepositoryHealthAnalyzer

  const ComplexityKeywords: seq<string> := ["refactor", "simplify", "cleanup"]
  const DuplicateKeywords: seq<string> := ["duplicate", "dry", "reuse"]
  const OutdatedKeywords: seq<string> := ["update", "upgrade", "dependency"]
  const UnusedKeywords: seq<string> := ["remove", "cleanup", "unused"]
  const TestDebtKeywords: seq<string> := ["test"]
  const DocDebtKeywords: seq<string> := ["doc", "readme", "comment"]

  /** `calculateCodeComplexity`. */
  function CodeComplexity(commits: seq<Commit>): (r: real)
    ensures 0.0 <= r <= 100.0 && (commits == [] ==> r == 0.0)
    ensures r == 100.0 <==> commits != [] && MatchCount(commits, ComplexityKeywords) == |commits|
  {
    PctFull(MatchCount(commits, ComplexityKeywords), |commits|);
    Pct(MatchCount(commits, ComplexityKeywords), |commits|)
  }

  /** `detectDuplicateCode`. */
  function DuplicateCode(commits: seq<Commit>): (r: real)
    ensures 0.0 <= r <= 100.0 && (commits == [] ==> r == 0.0)
    ensures r == 100.0 <==> commits != [] && MatchCount(commits, DuplicateKeywords) == |commits|
  {
    PctFull(MatchCount(commits, DuplicateKeywords), |commits|);
    Pct(MatchCount(commits, DuplicateKeywords), |commits|)
  }

  /** `countOutdatedDependencies`: a number of commits, not a percentage. */
  function OutdatedDependencies(commits: seq<Commit>): (r: nat)
    ensures r <= |commits|
  {
    MatchCount(commits, OutdatedKeywords)
  }

  /** `detectUnusedCode`. */
  function UnusedCode(commits: seq<Commit>): (r: real)
    ensures 0.0 <= r <= 100.0 && (commits == [] ==> r == 0.0)
    ensures r == 100.0 <==> commits != [] && MatchCount(commits, UnusedKeywords) == |commits|
  {
    PctFull(MatchCount(commits, UnusedKeywords), |commits|);
    Pct(MatchCount(commits, UnusedKeywords), |commits|)
  }

  /** A "cleanup" commit counts toward both complexity and unused code. */
  lemma CleanupCountsTwice(commits: seq<Commit>)
    ensures MatchCount(commits, ["cleanup"]) <= MatchCount(commits, ComplexityKeywords)
    ensures MatchCount(commits, ["cleanup"]) <= MatchCount(commits, UnusedKeywords)
  {
    MatchCountMonotone(commits, ["cleanup"], ComplexityKeywords);
    MatchCountMonotone(commits, ["cleanup"], UnusedKeywords);
  }

  /** `calculateTestDebt`: 100 less the percentage of commits mentioning "test". */
  function TestDebt(commits: seq<Commit>): (r: real)
    ensures 0.0 <= r <= 100.0
    ensures commits == [] ==> r == 100.0
    ensures r == 0.0 <==> commits != [] && MatchCount(commits, TestDebtKeywords) == |commits|
  {
    PctFull(MatchCount(commits, TestDebtKeywords), |commits|);
    100.0 - Pct(MatchCount(commits, TestDebtKeywords), |commits|)
  }

  /** `calculateDocumentationDebt`: 100 less the documentation percentage. */
  function DocumentationDebt(commits: seq<Commit>): (r: real)
    ensures 0.0 <= r <= 100.0
    ensures commits == [] ==> r == 100.0
    ensures r == 0.0 <==> commits != [] && MatchCount(commits, DocDebtKeywords) == |commits|
  {
    PctFull(MatchCount(commits, DocDebtKeywords), |commits|);
    100.0 - Pct(MatchCount(commits, DocDebtKeywords), |commits|)
  }

  /** Documentation debt is exactly the complement of the health analyzer's documentation score. */
  lemma DocumentationDebtComplementsScore(commits: seq<Commit>)
    ensures DocumentationDebt(commits) == 100.0 - RepositoryHealthAnalyzer.DocumentationScore(commits)
  {
  }

  /** Test debt looks for "test" only, while the health analyzer's coverage
      also accepts "spec" and "coverage": the debt is never below the
      complement of that coverage. */
  lemma TestDebtAtLeastUncovered(commits: seq<Commit>)
    ensures TestDebt(commits) >= 100.0 - RepositoryHealthAnalyzer.TestCoverage(commits)
  {
    MatchCountMonotone(commits, TestDebtKeywords, RepositoryHealthAnalyzer.TestKeywords);
    PctMonotone(MatchCount(commits, TestDebtKeywords), MatchCount(commits, RepositoryHealthAnalyzer.TestKeywords), |commits|);
  }

  lemma PctMonotone(j: nat, k: nat, n: nat)
    requires j <= k
    ensures Pct(j, n) <= Pct(k, n)
  {
    var d := (if n > 1 then n else 1) as real;
    MulMonotone(j as real, k as real, d);
  }

  lemma MulMonotone(x: real, y: real, d: real)
    requires x <= y && d > 0.0
    ensures x / d <= y / d
  {
  }

  // ---------------------------------------------------------------------
  // Refactoring opportunities

  const HighFixRatio: string := "High bug fix ratio suggests code quality improvements needed"
  const LowRefactoring: string := "Low refactoring activity - consider code structure improvements"
  const LowTests: string := "Insufficient test coverage - add missing unit tests"
  const LowDocs: string := "Poor documentation coverage - improve code comments and documentation"
  const WellMaintained: string := "Code appears well-maintained"

  /** The four recommendations in the order their rules are checked. */
  const RuleLabels: seq<string> := [HighFixRatio, LowRefactoring, LowTests, LowDocs]

  /** More than 30% of the commits mention "fix". */
  predicate ManyFixes(commits: seq<Commit>) {
    MatchCount(commits, ["fix"]) as real > |commits| as real * 0.3
  }

  /** Fewer than 10% of the commits mention "refactor". */
  predicate FewRefactors(commits: seq<Commit>) {
    (MatchCount(commits, ["refactor"]) as real) < |commits| as real * 0.1
  }

  /** Fewer than 20% of the commits mention "test". */
  predicate FewTests(commits: seq<Commit>) {
    (MatchCount(commits, ["test"]) as real) < |commits| as real * 0.2
  }

  /** Fewer than 10% of the commits mention "doc". */
  predicate FewDocs(commits: seq<Commit>) {
    (MatchCount(commits, ["doc"]) as real) < |commits| as real * 0.1
  }

  /** `identifyRefactoringOpportunities`: the recommendations whose rules
      fire, in rule order, or the single "well-maintained" note when none does. */
  function RefactoringOpportunities(commits: seq<Commit>): (r: seq<string>)
    ensures 1 <= |r| <= 4
    ensures HighFixRatio in r <==> ManyFixes(commits)
    ensures LowRefactoring in r <==> FewRefactors(commits)
    ensures LowTests in r <==> FewTests(commits)
    ensures LowDocs in r <==> FewDocs(commits)
    ensures r == [WellMaintained] <==>
      !ManyFixes(commits) && !FewRefactors(commits) && !FewTests(commits) && !FewDocs(commits)
    ensures NoDuplicates(r)
    ensures r != [WellMaintained] ==> Ranked(r)
  {
    var fired := Recommendations(ManyFixes(commits), FewRefactors(commits), FewTests(commits), FewDocs(commits));
    RecommendationsPresent(ManyFixes(commits), FewRefactors(commits), FewTests(commits), FewDocs(commits));
    RecommendationsInOrder(ManyFixes(commits), FewRefactors(commits), FewTests(commits), FewDocs(commits));
    RanksOfLabels();
    if |fired| > 0 then fired else [WellMaintained]
  }

  /** The labels pushed by the four rules, given whether each fires, in rule order. */
  function Recommendations(manyFixes: bool, fewRefactors: bool, fewTests: bool, fewDocs: bool): seq<string> {
    Push(Push(Push(Push([], manyFixes, HighFixRatio), fewRefactors, LowRefactoring), fewTests, LowTests), fewDocs, LowDocs)
  }

  /** One rule's step: its label is appended when the rule fires. */
  function Push(s: seq<string>, fires: bool, note: string): seq<string> {
    if fires then s + [note] else s
  }

  /** The position of a recommendation among the rules; the note comes last. */
  function RuleRank(note: string): nat {
    if note == HighFixRatio then 0
    else if note == LowRefactoring then 1
    else if note == LowTests then 2
    else if note == LowDocs then 3
    else 4
  }

  lemma LabelsDistinct()
    ensures HighFixRatio != LowRefactoring && HighFixRatio != LowTests && HighFixRatio != LowDocs
    ensures LowRefactoring != LowTests && LowRefactoring != LowDocs && LowTests != LowDocs
    ensures WellMaintained !in RuleLabels
  {
    assert |HighFixRatio| == 60 && |LowRefactoring| == 63 && |LowTests| == 51 && |LowDocs| == 69;
    assert |WellMaintained| == 28;
  }

  /** Each label is present exactly when its rule fires, and the list is
      empty exactly when no rule fires. */
  lemma RecommendationsPresent(a: bool, b: bool, c: bool, d: bool)
    ensures var r := Recommendations(a, b, c, d);
      && |r| <= 4 && (r == [] <==> !a && !b && !c && !d)
      && (HighFixRatio in r <==> a) && (LowRefactoring in r <==> b)
      && (LowTests in r <==> c) && (LowDocs in r <==> d)
  {
    LabelsDistinct();
  }

  /** The labels come in strictly increasing rule rank, so none repeats. */
  lemma RecommendationsInOrder(a: bool, b: bool, c: bool, d: bool)
    ensures var r := Recommendations(a, b, c, d);
      && Ranked(r)
      && (forall i :: 0 <= i < |r| ==> RuleRank(r[i]) < 4)
      && NoDuplicates(r)
  {
    RanksOfLabels();
    var r1 := Push([], a, HighFixRatio);
    PushRanked([], a, HighFixRatio, 0);
    var r2 := Push(r1, b, LowRefactoring);
    PushRanked(r1, b, LowRefactoring, 1);
    var r3 := Push(r2, c, LowTests);
    PushRanked(r2, c, LowTests, 2);
    PushRanked(r3, d, LowDocs, 3);
    RankedNoDuplicates(Push(r3, d, LowDocs));
  }

  /** Strictly increasing in rule rank. */
  predicate Ranked(s: seq<string>) {
    forall i, j :: 0 <= i < j < |s| ==> RuleRank(s[i]) < RuleRank(s[j])
  }

  /** Every entry ranks below `k`. */
  predicate RankedBelow(s: seq<string>, k: nat) {
    forall i :: 0 <= i < |s| ==> RuleRank(s[i]) < k
  }

  /** Pushing a label whose rank `k` exceeds every earlier one keeps the
      order, and every entry then ranks below `k + 1`. */
  lemma PushRanked(s: seq<string>, fires: bool, x: string, k: nat)
    requires Ranked(s) && RankedBelow(s, k) && RuleRank(x) == k
    ensures Ranked(Push(s, fires, x)) && RankedBelow(Push(s, fires, x), k + 1)
  {
  }

  /** A sequence strictly increasing in rank has no repeated entry. */
  lemma RankedNoDuplicates(s: seq<string>)
    requires Ranked(s)
    ensures NoDuplicates(s)
  {
  }

  /** Each label's rank is its rule's position; the note ranks after them all. */
  lemma RanksOfLabels()
    ensures RuleRank(HighFixRatio) == 0 && RuleRank(LowRefactoring) == 1
    ensures RuleRank(LowTests) == 2 && RuleRank(LowDocs) == 3 && RuleRank(WellMaintained) == 4
  {
    LabelsDistinct();
  }

  /** Without commits no rule fires: every comparison is strict and both sides are 0. */
  lemma RefactoringOpportunitiesEmpty()
    ensures RefactoringOpportunities([]) == [WellMaintained]
  {
  }

  /** Exactly one refactor in ten commits is not "low" activity: the bound is strict. */
  lemma TenPercentRefactorsIsEnough(commits: seq<Commit>)
    requires |commits| == 10 && MatchCount(commits, ["refactor"]) == 1
    ensures LowRefactoring !in RefactoringOpportunities(commits)
  {
  }

  /** The conditional pushes of `identifyRefactoringOpportunities`. */
  method IdentifyRefactoringOpportunities(commits: seq<Commit>) returns (r: seq<string>)
    ensures r == RefactoringOpportunities(commits)
  {
    var opportunities: seq<string> := [];
    var fixCommits := MatchCount(commits, ["fix"]);
    var refactorCommits := MatchCount(commits, ["refactor"]);
    var testCommits := MatchCount(commits, ["test"]);
    var docCommits := MatchCount(commits, ["doc"]);
    if fixCommits as real > |commits| as real * 0.3 {
      opportunities := opportunities + [HighFixRatio];
    }
    assert opportunities == Push([], ManyFixes(commits), HighFixRatio);
    if (refactorCommits as real) < |commits| as real * 0.1 {
      opportunities := opportunities + [LowRefactoring];
    }
    assert opportunities == Recommendations(ManyFixes(commits), FewRefactors(commits), false, false);
    if (testCommits as real) < |commits| as real * 0.2 {
      opportunities := opportunities + [LowTests];
    }
    assert opportunities == Recommendations(ManyFixes(commits), FewRefactors(commits), FewTests(commits), false);
    if (docCommits as real) < |commits| as real * 0.1 {
      opportunities := opportunities + [LowDocs];
    }
    assert opportunities == Recommendations(ManyFixes(commits), FewRefactors(commits), FewTests(commits), FewDocs(commits));
    r := if |opportunities| > 0 then opportunities else [WellMaintained];
  }

  /** `analyzeTechnicalDebt`: the six scores and the recommendations, named after the repository. */
  function TechnicalDebtOf(repo: ProcessedRepo, commits: seq<Commit>): (r: TechnicalDebtMetrics)
    ensures r.repoName == repo.name
    ensures 0.0 <= r.codeComplexity <= 100.0 && 0.0 <= r.duplicateCode <= 100.0
    ensures r.outdatedDependencies <= |commits| && 0.0 <= r.unusedCode <= 100.0
    ensures 0.0 <= r.testDebt <= 100.0 && 0.0 <= r.documentationDebt <= 100.0
    ensures r.refactoringOpportunities != []
  {
    TechnicalDebtMetrics(
      repo.name,
      CodeComplexity(commits),
      DuplicateCode(commits),
      OutdatedDependencies(commits),
      UnusedCode(commits),
      TestDebt(commits),
      DocumentationDebt(commits),
      RefactoringOpportunities(commits))
  }

  /** Without commits there is no complexity, duplication or unused code,
      full test and documentation debt, and only the "well-maintained" note. */
  lemma TechnicalDebtEmpty(repo: ProcessedRepo)
    ensures TechnicalDebtOf(repo, []) ==
      TechnicalDebtMetrics(repo.name, 0.0, 0.0, 0, 0.0, 100.0, 100.0, [WellMaintained])
  {
    RefactoringOpportunitiesEmpty();
  }
}
