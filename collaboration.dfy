/** The collaboration analyzer (src/services/behavioral/collaborationAnalyzer.ts):
    keyword percentages for knowledge sharing, code review, mentorship and
    conflict resolution, a score for the number of distinct authors, and a
    communication score built on the commit-message quality. */
module CollaborationAnalyzer {
  import opened Types
  import opened CommitSeqs
  import opened Text
  import CommitPatternAnalyzer

  const KnowledgeKeywords: seq<string> := ["doc", "comment", "readme", "guide"]
  const ReviewKeywords: seq<string> := ["review", "merge", "pr", "pull request"]
  const MentorshipKeywords: seq<string> := ["help", "guide", "example", "tutorial"]
  const ConflictKeywords: seq<string> := ["conflict", "merge", "resolve"]

  /** `calculateCrossTeamContributions`: 20 points per distinct author, capped at 100. */
  function CrossTeamContributions(commits: seq<Commit>): (r: real)
    ensures 0.0 <= r <= 100.0
    ensures r == 0.0 <==> commits == []
    ensures r == 100.0 <==> |AuthorSet(commits)| >= 5
  {
    assert commits != [] ==> commits[0].author in AuthorSet(commits);
    var uniqueAuthors := |AuthorSet(commits)|;
    if uniqueAuthors * 20 < 100 then (uniqueAuthors * 20) as real else 100.0
  }

  /** `calculateKnowledgeSharing`. */
  function KnowledgeSharing(commits: seq<Commit>): (r: real)
    ensures 0.0 <= r <= 100.0 && (commits == [] ==> r == 0.0)
    ensures r == 100.0 <==> commits != [] && MatchCount(commits, KnowledgeKeywords) == |commits|
  {
    PctFull(MatchCount(commits, KnowledgeKeywords), |commits|);
    Pct(MatchCount(commits, KnowledgeKeywords), |commits|)
  }

  /** `calculateCodeReviewParticipation`. */
  function CodeReviewParticipation(commits: seq<Commit>): (r: real)
    ensures 0.0 <= r <= 100.0 && (commits == [] ==> r == 0.0)
    ensures r == 100.0 <==> commits != [] && MatchCount(commits, ReviewKeywords) == |commits|
  {
    PctFull(MatchCount(commits, ReviewKeywords), |commits|);
    Pct(MatchCount(commits, ReviewKeywords), |commits|)
  }

  /** `calculateMentorshipActivity`. */
  function MentorshipActivity(commits: seq<Commit>): (r: real)
    ensures 0.0 <= r <= 100.0 && (commits == [] ==> r == 0.0)
    ensures r == 100.0 <==> commits != [] && MatchCount(commits, MentorshipKeywords) == |commits|
  {
    PctFull(MatchCount(commits, MentorshipKeywords), |commits|);
    Pct(MatchCount(commits, MentorshipKeywords), |commits|)
  }

  /** `calculateConflictResolution`. */
  function ConflictResolution(commits: seq<Commit>): (r: real)
    ensures 0.0 <= r <= 100.0 && (commits == [] ==> r == 0.0)
    ensures r == 100.0 <==> commits != [] && MatchCount(commits, ConflictKeywords) == |commits|
  {
    PctFull(MatchCount(commits, ConflictKeywords), |commits|);
    Pct(MatchCount(commits, ConflictKeywords), |commits|)
  }

  /** A "merge" commit counts toward both review participation and conflict
      resolution, so each of those counts is at least the number of merges. */
  lemma MergeCountsTwice(commits: seq<Commit>)
    ensures MatchCount(commits, ["merge"]) <= MatchCount(commits, ReviewKeywords)
    ensures MatchCount(commits, ["merge"]) <= MatchCount(commits, ConflictKeywords)
  {
    MatchCountMonotone(commits, ["merge"], ReviewKeywords);
    MatchCountMonotone(commits, ["merge"], ConflictKeywords);
  }

  /** When every message mentions "merge", both scores are full. */
  lemma AllMergesFull(commits: seq<Commit>)
    requires commits != [] && MatchCount(commits, ["merge"]) == |commits|
    ensures CodeReviewParticipation(commits) == 100.0 && ConflictResolution(commits) == 100.0
  {
    MergeCountsTwice(commits);
  }

  /** The per-commit score of `calculateCommitMessageQuality`, whose fourth
      check is one `||` condition. */
  function DisjunctiveScore(message: string): (r: nat)
    requires message != []
  {
    (if CommitPatternAnalyzer.LengthOk(message) then 25 else 0)
    + (if CommitPatternAnalyzer.Capitalised(message) then 25 else 0)
    + (if CommitPatternAnalyzer.NoTrailingPeriod(message) then 25 else 0)
    + (if CommitPatternAnalyzer.Conventional(LowerStr(message)) || CountChar(message, ' ') >= 2 then 25 else 0)
  }

  /** The `||` form scores every message exactly as the `else if` form of the
      commit-pattern analyzer does. */
  lemma ScoreFormsAgree(message: string)
    requires message != []
    ensures DisjunctiveScore(message) == CommitPatternAnalyzer.MessageScore(message)
  {
  }

  /** The body of the loop of `calculateCommitMessageQuality`, with the
      fourth check as one `||` condition. */
  method ScoreMessage(message: string) returns (score: nat)
    requires message != []
    ensures score == CommitPatternAnalyzer.MessageScore(message)
  {
    score := 0;
    if CommitPatternAnalyzer.LengthOk(message) {
      score := score + 25;
    }
    if CommitPatternAnalyzer.Capitalised(message) {
      score := score + 25;
    }
    if CommitPatternAnalyzer.NoTrailingPeriod(message) {
      score := score + 25;
    }
    if CommitPatternAnalyzer.Conventional(LowerStr(message)) || CountChar(message, ' ') >= 2 {
      score := score + 25;
    }
    ScoreFormsAgree(message);
  }

  /** `calculateCommitMessageQuality`: 0 without commits, otherwise the
      mean of the per-commit scores; an empty message throws. The result is
      the commit-pattern analyzer's message quality. */
  method CalculateCommitMessageQuality(commits: seq<Commit>) returns (r: Outcome<real>)
    ensures r == CommitPatternAnalyzer.MessageQuality(commits)
  {
    if |commits| == 0 {
      return Returns(0.0);
    }
    var qualityScore := 0;
    var i := 0;
    while i < |commits|
      invariant 0 <= i <= |commits|
      invariant CommitPatternAnalyzer.AllMessagesNonEmpty(commits[..i])
      invariant qualityScore == CommitPatternAnalyzer.ScoreSum(commits[..i])
    {
      var message := commits[i].message;
      if message == [] {
        CommitPatternAnalyzer.EmptyMessageThrows(commits, i);
        return ThrowsTypeError;
      }
      CommitPatternAnalyzer.ScoreSumStep(commits, i);
      var score := ScoreMessage(message);
      qualityScore := qualityScore + score;
      i := i + 1;
    }
    assert commits[..i] == commits;
    r := Returns(Div(qualityScore as real, |commits| as real));
  }

  /** The activity half of the communication score: `min(n / 30, 1) * 100`, or 0 without commits. */
  function CommitActivity(n: nat): (r: real)
    ensures 0.0 <= r <= 100.0
    ensures r == 0.0 <==> n == 0
    ensures r == 100.0 <==> n >= 30
  {
    if n > 0 then (if n < 30 then n as real / 30.0 else 1.0) * 100.0 else 0.0
  }

  /** `calculateCommunicationFrequency`: the mean of the message quality and
      the commit activity; it throws when the quality does. */
  function CommunicationFrequency(commits: seq<Commit>): (r: Outcome<real>)
    ensures r.ThrowsTypeError? <==> !CommitPatternAnalyzer.AllMessagesNonEmpty(commits)
    ensures r.Returns? ==> 0.0 <= r.value <= 100.0
    ensures commits == [] ==> r == Returns(0.0)
  {
    match CommitPatternAnalyzer.MessageQuality(commits)
    case ThrowsTypeError => ThrowsTypeError
    case Returns(quality) => Returns((quality + CommitActivity(|commits|)) / 2.0)
  }

  /** Full communication needs thirty or more commits whose messages all pass every check. */
  lemma CommunicationFull(commits: seq<Commit>)
    ensures CommunicationFrequency(commits) == Returns(100.0) <==>
      |commits| >= 30 && CommitPatternAnalyzer.MessageQuality(commits) == Returns(100.0)
  {
  }

  /** `analyzeCollaborationSignals`: the six scores under the fixed name
      "repository"; it throws when the message quality does. */
  function CollaborationSignalsOf(commits: seq<Commit>): (r: Outcome<CollaborationSignals>)
    ensures r.ThrowsTypeError? <==> !CommitPatternAnalyzer.AllMessagesNonEmpty(commits)
    ensures r.Returns? ==> r.value.repoName == "repository"
    ensures r.Returns? ==>
      && 0.0 <= r.value.codeReviewParticipation <= 100.0
      && 0.0 <= r.value.crossTeamContributions <= 100.0
      && 0.0 <= r.value.knowledgeSharing <= 100.0
      && 0.0 <= r.value.mentorshipActivity <= 100.0
      && 0.0 <= r.value.communicationFrequency <= 100.0
      && 0.0 <= r.value.conflictResolution <= 100.0
  {
    match CommunicationFrequency(commits)
    case ThrowsTypeError => ThrowsTypeError
    case Returns(communication) =>
      Returns(CollaborationSignals(
        "repository",
        CodeReviewParticipation(commits),
        CrossTeamContributions(commits),
        KnowledgeSharing(commits),
        MentorshipActivity(commits),
        communication,
        ConflictResolution(commits)))
  }

  /** The signals in terms of the message quality they are built from. */
  lemma SignalsOfQuality(commits: seq<Commit>)
    ensures CommitPatternAnalyzer.MessageQuality(commits).ThrowsTypeError? ==>
      CollaborationSignalsOf(commits) == ThrowsTypeError
    ensures CommitPatternAnalyzer.MessageQuality(commits).Returns? ==>
      var quality := CommitPatternAnalyzer.MessageQuality(commits).value;
      CollaborationSignalsOf(commits) == Returns(CollaborationSignals(
        "repository",
        CodeReviewParticipation(commits),
        CrossTeamContributions(commits),
        KnowledgeSharing(commits),
        MentorshipActivity(commits),
        (quality + CommitActivity(|commits|)) / 2.0,
        ConflictResolution(commits)))
  {
    match CommitPatternAnalyzer.MessageQuality(commits)
    case ThrowsTypeError =>
      assert CommunicationFrequency(commits) == ThrowsTypeError;
    case Returns(quality) =>
      assert CommunicationFrequency(commits) == Returns((quality + CommitActivity(|commits|)) / 2.0);
  }

  /** Without commits every score is 0. */
  lemma CollaborationEmpty()
    ensures CollaborationSignalsOf([]) == Returns(CollaborationSignals("repository", 0.0, 0.0, 0.0, 0.0, 0.0, 0.0))
  {
  }
}
