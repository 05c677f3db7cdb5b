/** CommitPatternAnalyzer (src/services/behavioral/commitPatternAnalyzer.ts):
    when commits happen (hour of day, day of week), how regular they are,
    and how well their messages are written. */
module CommitPatternAnalyzer {
  import opened Types
  import opened Seqs
  import opened CommitSeqs
  import Text
  import Clock

  // ---------------------------------------------------------------------
  // Hour-of-day and day-of-week distributions

  function HoursOf(commits: seq<Commit>): (r: seq<nat>)
    ensures |r| == |commits|
    ensures forall i :: 0 <= i < |commits| ==> r[i] == Clock.Hour(commits[i].date) && r[i] < 24
  {
    seq(|commits|, i requires 0 <= i < |commits| => Clock.Hour(commits[i].date))
  }

  function WeekdaysOf(commits: seq<Commit>): (r: seq<nat>)
    ensures |r| == |commits|
    ensures forall i :: 0 <= i < |commits| ==> r[i] == Clock.Weekday(commits[i].date) && r[i] < 7
  {
    seq(|commits|, i requires 0 <= i < |commits| => Clock.Weekday(commits[i].date))
  }

  /** The `forEach` that fills the two zeroed count arrays: one increment
      per commit in its hour bin and in its weekday bin. */
  method Distributions(commits: seq<Commit>) returns (hourly: seq<nat>, weekly: seq<nat>)
    ensures hourly == Histogram(HoursOf(commits), 24)
    ensures weekly == Histogram(WeekdaysOf(commits), 7)
  {
    var hourlyDist := new nat[24](_ => 0);
    var weeklyDist := new nat[7](_ => 0);
    assert hourlyDist[..] == Histogram(HoursOf([]), 24);
    assert weeklyDist[..] == Histogram(WeekdaysOf([]), 7);
    var i := 0;
    while i < |commits|
      invariant 0 <= i <= |commits|
      invariant hourlyDist[..] == Histogram(HoursOf(commits[..i]), 24)
      invariant weeklyDist[..] == Histogram(WeekdaysOf(commits[..i]), 7)
    {
      var hour := Clock.Hour(commits[i].date);
      var day := Clock.Weekday(commits[i].date);
      assert HoursOf(commits[..i + 1]) == HoursOf(commits[..i]) + [hour];
      assert WeekdaysOf(commits[..i + 1]) == WeekdaysOf(commits[..i]) + [day];
      HistogramAppend(HoursOf(commits[..i]), hour, 24);
      HistogramAppend(WeekdaysOf(commits[..i]), day, 7);
      hourlyDist[hour] := hourlyDist[hour] + 1;
      weeklyDist[day] := weeklyDist[day] + 1;
      i := i + 1;
    }
    assert commits[..i] == commits;
    hourly, weekly := hourlyDist[..], weeklyDist[..];
  }

  /** Every commit lands in exactly one hour bin and one weekday bin. */
  lemma DistributionsCountEveryCommit(commits: seq<Commit>)
    ensures Sum(Histogram(HoursOf(commits), 24)) == |commits|
    ensures Sum(Histogram(WeekdaysOf(commits), 7)) == |commits|
  {
    HistogramSum(HoursOf(commits), 24);
    HistogramSum(WeekdaysOf(commits), 7);
  }

  // ---------------------------------------------------------------------
  // Average time between commits

  /** `commits.sort(byDate)`: the caller's array is reordered in place into
      the stable ascending-date order. */
  method SortByDate(a: array<Commit>)
    modifies a
    ensures a[..] == SortBy(old(a[..]), DateLess)
  {
    var sorted := SortBy(a[..], DateLess);
    forall i | 0 <= i < a.Length {
      a[i] := sorted[i];
    }
  }

  /** The mean gap in hours between consecutive commits in date order: the
      whole span from the earliest to the latest commit divided by the
      number of gaps, or 0 with fewer than two commits. */
  function AverageTimeBetween(commits: seq<Commit>): (r: real)
    ensures |commits| < 2 ==> r == 0.0
    ensures r >= 0.0
    ensures |commits| >= 2 ==> (r == 0.0 <==> EarliestDate(commits) == LatestDate(commits))
  {
    if |commits| < 2 then 0.0
    else
      assert EarliestDate(commits) <= commits[0].date <= LatestDate(commits);
      Text.Div(Text.Div((LatestDate(commits) - EarliestDate(commits)) as real, (|commits| - 1) as real),
        Clock.MsPerHour as real)
  }

  lemma AverageOfSpan(commits: seq<Commit>, totalTime: int)
    requires |commits| >= 2 && totalTime == LatestDate(commits) - EarliestDate(commits)
    ensures AverageTimeBetween(commits)
         == Text.Div(Text.Div(totalTime as real, (|commits| - 1) as real), Clock.MsPerHour as real)
  {
  }

  /** `calculateAverageTimeBetweenCommits`: sorts the array in place (when it
      has two or more commits), then sums the consecutive gaps, which
      telescope to the span from the first to the last commit. */
  method CalculateAverageTimeBetweenCommits(a: array<Commit>) returns (r: real)
    modifies a
    ensures a[..] == if a.Length < 2 then old(a[..]) else SortBy(old(a[..]), DateLess)
    ensures r == AverageTimeBetween(old(a[..]))
  {
    if a.Length < 2 {
      return 0.0;
    }
    ghost var original := a[..];
    SortByDate(a);
    var totalTime := SumGaps(a);
    SortedByDateSpan(original);
    r := Text.Div(Text.Div(totalTime as real, (a.Length - 1) as real), Clock.MsPerHour as real);
    AverageOfSpan(original, totalTime);
  }

  /** The loop summing the gaps between neighbouring commits of the array,
      which telescope to the span from the first commit to the last. */
  method SumGaps(a: array<Commit>) returns (totalTime: int)
    requires a.Length >= 1
    ensures totalTime == a[..][a.Length - 1].date - a[..][0].date
  {
    totalTime := 0;
    var i := 1;
    while i < a.Length
      invariant 1 <= i <= a.Length
      invariant totalTime == a[i - 1].date - a[0].date
    {
      totalTime := totalTime + (a[i].date - a[i - 1].date);
      i := i + 1;
    }
  }

  // ---------------------------------------------------------------------
  // Commit message quality

  /** The commit types the conventional-commit pattern accepts. */
  const ConventionalTypes: seq<string> :=
    ["fix", "feat", "chore", "docs", "style", "refactor", "test", "perf", "ci", "build"]

  /** The characters a regular-expression `.` does not match. */
  predicate LineTerminator(c: char) {
    c == '\n' || c == '\r' || c == '\U{2028}' || c == '\U{2029}'
  }

  predicate OneLine(s: string) {
    forall i :: 0 <= i < |s| ==> !LineTerminator(s[i])
  }

  /** `(\(.+\))?:` matched at the start of `rest`: a colon, or a non-empty
      parenthesised scope on one line followed by a colon. */
  predicate ScopeThenColon(rest: string) {
    (|rest| > 0 && rest[0] == ':')
    || (|rest| > 0 && rest[0] == '(' &&
        exists k | 2 <= k < |rest| - 1 ::
          rest[k] == ')' && rest[k + 1] == ':' && OneLine(rest[1..k]))
  }

  /** `/^(fix|feat|chore|docs|style|refactor|test|perf|ci|build)(\(.+\))?:/.test(s)`. */
  predicate Conventional(s: string)
    ensures Conventional(s) ==> |s| >= 3 && ':' in s
  {
    exists i | 0 <= i < |ConventionalTypes| ::
      Text.StartsWith(s, ConventionalTypes[i]) && ScopeThenColon(s[|ConventionalTypes[i]|..])
  }

  /** The four 25-point checks of `analyzeCommitMessageQuality` on one
      non-empty message: length strictly between 10 and 100, a first
      character unchanged by upper-casing, no trailing period, and a
      conventional-commit prefix or more than two space-separated words. */
  predicate LengthOk(message: string)
    ensures LengthOk(message) ==> 5 < |message| < 100
  {
    10 < Text.Utf16Length(message) < 100
  }

  /** Length is counted in UTF-16 code units: a leading emoji outside the
      Basic Multilingual Plane counts twice, so "🐛 Fix bugs" (ten
      characters, eleven code units) passes the length check. */
  lemma AstralCharCountsTwice()
    ensures LengthOk("\U{1F41B} Fix bugs") && |"\U{1F41B} Fix bugs"| == 10
  {
    var m := "\U{1F41B} Fix bugs";
    Text.Utf16LengthBmp(m[1..]);
    assert m == [m[0]] + m[1..];
  }

  predicate Capitalised(message: string)
    requires message != []
  {
    message[0] == Text.Upper(message[0])
  }

  predicate NoTrailingPeriod(message: string)
    requires message != []
  {
    message[|message| - 1] != '.'
  }

  /** `message.split(' ').length > 2` holds exactly when there are at least two spaces. */
  predicate Descriptive(message: string) {
    Conventional(Text.LowerStr(message)) || Text.CountChar(message, ' ') >= 2
  }

  /** A non-empty message's score: 25 points for each check it passes. The
      fourth check is written as a conventional-commit test with a word-count
      fallback (`else if`); either way it awards 25 points exactly when the
      message is `Descriptive`. */
  function MessageScore(message: string): (r: nat)
    requires message != []
    ensures r <= 100 && r % 25 == 0
  {
    (if LengthOk(message) then 25 else 0)
    + (if Capitalised(message) then 25 else 0)
    + (if NoTrailingPeriod(message) then 25 else 0)
    + FourthCheckScore(message)
  }

  /** A message scores 100 exactly when it passes all four checks, and 0 exactly when it passes none. */
  lemma MessageScoreExtremes(message: string)
    requires message != []
    ensures MessageScore(message) == 100 <==>
      LengthOk(message) && Capitalised(message) && NoTrailingPeriod(message) && Descriptive(message)
    ensures MessageScore(message) == 0 <==>
      !LengthOk(message) && !Capitalised(message) && !NoTrailingPeriod(message) && !Descriptive(message)
  {
  }

  /** The `if ... else if` of the fourth check awards 25 exactly when the message is `Descriptive`. */
  function FourthCheckScore(message: string): (r: nat)
    ensures r == if Descriptive(message) then 25 else 0
  {
    if Conventional(Text.LowerStr(message)) then 25
    else if Text.CountChar(message, ' ') >= 2 then 25
    else 0
  }

  predicate AllMessagesNonEmpty(commits: seq<Commit>) {
    forall i :: 0 <= i < |commits| ==> commits[i].message != []
  }

  /** Each commit's message score, in commit order. */
  function Scores(commits: seq<Commit>): (r: seq<nat>)
    requires AllMessagesNonEmpty(commits)
    ensures |r| == |commits|
    ensures forall i :: 0 <= i < |r| ==> r[i] == MessageScore(commits[i].message)
  {
    seq(|commits|, i requires 0 <= i < |commits| => MessageScore(commits[i].message))
  }

  /** The running `qualityScore` after the given commits. */
  function ScoreSum(commits: seq<Commit>): (r: nat)
    requires AllMessagesNonEmpty(commits)
    ensures r <= 100 * |commits|
  {
    if commits == [] then 0
    else
      var p := commits[..|commits| - 1];
      assert forall i :: 0 <= i < |p| ==> p[i] == commits[i];
      ScoreSum(p) + MessageScore(commits[|commits| - 1].message)
  }

  /** The running total is the sum of the per-message scores. */
  lemma {:induction false} ScoreSumIsSum(commits: seq<Commit>)
    requires AllMessagesNonEmpty(commits)
    ensures ScoreSum(commits) == Seqs.Sum(Scores(commits))
  {
    if commits != [] {
      var n := |commits| - 1;
      var p := commits[..n];
      assert forall i :: 0 <= i < |p| ==> p[i] == commits[i];
      ScoreSumIsSum(p);
      var before, after, x := Scores(p), Scores(commits), MessageScore(commits[n].message);
      forall k | 0 <= k <= n
        ensures after[k] == (before + [x])[k]
      {
        if k < n {
          assert p[k] == commits[k];
        }
      }
      assert after == before + [x];
      Seqs.SumSnoc(before, x);
    }
  }

  /** The total reaches its maximum exactly when every message scores 100. */
  lemma ScoreSumFull(commits: seq<Commit>)
    requires AllMessagesNonEmpty(commits)
    ensures ScoreSum(commits) == 100 * |commits| <==> forall i :: 0 <= i < |commits| ==> MessageScore(commits[i].message) == 100
  {
    ScoreSumIsSum(commits);
    Seqs.SumBounded(Scores(commits), 100);
  }

  /** One more commit with a non-empty message adds its score to the running total. */
  lemma ScoreSumStep(commits: seq<Commit>, i: nat)
    requires i < |commits| && AllMessagesNonEmpty(commits[..i]) && commits[i].message != []
    ensures AllMessagesNonEmpty(commits[..i + 1])
    ensures ScoreSum(commits[..i + 1]) == ScoreSum(commits[..i]) + MessageScore(commits[i].message)
  {
    assert commits[..i + 1][..i] == commits[..i];
  }

  /** An empty message anywhere makes the whole list throw. */
  lemma EmptyMessageThrows(commits: seq<Commit>, i: nat)
    requires i < |commits| && commits[i].message == []
    ensures MessageQuality(commits) == ThrowsTypeError
  {
  }

  /** `analyzeCommitMessageQuality`: 0 for no commits, a `TypeError` when a
      message is empty (`message[0]` is `undefined`), otherwise the mean
      message score. */
  function MessageQuality(commits: seq<Commit>): (r: Outcome<real>)
    ensures commits == [] ==> r == Returns(0.0)
    ensures r.ThrowsTypeError? <==> !AllMessagesNonEmpty(commits)
    ensures r.Returns? ==> 0.0 <= r.value <= 100.0
  {
    if commits == [] then Returns(0.0)
    else if !AllMessagesNonEmpty(commits) then ThrowsTypeError
    else
      Text.MeanAtMost(ScoreSum(commits), |commits|, 100);
      Returns(Text.Div(ScoreSum(commits) as real, |commits| as real))
  }

  /** The quality is 100 exactly when there are commits and every message passes all four checks. */
  lemma MessageQualityPerfect(commits: seq<Commit>)
    ensures MessageQuality(commits) == Returns(100.0) <==>
      commits != [] && AllMessagesNonEmpty(commits) &&
      forall i :: 0 <= i < |commits| ==> MessageScore(commits[i].message) == 100
  {
    if commits != [] && AllMessagesNonEmpty(commits) {
      Text.MeanEquals(ScoreSum(commits), |commits|, 100);
      ScoreSumFull(commits);
    }
  }

  /** The body of the loop of `analyzeCommitMessageQuality`: `score` gains 25
      for each check the message passes. */
  method ScoreMessage(message: string) returns (score: nat)
    requires message != []
    ensures score == MessageScore(message)
  {
    score := 0;
    if LengthOk(message) {
      score := score + 25;
    }
    if Capitalised(message) {
      score := score + 25;
    }
    if NoTrailingPeriod(message) {
      score := score + 25;
    }
    if Conventional(Text.LowerStr(message)) {
      score := score + 25;
    } else if Text.CountChar(message, ' ') >= 2 {
      score := score + 25;
    }
  }

  /** The loop of `analyzeCommitMessageQuality`, adding each message's score. */
  method AnalyzeCommitMessageQuality(commits: seq<Commit>) returns (r: Outcome<real>)
    ensures r == MessageQuality(commits)
  {
    if |commits| == 0 {
      return Returns(0.0);
    }
    var qualityScore := 0;
    var i := 0;
    while i < |commits|
      invariant 0 <= i <= |commits|
      invariant AllMessagesNonEmpty(commits[..i])
      invariant qualityScore == ScoreSum(commits[..i])
    {
      var message := commits[i].message;
      if message == [] {
        EmptyMessageThrows(commits, i);
        return ThrowsTypeError;
      }
      ScoreSumStep(commits, i);
      var score := ScoreMessage(message);
      qualityScore := qualityScore + score;
      i := i + 1;
    }
    assert commits[..i] == commits;
    r := Returns(Text.Div(qualityScore as real, |commits| as real));
  }

  // ---------------------------------------------------------------------
  // Burst detection

  /** Number of consecutive pairs in `dates` less than an hour apart (the
      difference may be negative when `dates` is not ascending). */
  function CloseGaps(dates: seq<int>): (r: nat)
    ensures r <= if dates == [] then 0 else |dates| - 1
  {
    if |dates| < 2 then 0
    else
      var n := |dates|;
      CloseGaps(dates[..n - 1]) + if dates[n - 1] - dates[n - 2] < Clock.MsPerHour then 1 else 0
  }

  /** `detectBurstPatterns` with the dates ordered by `lt`: more than 30% of
      the commits (counted as gaps) follow their predecessor within an hour. */
  predicate BurstWith(commits: seq<Commit>, lt: (int, int) -> bool) {
    |commits| >= 3 && CloseGaps(SortBy(DatesOf(commits), lt)) as real > |commits| as real * 0.3
  }

  /** `detectBurstPatterns` with the dates in numeric order. */
  predicate DetectBurstPatterns(commits: seq<Commit>) {
    BurstWith(commits, Text.IntLess)
  }

  /** `detectBurstPatterns` as written: `.sort()` without a comparator orders
      the millisecond values as decimal strings. */
  predicate DetectBurstPatternsAsWritten(commits: seq<Commit>) {
    BurstWith(commits, Text.DecimalLess)
  }

  /** When every date has the same number of digits (as all do from
      2001-09-09 to 2286-11-20), the string sort orders them numerically
      and the burst test as written agrees with the intended one. */
  lemma BurstAsWrittenAgreesOnSameWidth(commits: seq<Commit>)
    requires Text.SameWidth(DatesOf(commits))
    ensures DetectBurstPatternsAsWritten(commits) == DetectBurstPatterns(commits)
  {
    Text.DecimalSortIsNumeric(DatesOf(commits));
  }

  /** Commits given in date order, each at least an hour after the previous one. */
  predicate SpacedOut(commits: seq<Commit>) {
    forall i :: 0 < i < |commits| ==> commits[i].date - commits[i - 1].date >= Clock.MsPerHour
  }

  /** Commits given in date order, each within an hour of the previous one. */
  predicate Clustered(commits: seq<Commit>) {
    forall i :: 0 < i < |commits| ==> 0 <= commits[i].date - commits[i - 1].date < Clock.MsPerHour
  }

  /** Commits at least an hour apart are never a burst. */
  lemma SpacedOutIsNoBurst(commits: seq<Commit>)
    requires SpacedOut(commits)
    ensures !DetectBurstPatterns(commits)
  {
    var ds := DatesOf(commits);
    Seqs.SortByOrdered(ds, Text.IntLess);
    CloseGapsNone(ds);
  }

  lemma {:induction false} CloseGapsNone(ds: seq<int>)
    requires forall i :: 0 < i < |ds| ==> ds[i] - ds[i - 1] >= Clock.MsPerHour
    ensures CloseGaps(ds) == 0
  {
    if |ds| >= 2 {
      CloseGapsNone(ds[..|ds| - 1]);
    }
  }

  /** Three or more commits each within an hour of the previous one are a burst. */
  lemma ClusteredIsBurst(commits: seq<Commit>)
    requires |commits| >= 3 && Clustered(commits)
    ensures DetectBurstPatterns(commits)
  {
    var ds := DatesOf(commits);
    Seqs.SortByOrdered(ds, Text.IntLess);
    CloseGapsAll(ds);
  }

  lemma {:induction false} CloseGapsAll(ds: seq<int>)
    requires |ds| > 0
    requires forall i :: 0 < i < |ds| ==> ds[i] - ds[i - 1] < Clock.MsPerHour
    ensures CloseGaps(ds) == |ds| - 1
  {
    if |ds| >= 2 {
      CloseGapsAll(ds[..|ds| - 1]);
    }
  }

  /** Three commits four and ten million milliseconds apart (more than an
      hour each) are reported as a burst as written: the string order puts
      10000000 and 20000000 before 6000000, and the negative difference back
      to 6000000 counts as a gap under an hour. */
  lemma BurstStringSortCounterexample()
    ensures var cs := [Commit("a", "m", 6000000, "dev"), Commit("b", "m", 10000000, "dev"),
                       Commit("c", "m", 20000000, "dev")];
      SpacedOut(cs) && DetectBurstPatternsAsWritten(cs) && !DetectBurstPatterns(cs)
  {
    var cs := [Commit("a", "m", 6000000, "dev"), Commit("b", "m", 10000000, "dev"),
               Commit("c", "m", 20000000, "dev")];
    CounterexampleDates(cs);
    assert SpacedOut(cs);
    SpacedOutIsNoBurst(cs);
    AsWrittenBurstOfCounterexample(cs);
  }

  lemma CounterexampleDates(cs: seq<Commit>)
    requires cs == [Commit("a", "m", 6000000, "dev"), Commit("b", "m", 10000000, "dev"),
                    Commit("c", "m", 20000000, "dev")]
    ensures DatesOf(cs) == [6000000, 10000000, 20000000]
  {
  }

  lemma AsWrittenBurstOfCounterexample(cs: seq<Commit>)
    requires |cs| == 3 && DatesOf(cs) == [6000000, 10000000, 20000000]
    ensures DetectBurstPatternsAsWritten(cs)
  {
    StringOrderOfCounterexample();
    CloseGapsOfCounterexample();
  }

  lemma CloseGapsOfCounterexample()
    ensures CloseGaps([10000000, 20000000, 6000000]) == 1
  {
    assert [10000000, 20000000, 6000000][..2] == [10000000, 20000000];
    assert [10000000, 20000000][..1] == [10000000];
  }

  lemma StringOrderOfCounterexample()
    ensures SortBy([6000000, 10000000, 20000000], Text.DecimalLess) == [10000000, 20000000, 6000000]
  {
    Text.LeadingDigit(6000000, 6, 6);
    Text.LeadingDigit(10000000, 7, 1);
    Text.LeadingDigit(20000000, 7, 2);
    Text.DecimalLessByLeadingDigit(10000000, 6000000);
    Text.DecimalLessByLeadingDigit(20000000, 6000000);
    Text.DecimalLessByLeadingDigit(10000000, 20000000);
    SortTriple(6000000, 10000000, 20000000, Text.DecimalLess);
  }

  /** The loop of `detectBurstPatterns` over the sorted dates. */
  method DetectBursts(commits: seq<Commit>) returns (b: bool)
    ensures b == DetectBurstPatterns(commits)
  {
    if |commits| < 3 {
      return false;
    }
    var commitDates := SortBy(DatesOf(commits), Text.IntLess);
    var burstCount := 0;
    var i := 1;
    while i < |commitDates|
      invariant 1 <= i <= |commitDates|
      invariant burstCount == CloseGaps(commitDates[..i])
    {
      var timeDiff := commitDates[i] - commitDates[i - 1];
      assert commitDates[..i + 1][..i] == commitDates[..i];
      if timeDiff < Clock.MsPerHour {
        burstCount := burstCount + 1;
      }
      i := i + 1;
    }
    assert commitDates[..i] == commitDates;
    b := burstCount as real > |commits| as real * 0.3;
  }

  // ---------------------------------------------------------------------
  // Consistency

  function DayKeys(commits: seq<Commit>): (r: seq<int>)
    ensures |r| == |commits|
    ensures forall i :: 0 <= i < |commits| ==> r[i] == Clock.DayKey(commits[i].date)
  {
    seq(|commits|, i requires 0 <= i < |commits| => Clock.DayKey(commits[i].date))
  }

  /** `Σ (count - mean)²` over the per-day counts. */
  function SquaredDeviations(counts: seq<nat>, mean: real): (r: real)
    ensures r >= 0.0
  {
    if counts == [] then 0.0
    else
      var d := counts[|counts| - 1] as real - mean;
      SquaredDeviations(counts[..|counts| - 1], mean) + d * d
  }

  lemma {:induction false} NoDeviation(counts: seq<nat>, c: nat)
    requires forall i :: 0 <= i < |counts| ==> counts[i] == c
    ensures SquaredDeviations(counts, c as real) == 0.0
  {
    if counts != [] {
      NoDeviation(counts[..|counts| - 1], c);
    }
  }

  /** `calculateConsistencyScore`: 0 below seven commits; otherwise 100 less
      ten times the variance of the number of commits per calendar day
      (over the days that have commits), floored at 0. */
  function ConsistencyScore(commits: seq<Commit>): (r: real)
    ensures 0.0 <= r <= 100.0
    ensures |commits| < 7 ==> r == 0.0
  {
    if |commits| < 7 then 0.0
    else
      var keys := DayKeys(commits);
      var counts := CountsOf(keys, Dedup(keys));
      assert keys[0] in keys;
      DedupSpec(keys);
      var avg := Text.Div(Sum(counts) as real, |counts| as real);
      var variance := Text.Div(SquaredDeviations(counts, avg), |counts| as real);
      if 100.0 - variance * 10.0 > 0.0 then 100.0 - variance * 10.0 else 0.0
  }

  /** Seven or more commits spread evenly, the same number on every day that
      has commits, score a perfect 100. */
  lemma EvenDaysScorePerfect(commits: seq<Commit>, c: nat)
    requires |commits| >= 7
    requires forall i :: 0 <= i < |commits| ==> Occurrences(DayKeys(commits), DayKeys(commits)[i]) == c
    ensures ConsistencyScore(commits) == 100.0
  {
    var keys := DayKeys(commits);
    var counts := CountsOf(keys, Dedup(keys));
    EvenCounts(keys, c);
    assert keys[0] in keys;
    DedupSpec(keys);
    MeanOfEqualCounts(counts, c);
    NoDeviation(counts, c);
    Text.DivEquals(0.0, |counts| as real, 0.0);
  }

  /** When every key occurs `c` times, every per-key count is `c`. */
  lemma EvenCounts(keys: seq<int>, c: nat)
    requires forall i :: 0 <= i < |keys| ==> Occurrences(keys, keys[i]) == c
    ensures forall j :: 0 <= j < |Dedup(keys)| ==> CountsOf(keys, Dedup(keys))[j] == c
  {
    DedupSpec(keys);
    forall j | 0 <= j < |Dedup(keys)| ensures CountsOf(keys, Dedup(keys))[j] == c {
      assert Dedup(keys)[j] in keys;
    }
  }

  /** Equal counts have that count as their mean. */
  lemma MeanOfEqualCounts(counts: seq<nat>, c: nat)
    requires |counts| > 0
    requires forall j :: 0 <= j < |counts| ==> counts[j] == c
    ensures Text.Div(Sum(counts) as real, |counts| as real) == c as real
  {
    SumConstant(counts, c);
    assert (|counts| * c) as real == c as real * |counts| as real;
    Text.DivEquals(Sum(counts) as real, |counts| as real, c as real);
  }

  /** Seven or more commits on a single day score 100. */
  lemma SingleDayScoresPerfect(commits: seq<Commit>)
    requires |commits| >= 7
    requires forall i :: 0 <= i < |commits| ==> Clock.DayKey(commits[i].date) == Clock.DayKey(commits[0].date)
    ensures ConsistencyScore(commits) == 100.0
  {
    var keys := DayKeys(commits);
    forall i | 0 <= i < |commits| ensures Occurrences(keys, keys[i]) == |commits| {
      OccurrencesOfConstant(keys, keys[i]);
    }
    EvenDaysScorePerfect(commits, |commits|);
  }

  lemma {:induction false} OccurrencesOfConstant(s: seq<int>, x: int)
    requires forall i :: 0 <= i < |s| ==> s[i] == x
    ensures Occurrences(s, x) == |s|
  {
    if s != [] {
      OccurrencesOfConstant(s[..|s| - 1], x);
    }
  }

  /** `calculateConsistencyScore`: counts the commits per calendar day, then
      takes the mean and the variance of the counts. */
  method CalculateConsistencyScore(commits: seq<Commit>) returns (r: real)
    ensures r == ConsistencyScore(commits)
  {
    if |commits| < 7 {
      return 0.0;
    }
    var dailyCommits, days := CountCommitsPerDay(commits);
    var commitCounts := seq(|days|, j requires 0 <= j < |days| => dailyCommits[days[j]]);
    assert commitCounts == CountsOf(DayKeys(commits), Dedup(DayKeys(commits)));
    assert DayKeys(commits)[0] in DayKeys(commits);
    DedupSpec(DayKeys(commits));
    var avg := Text.Div(Sum(commitCounts) as real, |commitCounts| as real);
    var variance := Text.Div(SquaredDeviations(commitCounts, avg), |commitCounts| as real);
    r := if 100.0 - variance * 10.0 > 0.0 then 100.0 - variance * 10.0 else 0.0;
  }

  /** The `forEach` of `calculateConsistencyScore`: a map from calendar day to
      commit count, with its keys in insertion order. */
  method CountCommitsPerDay(commits: seq<Commit>) returns (dailyCommits: map<int, nat>, days: seq<int>)
    ensures days == Dedup(DayKeys(commits))
    ensures forall j :: 0 <= j < |days| ==>
      days[j] in dailyCommits && dailyCommits[days[j]] == Occurrences(DayKeys(commits), days[j])
  {
    ghost var keys := DayKeys(commits);
    dailyCommits := map[];
    days := [];
    var i := 0;
    while i < |commits|
      invariant 0 <= i <= |commits|
      invariant days == Dedup(keys[..i])
      invariant dailyCommits == DayCounts(keys[..i])
    {
      var date := Clock.DayKey(commits[i].date);
      assert keys[..i + 1] == keys[..i] + [date];
      DayCountsAppend(keys[..i], date);
      ghost var next := DayCounts(keys[..i + 1]);
      if date !in dailyCommits {
        days := days + [date];
      }
      var previous := if date in dailyCommits then dailyCommits[date] else 0;
      dailyCommits := dailyCommits[date := previous + 1];
      assert dailyCommits == next;
      i := i + 1;
    }
    assert keys[..i] == keys;
    DayCountsSpec(keys);
    DedupSpec(keys);
    forall j | 0 <= j < |days|
      ensures days[j] in dailyCommits && dailyCommits[days[j]] == Occurrences(keys, days[j])
    {
      assert days[j] in Dedup(keys);
    }
  }

  /** The day-to-count map after the given day keys. */
  function DayCounts(keys: seq<int>): map<int, nat> {
    if keys == [] then map[]
    else
      var m := DayCounts(keys[..|keys| - 1]);
      var d := keys[|keys| - 1];
      m[d := (if d in m then m[d] else 0) + 1]
  }

  lemma DayCountsAppend(keys: seq<int>, d: int)
    ensures (d in DayCounts(keys)) == (d in keys)
    ensures DayCounts(keys + [d]) ==
      DayCounts(keys)[d := (if d in DayCounts(keys) then DayCounts(keys)[d] else 0) + 1]
    ensures Dedup(keys + [d]) == if d in DayCounts(keys) then Dedup(keys) else Dedup(keys) + [d]
  {
    DayCountsSnoc(keys, d);
    DayCountsSpec(keys);
    DedupAppend(keys, d);
  }

  /** One more day key adds one to that day's count. */
  lemma DayCountsSnoc(keys: seq<int>, d: int)
    ensures DayCounts(keys + [d]) ==
      DayCounts(keys)[d := (if d in DayCounts(keys) then DayCounts(keys)[d] else 0) + 1]
  {
    var ks := keys + [d];
    assert ks[..|ks| - 1] == keys && ks[|ks| - 1] == d;
  }

  /** The map holds exactly the days that occur, each with its number of occurrences. */
  lemma {:induction false} DayCountsSpec(keys: seq<int>)
    ensures forall d :: d in DayCounts(keys) <==> d in keys
    ensures forall d :: d in DayCounts(keys) ==> DayCounts(keys)[d] == Occurrences(keys, d)
  {
    if keys != [] {
      var p := keys[..|keys| - 1];
      var x := keys[|keys| - 1];
      assert keys == p + [x];
      DayCountsSpec(p);
      forall d ensures Occurrences(keys, d) == Occurrences(p, d) + if x == d then 1 else 0 {
        OccurrencesAppend(p, x, d);
      }
      OccurrencesPositive(p, x);
    }
  }

  // ---------------------------------------------------------------------
  // The whole analysis

  /** `analyzeCommitPatterns`: for no commits, zeroed distributions and
      scores; otherwise the distributions of the commits, then the average
      gap (which sorts the commits by date when there are two or more), the
      message quality, the burst flag and the consistency score of the
      sorted commits. A commit with an empty message makes the whole
      analysis throw. */
  function CommitPatterns(commits: seq<Commit>): (r: Outcome<CommitPattern>)
    ensures r.ThrowsTypeError? <==> !AllMessagesNonEmpty(commits)
    ensures r.Returns? ==>
      && |r.value.hourlyDistribution| == 24 && Sum(r.value.hourlyDistribution) == |commits|
      && |r.value.weeklyDistribution| == 7 && Sum(r.value.weeklyDistribution) == |commits|
      && 0.0 <= r.value.commitMessageQuality <= 100.0
      && r.value.averageTimeBetweenCommits >= 0.0
      && 0.0 <= r.value.consistencyScore <= 100.0
      && (|commits| < 3 ==> !r.value.burstPatterns)
  {
    if commits == [] then
      ZerosSum(24);
      ZerosSum(7);
      Returns(CommitPattern(Zeros(24), Zeros(7), 0.0, 0.0, false, 0.0))
    else
      var sorted := if |commits| < 2 then commits else SortBy(commits, DateLess);
      SortedMessages(commits);
      DistributionsCountEveryCommit(commits);
      match MessageQuality(sorted)
      case ThrowsTypeError => ThrowsTypeError
      case Returns(quality) =>
        Returns(CommitPattern(
          Histogram(HoursOf(commits), 24),
          Histogram(WeekdaysOf(commits), 7),
          quality,
          AverageTimeBetween(commits),
          DetectBurstPatterns(sorted),
          ConsistencyScore(sorted)))
  }

  /** Without commits the analysis returns the fixed defaults: empty
      histograms and zero or false everywhere else. Each default is also
      what the general computation gives on no commits. */
  lemma CommitPatternsEmpty()
    ensures CommitPatterns([]) == Returns(CommitPattern(Zeros(24), Zeros(7), 0.0, 0.0, false, 0.0))
    ensures Histogram(HoursOf([]), 24) == Zeros(24) && Histogram(WeekdaysOf([]), 7) == Zeros(7)
    ensures MessageQuality([]) == Returns(0.0) && AverageTimeBetween([]) == 0.0
    ensures !DetectBurstPatterns([]) && ConsistencyScore([]) == 0.0
  {
  }

  /** Sorting keeps the set of messages, so it keeps whether one is empty. */
  lemma SortedMessages(commits: seq<Commit>)
    ensures AllMessagesNonEmpty(SortBy(commits, DateLess)) == AllMessagesNonEmpty(commits)
  {
    var s := SortBy(commits, DateLess);
    SortByPermutes(commits, DateLess);
    if !AllMessagesNonEmpty(commits) {
      var i :| 0 <= i < |commits| && commits[i].message == [];
      assert commits[i] in multiset(s);
      var j :| 0 <= j < |s| && s[j] == commits[i];
    }
    if !AllMessagesNonEmpty(s) {
      var i :| 0 <= i < |s| && s[i].message == [];
      assert s[i] in multiset(commits);
      var j :| 0 <= j < |commits| && commits[j] == s[i];
    }
  }

  /** `analyzeCommitPatterns` on the caller's array, which is left sorted by
      date when it holds two or more commits. */
  method AnalyzeCommitPatterns(a: array<Commit>) returns (r: Outcome<CommitPattern>)
    modifies a
    ensures r == CommitPatterns(old(a[..]))
    ensures a[..] == if a.Length < 2 then old(a[..]) else SortBy(old(a[..]), DateLess)
  {
    if a.Length == 0 {
      return Returns(CommitPattern(Zeros(24), Zeros(7), 0.0, 0.0, false, 0.0));
    }
    var hourlyDist, weeklyDist := Distributions(a[..]);
    var avgTimeBetween := CalculateAverageTimeBetweenCommits(a);
    var messageQuality := AnalyzeCommitMessageQuality(a[..]);
    if messageQuality.ThrowsTypeError? {
      return ThrowsTypeError;
    }
    var burst := DetectBursts(a[..]);
    var consistency := CalculateConsistencyScore(a[..]);
    r := Returns(CommitPattern(hourlyDist, weeklyDist, messageQuality.value, avgTimeBetween, burst, consistency));
  }
}
