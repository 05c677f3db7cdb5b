# Commit-metadata scoring engine, modelled in Dafny

This project models the behavioural-intelligence engine of a multi-platform
repository dashboard, together with the repository-record normalisation in
its four platform clients.

**The engine.** It takes the recent commits of a repository and computes
scores from them. Each commit is a record `{sha, message, date, author}`;
some scores also read the processed repository record. The engine is built
from six analyzers:

- **Developer activity**: one record per author, with a commit count, the last activity, a commit frequency and an engagement score.
- **Commit patterns**: hour-of-day and day-of-week histograms, the average gap between commits, a message-quality score, burst detection and a per-day consistency score.
- **Repository health**: a composite health score, the age of the latest commit, the developers active in the last 30 days, and keyword percentages for churn, tests, documentation and technical debt, plus an issue-resolution estimate.
- **Security**: three families of suspicious keywords, a vulnerability count, a dependency-risk percentage and a compliance score that loses ten points per flag.
- **Collaboration**: keyword percentages for review, knowledge sharing, mentorship and conflict resolution, an author-count score and a communication score.
- **Technical debt**: keyword percentages, test and documentation debt as the complements of coverage, and recommendations chosen by four threshold rules.

The engine exists twice in the source: as six analyzer classes, and as one
service class (`BehavioralIntelligenceService`) that the dashboard calls.
Module `BehavioralIntelligence` models the service class. Its methods are
built from the same helpers as the analyzers and are proved to return the
analyzers' records.

**Platform clients.** Each client (GitHub, GitLab, Bitbucket, Azure DevOps)
turns API objects into `Repository` records. Its `processRepos` then turns
those into dashboard records:

- It classifies a status (legacy, planning, development or active).
- It defaults a missing description.
- It keeps at most five technologies.

The Bitbucket client also cuts every commit message to its first line.

## Modelling conventions

- **Dates.** A date is an integer number of milliseconds since the epoch.
- **The clock.** Every clock reading (`Date.now()`, `new Date()`) is the parameter `now`.
  - The scan timestamp of the security record is the string parameter `scanTime`.
  - Local time (hour, weekday, calendar day) is taken to be UTC.
- **Scores** are `real`. JavaScript's `Infinity` for the age of an empty commit list is `Days.Infinity`.
- **Text.**
  - `toLowerCase` and `toUpperCase` act on ASCII letters only.
  - `includes` is substring search (`Text.Contains`).
  - A keyword test over a list of keywords is `Text.Mentions`.
  - A string is a sequence of Unicode characters. `message.length` counts UTF-16 code units, so a character outside the Basic Multilingual Plane counts twice (`Text.Utf16Length`). Indexing and the regular expression treat such a character as a whole, which gives the same result for the checks the engine makes.
- **Empty messages.** The message-quality check reads `message[0].toUpperCase()`, which throws a `TypeError` on an empty message. That case is the `Outcome.ThrowsTypeError` result. Every record that depends on the message quality propagates it.
- **In-place sorts.** A sort of the caller's commit array is a method on `array<Commit>`. Its postcondition is that the array now holds the stable ascending-date order of its old contents.
- **Mutable state.** Maps and lists that the source fills step by step are built by loops in methods. Each method is proved equal to a specification function, and the properties are proved about those functions.

## Model

| member | source | states |
|---|---|---|
| Clock.Hour | src/services/behavioral/commitPatternAnalyzer.ts:22-23 | the hour bin of a commit is below 24 |
| Clock.Weekday | src/services/behavioral/commitPatternAnalyzer.ts:24 | the weekday bin of a commit is below 7 (0 is Sunday) |
| Clock.DaysBetween | src/services/behavioral/developerAnalyzer.ts:49 | elapsed days times the day length is the elapsed milliseconds; positive exactly when the later time is later, zero exactly when equal |
| Clock.RecencyScore | src/services/behavioral/developerAnalyzer.ts:48-51 | never negative, at most 100 for a past date, 100 at the current instant, 0 from 50 days on |
| Text.LowerStr | src/services/behavioral/securityAnalyzer.ts:11 | lower-casing keeps the length and maps every character |
| Text.Pct | src/services/behavioral/repositoryHealthAnalyzer.ts:72 | the capped percentage lies in [0,100], is 0 with no matches, and 100 when all n match |
| Text.PctTimes | src/services/behavioral/repositoryHealthAnalyzer.ts:72 | with k ≤ n and n > 0 the percentage is exactly 100·k/n: it times n is 100·k |
| Text.PctFull | src/services/behavioral/repositoryHealthAnalyzer.ts:72 | with at most n matches, the percentage is 100 exactly when there are commits and all of them match |
| Text.MatchCountPermutation | src/services/behavioralIntelligence.ts:349-352 | reordering the commits changes no keyword count |
| Text.MatchCountEquivalent | src/services/behavioral/repositoryHealthAnalyzer.ts:92-101 | keyword lists that every message mentions alike give equal counts |
| Text.ContainsTransitive | src/services/behavioral/repositoryHealthAnalyzer.ts:96-97 | a text containing a word contains every piece of that word |
| Text.LeadingDigit | src/services/behavioral/developerAnalyzer.ts:56 | a number between d·10^k and (d+1)·10^k is written with first digit d |
| Text.DecimalLessByLeadingDigit | src/services/behavioral/developerAnalyzer.ts:56 | two numbers whose decimal strings start with different digits sort, as strings, by those digits |
| Text.DecimalLess | src/services/behavioral/developerAnalyzer.ts:56 | defines the comparator-less sort order: numbers compare as their decimal strings, code unit by code unit |
| Text.SameWidthOrder | src/services/behavioral/developerAnalyzer.ts:56 | two non-negative numbers with the same number of digits compare as strings exactly as they compare as numbers, and are written alike exactly when equal |
| Text.DecimalSortIsNumeric | src/services/behavioral/developerAnalyzer.ts:56 | when every number has the same number of digits, the comparator-less sort gives the numeric order |
| Text.ThirteenDigits | src/services/behavioral/developerAnalyzer.ts:56 | dates from 10^12 up to 10^13 ms (2001-09-09 to 2286-11-20) all have the same number of digits |
| Seqs.SortByAgree | src/services/behavioral/developerAnalyzer.ts:56 | two comparators that agree on every pair of elements give the same stable sort |
| Text.DecimalInjective | src/services/githubApi.ts:81 | `toString` writes two integers alike exactly when they are equal |
| Text.Utf16Length | src/services/behavioral/commitPatternAnalyzer.ts:64 | a string's length in UTF-16 code units lies between its number of characters and twice that |
| Text.Utf16LengthBmp | src/services/behavioral/commitPatternAnalyzer.ts:64 | without characters outside the Basic Multilingual Plane, the UTF-16 length is the number of characters |
| CommitSeqs.AuthorSetBound | src/services/behavioral/repositoryHealthAnalyzer.ts:28 | there are no more distinct authors than commits |
| CommitSeqs.DistinctAuthorsCount | src/services/behavioral/developerAnalyzer.ts:9-26 | the first-appearance list of authors has one entry per distinct author |
| CommitSeqs.LatestDate | src/services/behavioral/repositoryHealthAnalyzer.ts:41-43 | the latest date is some commit's date and no commit is later |
| CommitSeqs.EarliestDate | src/services/behavioral/developerAnalyzer.ts:56-57 | the earliest date is some commit's date and no commit is earlier |
| CommitSeqs.ByAuthorSpec | src/services/behavioral/developerAnalyzer.ts:36 | the filter by author keeps exactly that author's commits, in order |
| CommitSeqs.SortedByDateSpan | src/services/behavioral/commitPatternAnalyzer.ts:43 | after the date sort the first commit has the earliest date and the last the latest |
| DeveloperAnalyzer.EngagementScore | src/services/behavioral/developerAnalyzer.ts:42-46 | never negative, at most 100 when the last activity is not in the future, 100 for 50+ commits at the current instant, and half the volume score once the recency part has run out |
| DeveloperAnalyzer.CommitFrequency | src/services/behavioral/developerAnalyzer.ts:53-61 | 0 without commits or when all commits share one instant; otherwise positive and equal to commits per day of span between the earliest and latest commit |
| DeveloperAnalyzer.CommitFrequencyAsWritten | src/services/behavioral/developerAnalyzer.ts:53-61 | the frequency with the comparator-less string sort: 0 without commits, never negative |
| DeveloperAnalyzer.AsWrittenAgreesOnSameWidth | src/services/behavioral/developerAnalyzer.ts:53-61 | when every date has the same number of digits, the frequency as written equals the numeric-order frequency |
| DeveloperAnalyzer.CommitFrequencyStringSortCounterexample | src/services/behavioral/developerAnalyzer.ts:56 | for two commits at 999999999999 and 1000000000000 ms the string sort gives frequency 0 while the numeric order gives a positive one |
| DeveloperAnalyzer.StringOrderReversesPair | src/services/behavioral/developerAnalyzer.ts:56-60 | any two dates that the string order reverses give frequency 0 as written but a positive one in numeric order |
| DeveloperAnalyzer.TallyAuthors | src/services/behavioral/developerAnalyzer.ts:9-31 | the first pass yields one map entry per author, in first-appearance order, each holding that author's commit count and latest date |
| DeveloperAnalyzer.TallyMapSpec | src/services/behavioral/developerAnalyzer.ts:9-31 | the tally map has exactly the authors as keys and each entry is that author's tally |
| DeveloperAnalyzer.Developers | src/services/behavioral/developerAnalyzer.ts:6-40 | defines the result: the records for the distinct authors in first-appearance order (its properties are in DevelopersOnePerAuthor and DevelopersCountCommits) |
| DeveloperAnalyzer.AnalyzeDeveloperActivity | src/services/behavioral/developerAnalyzer.ts:6-40 | the two passes return the developer records of the specification, one per author in first-appearance order |
| DeveloperAnalyzer.DevelopersOnePerAuthor | src/services/behavioral/developerAnalyzer.ts:9-26 | exactly one record per distinct author, names pairwise distinct, id equal to name, and the placeholder fields empty or zero |
| DeveloperAnalyzer.DevelopersCountCommits | src/services/behavioral/developerAnalyzer.ts:28-30 | each record counts exactly its author's commits (at least one), its last activity is the latest of those dates, and the counts add up to the number of commits |
| DeveloperAnalyzer.RecordLatest | src/services/behavioral/developerAnalyzer.ts:23-30 | an author's last activity is one of their commit dates and no commit of theirs is later |
| DeveloperAnalyzer.TotalIsSum | src/services/behavioral/developerAnalyzer.ts:28-29 | the total commits over all records equals the number of commits |
| CommitPatternAnalyzer.Distributions | src/services/behavioral/commitPatternAnalyzer.ts:18-25 | the two count arrays are the 24-bin hour histogram and the 7-bin weekday histogram of the commits |
| CommitPatternAnalyzer.DistributionsCountEveryCommit | src/services/behavioral/commitPatternAnalyzer.ts:21-25 | each histogram sums to the number of commits |
| CommitPatternAnalyzer.SortByDate | src/services/behavioral/commitPatternAnalyzer.ts:43 | the caller's array is replaced by the stable ascending-date order of its old contents |
| Seqs.SortBySorted | src/services/behavioral/commitPatternAnalyzer.ts:43 | a stable sort by a comparator that compares a numeric key is ascending in that key |
| Seqs.SortByPermutes | src/services/behavioral/commitPatternAnalyzer.ts:43 | the stable sort is a permutation of its input: no commit is lost or duplicated |
| CommitPatternAnalyzer.AverageTimeBetween | src/services/behavioral/commitPatternAnalyzer.ts:40-52 | the mean gap in hours: 0 below two commits, never negative, and with two or more commits 0 exactly when they all share one instant |
| CommitPatternAnalyzer.CalculateAverageTimeBetweenCommits | src/services/behavioral/commitPatternAnalyzer.ts:40-52 | the summed consecutive gaps of the sorted array telescope to the mean gap of the original commits; the array is left sorted when it has two or more commits and untouched otherwise |
| CommitPatternAnalyzer.MessageScore | src/services/behavioral/commitPatternAnalyzer.ts:59-78 | a message scores a multiple of 25, at most 100 |
| CommitPatternAnalyzer.MessageScoreExtremes | src/services/behavioral/commitPatternAnalyzer.ts:59-78 | a message scores 100 exactly when it passes all four checks, and 0 exactly when it passes none |
| CommitPatternAnalyzer.LengthOk | src/services/behavioral/commitPatternAnalyzer.ts:64 | the length check counts UTF-16 code units, strictly between 10 and 100; a passing message has between 6 and 99 characters |
| CommitPatternAnalyzer.AstralCharCountsTwice | src/services/behavioral/commitPatternAnalyzer.ts:64 | a ten-character message that starts with an emoji outside the Basic Multilingual Plane passes the length check, as its eleven code units do in JavaScript |
| CommitPatternAnalyzer.Conventional | src/services/behavioral/commitPatternAnalyzer.ts:73 | the conventional-commit pattern: a message that matches has at least three characters and contains a colon |
| CommitPatternAnalyzer.FourthCheckScore | src/services/behavioral/commitPatternAnalyzer.ts:73-77 | the if/else-if fourth check awards 25 exactly when the message is a conventional commit or has more than two space-separated pieces |
| CommitPatternAnalyzer.ScoreSum | src/services/behavioral/commitPatternAnalyzer.ts:57-80 | the running total is at most 100 per commit |
| CommitPatternAnalyzer.ScoreSumIsSum | src/services/behavioral/commitPatternAnalyzer.ts:57-80 | the running total is the sum of the per-message scores |
| CommitPatternAnalyzer.ScoreSumFull | src/services/behavioral/commitPatternAnalyzer.ts:57-80 | the total reaches 100 per commit exactly when every message scores 100 |
| CommitPatternAnalyzer.MessageQuality | src/services/behavioral/commitPatternAnalyzer.ts:54-83 | 0 without commits, a TypeError exactly when some message is empty, otherwise a mean in [0,100] |
| CommitPatternAnalyzer.MessageQualityPerfect | src/services/behavioral/commitPatternAnalyzer.ts:54-83 | the quality is 100 exactly when there are commits and every message passes all four checks |
| CommitPatternAnalyzer.ScoreMessage | src/services/behavioral/commitPatternAnalyzer.ts:61-77 | the step-by-step score equals the message score |
| CommitPatternAnalyzer.AnalyzeCommitMessageQuality | src/services/behavioral/commitPatternAnalyzer.ts:54-83 | the accumulating loop returns the message quality, throwing at the first empty message |
| CommitPatternAnalyzer.CloseGaps | src/services/behavioral/commitPatternAnalyzer.ts:91-96 | there are no more close gaps than adjacent pairs |
| CommitPatternAnalyzer.DetectBurstPatterns | src/services/behavioral/commitPatternAnalyzer.ts:85-99 | defines the burst test in numeric date order: three or more commits, with more than 30% of them following their predecessor within an hour |
| CommitPatternAnalyzer.DetectBurstPatternsAsWritten | src/services/behavioral/commitPatternAnalyzer.ts:85-99 | defines the same test with the dates in the comparator-less string order |
| CommitPatternAnalyzer.BurstAsWrittenAgreesOnSameWidth | src/services/behavioral/commitPatternAnalyzer.ts:88 | when every date has the same number of digits, the burst test as written agrees with the numeric-order one |
| CommitPatternAnalyzer.SpacedOutIsNoBurst | src/services/behavioral/commitPatternAnalyzer.ts:85-99 | commits at least an hour apart are never a burst |
| CommitPatternAnalyzer.ClusteredIsBurst | src/services/behavioral/commitPatternAnalyzer.ts:85-99 | three or more commits each within an hour of the previous one are a burst |
| CommitPatternAnalyzer.BurstStringSortCounterexample | src/services/behavioral/commitPatternAnalyzer.ts:88 | three commits more than an hour apart count as a burst under the string sort, but not in numeric order |
| CommitPatternAnalyzer.DetectBursts | src/services/behavioral/commitPatternAnalyzer.ts:85-99 | the counting loop over the sorted dates returns the burst predicate: false below three commits, else more than 30% close gaps |
| CommitPatternAnalyzer.ConsistencyScore | src/services/behavioral/commitPatternAnalyzer.ts:101-115 | 0 below seven commits, always in [0,100] |
| CommitPatternAnalyzer.EvenDaysScorePerfect | src/services/behavioral/commitPatternAnalyzer.ts:101-115 | seven or more commits with the same count on every active day score 100 |
| CommitPatternAnalyzer.SingleDayScoresPerfect | src/services/behavioral/commitPatternAnalyzer.ts:101-115 | seven or more commits on one day score 100 |
| CommitPatternAnalyzer.CountCommitsPerDay | src/services/behavioral/commitPatternAnalyzer.ts:104-108 | the day map lists each active day once, in first-appearance order, with its number of commits |
| CommitPatternAnalyzer.DayCountsSpec | src/services/behavioral/commitPatternAnalyzer.ts:104-108 | the day map holds exactly the days that occur, each with its number of occurrences |
| CommitPatternAnalyzer.CalculateConsistencyScore | src/services/behavioral/commitPatternAnalyzer.ts:101-115 | the map-and-reduce computation returns the consistency score |
| CommitPatternAnalyzer.CommitPatterns | src/services/behavioral/commitPatternAnalyzer.ts:6-38 | a TypeError exactly when a message is empty; otherwise 24 and 7 bins each summing to n, quality and consistency in [0,100], a gap of at least 0, and no burst below three commits |
| CommitPatternAnalyzer.CommitPatternsEmpty | src/services/behavioral/commitPatternAnalyzer.ts:6-16 | without commits the record is the fixed default (all-zero bins, quality, gap and consistency 0, no burst), and each default equals what the general computation gives on no commits |
| CommitPatternAnalyzer.AnalyzeCommitPatterns | src/services/behavioral/commitPatternAnalyzer.ts:6-38 | returns the commit-pattern record of the original commits and leaves the caller's array sorted by date when it has two or more |
| RepositoryHealthAnalyzer.HealthScore | src/services/behavioral/repositoryHealthAnalyzer.ts:25-32 | the health score lies in [0,100] and is at least the issue term 40 − issues |
| RepositoryHealthAnalyzer.HealthScoreFull | src/services/behavioral/repositoryHealthAnalyzer.ts:25-32 | ten commits by three or more authors with no open issues reach 100 |
| RepositoryHealthAnalyzer.HealthScoreNone | src/services/behavioral/repositoryHealthAnalyzer.ts:25-32 | no commits, 50+ days since the update and 40+ issues give 0 |
| RepositoryHealthAnalyzer.LastCommitAge | src/services/behavioral/repositoryHealthAnalyzer.ts:39-45 | infinite exactly without commits; otherwise the days from the latest commit to now, never more than any commit's age |
| RepositoryHealthAnalyzer.RecentCommits | src/services/behavioral/repositoryHealthAnalyzer.ts:48-49 | a commit is recent exactly when it is dated strictly after now minus 30 days |
| RepositoryHealthAnalyzer.ActiveDevelopers | src/services/behavioral/repositoryHealthAnalyzer.ts:47-51 | 0 exactly when no commit is recent |
| RepositoryHealthAnalyzer.ActiveDevelopersBound | src/services/behavioral/repositoryHealthAnalyzer.ts:47-51 | active developers ≤ distinct authors ≤ commits |
| RepositoryHealthAnalyzer.ActiveDevelopersAllRecent | src/services/behavioral/repositoryHealthAnalyzer.ts:47-51 | when every commit is recent, every author is active |
| RepositoryHealthAnalyzer.CodeChurnRate | src/services/behavioral/repositoryHealthAnalyzer.ts:53-63 | the churn rate lies in [0,100] |
| RepositoryHealthAnalyzer.CodeChurnRateIsPct | src/services/behavioral/repositoryHealthAnalyzer.ts:53-63 | the early return for no commits agrees with the capped percentage of fix/bug commits |
| RepositoryHealthAnalyzer.TestCoverage | src/services/behavioral/repositoryHealthAnalyzer.ts:65-73 | in [0,100], 0 without commits, 100 exactly when every commit mentions a test keyword |
| RepositoryHealthAnalyzer.DocumentationScore | src/services/behavioral/repositoryHealthAnalyzer.ts:75-83 | in [0,100], 0 without commits, 100 exactly when every commit mentions a documentation keyword |
| RepositoryHealthAnalyzer.IssueResolutionTime | src/services/behavioral/repositoryHealthAnalyzer.ts:85-90 | in [0,30], 0 exactly when there are no issues, 30 for 3+ issues with at most one star or fork |
| RepositoryHealthAnalyzer.TechnicalDebtScore | src/services/behavioral/repositoryHealthAnalyzer.ts:92-101 | the debt score lies in [0,100] |
| RepositoryHealthAnalyzer.TechnicalDebtIsChurn | src/services/behavioral/repositoryHealthAnalyzer.ts:53-101 | the debt score always equals the churn rate, because "hotfix" contains "fix" |
| RepositoryHealthAnalyzer.RepositoryHealthOf | src/services/behavioral/repositoryHealthAnalyzer.ts:6-23 | name and platform copied from the repository, every score within its bounds, the age infinite exactly without commits, and debt equal to churn |
| RepositoryHealthAnalyzer.RepositoryHealthEmpty | src/services/behavioral/repositoryHealthAnalyzer.ts:6-23 | without commits the age is infinite and the active developers and commit percentages are 0 |
| SecurityAnalyzer.RawPatternsCount | src/services/behavioral/securityAnalyzer.ts:10-22 | the list before de-duplication has one entry per commit and matching family |
| SecurityAnalyzer.RawPatterns | src/services/behavioral/securityAnalyzer.ts:10-22 | the labels pushed before de-duplication, commit by commit: at most three per commit |
| SecurityAnalyzer.RawPatternsLabels | src/services/behavioral/securityAnalyzer.ts:10-22 | the list holds only the three labels, each present exactly when some commit mentions its family |
| SecurityAnalyzer.CollectPatterns | src/services/behavioral/securityAnalyzer.ts:10-22 | the loop over the commits pushes exactly the labels of the specification, in commit order, and counts the commits that mention a secrets keyword |
| SecurityAnalyzer.ComplianceScore | src/services/behavioral/securityAnalyzer.ts:57-61 | in [0,100], 100 exactly without flags, 0 exactly from ten flags |
| SecurityAnalyzer.ComplianceStep | src/services/behavioral/securityAnalyzer.ts:57-61 | each further flag costs ten points until the score is 0 |
| SecurityAnalyzer.VulnerabilityCount | src/services/behavioral/securityAnalyzer.ts:37-44 | at most one per commit, 0 exactly when no commit mentions a vulnerability keyword |
| SecurityAnalyzer.DependencyRisk | src/services/behavioral/securityAnalyzer.ts:46-55 | in [0,100], 0 exactly when no commit mentions a dependency keyword |
| SecurityAnalyzer.SecurityMetricsOf | src/services/behavioral/securityAnalyzer.ts:6-35 | duplicate-free labels (at most three), each present exactly when its family is triggered; secrets count ≤ n; compliance charged on the count before de-duplication |
| SecurityAnalyzer.DistinctLabels | src/services/behavioral/securityAnalyzer.ts:28 | a duplicate-free list of the three labels has at most three entries |
| SecurityAnalyzer.SecurityEmpty | src/services/behavioral/securityAnalyzer.ts:6-35 | without commits: no labels, zero counts and compliance 100 |
| SecurityAnalyzer.RepeatedSecretLowersCompliance | src/services/behavioral/securityAnalyzer.ts:28-33 | a further commit repeating only the secrets family keeps the label list but costs ten compliance points |
| SecurityAnalyzer.DetectSecurityPatterns | src/services/behavioral/securityAnalyzer.ts:6-35 | the pushing loop returns the security record of the specification |
| CollaborationAnalyzer.CrossTeamContributions | src/services/behavioral/collaborationAnalyzer.ts:22-25 | in [0,100], 0 exactly without commits, 100 exactly with five or more authors |
| CollaborationAnalyzer.KnowledgeSharing | src/services/behavioral/collaborationAnalyzer.ts:27-36 | in [0,100], 0 without commits, 100 exactly when every commit matches |
| CollaborationAnalyzer.CodeReviewParticipation | src/services/behavioral/collaborationAnalyzer.ts:38-47 | in [0,100], 0 without commits, 100 exactly when every commit matches |
| CollaborationAnalyzer.MentorshipActivity | src/services/behavioral/collaborationAnalyzer.ts:49-58 | in [0,100], 0 without commits, 100 exactly when every commit matches |
| CollaborationAnalyzer.ConflictResolution | src/services/behavioral/collaborationAnalyzer.ts:89-97 | in [0,100], 0 without commits, 100 exactly when every commit matches |
| CollaborationAnalyzer.MergeCountsTwice | src/services/behavioral/collaborationAnalyzer.ts:38-97 | a "merge" commit counts toward both review participation and conflict resolution |
| CollaborationAnalyzer.AllMergesFull | src/services/behavioral/collaborationAnalyzer.ts:38-97 | when every message mentions "merge", both scores are 100 |
| CollaborationAnalyzer.ScoreFormsAgree | src/services/behavioral/collaborationAnalyzer.ts:72 | the `\|\|` form of the fourth check scores every message as the if/else-if form does |
| CollaborationAnalyzer.ScoreMessage | src/services/behavioral/collaborationAnalyzer.ts:66-74 | the step-by-step score with the `\|\|` check equals the message score |
| CollaborationAnalyzer.CalculateCommitMessageQuality | src/services/behavioral/collaborationAnalyzer.ts:60-80 | this analyzer's quality loop returns the commit-pattern analyzer's message quality |
| CollaborationAnalyzer.CommitActivity | src/services/behavioral/collaborationAnalyzer.ts:84 | in [0,100], 0 exactly without commits, 100 exactly from 30 commits |
| CollaborationAnalyzer.CommunicationFrequency | src/services/behavioral/collaborationAnalyzer.ts:82-87 | a TypeError exactly when a message is empty; otherwise in [0,100], and 0 without commits |
| CollaborationAnalyzer.CommunicationFull | src/services/behavioral/collaborationAnalyzer.ts:82-87 | communication is 100 exactly with 30+ commits and a perfect message quality |
| CollaborationAnalyzer.CollaborationSignalsOf | src/services/behavioral/collaborationAnalyzer.ts:6-20 | a TypeError exactly when a message is empty; otherwise named "repository" with every score in [0,100] |
| CollaborationAnalyzer.CollaborationEmpty | src/services/behavioral/collaborationAnalyzer.ts:6-20 | without commits every score is 0 |
| TechnicalDebtAnalyzer.CodeComplexity | src/services/behavioral/technicalDebtAnalyzer.ts:21-29 | in [0,100], 0 without commits, 100 exactly when every commit matches |
| TechnicalDebtAnalyzer.DuplicateCode | src/services/behavioral/technicalDebtAnalyzer.ts:31-39 | in [0,100], 0 without commits, 100 exactly when every commit matches |
| TechnicalDebtAnalyzer.OutdatedDependencies | src/services/behavioral/technicalDebtAnalyzer.ts:41-47 | a raw count of at most one per commit |
| TechnicalDebtAnalyzer.UnusedCode | src/services/behavioral/technicalDebtAnalyzer.ts:49-57 | in [0,100], 0 without commits, 100 exactly when every commit matches |
| TechnicalDebtAnalyzer.CleanupCountsTwice | src/services/behavioral/technicalDebtAnalyzer.ts:21-57 | a "cleanup" commit counts toward both complexity and unused code |
| TechnicalDebtAnalyzer.TestDebt | src/services/behavioral/technicalDebtAnalyzer.ts:59-66 | in [0,100], 100 without commits, 0 exactly when every commit mentions "test" |
| TechnicalDebtAnalyzer.DocumentationDebt | src/services/behavioral/technicalDebtAnalyzer.ts:68-77 | in [0,100], 100 without commits, 0 exactly when every commit mentions a documentation keyword |
| TechnicalDebtAnalyzer.DocumentationDebtComplementsScore | src/services/behavioral/technicalDebtAnalyzer.ts:68-77 | documentation debt is 100 minus the health analyzer's documentation score |
| TechnicalDebtAnalyzer.TestDebtAtLeastUncovered | src/services/behavioral/technicalDebtAnalyzer.ts:59-66 | test debt is never below 100 minus the health analyzer's test coverage |
| TechnicalDebtAnalyzer.RefactoringOpportunities | src/services/behavioral/technicalDebtAnalyzer.ts:79-104 | one to four duplicate-free entries in rule order; each recommendation is present exactly when its rule fires; the single well-maintained note exactly when none fires |
| TechnicalDebtAnalyzer.RecommendationsPresent | src/services/behavioral/technicalDebtAnalyzer.ts:87-101 | at most four labels; each is present exactly when its rule fires, and none exactly when no rule fires |
| TechnicalDebtAnalyzer.RecommendationsInOrder | src/services/behavioral/technicalDebtAnalyzer.ts:87-101 | the pushed labels are strictly increasing in rule order, so none repeats |
| TechnicalDebtAnalyzer.RefactoringOpportunitiesEmpty | src/services/behavioral/technicalDebtAnalyzer.ts:79-104 | without commits only the well-maintained note is returned |
| TechnicalDebtAnalyzer.TenPercentRefactorsIsEnough | src/services/behavioral/technicalDebtAnalyzer.ts:91 | one refactor in ten commits does not fire the low-refactoring rule (strict bound) |
| TechnicalDebtAnalyzer.IdentifyRefactoringOpportunities | src/services/behavioral/technicalDebtAnalyzer.ts:79-104 | the conditional pushes return the recommendations of the specification |
| TechnicalDebtAnalyzer.TechnicalDebtOf | src/services/behavioral/technicalDebtAnalyzer.ts:6-19 | named after the repository, every percentage in [0,100], the count ≤ n, and the recommendations never empty |
| TechnicalDebtAnalyzer.TechnicalDebtEmpty | src/services/behavioral/technicalDebtAnalyzer.ts:6-19 | without commits: zero percentages, full test and documentation debt, only the well-maintained note |
| BehavioralIntelligence.AnalyzeDeveloperActivity | src/services/behavioralIntelligence.ts:73-107 | the service returns the developer analyzer's records |
| BehavioralIntelligence.AnalyzeCommitPatterns | src/services/behavioralIntelligence.ts:109-141 | the service returns the commit-pattern analyzer's record and leaves the array sorted as that analyzer does |
| BehavioralIntelligence.CalculateCodeChurnRate | src/services/behavioralIntelligence.ts:345-357 | the churn rate equals the analyzer's on the original order, while the caller's array is sorted by date when it has two or more commits |
| BehavioralIntelligence.AnalyzeRepositoryHealth | src/services/behavioralIntelligence.ts:143-160 | the service returns the health analyzer's record of the original commits, and leaves the caller's array sorted by date when it has two or more |
| BehavioralIntelligence.ReorderKeepsPercentages | src/services/behavioralIntelligence.ts:359-397 | the percentages counted after the sort equal those of the original order |
| BehavioralIntelligence.DetectSecurityPatterns | src/services/behavioralIntelligence.ts:162-191 | the service returns the security analyzer's record, compliance included |
| CollaborationAnalyzer.SignalsOfQuality | src/services/behavioral/collaborationAnalyzer.ts:6-20 | the signals throw exactly when the message quality throws, and otherwise carry the mean of that quality and the commit activity as communication |
| BehavioralIntelligence.AnalyzeCollaborationSignals | src/services/behavioralIntelligence.ts:193-207 | the service, with the if/else-if quality check, returns the collaboration analyzer's record |
| BehavioralIntelligence.AnalyzeTechnicalDebt | src/services/behavioralIntelligence.ts:209-222 | the service returns the technical-debt analyzer's record |
| RepoNormalise.Classify | src/services/githubApi.ts:107-113 | legacy exactly when archived; otherwise planning above 90 days, development above 30 up to 90, active up to 30 |
| RepoNormalise.ClassifyMonotone | src/services/githubApi.ts:107-113 | a longer time since the update never gives a more active status |
| RepoNormalise.ThirtyDaysIsActive | src/services/githubApi.ts:111 | exactly thirty days since the update is still active |
| RepoNormalise.ClassifyStatus | src/services/githubApi.ts:101-113 | the reassigning if-chain yields the classified status |
| RepoNormalise.DescriptionOf | src/services/githubApi.ts:126 | a missing or empty description becomes the default text, any other is kept |
| RepoNormalise.LanguageList | src/services/githubApi.ts:116-118 | at most one entry, the language, present exactly when it is non-empty |
| RepoNormalise.LanguageAndTopics | src/services/githubApi.ts:115-127 | at most five entries, the language first when present, the rest the topics in order |
| RepoNormalise.FirstFive | src/services/githubApi.ts:127 | the first min(5, n) entries, as a prefix |
| RepoNormalise.Processed | src/services/githubApi.ts:123-135 | the dashboard record: name, counts, privacy, url and update date copied, legacy exactly when archived, a non-empty description, the given technologies and platform |
| RepoNormalise.ArchivedIsLegacy | src/services/githubApi.ts:107-108 | an archived repository is legacy whatever its age |
| GitHubClient.TransformRepository | src/services/githubApi.ts:79-97 | the id is the decimal string of the numeric id; missing topics become empty; names, description, language, counts, dates, flags, default branch and url are copied |
| GitHubClient.IdsStayDistinct | src/services/githubApi.ts:81 | two transformed repositories have the same string id exactly when their numeric ids are equal |
| GitHubClient.TransformRepositories | src/services/githubApi.ts:79-97 | one repository per API object, in order |
| GitHubClient.ProcessRepo | src/services/githubApi.ts:100-136 | one dashboard record: classified status, default description, language-and-topics technologies, platform GitHub |
| GitHubClient.ProcessRepos | src/services/githubApi.ts:99-137 | one dashboard record per repository, in the same order |
| GitLabClient.TransformProject | src/services/gitlabApi.ts:76-94 | the id is the decimal string of the numeric id; no language; private exactly when visibility is "private"; missing topics become empty; names, description, counts, dates, archive flag, default branch and url are copied |
| GitLabClient.TransformProjects | src/services/gitlabApi.ts:76-94 | one repository per project, in order |
| GitLabClient.ProcessRepo | src/services/gitlabApi.ts:97-133 | one dashboard record with platform GitLab |
| GitLabClient.ProcessRepos | src/services/gitlabApi.ts:96-134 | one dashboard record per repository, in the same order |
| GitLabClient.TechnologiesAreTopics | src/services/gitlabApi.ts:82-124 | a transformed project's technologies are its first five topics |
| BitbucketClient.FirstLine | src/services/bitbucketApi.ts:71 | the first line has no newline, is a prefix of the message, and is followed by a newline when shorter |
| BitbucketClient.FirstLineOfOneLine | src/services/bitbucketApi.ts:71 | a message without a newline is kept whole |
| BitbucketClient.ToCommit | src/services/bitbucketApi.ts:69-74 | hash, date and author copied; the message is its first line |
| BitbucketClient.TransformRepository | src/services/bitbucketApi.ts:77-95 | zero stars, forks and issues, no topics, never archived, default branch "main"; id, names, description, language, dates, privacy and url are copied |
| BitbucketClient.TransformRepositories | src/services/bitbucketApi.ts:77-95 | one repository per API object, in order |
| BitbucketClient.ProcessRepo | src/services/bitbucketApi.ts:98-131 | one dashboard record whose technologies are at most the language, platform Bitbucket |
| BitbucketClient.ProcessRepos | src/services/bitbucketApi.ts:97-132 | one dashboard record per repository, in the same order |
| BitbucketClient.TransformedNeverLegacy | src/services/bitbucketApi.ts:90-111 | a transformed repository is never legacy |
| AzureClient.TransformRepository | src/services/azureApi.ts:80-98 | id and name copied, no description or language, zero counts, both dates now, never archived, always private, "main" for an empty default branch, full name project/name, url the remote url |
| AzureClient.TransformRepositories | src/services/azureApi.ts:80-98 | one repository per API object, in order |
| AzureClient.ProcessRepo | src/services/azureApi.ts:101-129 | one dashboard record with no technologies, platform Azure |
| AzureClient.ProcessRepos | src/services/azureApi.ts:100-130 | one dashboard record per repository, in the same order |
| AzureClient.FreshRepositoryIsActive | src/services/azureApi.ts:90-120 | a repository transformed and processed at the same instant is active, with the default description and no technologies |

## Left out

- The network parts of the platform clients are not modelled: requests, authentication headers, token and organisation state, and the fetch parts of `getRecentCommits`. The GitHub, GitLab and Azure commit mappings only rename fields and are not modelled either.
- src/services/platformService.ts is not part of this model. It only routes a platform name to a client.
- The React components and the module-level singleton instances are not part of this model.
- Date strings are not parsed: every date is already milliseconds. The local time zone is taken to be UTC for hours, weekdays and calendar days.
- The ISO text of the security scan time is a parameter (`scanTime`), not derived from a clock.
- Floating-point rounding is not modelled; all scores are exact reals, so a threshold such as `0.3 * n` is exact.
- Case mapping covers ASCII letters only; other Unicode letters are left unchanged.
- The `developers` set built and never used in `analyzeCollaborationSignals` is left out.
- CommitPatternAnalyzer.SortByDate: the engine's sort algorithm is not modelled. The method states only its result, the stable ascending-date order of the old contents, which is written into the array in one step.
- DeveloperAnalyzer.AnalyzeDeveloperActivity: the record objects are values, not shared mutable objects in a map. So aliasing between the map and the returned array is not modelled.
- In the GitHub and GitLab `processRepos`, `if (repo.topics)` is always true for a transformed repository, because topics is always a list. The model pushes the topics unconditionally.
- The `.sort()` calls without a comparator are modelled as written and as evidently intended (see Findings). The rest of the model uses the numeric order.
- The service class repeats the analyzers' code. Its methods reuse the analyzers' helper functions rather than duplicating them. Its own commit-frequency and burst helpers (behavioralIntelligence.ts:235-243, 290-304) have the same string-sort behaviour as the analyzers.

## Findings

| source | as written | input that shows it | evidently intended | confidence | as-written member | corrected member |
|---|---|---|---|---|---|---|
| src/services/behavioral/developerAnalyzer.ts:56 | `.sort()` without a comparator orders the timestamps as decimal strings; the same call is at behavioralIntelligence.ts:238 | one author with commits at 999999999999 ms and 1000000000000 ms: the string order puts the later date first, the span is negative and the frequency 0 | a numeric sort: two commits one second apart give a positive frequency | high for the order, not executed; digit counts mix only with negative dates, dates before 2001-09-09 (10^12 ms) or dates from 2286-11-20 (10^13 ms) on, and otherwise the two orders agree (DeveloperAnalyzer.AsWrittenAgreesOnSameWidth) | DeveloperAnalyzer.CommitFrequencyStringSortCounterexample | DeveloperAnalyzer.CommitFrequency |
| src/services/behavioral/commitPatternAnalyzer.ts:88 | `.sort()` without a comparator orders the timestamps as decimal strings; the same call is at behavioralIntelligence.ts:293 | commits at 6000000, 10000000 and 20000000 ms, all more than an hour apart: the string order is 10000000, 20000000, 6000000, and the negative last difference counts as a close gap, so one close gap out of three commits is reported as a burst | a numeric sort: commits at least an hour apart are never a burst | high for the order, not executed; digit counts mix only with negative dates, dates before 2001-09-09 (10^12 ms) or dates from 2286-11-20 (10^13 ms) on, and otherwise the two orders agree (CommitPatternAnalyzer.BurstAsWrittenAgreesOnSameWidth) | CommitPatternAnalyzer.BurstStringSortCounterexample | CommitPatternAnalyzer.SpacedOutIsNoBurst |
