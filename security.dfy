/** The security analyzer (src/services/behavioral/securityAnalyzer.ts): three
    keyword families flag suspicious commit messages, two more give a
    vulnerability count and a dependency-risk percentage, and every flag
    costs ten compliance points. */
module SecurityAnalyzer {
  import opened Types
  import opened Seqs
  import opened Text

  const SecretKeywords: seq<string> := ["password", "secret", "key", "token"]
  const BypassKeywords: seq<string> := ["bypass", "disable security", "skip validation"]
  const WorkaroundKeywords: seq<string> := ["hack", "workaround", "quick fix"]
  const VulnerabilityKeywords: seq<string> := ["security", "vulnerability", "exploit", "patch", "cve"]
  const DependencyKeywords: seq<string> := ["dependency", "package", "update", "upgrade"]

  const SecretsLabel: string := "Potential secrets in commit messages"
  const BypassLabel: string := "Security bypass attempts"
  const WorkaroundLabel: string := "Potentially risky workarounds"

  /** The labels one commit message pushes, in the order the three tests run. */
  function Hits(message: string): seq<string> {
    Hit(message, SecretKeywords, SecretsLabel)
    + Hit(message, BypassKeywords, BypassLabel)
    + Hit(message, WorkaroundKeywords, WorkaroundLabel)
  }

  /** The label one family test pushes for a message. */
  function Hit(message: string, keywords: seq<string>, note: string): seq<string> {
    if Mentions(message, keywords) then [note] else []
  }

  /** The `suspiciousPatterns` list before de-duplication: each commit's hits, commit by commit. */
  function RawPatterns(commits: seq<Commit>): (r: seq<string>)
    ensures |r| <= 3 * |commits|
  {
    if commits == [] then []
    else RawPatterns(commits[..|commits| - 1]) + Hits(commits[|commits| - 1].message)
  }

  /** Some commit's message mentions one of the keywords (see `TriggeredSpec`). */
  predicate Triggered(commits: seq<Commit>, keywords: seq<string>) {
    commits != [] &&
      (Triggered(commits[..|commits| - 1], keywords) || Mentions(commits[|commits| - 1].message, keywords))
  }

  /** `Triggered` holds exactly when some commit of the list mentions a keyword. */
  lemma {:induction false} TriggeredSpec(commits: seq<Commit>, keywords: seq<string>)
    ensures Triggered(commits, keywords) <==> exists c :: c in commits && Mentions(c.message, keywords)
  {
    if commits != [] {
      var p, c := commits[..|commits| - 1], commits[|commits| - 1];
      TriggeredSpec(p, keywords);
      assert commits == p + [c];
      assert forall x :: x in commits <==> x in p || x == c;
    }
  }

  /** One label per matching commit and family: the raw list is as long as the three family counts together. */
  lemma {:induction false} RawPatternsCount(commits: seq<Commit>)
    ensures |RawPatterns(commits)| ==
      MatchCount(commits, SecretKeywords) + MatchCount(commits, BypassKeywords) + MatchCount(commits, WorkaroundKeywords)
  {
    if commits != [] {
      RawPatternsCount(commits[..|commits| - 1]);
    }
  }

  lemma LabelsDistinct()
    ensures SecretsLabel != BypassLabel && SecretsLabel != WorkaroundLabel && BypassLabel != WorkaroundLabel
  {
    assert SecretsLabel[0] != BypassLabel[0];
    assert BypassLabel[0] != WorkaroundLabel[0];
    assert SecretsLabel[9] != WorkaroundLabel[9];
  }

  /** The raw list holds only the three labels, and each label is in it
      exactly when some commit mentions a keyword of its family. */
  lemma RawPatternsLabels(commits: seq<Commit>)
    ensures forall l :: l in RawPatterns(commits) ==> l == SecretsLabel || l == BypassLabel || l == WorkaroundLabel
    ensures SecretsLabel in RawPatterns(commits) <==> Triggered(commits, SecretKeywords)
    ensures BypassLabel in RawPatterns(commits) <==> Triggered(commits, BypassKeywords)
    ensures WorkaroundLabel in RawPatterns(commits) <==> Triggered(commits, WorkaroundKeywords)
  {
    RawPatternsOnlyLabels(commits);
    RawPatternsLabel(commits, SecretsLabel);
    RawPatternsLabel(commits, BypassLabel);
    RawPatternsLabel(commits, WorkaroundLabel);
  }

  predicate IsLabel(l: string) {
    l == SecretsLabel || l == BypassLabel || l == WorkaroundLabel
  }

  /** The keyword family whose matches push label `l`. */
  function Family(l: string): seq<string>
    requires IsLabel(l)
  {
    if l == SecretsLabel then SecretKeywords
    else if l == BypassLabel then BypassKeywords
    else WorkaroundKeywords
  }

  /** One message pushes label `l` exactly when it mentions `l`'s family. */
  lemma HitsLabel(message: string, l: string)
    requires IsLabel(l)
    ensures l in Hits(message) <==> Mentions(message, Family(l))
  {
    LabelsDistinct();
  }

  lemma {:induction false} RawPatternsOnlyLabels(commits: seq<Commit>)
    ensures forall l :: l in RawPatterns(commits) ==> IsLabel(l)
  {
    if commits != [] {
      RawPatternsOnlyLabels(commits[..|commits| - 1]);
    }
  }

  lemma {:induction false} RawPatternsLabel(commits: seq<Commit>, l: string)
    requires IsLabel(l)
    ensures l in RawPatterns(commits) <==> Triggered(commits, Family(l))
  {
    if commits != [] {
      var p, c := commits[..|commits| - 1], commits[|commits| - 1];
      RawPatternsLabel(p, l);
      HitsLabel(c.message, l);
      assert RawPatterns(commits) == RawPatterns(p) + Hits(c.message);
      assert Triggered(commits, Family(l)) <==> Triggered(p, Family(l)) || Mentions(c.message, Family(l));
    }
  }

  lemma TriggeredAppend(p: seq<Commit>, c: Commit, keywords: seq<string>)
    ensures Triggered(p + [c], keywords) <==> Triggered(p, keywords) || Mentions(c.message, keywords)
  {
    assert (p + [c])[..|p|] == p;
  }

  /** `calculateComplianceScore`: 100 less ten points per flag, never below 0. */
  function ComplianceScore(flags: nat): (r: real)
    ensures 0.0 <= r <= 100.0
    ensures r == 100.0 <==> flags == 0
    ensures r == 0.0 <==> flags >= 10
  {
    if 100 - flags * 10 > 0 then (100 - flags * 10) as real else 0.0
  }

  /** One more flag costs ten points until the score reaches 0. */
  lemma ComplianceStep(flags: nat)
    ensures ComplianceScore(flags + 1) == if flags < 10 then ComplianceScore(flags) - 10.0 else 0.0
  {
  }

  /** `detectVulnerabilityPatterns`: commits mentioning any vulnerability keyword, each counted once. */
  function VulnerabilityCount(commits: seq<Commit>): (r: nat)
    ensures r <= |commits|
    ensures r == 0 <==> !Triggered(commits, VulnerabilityKeywords)
  {
    MatchCountPositive(commits, VulnerabilityKeywords);
    MatchCount(commits, VulnerabilityKeywords)
  }

  /** A keyword count is positive exactly when some commit matches. */
  lemma {:induction false} MatchCountPositive(commits: seq<Commit>, keywords: seq<string>)
    ensures MatchCount(commits, keywords) > 0 <==> Triggered(commits, keywords)
  {
    if commits != [] {
      var p, c := commits[..|commits| - 1], commits[|commits| - 1];
      MatchCountPositive(p, keywords);
      assert commits == p + [c];
      TriggeredAppend(p, c, keywords);
    }
  }

  /** `calculateDependencyRisk`: the capped percentage of commits mentioning a dependency keyword. */
  function DependencyRisk(commits: seq<Commit>): (r: real)
    ensures 0.0 <= r <= 100.0
    ensures r == 0.0 <==> !Triggered(commits, DependencyKeywords)
  {
    MatchCountPositive(commits, DependencyKeywords);
    var k := MatchCount(commits, DependencyKeywords);
    assert k > 0 ==> Pct(k, |commits|) > 0.0 by {
      if k > 0 { PctPositive(k, |commits|); }
    }
    Pct(k, |commits|)
  }

  lemma PctPositive(k: nat, n: nat)
    requires 0 < k <= n
    ensures Pct(k, n) > 0.0
  {
  }

  /** `detectSecurityPatterns`: the de-duplicated labels, the counts, the
      dependency risk, the scan time (a parameter here) and the compliance
      score, which is charged for every raw flag, repeats included. */
  function SecurityMetricsOf(commits: seq<Commit>, scanTime: string): (r: SecurityMetrics)
    ensures r.repoName == "repository" && r.lastSecurityScan == scanTime
    ensures NoDuplicates(r.suspiciousPatterns) && |r.suspiciousPatterns| <= 3
    ensures forall l :: l in r.suspiciousPatterns ==> l == SecretsLabel || l == BypassLabel || l == WorkaroundLabel
    ensures SecretsLabel in r.suspiciousPatterns <==> Triggered(commits, SecretKeywords)
    ensures BypassLabel in r.suspiciousPatterns <==> Triggered(commits, BypassKeywords)
    ensures WorkaroundLabel in r.suspiciousPatterns <==> Triggered(commits, WorkaroundKeywords)
    ensures r.secretsExposed == MatchCount(commits, SecretKeywords) <= |commits|
    ensures r.vulnerabilityCount <= |commits|
    ensures 0.0 <= r.dependencyRisk <= 100.0
    ensures r.complianceScore == ComplianceScore(
      MatchCount(commits, SecretKeywords) + MatchCount(commits, BypassKeywords) + MatchCount(commits, WorkaroundKeywords))
  {
    var raw := RawPatterns(commits);
    RawPatternsCount(commits);
    RawPatternsLabels(commits);
    DedupSpec(raw);
    LabelsDistinct();
    DistinctLabels(Dedup(raw));
    SecurityMetrics(
      "repository",
      Dedup(raw),
      VulnerabilityCount(commits),
      MatchCount(commits, SecretKeywords),
      DependencyRisk(commits),
      scanTime,
      ComplianceScore(|raw|))
  }

  /** A duplicate-free list drawn from the three labels has at most three entries. */
  lemma DistinctLabels(s: seq<string>)
    requires NoDuplicates(s)
    requires forall l :: l in s ==> l == SecretsLabel || l == BypassLabel || l == WorkaroundLabel
    ensures |s| <= 3
  {
    var labels := {SecretsLabel, BypassLabel, WorkaroundLabel};
    var elems := set l | l in s;
    assert elems <= labels;
    SubsetSize(elems, labels);
    DistinctSize(s);
  }

  /** A duplicate-free sequence has as many elements as its set. */
  lemma {:induction false} DistinctSize(s: seq<string>)
    requires NoDuplicates(s)
    ensures |set l | l in s| == |s|
  {
    if s != [] {
      var p, x := s[..|s| - 1], s[|s| - 1];
      assert x !in p by {
        forall k | 0 <= k < |p| ensures p[k] != x { assert s[k] != s[|s| - 1]; }
      }
      assert (set l | l in s) == (set l | l in p) + {x} by {
        assert s == p + [x];
      }
      DistinctSize(p);
    }
  }

  /** Without commits nothing is flagged and compliance is full. */
  lemma SecurityEmpty(scanTime: string)
    ensures SecurityMetricsOf([], scanTime) == SecurityMetrics("repository", [], 0, 0, 0.0, scanTime, 100.0)
  {
  }

  /** A further commit that only repeats the secrets family leaves the
      reported labels as they were but still costs ten compliance points. */
  lemma RepeatedSecretLowersCompliance(commits: seq<Commit>, c: Commit, scanTime: string)
    requires Triggered(commits, SecretKeywords)
    requires Mentions(c.message, SecretKeywords)
    requires !Mentions(c.message, BypassKeywords) && !Mentions(c.message, WorkaroundKeywords)
    ensures var before, after := SecurityMetricsOf(commits, scanTime), SecurityMetricsOf(commits + [c], scanTime);
      && after.suspiciousPatterns == before.suspiciousPatterns
      && after.complianceScore == (if before.complianceScore > 10.0 then before.complianceScore - 10.0 else 0.0)
  {
    var all := commits + [c];
    var raw := RawPatterns(commits);
    RepeatedSecretRaw(commits, c);
    RawPatternsLabel(commits, SecretsLabel);
    DedupAppend(raw, SecretsLabel);
    ComplianceStep(|raw|);
    SecurityMetricsOfRaw(commits, scanTime);
    SecurityMetricsOfRaw(all, scanTime);
  }

  lemma RepeatedSecretRaw(commits: seq<Commit>, c: Commit)
    requires Mentions(c.message, SecretKeywords)
    requires !Mentions(c.message, BypassKeywords) && !Mentions(c.message, WorkaroundKeywords)
    ensures RawPatterns(commits + [c]) == RawPatterns(commits) + [SecretsLabel]
  {
    var all := commits + [c];
    assert all[..|all| - 1] == commits;
    assert Hit(c.message, BypassKeywords, BypassLabel) == [] && Hit(c.message, WorkaroundKeywords, WorkaroundLabel) == [];
    assert Hits(c.message) == [SecretsLabel] + [] + [];
  }

  lemma SecurityMetricsOfRaw(commits: seq<Commit>, scanTime: string)
    ensures SecurityMetricsOf(commits, scanTime) == SecurityMetrics(
      "repository", Dedup(RawPatterns(commits)), VulnerabilityCount(commits), MatchCount(commits, SecretKeywords),
      DependencyRisk(commits), scanTime, ComplianceScore(|RawPatterns(commits)|))
  {
  }

  /** Extending a prefix by one commit extends the raw list by that commit's hits. */
  lemma PrefixStep(commits: seq<Commit>, i: nat)
    requires i < |commits|
    ensures RawPatterns(commits[..i + 1]) == RawPatterns(commits[..i]) + Hits(commits[i].message)
    ensures MatchCount(commits[..i + 1], SecretKeywords)
         == MatchCount(commits[..i], SecretKeywords) + if Mentions(commits[i].message, SecretKeywords) then 1 else 0
  {
    assert commits[..i + 1][..i] == commits[..i];
  }

  /** The loop of `detectSecurityPatterns`: every commit's lower-cased message
      is matched against the three families in turn, pushing a label per
      match and counting the secrets hits. */
  method CollectPatterns(commits: seq<Commit>) returns (suspiciousPatterns: seq<string>, secretsCount: nat)
    ensures suspiciousPatterns == RawPatterns(commits)
    ensures secretsCount == MatchCount(commits, SecretKeywords)
  {
    suspiciousPatterns := [];
    secretsCount := 0;
    for i := 0 to |commits|
      invariant suspiciousPatterns == RawPatterns(commits[..i])
      invariant secretsCount == MatchCount(commits[..i], SecretKeywords)
    {
      var message := commits[i].message;
      PrefixStep(commits, i);
      ghost var before := suspiciousPatterns;
      ghost var h1, h2, h3 :=
        Hit(message, SecretKeywords, SecretsLabel), Hit(message, BypassKeywords, BypassLabel),
        Hit(message, WorkaroundKeywords, WorkaroundLabel);
      if Mentions(message, SecretKeywords) {
        suspiciousPatterns := suspiciousPatterns + [SecretsLabel];
        secretsCount := secretsCount + 1;
      }
      assert suspiciousPatterns == before + h1;
      if Mentions(message, BypassKeywords) {
        suspiciousPatterns := suspiciousPatterns + [BypassLabel];
      }
      assert suspiciousPatterns == before + h1 + h2;
      if Mentions(message, WorkaroundKeywords) {
        suspiciousPatterns := suspiciousPatterns + [WorkaroundLabel];
      }
      assert suspiciousPatterns == before + h1 + h2 + h3;
      AppendAssociative(before, h1, h2);
      AppendAssociative(before, h1 + h2, h3);
    }
    assert commits[..|commits|] == commits;
  }

  /** `detectSecurityPatterns`: the collected labels de-duplicated, the
      counts, the dependency risk, the scan time and the compliance score
      charged on every collected label. */
  method DetectSecurityPatterns(commits: seq<Commit>, scanTime: string) returns (r: SecurityMetrics)
    ensures r == SecurityMetricsOf(commits, scanTime)
  {
    var suspiciousPatterns, secretsCount := CollectPatterns(commits);
    SecurityMetricsOfRaw(commits, scanTime);
    r := SecurityMetrics(
      "repository",
      Dedup(suspiciousPatterns),
      VulnerabilityCount(commits),
      secretsCount,
      DependencyRisk(commits),
      scanTime,
      ComplianceScore(|suspiciousPatterns|));
  }
}
