/** DeveloperAnalyzer (src/services/behavioral/developerAnalyzer.ts): groups
    commits by author string and scores each author's activity. */
module DeveloperAnalyzer {
  import opened Types
  import opened Seqs
  import opened CommitSeqs
  import Text
  import Clock

  /** `calculateEngagementScore`: the mean of the recency score and a volume
      score that saturates at 50 commits. */
  function EngagementScore(totalCommits: nat, lastActivity: int, now: int): (r: real)
    ensures r >= 0.0
    ensures lastActivity <= now ==> r <= 100.0
    ensures lastActivity == now && totalCommits >= 50 ==> r == 100.0
    ensures now - lastActivity >= 50 * Clock.MsPerDay ==> r * 100.0 == if totalCommits >= 50 then 5000.0 else 100.0 * totalCommits as real
  {
    var recency := Clock.RecencyScore(lastActivity, now);
    var ratio := totalCommits as real / 50.0;
    var volume := (if ratio < 1.0 then ratio else 1.0) * 100.0;
    (recency + volume) / 2.0
  }

  /** `calculateCommitFrequency` with the dates in numeric order: commits per
      day over the span from the first to the last commit, or 0 when that
      span is empty. */
  function CommitFrequency(commits: seq<Commit>): (r: real)
    ensures commits == [] ==> r == 0.0
    ensures commits != [] ==> (r == 0.0 <==> EarliestDate(commits) == LatestDate(commits))
    ensures commits != [] && EarliestDate(commits) < LatestDate(commits) ==>
      r > 0.0 && r == Text.Div(|commits| as real, Clock.DaysBetween(EarliestDate(commits), LatestDate(commits)))
  {
    if commits == [] then 0.0
    else
      var sortedDates := SortBy(DatesOf(commits), Text.IntLess);
      SortedDatesSpan(commits);
      var days := Clock.DaysBetween(sortedDates[0], sortedDates[|sortedDates| - 1]);
      if days > 0.0 then Text.Div(|commits| as real, days) else 0.0
  }

  /** After a numeric sort, the first and last dates are the earliest and latest. */
  lemma SortedDatesSpan(commits: seq<Commit>)
    requires commits != []
    ensures var s := SortBy(DatesOf(commits), Text.IntLess);
      s[0] == EarliestDate(commits) && s[|s| - 1] == LatestDate(commits)
  {
    var t := DatesOf(commits);
    var s := SortBy(t, Text.IntLess);
    SortedIntsEnds(t);
    var first, last := s[0], s[|s| - 1];
    assert first in t && last in t;
    var e, l := EarliestDate(commits), LatestDate(commits);
    assert e in t by {
      var ke :| 0 <= ke < |commits| && commits[ke].date == e;
      assert t[ke] == e;
    }
    assert l in t by {
      var kl :| 0 <= kl < |commits| && commits[kl].date == l;
      assert t[kl] == l;
    }
    assert first <= e && l <= last;
    assert e <= first by {
      var k :| 0 <= k < |t| && t[k] == first;
      assert commits[k].date == first;
    }
    assert last <= l by {
      var k :| 0 <= k < |t| && t[k] == last;
      assert commits[k].date == last;
    }
  }

  /** A numeric sort starts at a least and ends at a greatest element of its input. */
  lemma SortedIntsEnds(t: seq<int>)
    requires |t| > 0
    ensures var s := SortBy(t, Text.IntLess);
      && s[0] in t && s[|s| - 1] in t
      && forall x :: x in t ==> s[0] <= x <= s[|s| - 1]
  {
    var s := SortBy(t, Text.IntLess);
    SortBySorted(t, Text.IntLess, Text.IntKey);
    SortByPermutes(t, Text.IntLess);
    SortedEnds(s, t, Text.IntKey);
  }

  /** `calculateCommitFrequency` as written: `.sort()` without a comparator
      orders the millisecond values as decimal strings, so the "first" and
      "last" dates need not be the earliest and latest. */
  function CommitFrequencyAsWritten(commits: seq<Commit>): (r: real)
    ensures commits == [] ==> r == 0.0
    ensures r >= 0.0
  {
    if commits == [] then 0.0
    else
      var sortedDates := SortBy(DatesOf(commits), Text.DecimalLess);
      var days := Clock.DaysBetween(sortedDates[0], sortedDates[|sortedDates| - 1]);
      if days > 0.0 then Text.Div(|commits| as real, days) else 0.0
  }

  /** When every date has the same number of digits (as all do from
      2001-09-09 to 2286-11-20), the string sort orders them numerically
      and the frequency as written is the intended one. */
  lemma AsWrittenAgreesOnSameWidth(commits: seq<Commit>)
    requires Text.SameWidth(DatesOf(commits))
    ensures CommitFrequencyAsWritten(commits) == CommitFrequency(commits)
  {
    Text.DecimalSortIsNumeric(DatesOf(commits));
  }

  /** Two commits one millisecond apart, either side of the moment the epoch
      time gains a thirteenth digit (2001-09-09T01:46:40Z): the string sort
      puts 1000000000000 before 999999999999, the span comes out negative and
      the frequency 0, although the commits span a positive time and the
      numeric order gives a positive frequency. */
  lemma CommitFrequencyStringSortCounterexample()
    ensures var cs := [Commit("a", "m", 999999999999, "dev"), Commit("b", "m", 1000000000000, "dev")];
      CommitFrequencyAsWritten(cs) == 0.0 && CommitFrequency(cs) > 0.0
  {
    Text.LeadingDigit(1000000000000, 12, 1);
    Text.LeadingDigit(999999999999, 11, 9);
    Text.DecimalLessByLeadingDigit(1000000000000, 999999999999);
    StringOrderReversesPair(999999999999, 1000000000000);
  }

  /** Two commits whose dates the string order puts the wrong way round get
      frequency 0 as written, and a positive one in numeric order. */
  lemma StringOrderReversesPair(x: int, y: int)
    requires x < y && Text.DecimalLess(y, x)
    ensures var cs := [Commit("a", "m", x, "dev"), Commit("b", "m", y, "dev")];
      CommitFrequencyAsWritten(cs) == 0.0 && CommitFrequency(cs) > 0.0
  {
    var cs := [Commit("a", "m", x, "dev"), Commit("b", "m", y, "dev")];
    PairAsWritten(cs, x, y);
    PairNumeric(cs, x, y);
  }

  lemma PairAsWritten(cs: seq<Commit>, x: int, y: int)
    requires cs == [Commit("a", "m", x, "dev"), Commit("b", "m", y, "dev")]
    requires x < y && Text.DecimalLess(y, x)
    ensures CommitFrequencyAsWritten(cs) == 0.0
  {
    assert DatesOf(cs) == [x, y];
    PairSortedAsStrings(x, y);
    assert Clock.DaysBetween(y, x) < 0.0;
  }

  lemma PairNumeric(cs: seq<Commit>, x: int, y: int)
    requires cs == [Commit("a", "m", x, "dev"), Commit("b", "m", y, "dev")]
    requires x < y
    ensures CommitFrequency(cs) > 0.0
  {
    assert cs[..1] == [cs[0]];
    assert EarliestDate(cs[..1]) == x && LatestDate(cs[..1]) == x;
    assert EarliestDate(cs) == x && LatestDate(cs) == y;
  }

  lemma PairSortedAsStrings(x: int, y: int)
    requires Text.DecimalLess(y, x)
    ensures SortBy([x, y], Text.DecimalLess) == [y, x]
  {
    SortPair(x, y, Text.DecimalLess);
  }

  /** The record the first pass leaves for author `a` after the commits `cs`. */
  function Tally(cs: seq<Commit>, a: string): DeveloperActivity
    requires |ByAuthor(cs, a)| > 0
  {
    var mine := ByAuthor(cs, a);
    DeveloperActivity(a, a, "", |mine|, 0, 0, 0, 0, 0.0, [], LatestDate(mine), 0.0)
  }

  /** The record `analyzeDeveloperActivity` returns for author `a`. */
  function DeveloperRecord(commits: seq<Commit>, a: string, now: int): DeveloperActivity
    requires |ByAuthor(commits, a)| > 0
  {
    var mine := ByAuthor(commits, a);
    var last := LatestDate(mine);
    DeveloperActivity(a, a, "", |mine|, 0, 0, 0, 0, CommitFrequency(mine), [], last,
                      EngagementScore(|mine|, last, now))
  }

  lemma AuthorHasCommits(commits: seq<Commit>, a: string)
    requires a in Dedup(AuthorsOf(commits))
    ensures |ByAuthor(commits, a)| > 0
  {
    DedupSpec(AuthorsOf(commits));
    ByAuthorSpec(commits, a);
    OccurrencesPositive(AuthorsOf(commits), a);
  }

  lemma AuthorsHaveCommits(commits: seq<Commit>)
    ensures forall a :: a in Dedup(AuthorsOf(commits)) ==> |ByAuthor(commits, a)| > 0
  {
    forall a | a in Dedup(AuthorsOf(commits)) ensures |ByAuthor(commits, a)| > 0 {
      AuthorHasCommits(commits, a);
    }
  }

  /** The records of the given authors, in the given order. */
  function RecordsFor(commits: seq<Commit>, authors: seq<string>, now: int): (r: seq<DeveloperActivity>)
    requires forall a :: a in authors ==> |ByAuthor(commits, a)| > 0
  {
    seq(|authors|, i requires 0 <= i < |authors| => DeveloperRecord(commits, authors[i], now))
  }

  lemma RecordsForAppend(commits: seq<Commit>, authors: seq<string>, j: nat, now: int)
    requires j < |authors|
    requires forall a :: a in authors ==> |ByAuthor(commits, a)| > 0
    ensures forall a :: a in authors[..j] ==> |ByAuthor(commits, a)| > 0
    ensures RecordsFor(commits, authors[..j + 1], now)
         == RecordsFor(commits, authors[..j], now) + [DeveloperRecord(commits, authors[j], now)]
  {
    var longer, shorter := RecordsFor(commits, authors[..j + 1], now), RecordsFor(commits, authors[..j], now);
    var next := shorter + [DeveloperRecord(commits, authors[j], now)];
    assert |longer| == |next|;
    forall i | 0 <= i < |longer| ensures longer[i] == next[i] {
      if i < j {
        assert authors[..j + 1][i] == authors[..j][i];
        assert next[i] == shorter[i];
      } else {
        assert authors[..j + 1][i] == authors[j];
      }
    }
    assert longer == next;
  }

  /** `analyzeDeveloperActivity`'s result: one record per distinct author,
      in order of the author's first commit (`Map` insertion order). */
  function Developers(commits: seq<Commit>, now: int): (r: seq<DeveloperActivity>)
  {
    AuthorsHaveCommits(commits);
    RecordsFor(commits, Dedup(AuthorsOf(commits)), now)
  }

  function TotalCommits(devs: seq<DeveloperActivity>): nat {
    Sum(seq(|devs|, i requires 0 <= i < |devs| => devs[i].totalCommits))
  }

  /** `analyzeDeveloperActivity`: the first pass fills the map, the second
      writes the engagement score and commit frequency of each record in the
      map's insertion order. */
  method AnalyzeDeveloperActivity(commits: seq<Commit>, now: int) returns (devs: seq<DeveloperActivity>)
    ensures devs == Developers(commits, now)
  {
    var developerMap, order := TallyAuthors(commits);
    devs := [];
    var j := 0;
    while j < |order|
      invariant 0 <= j <= |order|
      invariant devs == RecordsFor(commits, order[..j], now)
    {
      var dev := developerMap[order[j]];
      var mine := ByAuthor(commits, dev.name);
      dev := dev.(engagementScore := EngagementScore(dev.totalCommits, dev.lastActivity, now),
                  commitFrequency := CommitFrequency(mine));
      RecordFromTally(commits, order[j], now);
      RecordsForAppend(commits, order, j, now);
      devs := devs + [dev];
      j := j + 1;
    }
    assert order[..j] == order;
  }

  /** The second pass turns an author's tally into the returned record. */
  lemma RecordFromTally(commits: seq<Commit>, a: string, now: int)
    requires |ByAuthor(commits, a)| > 0
    ensures var t := Tally(commits, a);
      t.(engagementScore := EngagementScore(t.totalCommits, t.lastActivity, now),
         commitFrequency := CommitFrequency(ByAuthor(commits, t.name)))
      == DeveloperRecord(commits, a, now)
  {
  }

  /** The map state after the first pass has read the commits `cs`. */
  function TallyMap(cs: seq<Commit>): map<string, DeveloperActivity> {
    if cs == [] then map[] else TallyStep(TallyMap(cs[..|cs| - 1]), cs[|cs| - 1])
  }

  /** The placeholder record the first pass inserts at an author's first commit. */
  function NewRecord(c: Commit): DeveloperActivity {
    DeveloperActivity(c.author, c.author, "", 0, 0, 0, 0, 0, 0.0, [], c.date, 0.0)
  }

  /** The count and latest-date update of one commit on a record already in the map. */
  function Count(m1: map<string, DeveloperActivity>, c: Commit): map<string, DeveloperActivity>
    requires c.author in m1
  {
    var dev := m1[c.author];
    m1[c.author := dev.(totalCommits := dev.totalCommits + 1,
                        lastActivity := if c.date > dev.lastActivity then c.date else dev.lastActivity)]
  }

  /** One iteration of the first pass. */
  function TallyStep(m: map<string, DeveloperActivity>, c: Commit): map<string, DeveloperActivity> {
    Count(if c.author in m then m else m[c.author := NewRecord(c)], c)
  }

  /** After the first pass the map holds exactly the authors, each with its `Tally`. */
  lemma {:induction false} TallyMapSpec(cs: seq<Commit>)
    ensures forall a :: a in TallyMap(cs) <==> a in AuthorsOf(cs)
    ensures forall a :: a in TallyMap(cs) ==> |ByAuthor(cs, a)| > 0 && TallyMap(cs)[a] == Tally(cs, a)
  {
    TallyMapDomain(cs);
    if cs != [] {
      var p := cs[..|cs| - 1];
      var c := cs[|cs| - 1];
      assert cs == p + [c];
      TallyMapSpec(p);
      var m0, m := TallyMap(p), TallyMap(cs);
      assert m == TallyStep(m0, c);
      forall a | a in m
        ensures |ByAuthor(cs, a)| > 0 && m[a] == Tally(cs, a)
      {
        TallyStepAt(p, c, a);
      }
    }
  }

  /** One more commit keeps each author's record equal to its `Tally`. */
  lemma TallyStepAt(p: seq<Commit>, c: Commit, a: string)
    requires a in TallyMap(p) <==> a in AuthorsOf(p)
    requires a in TallyMap(p) ==> |ByAuthor(p, a)| > 0 && TallyMap(p)[a] == Tally(p, a)
    requires a in TallyStep(TallyMap(p), c)
    ensures |ByAuthor(p + [c], a)| > 0 && TallyStep(TallyMap(p), c)[a] == Tally(p + [c], a)
  {
    TallyExtend(p, c);
    if a == c.author {
      if a !in TallyMap(p) {
        ByAuthorSpec(p, a);
        OccurrencesPositive(AuthorsOf(p), a);
      }
    }
  }

  /** The first pass's map has a key for exactly the authors of the commits. */
  lemma {:induction false} TallyMapDomain(cs: seq<Commit>)
    ensures forall a :: a in TallyMap(cs) <==> a in AuthorsOf(cs)
  {
    if cs != [] {
      var p := cs[..|cs| - 1];
      var c := cs[|cs| - 1];
      TallyMapDomain(p);
      assert AuthorsOf(cs) == AuthorsOf(p) + [c.author];
      assert TallyMap(cs) == TallyStep(TallyMap(p), c);
    }
  }

  lemma TallyMapAppend(cs: seq<Commit>, c: Commit)
    ensures TallyMap(cs + [c]) == TallyStep(TallyMap(cs), c)
    ensures Dedup(AuthorsOf(cs + [c])) ==
      if c.author in TallyMap(cs) then Dedup(AuthorsOf(cs)) else Dedup(AuthorsOf(cs)) + [c.author]
  {
    assert (cs + [c])[..|cs|] == cs;
    TallyMapSpec(cs);
    TallyExtend(cs, c);
    DedupSpec(AuthorsOf(cs));
  }

  /** The first pass of `analyzeDeveloperActivity`: a record per author,
      inserted at the author's first commit, then counting the commits and
      keeping the later date. */
  method TallyAuthors(commits: seq<Commit>) returns (developerMap: map<string, DeveloperActivity>, order: seq<string>)
    ensures order == Dedup(AuthorsOf(commits))
    ensures forall a :: a in developerMap <==> a in order
    ensures forall a :: a in developerMap ==>
      |ByAuthor(commits, a)| > 0 && developerMap[a] == Tally(commits, a)
  {
    developerMap := map[];
    order := [];
    var i := 0;
    while i < |commits|
      invariant 0 <= i <= |commits|
      invariant order == Dedup(AuthorsOf(commits[..i]))
      invariant developerMap == TallyMap(commits[..i])
    {
      assert commits[..i + 1] == commits[..i] + [commits[i]];
      TallyMapAppend(commits[..i], commits[i]);
      developerMap, order := RecordCommit(developerMap, order, commits[i]);
      i := i + 1;
    }
    assert commits[..i] == commits;
    TallyMapKeys(commits);
  }

  /** The first pass's map is keyed by exactly the authors in its insertion order. */
  lemma TallyMapKeys(commits: seq<Commit>)
    ensures forall a :: a in TallyMap(commits) <==> a in Dedup(AuthorsOf(commits))
    ensures forall a :: a in TallyMap(commits) ==>
      |ByAuthor(commits, a)| > 0 && TallyMap(commits)[a] == Tally(commits, a)
  {
    TallyMapSpec(commits);
    DedupSpec(AuthorsOf(commits));
  }

  /** One iteration of the first pass: insert a fresh record for a new
      author (appending the author to the insertion order), then count the
      commit and keep the later of the two dates. */
  method RecordCommit(developerMap: map<string, DeveloperActivity>, order: seq<string>, commit: Commit)
    returns (developerMap': map<string, DeveloperActivity>, order': seq<string>)
    ensures developerMap' == TallyStep(developerMap, commit)
    ensures order' == if commit.author in developerMap then order else order + [commit.author]
  {
    var key := commit.author;
    developerMap' := developerMap;
    order' := order;
    if key !in developerMap' {
      developerMap' := developerMap'[key := DeveloperActivity(key, commit.author, "", 0, 0, 0, 0, 0, 0.0, [], commit.date, 0.0)];
      order' := order' + [key];
    }
    ghost var m1 := developerMap';
    var dev := developerMap'[key];
    var last := if commit.date > dev.lastActivity then commit.date else dev.lastActivity;
    developerMap' := developerMap'[key := dev.(totalCommits := dev.totalCommits + 1, lastActivity := last)];
    assert developerMap' == Count(m1, commit);
  }

  /** How one more commit changes the first pass's records. */
  lemma TallyExtend(cs: seq<Commit>, c: Commit)
    ensures AuthorsOf(cs + [c]) == AuthorsOf(cs) + [c.author]
    ensures Dedup(AuthorsOf(cs + [c])) ==
      if c.author in AuthorsOf(cs) then Dedup(AuthorsOf(cs)) else Dedup(AuthorsOf(cs)) + [c.author]
    ensures ByAuthor(cs + [c], c.author) == ByAuthor(cs, c.author) + [c]
    ensures forall a :: a != c.author ==> ByAuthor(cs + [c], a) == ByAuthor(cs, a)
    ensures |ByAuthor(cs, c.author)| == 0 ==>
      Tally(cs + [c], c.author) == DeveloperActivity(c.author, c.author, "", 1, 0, 0, 0, 0, 0.0, [], c.date, 0.0)
    ensures |ByAuthor(cs, c.author)| > 0 ==>
      var old_ := Tally(cs, c.author);
      Tally(cs + [c], c.author) ==
        old_.(totalCommits := old_.totalCommits + 1,
              lastActivity := if c.date > old_.lastActivity then c.date else old_.lastActivity)
  {
    var t := cs + [c];
    assert t[..|t| - 1] == cs;
    assert AuthorsOf(t)[..|t| - 1] == AuthorsOf(cs);
    DedupSpec(AuthorsOf(cs));
    var mine := ByAuthor(cs, c.author);
    if |mine| > 0 {
      assert (mine + [c])[..|mine|] == mine;
    }
  }

  /** One record per distinct author, keyed by the author string, carrying
      the placeholders the engine cannot fill (no diff data is fetched). */
  lemma DevelopersOnePerAuthor(commits: seq<Commit>, now: int)
    ensures var devs := Developers(commits, now);
      && |devs| == |AuthorSet(commits)|
      && (forall i, j :: 0 <= i < j < |devs| ==> devs[i].name != devs[j].name)
      && (forall a :: a in AuthorSet(commits) <==> exists i :: 0 <= i < |devs| && devs[i].name == a)
      && (forall i :: 0 <= i < |devs| ==>
            devs[i].developerId == devs[i].name && devs[i].email == ""
            && devs[i].linesAdded == 0 && devs[i].linesDeleted == 0 && devs[i].filesModified == 0
            && devs[i].averageCommitSize == 0 && devs[i].activeRepos == [])
  {
    var devs := Developers(commits, now);
    var authors := Dedup(AuthorsOf(commits));
    AuthorsHaveCommits(commits);
    DedupSpec(AuthorsOf(commits));
    DistinctAuthorsCount(commits);
    assert forall i :: 0 <= i < |devs| ==> devs[i].name == authors[i];
    forall a ensures a in AuthorSet(commits) <==> exists i :: 0 <= i < |devs| && devs[i].name == a {
      InAuthorSet(commits, a);
    }
  }

  lemma InAuthorSet(commits: seq<Commit>, a: string)
    ensures a in AuthorSet(commits) <==> a in AuthorsOf(commits)
  {
    if a in AuthorSet(commits) {
      var c :| c in commits && c.author == a;
      var k :| 0 <= k < |commits| && commits[k] == c;
      assert AuthorsOf(commits)[k] == a;
    }
    if a in AuthorsOf(commits) {
      var k :| 0 <= k < |commits| && AuthorsOf(commits)[k] == a;
      assert commits[k] in commits;
    }
  }

  /** Each record counts exactly its author's commits, its `lastActivity` is
      the latest of them, and the counts add up to the number of commits. */
  lemma DevelopersCountCommits(commits: seq<Commit>, now: int)
    ensures var devs := Developers(commits, now);
      && (forall i :: 0 <= i < |devs| ==>
            devs[i].totalCommits == |ByAuthor(commits, devs[i].name)| > 0
            && (exists c :: c in commits && c.author == devs[i].name && c.date == devs[i].lastActivity)
            && (forall c :: c in commits && c.author == devs[i].name ==> c.date <= devs[i].lastActivity))
      && TotalCommits(devs) == |commits|
  {
    var devs := Developers(commits, now);
    var authors := Dedup(AuthorsOf(commits));
    AuthorsHaveCommits(commits);
    forall i | 0 <= i < |devs|
      ensures devs[i].totalCommits == |ByAuthor(commits, devs[i].name)| > 0
      ensures exists c :: c in commits && c.author == devs[i].name && c.date == devs[i].lastActivity
      ensures forall c :: c in commits && c.author == devs[i].name ==> c.date <= devs[i].lastActivity
    {
      RecordLatest(commits, authors[i], now);
    }
    TotalIsSum(commits, now);
  }

  /** A record's `lastActivity` is its author's latest commit date. */
  lemma RecordLatest(commits: seq<Commit>, a: string, now: int)
    requires |ByAuthor(commits, a)| > 0
    ensures var d := DeveloperRecord(commits, a, now);
      && d.name == a && d.totalCommits == |ByAuthor(commits, a)|
      && (exists c :: c in commits && c.author == a && c.date == d.lastActivity)
      && (forall c :: c in commits && c.author == a ==> c.date <= d.lastActivity)
  {
    ByAuthorSpec(commits, a);
    var mine := ByAuthor(commits, a);
    var k :| 0 <= k < |mine| && mine[k].date == LatestDate(mine);
    assert mine[k] in mine;
    forall c | c in commits && c.author == a ensures c.date <= LatestDate(mine) {
      var m :| 0 <= m < |mine| && mine[m] == c;
    }
  }

  lemma TotalIsSum(commits: seq<Commit>, now: int)
    ensures TotalCommits(Developers(commits, now)) == |commits|
  {
    var devs := Developers(commits, now);
    var authors := Dedup(AuthorsOf(commits));
    AuthorsHaveCommits(commits);
    var totals := seq(|devs|, i requires 0 <= i < |devs| => devs[i].totalCommits);
    forall i | 0 <= i < |devs| ensures totals[i] == CountsOf(AuthorsOf(commits), authors)[i] {
      ByAuthorSpec(commits, authors[i]);
    }
    assert totals == CountsOf(AuthorsOf(commits), authors);
    SumOfDistinctCounts(AuthorsOf(commits));
  }
}
