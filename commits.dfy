/** Views of a commit list that several analyzers share: its authors, its
    dates, the latest and earliest date, and the commits of one author. */
module CommitSeqs {
  import opened Types
  import opened Seqs

  /** `commits.map(c => c.author)`. */
  function AuthorsOf(commits: seq<Commit>): (r: seq<string>)
    ensures |r| == |commits|
    ensures forall i :: 0 <= i < |commits| ==> r[i] == commits[i].author
  {
    seq(|commits|, i requires 0 <= i < |commits| => commits[i].author)
  }

  /** `commits.map(c => new Date(c.date).getTime())`. */
  function DatesOf(commits: seq<Commit>): (r: seq<int>)
    ensures |r| == |commits|
    ensures forall i :: 0 <= i < |commits| ==> r[i] == commits[i].date
  {
    seq(|commits|, i requires 0 <= i < |commits| => commits[i].date)
  }

  /** `new Set(commits.map(c => c.author))`. */
  function AuthorSet(commits: seq<Commit>): set<string> {
    set c | c in commits :: c.author
  }

  /** There are never more distinct authors than commits. */
  lemma {:induction false} AuthorSetBound(commits: seq<Commit>)
    ensures |AuthorSet(commits)| <= |commits|
  {
    if commits != [] {
      var p := commits[..|commits| - 1];
      var c := commits[|commits| - 1];
      assert commits == p + [c];
      assert AuthorSet(commits) == AuthorSet(p) + {c.author};
      AuthorSetBound(p);
    }
  }

  /** The distinct authors in order of first appearance have exactly `AuthorSet`'s size. */
  lemma DistinctAuthorsCount(commits: seq<Commit>)
    ensures |Dedup(AuthorsOf(commits))| == |AuthorSet(commits)|
  {
    var d := Dedup(AuthorsOf(commits));
    DedupSpec(AuthorsOf(commits));
    assert forall a :: a in d <==> a in AuthorSet(commits) by {
      forall a ensures a in d <==> a in AuthorSet(commits) {
        if a in AuthorSet(commits) {
          var c :| c in commits && c.author == a;
          var k :| 0 <= k < |commits| && commits[k] == c;
          assert AuthorsOf(commits)[k] == a;
        }
      }
    }
    DistinctSize(d, AuthorSet(commits));
  }

  lemma {:induction false} DistinctSize<T>(d: seq<T>, s: set<T>)
    requires NoDuplicates(d)
    requires forall x :: x in d <==> x in s
    ensures |d| == |s|
  {
    if d != [] {
      var x := d[|d| - 1];
      var p := d[..|d| - 1];
      assert x !in p by {
        forall k | 0 <= k < |p| ensures p[k] != x { assert d[k] != d[|d| - 1]; }
      }
      assert forall y :: y in p <==> y in s - {x} by {
        forall y ensures y in p <==> y in s - {x} {
          assert y in d <==> y in p || y == x by { assert d == p + [x]; }
        }
      }
      DistinctSize(p, s - {x});
    }
  }

  /** The date the source keeps as "latest": a left fold that replaces the
      running value only when a later commit is strictly later. */
  function LatestDate(commits: seq<Commit>): (r: int)
    requires |commits| > 0
    ensures exists k :: 0 <= k < |commits| && commits[k].date == r
    ensures forall k :: 0 <= k < |commits| ==> commits[k].date <= r
  {
    if |commits| == 1 then commits[0].date
    else
      var p := LatestDate(commits[..|commits| - 1]);
      var d := commits[|commits| - 1].date;
      if d > p then d else p
  }

  /** The earliest commit date. */
  function EarliestDate(commits: seq<Commit>): (r: int)
    requires |commits| > 0
    ensures exists k :: 0 <= k < |commits| && commits[k].date == r
    ensures forall k :: 0 <= k < |commits| ==> r <= commits[k].date
  {
    if |commits| == 1 then commits[0].date
    else
      var p := EarliestDate(commits[..|commits| - 1]);
      var d := commits[|commits| - 1].date;
      if d < p then d else p
  }

  /** `commits.filter(c => c.author === a)`. */
  function ByAuthor(commits: seq<Commit>, a: string): (r: seq<Commit>)
    ensures |r| <= |commits|
  {
    if commits == [] then []
    else
      var p := ByAuthor(commits[..|commits| - 1], a);
      if commits[|commits| - 1].author == a then p + [commits[|commits| - 1]] else p
  }

  /** An author's commits are exactly the commits carrying that author, and
      there are as many as the author occurs in the author list. */
  lemma {:induction false} ByAuthorSpec(commits: seq<Commit>, a: string)
    ensures |ByAuthor(commits, a)| == Occurrences(AuthorsOf(commits), a)
    ensures forall c :: c in ByAuthor(commits, a) <==> c in commits && c.author == a
  {
    if commits != [] {
      var p := commits[..|commits| - 1];
      assert AuthorsOf(commits)[..|commits| - 1] == AuthorsOf(p);
      assert commits == p + [commits[|commits| - 1]];
      ByAuthorSpec(p, a);
    }
  }

  /** The comparator `(a, b) => date(a) - date(b)`: `a` goes first when it is strictly earlier. */
  predicate DateLess(a: Commit, b: Commit) {
    a.date < b.date
  }

  function DateKey(c: Commit): int {
    c.date
  }

  /** After sorting by date the first commit has the earliest date and the last the latest. */
  lemma SortedByDateSpan(commits: seq<Commit>)
    requires commits != []
    ensures var s := SortBy(commits, DateLess);
      s[0].date == EarliestDate(commits) && s[|s| - 1].date == LatestDate(commits)
  {
    var s := SortBy(commits, DateLess);
    SortBySorted(commits, DateLess, DateKey);
    SortByPermutes(commits, DateLess);
    SortedEnds(s, commits, DateKey);
    var ke :| 0 <= ke < |commits| && commits[ke].date == EarliestDate(commits);
    var kl :| 0 <= kl < |commits| && commits[kl].date == LatestDate(commits);
    assert commits[ke] in commits && commits[kl] in commits;
    var k0 :| 0 <= k0 < |commits| && commits[k0] == s[0];
    var k1 :| 0 <= k1 < |commits| && commits[k1] == s[|s| - 1];
  }
}
