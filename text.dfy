/** String operations the analyzers rely on: ASCII case mapping (the model of
    `toLowerCase`/`toUpperCase`), substring search (`includes`), the keyword
    tests applied to commit messages, the shared percentage formula, and the
    decimal rendering and string order that JavaScript uses when it sorts
    numbers without a comparator. */
module Text {
  import opened Types
  import Seqs

  function Lower(c: char): char {
    if 'A' <= c <= 'Z' then (c as int + 32) as char else c
  }

  function Upper(c: char): char {
    if 'a' <= c <= 'z' then (c as int - 32) as char else c
  }

  /** `s.toLowerCase()`, restricted to ASCII letters. */
  function LowerStr(s: string): (r: string)
    ensures |r| == |s|
    ensures forall i :: 0 <= i < |s| ==> r[i] == Lower(s[i])
  {
    seq(|s|, i requires 0 <= i < |s| => Lower(s[i]))
  }

  /** The UTF-16 code units a character takes: two outside the Basic
      Multilingual Plane, where JavaScript stores a surrogate pair. */
  function Utf16Units(c: char): nat {
    if c as int > 0xFFFF then 2 else 1
  }

  /** `s.length` in JavaScript: the number of UTF-16 code units of `s`. */
  function Utf16Length(s: string): (r: nat)
    ensures |s| <= r <= 2 * |s|
  {
    if s == [] then 0 else Utf16Units(s[0]) + Utf16Length(s[1..])
  }

  /** Within the Basic Multilingual Plane every character is one code unit. */
  lemma {:induction false} Utf16LengthBmp(s: string)
    requires forall i :: 0 <= i < |s| ==> s[i] as int <= 0xFFFF
    ensures Utf16Length(s) == |s|
  {
    if s != [] {
      assert s[0] as int <= 0xFFFF;
      Utf16LengthBmp(s[1..]);
    }
  }

  /** `sub` occurs in `s` starting at position `i`. */
  predicate OccursAt(s: string, sub: string, i: int) {
    0 <= i && i + |sub| <= |s| && s[i..i + |sub|] == sub
  }

  /** `s.includes(sub)`: `sub` occurs in `s` at some position. */
  predicate Contains(s: string, sub: string) {
    exists i | 0 <= i <= |s| - |sub| :: OccursAt(s, sub, i)
  }

  /** `s.startsWith(p)`. */
  predicate StartsWith(s: string, p: string) {
    |p| <= |s| && s[..|p|] == p
  }

  /** A string that contains `big` contains every substring of `big`. */
  lemma ContainsTransitive(s: string, big: string, k: nat, small: string)
    requires Contains(s, big)
    requires k + |small| <= |big| && big[k..k + |small|] == small
    ensures Contains(s, small)
  {
    var i :| 0 <= i <= |s| - |big| && OccursAt(s, big, i);
    assert s[i..i + |big|] == big;
    forall j | 0 <= j < |small| ensures s[i + k + j] == small[j] {
      assert s[i..i + |big|][k + j] == big[k + j];
      assert big[k..k + |small|][j] == big[k + j];
    }
    assert s[i + k..i + k + |small|] == small;
    assert OccursAt(s, small, i + k);
  }

  /** The keyword test used throughout: the lower-cased message includes one of the keywords. */
  predicate Mentions(message: string, keywords: seq<string>) {
    exists k :: k in keywords && Contains(LowerStr(message), k)
  }

  /** Number of commits whose message mentions one of the keywords
      (`commits.filter(c => ... includes ...).length`). */
  function MatchCount(commits: seq<Commit>, keywords: seq<string>): (r: nat)
    ensures r <= |commits|
  {
    if commits == [] then 0
    else MatchCount(commits[..|commits| - 1], keywords)
         + (if Mentions(commits[|commits| - 1].message, keywords) then 1 else 0)
  }

  lemma {:induction false} MatchCountAppend(s: seq<Commit>, t: seq<Commit>, keywords: seq<string>)
    ensures MatchCount(s + t, keywords) == MatchCount(s, keywords) + MatchCount(t, keywords)
  {
    if t == [] {
      assert s + t == s;
    } else {
      assert (s + t)[..|s + t| - 1] == s + t[..|t| - 1];
      MatchCountAppend(s, t[..|t| - 1], keywords);
    }
  }

  /** Reordering the commits does not change any keyword count. */
  lemma {:induction false} MatchCountPermutation(s: seq<Commit>, t: seq<Commit>, keywords: seq<string>)
    requires multiset(s) == multiset(t)
    ensures MatchCount(s, keywords) == MatchCount(t, keywords)
  {
    if s != [] {
      var x := s[|s| - 1];
      var p := s[..|s| - 1];
      assert s == p + [x];
      assert multiset(s) == multiset(p) + multiset{x};
      assert x in multiset(t);
      var k :| 0 <= k < |t| && t[k] == x;
      var t' := RemoveAt(t, k, keywords);
      MatchCountPermutation(p, t', keywords);
    }
  }

  /** `t` without its `k`-th commit: one fewer of that commit, and its match removed from the count. */
  function RemoveAt(t: seq<Commit>, k: nat, keywords: seq<string>): (r: seq<Commit>)
    requires k < |t|
    ensures multiset(r) == multiset(t) - multiset{t[k]}
    ensures MatchCount(t, keywords) == MatchCount(r, keywords) + (if Mentions(t[k].message, keywords) then 1 else 0)
  {
    var r := t[..k] + t[k + 1..];
    assert t == t[..k] + [t[k]] + t[k + 1..];
    assert multiset(t) == multiset(r) + multiset{t[k]};
    MatchCountAppend(t[..k] + [t[k]], t[k + 1..], keywords);
    MatchCountAppend(t[..k], [t[k]], keywords);
    MatchCountAppend(t[..k], t[k + 1..], keywords);
    assert MatchCount([t[k]], keywords) == MatchCount([], keywords) + (if Mentions(t[k].message, keywords) then 1 else 0);
    r
  }

  /** Matching one keyword list implies matching a list that includes all its keywords. */
  lemma MatchCountMonotone(commits: seq<Commit>, small: seq<string>, large: seq<string>)
    requires forall k :: k in small ==> k in large
    ensures MatchCount(commits, small) <= MatchCount(commits, large)
  {
    if commits != [] {
      MatchCountMonotone(commits[..|commits| - 1], small, large);
    }
  }

  /** Two keyword lists that every message mentions alike give the same count. */
  lemma {:induction false} MatchCountEquivalent(commits: seq<Commit>, a: seq<string>, b: seq<string>)
    requires forall c :: c in commits ==> (Mentions(c.message, a) <==> Mentions(c.message, b))
    ensures MatchCount(commits, a) == MatchCount(commits, b)
  {
    if commits != [] {
      assert commits[|commits| - 1] in commits;
      MatchCountEquivalent(commits[..|commits| - 1], a, b);
    }
  }

  /** The shared percentage: `Math.min((k / Math.max(n, 1)) * 100, 100)`. */
  function Pct(k: nat, n: nat): (r: real)
    ensures 0.0 <= r <= 100.0
    ensures k == 0 ==> r == 0.0
    ensures 0 < n && k == n ==> r == 100.0
  {
    var ratio := (k as real / (if n > 1 then n else 1) as real) * 100.0;
    if ratio < 100.0 then ratio else 100.0
  }

  /** A percentage of at most `n` matches out of `n` is full exactly when all match. */
  lemma PctFull(k: nat, n: nat)
    requires k <= n
    ensures Pct(k, n) == 100.0 <==> 0 < n && k == n
  {
    if 0 < n {
      PctTimes(k, n);
    }
  }

  /** Below the cap the percentage is exact: `Pct(k, n)` of `n` is `100 * k`. */
  lemma PctTimes(k: nat, n: nat)
    requires 0 < n && k <= n
    ensures Pct(k, n) * (n as real) == 100.0 * (k as real)
  {
  }

  /** Number of `c` characters in `s`; `s.split(c).length` is one more. */
  function CountChar(s: string, c: char): (r: nat)
    ensures r <= |s|
  {
    if s == [] then 0 else CountChar(s[..|s| - 1], c) + (if s[|s| - 1] == c then 1 else 0)
  }

  // ---------------------------------------------------------------------
  // Numbers as JavaScript renders and compares them as strings

  function DigitChar(d: nat): char
    requires d < 10
  {
    ('0' as int + d) as char
  }

  /** The decimal digits of a natural number, most significant first. */
  function Digits(n: nat): (r: string)
    ensures |r| > 0
    ensures forall i :: 0 <= i < |r| ==> '0' <= r[i] <= '9'
  {
    if n < 10 then [DigitChar(n)] else Digits(n / 10) + [DigitChar(n % 10)]
  }

  function Pow10(k: nat): (r: nat)
    ensures r >= 1
  {
    if k == 0 then 1 else 10 * Pow10(k - 1)
  }

  /** A number between `d * 10^k` and `(d + 1) * 10^k` is written with leading digit `d`. */
  lemma {:induction false} LeadingDigit(n: nat, k: nat, d: nat)
    requires 1 <= d <= 9 && d * Pow10(k) <= n < (d + 1) * Pow10(k)
    ensures Digits(n)[0] == DigitChar(d)
    ensures Decimal(n)[0] == DigitChar(d)
  {
    if k == 0 {
      assert n == d;
    } else {
      DropLastDigit(n, k, d);
      LeadingDigit(n / 10, k - 1, d);
      assert Digits(n) == Digits(n / 10) + [DigitChar(n % 10)];
    }
  }

  /** Dropping the last digit of a number of `k + 1` digits with leading digit `d` leaves one of `k` digits with the same leading digit. */
  lemma DropLastDigit(n: nat, k: nat, d: nat)
    requires k > 0 && 1 <= d <= 9 && d * Pow10(k) <= n < (d + 1) * Pow10(k)
    ensures n >= 10
    ensures d * Pow10(k - 1) <= n / 10 < (d + 1) * Pow10(k - 1)
  {
    var p := Pow10(k - 1);
    assert Pow10(k) == 10 * p;
    ScaleByTen(d, p);
    ScaleByTen(d + 1, p);
    DivideByTen(n, d * p, (d + 1) * p);
  }

  lemma ScaleByTen(d: nat, p: nat)
    ensures d * (10 * p) == 10 * (d * p)
  {
  }

  lemma DivideByTen(n: nat, lo: nat, hi: nat)
    requires 10 * lo <= n < 10 * hi
    ensures lo <= n / 10 < hi
  {
  }

  /** `x / y` for a positive divisor. */
  function Div(x: real, y: real): (r: real)
    requires y > 0.0
    ensures x >= 0.0 ==> r >= 0.0
    ensures x > 0.0 ==> r > 0.0
    ensures x == 0.0 ==> r == 0.0
  {
    x / y
  }

  /** Multiplying a quotient back by its divisor gives the dividend. */
  lemma DivTimes(x: real, y: real)
    requires y > 0.0
    ensures Div(x, y) * y == x
  {
  }

  lemma DivAtMost(x: real, y: real, b: real)
    requires y > 0.0 && x <= b * y
    ensures Div(x, y) <= b
  {
    var r := Div(x, y);
    DivTimes(x, y);
    if r > b {
      MulStrict(r, b, y);
    }
  }

  lemma DivEquals(x: real, y: real, b: real)
    requires y > 0.0
    ensures Div(x, y) == b <==> x == b * y
  {
    var r := Div(x, y);
    DivTimes(x, y);
    if r > b {
      MulStrict(r, b, y);
    } else if r < b {
      MulStrict(b, r, y);
    }
  }

  /** The mean of `n` naturals each at most `bound` is at most `bound`. */
  lemma MeanAtMost(total: nat, n: nat, bound: nat)
    requires n > 0 && total <= bound * n
    ensures 0.0 <= Div(total as real, n as real) <= bound as real
  {
    assert (bound * n) as real == bound as real * n as real;
    DivAtMost(total as real, n as real, bound as real);
  }

  /** The mean of `n` naturals is `bound` exactly when they total `bound * n`. */
  lemma MeanEquals(total: nat, n: nat, bound: nat)
    requires n > 0
    ensures Div(total as real, n as real) == bound as real <==> total == bound * n
  {
    assert (bound * n) as real == bound as real * n as real;
    DivEquals(total as real, n as real, bound as real);
  }

  lemma MulStrict(p: real, q: real, y: real)
    requires p > q && y > 0.0
    ensures p * y > q * y
  {
    assert (p - q) * y > 0.0;
  }

  /** `String(n)` / `n.toString()` for an integer-valued number. */
  function Decimal(n: int): (r: string)
    ensures |r| > 0
  {
    if n < 0 then "-" + Digits(-n) else Digits(n)
  }

  /** Two non-negative numbers compare as strings by their first digits when those differ. */
  lemma DecimalLessByLeadingDigit(x: nat, y: nat)
    requires Decimal(x)[0] < Decimal(y)[0]
    ensures DecimalLess(x, y) && !DecimalLess(y, x)
  {
  }

  /** JavaScript string `<`: by UTF-16 code unit, a proper prefix before its extensions. */
  predicate LexLess(a: string, b: string) {
    if a == [] then b != []
    else if b == [] then false
    else if a[0] != b[0] then a[0] < b[0]
    else LexLess(a[1..], b[1..])
  }

  /** The order `Array.prototype.sort()` without a comparator puts numbers in. */
  predicate DecimalLess(x: int, y: int) {
    LexLess(Decimal(x), Decimal(y))
  }

  /** Numeric order, the one a `(a, b) => a - b` comparator gives. */
  predicate IntLess(x: int, y: int) {
    x < y
  }

  function IntKey(x: int): int { x }

  /** Non-negative numbers all written with the same number of digits. */
  predicate SameWidth(xs: seq<int>) {
    forall i, j :: 0 <= i < |xs| && 0 <= j < |xs| ==> xs[i] >= 0 && |Decimal(xs[i])| == |Decimal(xs[j])|
  }

  /** When all the numbers have the same number of digits, the comparator-less
      sort puts them in numeric order. */
  lemma DecimalSortIsNumeric(xs: seq<int>)
    requires SameWidth(xs)
    ensures Seqs.SortBy(xs, DecimalLess) == Seqs.SortBy(xs, IntLess)
  {
    forall x, y | x in xs && y in xs
      ensures DecimalLess(x, y) == IntLess(x, y)
    {
      var i :| 0 <= i < |xs| && xs[i] == x;
      var j :| 0 <= j < |xs| && xs[j] == y;
      assert x >= 0 && y >= 0 && |Decimal(x)| == |Decimal(y)|;
      SameWidthOrder(x, y);
    }
    Seqs.SortByAgree(xs, DecimalLess, IntLess);
  }

  /** Two non-negative numbers written with the same number of digits compare
      as strings exactly as they compare as numbers, and are written alike
      exactly when they are equal. */
  lemma {:induction false} SameWidthOrder(x: nat, y: nat)
    requires |Digits(x)| == |Digits(y)|
    ensures LexLess(Digits(x), Digits(y)) <==> x < y
    ensures Digits(x) == Digits(y) <==> x == y
  {
    if x < 10 || y < 10 {
      assert x >= 10 ==> |Digits(x)| >= 2;
      assert y >= 10 ==> |Digits(y)| >= 2;
      assert Digits(x) == [DigitChar(x)] && Digits(y) == [DigitChar(y)];
      LexLessSnoc([], [], DigitChar(x), DigitChar(y));
    } else {
      SameWidthOrder(x / 10, y / 10);
      LexLessSnoc(Digits(x / 10), Digits(y / 10), DigitChar(x % 10), DigitChar(y % 10));
      LastDigitOrder(x, y);
      if Digits(x) == Digits(y) {
        assert Digits(x / 10) == Digits(x)[..|Digits(x)| - 1];
        assert Digits(y / 10) == Digits(y)[..|Digits(y)| - 1];
        assert DigitChar(x % 10) == Digits(x)[|Digits(x)| - 1];
      }
    }
  }

  /** Numbers order by all but their last digit first, then by the last digit. */
  lemma LastDigitOrder(x: nat, y: nat)
    ensures x < y <==> x / 10 < y / 10 || (x / 10 == y / 10 && x % 10 < y % 10)
    ensures x == y <==> x / 10 == y / 10 && x % 10 == y % 10
  {
  }

  /** Strings of equal length extended by one character each compare by the
      strings first and by the added characters when the strings are equal. */
  lemma {:induction false} LexLessSnoc(a: string, b: string, c: char, d: char)
    requires |a| == |b|
    ensures LexLess(a + [c], b + [d]) <==> LexLess(a, b) || (a == b && c < d)
  {
    if a != [] {
      assert (a + [c])[0] == a[0] && (b + [d])[0] == b[0];
      if a[0] == b[0] {
        assert (a + [c])[1..] == a[1..] + [c];
        assert (b + [d])[1..] == b[1..] + [d];
        LexLessSnoc(a[1..], b[1..], c, d);
        assert a == b <==> a[1..] == b[1..] by {
          if a[1..] == b[1..] {
            assert a == [a[0]] + a[1..] && b == [b[0]] + b[1..];
          }
        }
      }
    }
  }

  /** Distinct numbers are written differently. */
  lemma DecimalInjective(x: int, y: int)
    ensures Decimal(x) == Decimal(y) <==> x == y
  {
    if x >= 0 && y < 0 {
      assert Decimal(y)[0] == '-' && '0' <= Decimal(x)[0] <= '9';
    } else if x < 0 && y >= 0 {
      assert Decimal(x)[0] == '-' && '0' <= Decimal(y)[0] <= '9';
    }
    if Decimal(x) == Decimal(y) {
      if x >= 0 && y >= 0 {
        SameWidthOrder(x, y);
      } else if x < 0 && y < 0 {
        assert Digits(-x) == Decimal(x)[1..] && Digits(-y) == Decimal(y)[1..];
        SameWidthOrder(-x, -y);
      }
    }
  }

  /** A number from `10^k` up to (not including) `10^(k+1)` has `k + 1` digits. */
  lemma {:induction false} DigitCount(n: nat, k: nat)
    requires Pow10(k) <= n < Pow10(k + 1)
    ensures |Digits(n)| == k + 1
  {
    if k > 0 {
      assert Pow10(k + 1) == 10 * Pow10(k) && Pow10(k) == 10 * Pow10(k - 1);
      DivideByTen(n, Pow10(k - 1), Pow10(k));
      DigitCount(n / 10, k - 1);
    }
  }

  /** Millisecond dates from 2001-09-09T01:46:40Z (10^12) up to
      2286-11-20T17:46:40Z (10^13) all have thirteen digits. */
  lemma ThirteenDigits(xs: seq<int>)
    requires forall i :: 0 <= i < |xs| ==> Pow10(12) <= xs[i] < Pow10(13)
    ensures SameWidth(xs)
  {
    forall i | 0 <= i < |xs|
      ensures xs[i] >= 0 && |Decimal(xs[i])| == 13
    {
      DigitCount(xs[i], 12);
    }
  }
}
