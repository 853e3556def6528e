/**
 * The list the bookmark component renders: the entries matching the search
 * query, sorted by the chosen mode. It is computed from the list and never
 * changes it.
 */
module View {
  import opened Types
  import opened Text

  /** The five values of the sort selector. */
  datatype SortMode = DateDesc | DateAsc | TitleAsc | TitleDesc | Domain

  /**
   * The comparator given to `sort`: negative when `a` goes first. `hostname`
   * stands for `new URL(url).hostname`.
   */
  function Compare(mode: SortMode, hostname: string -> string, a: Bookmark, b: Bookmark): int {
    match mode
    case DateDesc => b.createdAt - a.createdAt
    case DateAsc => a.createdAt - b.createdAt
    case TitleAsc => CompareStrings(a.title, b.title)
    case TitleDesc => CompareStrings(b.title, a.title)
    case Domain => CompareStrings(hostname(a.url), hostname(b.url))
  }

  /** Each comparator is antisymmetric in sign. */
  lemma CompareFlip(mode: SortMode, hostname: string -> string, a: Bookmark, b: Bookmark)
    ensures Compare(mode, hostname, a, b) < 0 <==> Compare(mode, hostname, b, a) > 0
  {
    match mode
    case TitleAsc => CompareStringsAntisymmetric(a.title, b.title);
    case TitleDesc => CompareStringsAntisymmetric(a.title, b.title);
    case Domain => CompareStringsAntisymmetric(hostname(a.url), hostname(b.url));
    case _ =>
  }

  /** Each comparator is transitive, so it is a total preorder and `sort` is well defined. */
  lemma CompareTransitive(mode: SortMode, hostname: string -> string, a: Bookmark, b: Bookmark, c: Bookmark)
    requires Compare(mode, hostname, a, b) <= 0 && Compare(mode, hostname, b, c) <= 0
    ensures Compare(mode, hostname, a, c) <= 0
  {
    match mode
    case TitleAsc => CompareStringsTransitive(a.title, b.title, c.title);
    case TitleDesc => CompareStringsTransitive(c.title, b.title, a.title);
    case Domain => CompareStringsTransitive(hostname(a.url), hostname(b.url), hostname(c.url));
    case _ =>
  }

  /** `m2` sorts by the reverse of `m1`'s comparator. */
  predicate Opposite(m1: SortMode, m2: SortMode) {
    || (m1 == DateDesc && m2 == DateAsc) || (m1 == DateAsc && m2 == DateDesc)
    || (m1 == TitleAsc && m2 == TitleDesc) || (m1 == TitleDesc && m2 == TitleAsc)
  }

  /** `title-desc` is `title-asc` reversed and `date-asc` is `date-desc` reversed, comparison by comparison. */
  lemma OppositeComparators(m1: SortMode, m2: SortMode, hostname: string -> string, a: Bookmark, b: Bookmark)
    requires Opposite(m1, m2)
    ensures Compare(m2, hostname, a, b) == -Compare(m1, hostname, a, b)
  {
    CompareStringsAntisymmetric(a.title, b.title);
  }

  ghost predicate SortedBy(s: seq<Bookmark>, mode: SortMode, hostname: string -> string) {
    forall i, j :: 0 <= i < j < |s| ==> Compare(mode, hostname, s[i], s[j]) <= 0
  }

  /** An entry that no later entry goes before, in front of a sorted list. */
  lemma ConsSorted(y: Bookmark, rest: seq<Bookmark>, mode: SortMode, hostname: string -> string)
    requires SortedBy(rest, mode, hostname)
    requires forall k :: 0 <= k < |rest| ==> Compare(mode, hostname, y, rest[k]) <= 0
    ensures SortedBy([y] + rest, mode, hostname)
  {
    assert forall j :: 0 < j < |[y] + rest| ==> ([y] + rest)[j] == rest[j - 1];
  }

  /** Inserts `x` before the first entry it does not come after. */
  function Insert(x: Bookmark, t: seq<Bookmark>, mode: SortMode, hostname: string -> string): (r: seq<Bookmark>)
    requires SortedBy(t, mode, hostname)
    ensures SortedBy(r, mode, hostname)
    ensures multiset(r) == multiset(t) + multiset{x}
    ensures forall y :: y in r ==> y == x || y in t
  {
    if t == [] || Compare(mode, hostname, x, t[0]) <= 0 then
      forall j | 0 <= j < |t| ensures Compare(mode, hostname, x, t[j]) <= 0 {
        if j > 0 {
          CompareTransitive(mode, hostname, x, t[0], t[j]);
        }
      }
      ConsSorted(x, t, mode, hostname);
      [x] + t
    else
      CompareFlip(mode, hostname, x, t[0]);
      var rest := Insert(x, t[1..], mode, hostname);
      assert t == [t[0]] + t[1..];
      forall k | 0 <= k < |rest| ensures Compare(mode, hostname, t[0], rest[k]) <= 0 {
        assert rest[k] in rest;
        if rest[k] != x {
          var j :| 0 <= j < |t[1..]| && t[1..][j] == rest[k];
          assert t[j + 1] == rest[k];
        }
      }
      ConsSorted(t[0], rest, mode, hostname);
      [t[0]] + rest
  }

  /**
   * `Array.prototype.sort` with the mode's comparator: a sorted permutation.
   * The JavaScript sort is also stable; that the insertion below keeps
   * entries that compare equal in their original order is not proved.
   */
  function Sort(s: seq<Bookmark>, mode: SortMode, hostname: string -> string): (r: seq<Bookmark>)
    ensures SortedBy(r, mode, hostname)
    ensures multiset(r) == multiset(s)
  {
    if s == [] then []
    else
      assert s == [s[0]] + s[1..];
      Insert(s[0], Sort(s[1..], mode, hostname), mode, hostname)
  }

  /** The search test: lower-cased title, url or hostname contains the lower-cased query. */
  predicate MatchesQuery(b: Bookmark, needle: string, hostname: string -> string) {
    || Includes(ToLower(b.title), needle)
    || Includes(ToLower(b.url), needle)
    || Includes(ToLower(hostname(b.url)), needle)
  }

  /** `filter(MatchesQuery)`: each matching entry as often as in `s`, no other entry. */
  function KeepMatching(s: seq<Bookmark>, needle: string, hostname: string -> string): (r: seq<Bookmark>)
    ensures forall b: Bookmark :: multiset(r)[b] == if MatchesQuery(b, needle, hostname) then multiset(s)[b] else 0
  {
    if s == [] then []
    else
      assert s == [s[0]] + s[1..];
      var rest := KeepMatching(s[1..], needle, hostname);
      if MatchesQuery(s[0], needle, hostname) then [s[0]] + rest else rest
  }

  /**
   * The filter step: a query that trims to nothing keeps every entry; any
   * other query is lower-cased as typed (not trimmed) and matched.
   */
  function FilterByQuery(s: seq<Bookmark>, query: string, hostname: string -> string): seq<Bookmark> {
    if Trim(query) == [] then s else KeepMatching(s, ToLower(query), hostname)
  }

  /** `filteredAndSortedBookmarks`. */
  function FilteredAndSorted(s: seq<Bookmark>, query: string, mode: SortMode, hostname: string -> string): (r: seq<Bookmark>)
    ensures SortedBy(r, mode, hostname)
    ensures IsAllWhitespace(query) ==> multiset(r) == multiset(s)
    ensures !IsAllWhitespace(query) ==>
      forall b: Bookmark :: multiset(r)[b] == if MatchesQuery(b, ToLower(query), hostname) then multiset(s)[b] else 0
  {
    Sort(FilterByQuery(s, query, hostname), mode, hostname)
  }

  function Reverse(s: seq<Bookmark>): (r: seq<Bookmark>)
    ensures |r| == |s|
    ensures forall i :: 0 <= i < |s| ==> r[i] == s[|s| - 1 - i]
    ensures multiset(r) == multiset(s)
  {
    if s == [] then []
    else
      assert s == [s[0]] + s[1..];
      Reverse(s[1..]) + [s[0]]
  }

  /** No two different entries of `s` compare equal under `mode`. */
  ghost predicate NoTies(s: seq<Bookmark>, mode: SortMode, hostname: string -> string) {
    forall x, y :: x in s && y in s && Compare(mode, hostname, x, y) == 0 ==> x == y
  }

  /** Two sorted permutations of a list without ties start alike. */
  lemma SortedHeadsEqual(a: seq<Bookmark>, b: seq<Bookmark>, mode: SortMode, hostname: string -> string)
    requires a != [] && multiset(a) == multiset(b)
    requires SortedBy(a, mode, hostname) && SortedBy(b, mode, hostname)
    requires NoTies(a, mode, hostname)
    ensures b != [] && a[0] == b[0]
  {
    assert |multiset(b)| == |multiset(a)| > 0;
    assert a[0] in multiset(b) && b[0] in multiset(a);
    var k :| 0 <= k < |b| && b[k] == a[0];
    var m :| 0 <= m < |a| && a[m] == b[0];
    if k > 0 && m > 0 {
      assert Compare(mode, hostname, b[0], a[0]) <= 0;
      assert Compare(mode, hostname, a[0], b[0]) <= 0;
      CompareFlip(mode, hostname, a[0], b[0]);
      assert b[0] in a;
    }
  }

  lemma TailsSamePermutation(a: seq<Bookmark>, b: seq<Bookmark>)
    requires a != [] && b != [] && a[0] == b[0] && multiset(a) == multiset(b)
    ensures multiset(a[1..]) == multiset(b[1..])
  {
    assert a == [a[0]] + a[1..] && b == [b[0]] + b[1..];
    assert multiset(a[1..]) == multiset(a) - multiset{a[0]};
    assert multiset(b[1..]) == multiset(b) - multiset{b[0]};
  }

  lemma TailSortedNoTies(a: seq<Bookmark>, mode: SortMode, hostname: string -> string)
    requires a != [] && SortedBy(a, mode, hostname) && NoTies(a, mode, hostname)
    ensures SortedBy(a[1..], mode, hostname) && NoTies(a[1..], mode, hostname)
  {
    assert forall x :: x in a[1..] ==> x in a;
  }

  lemma TailSorted(a: seq<Bookmark>, mode: SortMode, hostname: string -> string)
    requires a != [] && SortedBy(a, mode, hostname)
    ensures SortedBy(a[1..], mode, hostname)
  {
    assert forall i :: 0 <= i < |a| - 1 ==> a[1..][i] == a[i + 1];
  }

  /** Without ties, a sorted permutation is unique. */
  lemma {:induction false} SortedUnique(a: seq<Bookmark>, b: seq<Bookmark>, mode: SortMode, hostname: string -> string)
    requires multiset(a) == multiset(b)
    requires SortedBy(a, mode, hostname) && SortedBy(b, mode, hostname)
    requires NoTies(a, mode, hostname)
    ensures a == b
    decreases |a|
  {
    if a == [] {
      assert |multiset(b)| == 0;
    } else {
      SortedHeadsEqual(a, b, mode, hostname);
      TailsSamePermutation(a, b);
      TailSortedNoTies(a, mode, hostname);
      TailSorted(b, mode, hostname);
      SortedUnique(a[1..], b[1..], mode, hostname);
      assert a == [a[0]] + a[1..] && b == [b[0]] + b[1..];
    }
  }

  /** Reversing a list sorted by one mode sorts it by the opposite mode. */
  lemma ReverseSortsOpposite(v: seq<Bookmark>, m1: SortMode, m2: SortMode, hostname: string -> string)
    requires Opposite(m1, m2) && SortedBy(v, m1, hostname)
    ensures SortedBy(Reverse(v), m2, hostname)
  {
    var rv := Reverse(v);
    forall i, j | 0 <= i < j < |rv| ensures Compare(m2, hostname, rv[i], rv[j]) <= 0 {
      OppositeComparators(m1, m2, hostname, rv[i], rv[j]);
      CompareFlip(m1, hostname, rv[j], rv[i]);
      assert Compare(m1, hostname, v[|v| - 1 - j], v[|v| - 1 - i]) <= 0;
    }
  }

  /** The filter only drops entries. */
  lemma FilterByQuerySubset(s: seq<Bookmark>, query: string, hostname: string -> string)
    ensures multiset(FilterByQuery(s, query, hostname)) <= multiset(s)
  {
  }

  /** A selection from a list without ties has none either. */
  lemma NoTiesSubset(a: seq<Bookmark>, b: seq<Bookmark>, mode: SortMode, hostname: string -> string)
    requires multiset(a) <= multiset(b) && NoTies(b, mode, hostname)
    ensures NoTies(a, mode, hostname)
  {
    forall x, y | x in a && y in a && Compare(mode, hostname, x, y) == 0 ensures x == y {
      assert x in multiset(a) && y in multiset(a);
      assert x in multiset(b) && y in multiset(b);
    }
  }

  lemma NoTiesOpposite(s: seq<Bookmark>, m1: SortMode, m2: SortMode, hostname: string -> string)
    requires Opposite(m1, m2) && NoTies(s, m1, hostname)
    ensures NoTies(s, m2, hostname)
  {
    forall x, y | x in s && y in s && Compare(m2, hostname, x, y) == 0 ensures x == y {
      OppositeComparators(m1, m2, hostname, x, y);
    }
  }

  /** Without ties, sorting by the opposite mode gives the reversed list. */
  lemma SortOpposite(f: seq<Bookmark>, m1: SortMode, m2: SortMode, hostname: string -> string)
    requires Opposite(m1, m2) && NoTies(f, m1, hostname)
    ensures Sort(f, m2, hostname) == Reverse(Sort(f, m1, hostname))
  {
    var v1 := Sort(f, m1, hostname);
    var rv := Reverse(v1);
    ReverseSortsOpposite(v1, m1, m2, hostname);
    NoTiesOpposite(f, m1, m2, hostname);
    NoTiesSubset(rv, f, m2, hostname);
    SortedUnique(rv, Sort(f, m2, hostname), m2, hostname);
  }

  /**
   * Where no two entries tie, `date-asc` shows exactly the reverse of
   * `date-desc`, and `title-desc` the reverse of `title-asc`.
   */
  lemma OppositeModesReverse(s: seq<Bookmark>, query: string, m1: SortMode, m2: SortMode, hostname: string -> string)
    requires Opposite(m1, m2)
    requires NoTies(s, m1, hostname)
    ensures FilteredAndSorted(s, query, m2, hostname) == Reverse(FilteredAndSorted(s, query, m1, hostname))
  {
    var f := FilterByQuery(s, query, hostname);
    FilterByQuerySubset(s, query, hostname);
    NoTiesSubset(f, s, m1, hostname);
    SortOpposite(f, m1, m2, hostname);
  }
}
