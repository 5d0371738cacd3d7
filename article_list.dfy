/** articleList and the sort.Interface it implements (Len, Less, Swap), with
    the in-place sort that Go's sort.Sort performs through that interface. */
module ArticleList {
  import opened Articles

  /** Non-decreasing by score: the order a related list is promised to have. */
  ghost predicate SortedByScore(s: seq<Article>) {
    forall p, q :: 0 <= p < q < |s| ==> s[p].score <= s[q].score
  }

  /** Len of sort.Interface. */
  function Len(a: array<Article>): (n: int)
    reads a
  {
    a.Length
  }

  /** Less of sort.Interface: a strictly smaller score comes first. */
  predicate Less(a: array<Article>, i: int, j: int)
    requires 0 <= i < a.Length && 0 <= j < a.Length
    reads a
  {
    a[i].score < a[j].score
  }

  /** Swap of sort.Interface: exchanges two positions and touches nothing else. */
  method Swap(a: array<Article>, i: int, j: int)
    requires 0 <= i < a.Length && 0 <= j < a.Length
    modifies a
    ensures a[..] == old(a[..])[i := old(a[j])][j := old(a[i])]
    ensures multiset(a[..]) == old(multiset(a[..]))
  {
    a[i], a[j] := a[j], a[i];
  }

  /** sort.Sort on an articleList: an insertion sort that consults the list only
      through Len, Less and Swap. It leaves the list sorted by score and a
      permutation of what it was. */
  method Sort(a: array<Article>)
    modifies a
    ensures SortedByScore(a[..])
    ensures multiset(a[..]) == old(multiset(a[..]))
  {
    var i := 0;
    while i < Len(a)
      invariant 0 <= i <= a.Length
      invariant forall p, q :: 0 <= p < q < i ==> a[p].score <= a[q].score
      invariant multiset(a[..]) == old(multiset(a[..]))
    {
      var j := i;
      while 0 < j && Less(a, j, j - 1)
        invariant 0 <= j <= i
        invariant forall p, q :: 0 <= p < q <= i && p != j && q != j ==> a[p].score <= a[q].score
        invariant forall q :: j < q <= i ==> a[j].score <= a[q].score
        invariant multiset(a[..]) == old(multiset(a[..]))
      {
        Swap(a, j, j - 1);
        j := j - 1;
      }
      i := i + 1;
    }
  }

  /** Cutting a sorted permutation of `s` after n elements keeps n elements
      of `s` with the smallest scores: every element left out scores at least
      as much as every element kept. */
  lemma SortedPrefixIsSmallest(s: seq<Article>, sorted: seq<Article>, n: int)
    requires SortedByScore(sorted) && multiset(sorted) == multiset(s) && 0 <= n <= |sorted|
    ensures SortedByScore(sorted[..n]) && |sorted[..n]| == n
    ensures multiset(sorted[..n]) <= multiset(s)
    ensures forall e :: e in s ==> e in sorted[..n] || forall c :: c in sorted[..n] ==> c.score <= e.score
  {
    var kept := sorted[..n];
    assert sorted == kept + sorted[n..];
    assert multiset(sorted) == multiset(kept) + multiset(sorted[n..]);
    forall e | e in s
      ensures e in kept || forall c :: c in kept ==> c.score <= e.score
    {
      assert e in multiset(s);
      var m :| 0 <= m < |sorted| && sorted[m] == e;
      if m >= n {
        forall c | c in kept ensures c.score <= e.score {
          var q :| 0 <= q < n && kept[q] == c;
          assert sorted[q] == c;
        }
      } else {
        assert kept[m] == e;
      }
    }
  }
}
