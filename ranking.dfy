/** What compareFiles computes for one base article, stated over the corpus
    as a value (the Go program keeps it in the global map `cache`), and
    getRelatedPosts, which only reads that map. */
module Ranking {
  import opened Articles
  import opened ArticleList

  /** The article cache: key to article. */
  type Corpus = map<string, Article>

  /** Every article is stored under its own key, as both ways of filling the
      cache (`cache[a.Key] = a`) guarantee. */
  ghost predicate KeyedByKey(cache: Corpus) {
    forall k :: k in cache ==> cache[k].key == k
  }

  /** Every article is stored under the name2key hash of its own path: the
      key field is documented as the MD5 hash of the path, and both readers
      build it that way. */
  ghost predicate KeyedByPath(cache: Corpus, name2key: string -> string) {
    forall k :: k in cache ==> name2key(cache[k].path) == k
  }

  ghost predicate Distinct<T>(s: seq<T>) {
    forall i, j :: 0 <= i < j < |s| ==> s[i] != s[j]
  }

  /** One order in which Go's `range` over a map may visit its keys: every key
      exactly once. Go picks a fresh order for every `range` loop. */
  ghost predicate IsIterationOrder(order: seq<string>, keys: set<string>) {
    Distinct(order) && forall k :: k in keys <==> k in order
  }

  /** Two corpora that differ at most in the related lists of their articles. */
  ghost predicate SameMetadata(c1: Corpus, c2: Corpus) {
    c1.Keys == c2.Keys && forall k :: k in c1 ==> c1[k] == c2[k].(related := c1[k].related)
  }

  /** The entry compareFiles appends to base's list for the other key k: the
      article of k with everything but its related list, and with the score
      CompareSimhash(base's fingerprint, k's fingerprint). */
  function ScoredCopy(cache: Corpus, base: string, k: string, compare: Compare): (e: Article)
    requires base in cache && k in cache
  {
    cache[k].(score := compare(cache[base].simHash, cache[k].simHash), related := [])
  }

  /** The entries the inner loop of compareFiles would append for base, in the
      inner iteration order, were there no bound on their number. */
  function Candidates(cache: Corpus, base: string, inner: seq<string>, compare: Compare): (c: seq<Article>)
    requires base in cache && forall k :: k in inner ==> k in cache
  {
    if inner == [] then []
    else
      var k := inner[|inner| - 1];
      var earlier := Candidates(cache, base, inner[..|inner| - 1], compare);
      if k != base then earlier + [ScoredCopy(cache, base, k, compare)] else earlier
  }

  /** The first `length` elements of s (none when `length` is not positive). */
  function Take(s: seq<Article>, length: int): (t: seq<Article>) {
    s[..if length <= 0 then 0 else if length < |s| then length else |s|]
  }

  /** The list compareFiles builds for base before sorting: the counter guard
      `max < *length` admits the first `length` candidates and no others. */
  function Selected(cache: Corpus, base: string, inner: seq<string>, length: int, compare: Compare):
    (s: seq<Article>)
    requires base in cache && forall k :: k in inner ==> k in cache
  {
    Take(Candidates(cache, base, inner, compare), length)
  }

  /** min(max(length, 0), size - 1): the length every related list gets. */
  function RankLength(length: int, size: int): (n: int) {
    if length <= 0 then 0 else if length < size - 1 then length else size - 1
  }

  /** What compareFiles stores for base: the selected entries, sorted. */
  ghost predicate RankedList(cache: Corpus, base: string, inner: seq<string>, length: int, compare: Compare,
                             related: seq<Article>)
    requires base in cache && forall k :: k in inner ==> k in cache
  {
    SortedByScore(related) && multiset(related) == multiset(Selected(cache, base, inner, length, compare))
  }

  /** The orders of the outer loop of compareFiles and of each of its inner loops. */
  ghost predicate LoopOrders(order: seq<string>, orders: seq<seq<string>>, keys: set<string>) {
    && IsIterationOrder(order, keys)
    && |orders| == |order|
    && forall i :: 0 <= i < |orders| ==> IsIterationOrder(orders[i], keys)
  }

  /** The first n base keys of the outer loop carry, in `after`, the ranked
      list of their inner loops over `before`. */
  ghost predicate RankedPrefix(before: Corpus, after: Corpus, order: seq<string>, orders: seq<seq<string>>,
                               n: int, length: int, compare: Compare)
    requires LoopOrders(order, orders, before.Keys) && after.Keys == before.Keys && 0 <= n <= |order|
  {
    forall i :: 0 <= i < n ==>
      RankedList(before, order[i], orders[i], length, compare, after[order[i]].related)
  }

  /** `after` is what compareFiles leaves of `before`: only related lists
      change, and the i-th base key of the outer loop gets the ranked list of
      the i-th inner loop. */
  ghost predicate RankedCorpus(before: Corpus, after: Corpus, order: seq<string>, orders: seq<seq<string>>,
                               length: int, compare: Compare)
    requires LoopOrders(order, orders, before.Keys)
  {
    && SameMetadata(after, before)
    && RankedPrefix(before, after, order, orders, |order|, length, compare)
  }

  /** One pass of the outer loop of compareFiles: writing the ranked list of
      the i-th base key back extends the ranked prefix by one and changes
      nothing else. */
  lemma WriteBackExtendsPrefix(before: Corpus, current: Corpus, order: seq<string>, orders: seq<seq<string>>,
                               i: int, length: int, compare: Compare, related: seq<Article>)
    requires LoopOrders(order, orders, before.Keys) && 0 <= i < |order|
    requires SameMetadata(current, before)
    requires RankedPrefix(before, current, order, orders, i, length, compare)
    requires RankedList(before, order[i], orders[i], length, compare, related)
    ensures var next := current[order[i] := current[order[i]].(related := related)];
      && SameMetadata(next, before)
      && RankedPrefix(before, next, order, orders, i + 1, length, compare)
  {
    var next := current[order[i] := current[order[i]].(related := related)];
    forall p | 0 <= p < i
      ensures RankedList(before, order[p], orders[p], length, compare, next[order[p]].related)
    {
      assert order[p] != order[i];
    }
  }

  /** An iteration order has as many elements as the map has keys. */
  lemma {:induction false} IterationOrderLength(order: seq<string>, keys: set<string>)
    requires IsIterationOrder(order, keys)
    ensures |order| == |keys|
  {
    if order == [] {
      assert forall k :: k !in keys;
      assert keys == {};
    } else {
      var first, rest := order[0], order[1..];
      var others := keys - {first};
      assert Distinct(rest) by {
        forall i, j | 0 <= i < j < |rest| ensures rest[i] != rest[j] {
          assert rest[i] == order[i + 1] && rest[j] == order[j + 1];
        }
      }
      forall k ensures k in others <==> k in rest {
        if k in rest {
          var m :| 0 <= m < |rest| && rest[m] == k;
          assert order[m + 1] == k;
        }
        if k in others {
          var m :| 0 <= m < |order| && order[m] == k;
          assert m != 0;
          assert rest[m - 1] == k;
        }
      }
      IterationOrderLength(rest, others);
      assert first in keys;
    }
  }

  /** A sequence has no repeated element exactly when no element occurs in it
      more than once as counted by its multiset. */
  lemma {:induction false} DistinctByCount<T>(s: seq<T>)
    ensures Distinct(s) <==> forall x :: multiset(s)[x] <= 1
  {
    if s != [] {
      var first, rest := s[0], s[1..];
      assert s == [first] + rest;
      assert multiset(s) == multiset{first} + multiset(rest);
      DistinctByCount(rest);
      if Distinct(s) {
        assert Distinct(rest) by {
          forall i, j | 0 <= i < j < |rest| ensures rest[i] != rest[j] {
            assert rest[i] == s[i + 1] && rest[j] == s[j + 1];
          }
        }
        assert first !in rest by {
          forall m | 0 <= m < |rest| ensures rest[m] != first {
            assert rest[m] == s[m + 1];
          }
        }
      }
      if forall x :: multiset(s)[x] <= 1 {
        assert forall x :: multiset(rest)[x] <= 1 by {
          forall x ensures multiset(rest)[x] <= 1 {
            assert multiset(s)[x] >= multiset(rest)[x];
          }
        }
        assert multiset(rest)[first] == 0 by {
          assert multiset(s)[first] <= 1;
        }
        forall i, j | 0 <= i < j < |s| ensures s[i] != s[j] {
          if i == 0 {
            assert s[j] == rest[j - 1];
          } else {
            assert s[i] == rest[i - 1] && s[j] == rest[j - 1];
          }
        }
      }
    }
  }

  /** The candidates for base are the scored copies of all the other keys of a
      duplicate-free inner order, one per key, with no key twice. */
  lemma {:induction false} CandidatesFacts(cache: Corpus, base: string, inner: seq<string>, compare: Compare)
    requires KeyedByKey(cache) && base in cache
    requires Distinct(inner) && forall k :: k in inner ==> k in cache
    ensures var c := Candidates(cache, base, inner, compare);
      && |c| == |inner| - (if base in inner then 1 else 0)
      && (forall i :: 0 <= i < |c| ==>
            c[i].key in inner && c[i].key != base && c[i] == ScoredCopy(cache, base, c[i].key, compare))
      && (forall i, j :: 0 <= i < j < |c| ==> c[i].key != c[j].key)
  {
    if inner != [] {
      var init, last := inner[..|inner| - 1], inner[|inner| - 1];
      assert inner == init + [last];
      assert Distinct(init);
      assert last !in init;
      CandidatesFacts(cache, base, init, compare);
      assert base in inner <==> base in init || base == last;
    }
  }

  /** Over an iteration order of the whole cache there is one candidate per
      key other than base. */
  lemma CandidatesCount(cache: Corpus, base: string, inner: seq<string>, compare: Compare)
    requires KeyedByKey(cache) && base in cache && IsIterationOrder(inner, cache.Keys)
    ensures |Candidates(cache, base, inner, compare)| == |cache| - 1 == |inner| - 1
  {
    IterationOrderLength(inner, cache.Keys);
    CandidatesFacts(cache, base, inner, compare);
  }

  /** With a bound no smaller than the number of keys, the counter guard
      admits every candidate. */
  lemma {:induction false} SelectedUnbounded(cache: Corpus, base: string, inner: seq<string>, length: int,
                                             compare: Compare)
    requires base in cache && forall k :: k in inner ==> k in cache
    requires length >= |inner|
    ensures Selected(cache, base, inner, length, compare) == Candidates(cache, base, inner, compare)
  {
    CandidatesShorter(cache, base, inner, compare);
  }

  lemma {:induction false} CandidatesShorter(cache: Corpus, base: string, inner: seq<string>, compare: Compare)
    requires base in cache && forall k :: k in inner ==> k in cache
    ensures |Candidates(cache, base, inner, compare)| <= |inner|
  {
    if inner != [] {
      CandidatesShorter(cache, base, inner[..|inner| - 1], compare);
    }
  }

  /** The inner loop of compareFiles only looks at keys and fingerprints, so
      related lists already written for other bases do not change its result. */
  lemma {:induction false} CandidatesIgnoreRelated(c1: Corpus, c2: Corpus, base: string, inner: seq<string>,
                                                   compare: Compare)
    requires SameMetadata(c1, c2) && base in c1 && forall k :: k in inner ==> k in c1
    ensures Candidates(c1, base, inner, compare) == Candidates(c2, base, inner, compare)
  {
    if inner != [] {
      var init, k := inner[..|inner| - 1], inner[|inner| - 1];
      CandidatesIgnoreRelated(c1, c2, base, init, compare);
      assert ScoredCopy(c1, base, k, compare) == ScoredCopy(c2, base, k, compare);
    }
  }

  /** The properties of a related list written by compareFiles, for any Go
      iteration order: its length is min(max(length, 0), |cache| - 1); it
      never names its own article; each entry is the scored copy of a distinct
      other key of the cache; and it is sorted by score. */
  lemma RankedListFacts(cache: Corpus, base: string, inner: seq<string>, length: int, compare: Compare,
                        related: seq<Article>)
    requires KeyedByKey(cache) && base in cache && IsIterationOrder(inner, cache.Keys)
    requires RankedList(cache, base, inner, length, compare, related)
    ensures |related| == RankLength(length, |cache|)
    ensures forall e :: e in related ==>
      e.key in cache && e.key != base && e == ScoredCopy(cache, base, e.key, compare)
    ensures forall i, j :: 0 <= i < j < |related| ==> related[i].key != related[j].key
    ensures SortedByScore(related)
  {
    IterationOrderLength(inner, cache.Keys);
    CandidatesFacts(cache, base, inner, compare);
    var c := Candidates(cache, base, inner, compare);
    var sel := Selected(cache, base, inner, length, compare);
    assert |c| == |cache| - 1;
    assert |sel| == RankLength(length, |cache|);
    assert |related| == |multiset(related)| == |multiset(sel)| == |sel|;
    forall e | e in related
      ensures e.key in cache && e.key != base && e == ScoredCopy(cache, base, e.key, compare)
    {
      assert e in multiset(sel);
      var m :| 0 <= m < |sel| && sel[m] == e;
      assert c[m] == e;
    }
    assert Distinct(sel) by {
      forall i, j | 0 <= i < j < |sel| ensures sel[i] != sel[j] {
        assert sel[i] == c[i] && sel[j] == c[j];
      }
    }
    DistinctByCount(sel);
    DistinctByCount(related);
    forall i, j | 0 <= i < j < |related| ensures related[i].key != related[j].key {
      assert related[i] in related && related[j] in related;
    }
  }

  /** The properties of the whole cache after compareFiles: still keyed by key,
      and every article's related list has the properties of RankedListFacts. */
  lemma RankedCorpusFacts(before: Corpus, after: Corpus, order: seq<string>, orders: seq<seq<string>>,
                          length: int, compare: Compare)
    requires KeyedByKey(before) && LoopOrders(order, orders, before.Keys)
    requires RankedCorpus(before, after, order, orders, length, compare)
    ensures KeyedByKey(after) && after.Keys == before.Keys
    ensures forall k :: k in after ==>
      && |after[k].related| == RankLength(length, |after|)
      && SortedByScore(after[k].related)
    ensures forall k, e :: k in after && e in after[k].related ==>
      e.key in after && e.key != k && e == ScoredCopy(before, k, e.key, compare)
    ensures forall k, i, j :: k in after && 0 <= i < j < |after[k].related| ==>
      after[k].related[i].key != after[k].related[j].key
  {
    forall k | k in after
      ensures |after[k].related| == RankLength(length, |after|) && SortedByScore(after[k].related)
      ensures forall e :: e in after[k].related ==>
        e.key in after && e.key != k && e == ScoredCopy(before, k, e.key, compare)
      ensures forall i, j :: 0 <= i < j < |after[k].related| ==>
        after[k].related[i].key != after[k].related[j].key
    {
      var p :| 0 <= p < |order| && order[p] == k;
      RankedListFacts(before, k, orders[p], length, compare, after[k].related);
    }
  }

  /** The counter guard runs before the sort, so a related list holds the first
      `length` other articles in map order, not the `length` closest ones: in
      this corpus of three, with the inner loop visiting a, b, c and length 1,
      article a gets b (distance 64) although c is at distance 0. */
  lemma SelectionIsNotClosest()
    ensures
      var cache := map[
        "a" := Article("a", "a.html", "", "", "", "", 0, 0, []),
        "b" := Article("b", "b.html", "", "", "", "", 1, 0, []),
        "c" := Article("c", "c.html", "", "", "", "", 0, 0, [])];
      var compare: Compare := (x, y) => if x == y then 0 else 64;
      var inner := ["a", "b", "c"];
      && KeyedByKey(cache) && IsIterationOrder(inner, cache.Keys)
      && Selected(cache, "a", inner, 1, compare) == [ScoredCopy(cache, "a", "b", compare)]
      && ScoredCopy(cache, "a", "b", compare).score == 64
      && ScoredCopy(cache, "a", "c", compare) in Candidates(cache, "a", inner, compare)
      && ScoredCopy(cache, "a", "c", compare).score == 0
  {
    var cache := map[
      "a" := Article("a", "a.html", "", "", "", "", 0, 0, []),
      "b" := Article("b", "b.html", "", "", "", "", 1, 0, []),
      "c" := Article("c", "c.html", "", "", "", "", 0, 0, [])];
    var compare: Compare := (x, y) => if x == y then 0 else 64;
    var inner := ["a", "b", "c"];
    var b, c := ScoredCopy(cache, "a", "b", compare), ScoredCopy(cache, "a", "c", compare);
    assert inner[..2] == ["a", "b"] && inner[..2][..1] == ["a"] && inner[..2][..1][..0] == [];
    assert Candidates(cache, "a", [], compare) == [];
    assert Candidates(cache, "a", ["a"], compare) == [];
    assert Candidates(cache, "a", ["a", "b"], compare) == [b];
    assert Candidates(cache, "a", inner, compare) == [b, c];
    assert IsIterationOrder(inner, cache.Keys);
  }

  /** The result of a Go slice expression: the elements, or a run-time panic. */
  datatype Slice = Slice(posts: seq<Article>) | Panic

  /** getRelatedPosts: the first numberPosts related articles of the article at
      filePath, the count lowered to |cache| - 1 when it reaches |cache|. A path
      not in the cache reads Go's zero article, whose related list is empty. */
  function GetRelatedPosts(cache: Corpus, filePath: string, name2key: string -> string, numberPosts: int): (r: Slice)
    ensures var related := if name2key(filePath) in cache then cache[name2key(filePath)].related else [];
            var n := if numberPosts < |cache| - 1 then numberPosts else |cache| - 1;
            && (r.Slice? <==> 0 <= n <= |related|)
            && (r.Slice? ==> r.posts == related[..n] && |r.posts| == n)
  {
    var count := if numberPosts >= |cache| then |cache| - 1 else numberPosts;
    var related := if name2key(filePath) in cache then cache[name2key(filePath)].related else [];
    if 0 <= count <= |related| then Slice(related[..count]) else Panic
  }

  /** Inserting an article whose key is the hash of its path, as both readers
      build them, keeps the cache keyed by key and by path. */
  lemma InsertKeepsKeying(cache: Corpus, a: Article, name2key: string -> string)
    requires KeyedByKey(cache) && KeyedByPath(cache, name2key)
    requires a.key == name2key(a.path)
    ensures KeyedByKey(cache[a.key := a]) && KeyedByPath(cache[a.key := a], name2key)
  {
  }

  /** Rewriting related lists, as compareFiles does, keeps the keying by path. */
  lemma SameMetadataKeepsKeyedByPath(c1: Corpus, c2: Corpus, name2key: string -> string)
    requires SameMetadata(c1, c2)
    ensures KeyedByPath(c1, name2key) <==> KeyedByPath(c2, name2key)
  {
    forall k | k in c1 ensures c1[k].path == c2[k].path {
      assert c1[k] == c2[k].(related := c1[k].related);
    }
  }

  /** Called, as the report loop does, with the path of a cached article v and
      the length its list was ranked with, getRelatedPosts returns v's whole
      related list; with a negative length it panics. */
  lemma RelatedPostsOfRankedArticle(cache: Corpus, name2key: string -> string, length: int, k: string)
    requires KeyedByPath(cache, name2key) && k in cache
    requires |cache[k].related| == RankLength(length, |cache|)
    ensures length >= 0 ==> GetRelatedPosts(cache, cache[k].path, name2key, length) == Slice(cache[k].related)
    ensures length < 0 ==> GetRelatedPosts(cache, cache[k].path, name2key, length) == Panic
  {
    var related := cache[k].related;
    assert name2key(cache[k].path) == k;
    assert related[..|related|] == related;
  }

  /** The report loop of the folder mode after compareFiles: for every cached
      article v, `getRelatedPosts(v.Path, *length)` returns v's whole ranked
      list, or panics when the length is negative. */
  lemma ReportReadsWholeLists(before: Corpus, after: Corpus, order: seq<string>, orders: seq<seq<string>>,
                              length: int, compare: Compare, name2key: string -> string)
    requires KeyedByKey(before) && KeyedByPath(before, name2key) && LoopOrders(order, orders, before.Keys)
    requires RankedCorpus(before, after, order, orders, length, compare)
    ensures forall k :: k in after ==>
      GetRelatedPosts(after, after[k].path, name2key, length)
        == if length >= 0 then Slice(after[k].related) else Panic
  {
    RankedCorpusFacts(before, after, order, orders, length, compare);
    SameMetadataKeepsKeyedByPath(after, before, name2key);
    forall k | k in after
      ensures GetRelatedPosts(after, after[k].path, name2key, length)
        == if length >= 0 then Slice(after[k].related) else Panic
    {
      RelatedPostsOfRankedArticle(after, name2key, length, k);
    }
  }
}
