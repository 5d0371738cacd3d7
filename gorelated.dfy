/** The program's global article cache and the operations that change or walk
    it: the insert done while reading the input, compareFiles, and the loop
    that turns the cache into Jekyll posts. */
module Gorelated {
  import opened Articles
  import opened ArticleList
  import opened Ranking

  /** The related post of a Jekyll post: the display fields of a related
      article, with no related posts of its own. */
  function RelatedPost(a: Article): (p: Post) {
    Post(a.url, a.title, a.description, a.thumbnail, [])
  }

  /** p is the Jekyll post of article a: a's four display fields, and one
      related post per related article of a, in the same order. */
  ghost predicate IsPostOf(p: Post, a: Article) {
    && p.url == a.url && p.title == a.title
    && p.description == a.description && p.thumbnail == a.thumbnail
    && |p.related| == |a.related|
    && forall j :: 0 <= j < |a.related| ==> p.related[j] == RelatedPost(a.related[j])
  }

  /** The global `cache map[string]article`. */
  class Cache {
    var entries: Corpus

    ghost predicate Valid()
      reads this
    {
      KeyedByKey(entries)
    }

    /** `cache = make(map[string]article)`. */
    constructor ()
      ensures Valid() && entries == map[]
    {
      entries := map[];
    }

    /** `cache[a.Key] = a`: stores a under its key, replacing any article that
        had that key, and leaves every other entry as it was. */
    method Insert(a: Article)
      requires Valid()
      modifies this
      ensures Valid()
      ensures entries == old(entries)[a.key := a]
      ensures a.key in entries && entries[a.key] == a
      ensures forall k :: k in old(entries) && k != a.key ==> k in entries && entries[k] == old(entries[k])
      ensures entries.Keys == old(entries.Keys) + {a.key}
    {
      entries := entries[a.key := a];
    }

    /** visit for a file that matches the pattern: the article built from the
        path and the fingerprint of the file's content, inserted under the hash
        of the path. */
    method Visit(path: string, name2key: string -> string, simHash: Uint64)
      requires Valid()
      modifies this
      ensures Valid()
      ensures entries == old(entries)[name2key(path) := FolderArticle(path, name2key, simHash)]
      ensures KeyedByPath(old(entries), name2key) ==> KeyedByPath(entries, name2key)
    {
      ghost var before := entries;
      var a := FolderArticle(path, name2key, simHash);
      Insert(a);
      if KeyedByPath(before, name2key) {
        InsertKeepsKeying(before, a, name2key);
      }
    }

    /** One record of parseJekyllList: a record with the five fields is turned
        into an article and inserted under the hash of its path; a shorter one
        makes Go's indexing panic, reported here as `ok == false` with the
        cache untouched. */
    method AddJekyllRecord(record: seq<string>, name2key: string -> string, simHash: Uint64) returns (ok: bool)
      requires Valid()
      modifies this
      ensures Valid()
      ensures ok <==> |record| >= 5
      ensures ok ==> entries == old(entries)[name2key(record[1]) := JekyllArticle(record, name2key, simHash).value]
      ensures !ok ==> entries == old(entries)
      ensures KeyedByPath(old(entries), name2key) ==> KeyedByPath(entries, name2key)
    {
      ghost var before := entries;
      var built := JekyllArticle(record, name2key, simHash);
      if built.None? {
        return false;
      }
      Insert(built.value);
      if KeyedByPath(before, name2key) {
        InsertKeepsKeying(before, built.value, name2key);
      }
      ok := true;
    }

    /** compareFiles. The outer loop visits the keys in `order`; its i-th pass
        walks the keys again in `orders[i]`, appends the scored copy of every
        other key while fewer than `length` have been taken, sorts the list by
        score and writes it back as the base article's related list. */
    method CompareFiles(order: seq<string>, orders: seq<seq<string>>, length: int, compare: Compare)
      requires Valid()
      requires LoopOrders(order, orders, entries.Keys)
      modifies this
      ensures Valid()
      ensures RankedCorpus(old(entries), entries, order, orders, length, compare)
      ensures forall k :: k in entries ==>
        && |entries[k].related| == RankLength(length, |entries|)
        && SortedByScore(entries[k].related)
      ensures forall k, e :: k in entries && e in entries[k].related ==>
        e.key in entries && e.key != k && e == ScoredCopy(old(entries), k, e.key, compare)
      ensures forall k, i, j :: k in entries && 0 <= i < j < |entries[k].related| ==>
        entries[k].related[i].key != entries[k].related[j].key
    {
      ghost var initial := entries;
      var i := 0;
      while i < |order|
        invariant 0 <= i <= |order|
        invariant SameMetadata(entries, initial)
        invariant RankedPrefix(initial, entries, order, orders, i, length, compare)
      {
        var baseKey := order[i];
        var inner := orders[i];
        var listOfArticles := SelectFor(baseKey, inner, length, compare);
        CandidatesIgnoreRelated(entries, initial, baseKey, inner, compare);
        var a := new Article[|listOfArticles|](p requires 0 <= p < |listOfArticles| => listOfArticles[p]);
        assert a[..] == listOfArticles;
        Sort(a);
        WriteBackExtendsPrefix(initial, entries, order, orders, i, length, compare, a[..]);
        var temp := entries[baseKey];
        temp := temp.(related := a[..]);
        entries := entries[baseKey := temp];
        i := i + 1;
      }
      RankedCorpusFacts(initial, entries, order, orders, length, compare);
    }

    /** The inner loop of compareFiles for one base key: walks the keys in
        `inner` and appends the scored copy of each other key while fewer than
        `length` entries have been taken. */
    method SelectFor(baseKey: string, inner: seq<string>, length: int, compare: Compare)
      returns (listOfArticles: seq<Article>)
      requires baseKey in entries && forall k :: k in inner ==> k in entries
      ensures listOfArticles == Selected(entries, baseKey, inner, length, compare)
    {
      listOfArticles := [];
      var taken := 0;
      var j := 0;
      while j < |inner|
        invariant 0 <= j <= |inner|
        invariant listOfArticles == Take(Candidates(entries, baseKey, inner[..j], compare), length)
        invariant taken == |listOfArticles|
      {
        var k := inner[j];
        assert inner[..j + 1][..j] == inner[..j];
        if k != baseKey && taken < length {
          var v := entries[k];
          var r := Article(v.key, v.path, v.url, v.title, v.description, v.thumbnail, v.simHash,
                           compare(entries[baseKey].simHash, entries[k].simHash), []);
          listOfArticles := listOfArticles + [r];
          taken := taken + 1;
        }
        j := j + 1;
      }
      assert inner[..|inner|] == inner;
    }

    /** The selection compareFiles evidently intends, as its comments and the
        "related articles" it produces describe: score every other article,
        sort them all, and keep the `length` closest. */
    method SelectClosest(baseKey: string, inner: seq<string>, length: int, compare: Compare)
      returns (closest: seq<Article>)
      requires Valid() && baseKey in entries && IsIterationOrder(inner, entries.Keys)
      ensures |closest| == RankLength(length, |entries|)
      ensures SortedByScore(closest)
      ensures multiset(closest) <= multiset(Candidates(entries, baseKey, inner, compare))
      ensures forall e :: e in Candidates(entries, baseKey, inner, compare) ==>
        e in closest || forall c :: c in closest ==> c.score <= e.score
    {
      ghost var candidates := Candidates(entries, baseKey, inner, compare);
      CandidatesCount(entries, baseKey, inner, compare);
      var all := SelectFor(baseKey, inner, |entries|, compare);
      SelectedUnbounded(entries, baseKey, inner, |entries|, compare);
      var a := new Article[|all|](p requires 0 <= p < |all| => all[p]);
      assert a[..] == all;
      Sort(a);
      var n := if length <= 0 then 0 else if length < a.Length then length else a.Length;
      closest := a[..][..n];
      SortedPrefixIsSmallest(candidates, a[..], n);
    }

    /** The loop of parseJekyllList after compareFiles: one post per cache
        entry, visited in `order`, each the post of its article. */
    method JekyllPosts(order: seq<string>) returns (jekyllPosts: seq<Post>)
      requires IsIterationOrder(order, entries.Keys)
      ensures |jekyllPosts| == |order| == |entries|
      ensures forall i :: 0 <= i < |order| ==> IsPostOf(jekyllPosts[i], entries[order[i]])
    {
      IterationOrderLength(order, entries.Keys);
      jekyllPosts := [];
      var i := 0;
      while i < |order|
        invariant 0 <= i <= |order|
        invariant |jekyllPosts| == i
        invariant forall p :: 0 <= p < i ==> IsPostOf(jekyllPosts[p], entries[order[p]])
      {
        var articlePost := entries[order[i]];
        var aPost := Post(articlePost.url, articlePost.title, articlePost.description, articlePost.thumbnail, []);
        var j := 0;
        while j < |articlePost.related|
          invariant 0 <= j <= |articlePost.related|
          invariant aPost.url == articlePost.url && aPost.title == articlePost.title
          invariant aPost.description == articlePost.description && aPost.thumbnail == articlePost.thumbnail
          invariant |aPost.related| == j
          invariant forall q :: 0 <= q < j ==> aPost.related[q] == RelatedPost(articlePost.related[q])
        {
          var articleRelated := articlePost.related[j];
          var aRelatedPost := Post(articleRelated.url, articleRelated.title, articleRelated.description,
                                   articleRelated.thumbnail, []);
          aPost := aPost.(related := aPost.related + [aRelatedPost]);
          j := j + 1;
        }
        jekyllPosts := jekyllPosts + [aPost];
        i := i + 1;
      }
    }
  }
}
