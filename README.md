# gorelated: related-article ranking, modelled in Dafny

gorelated finds, for every text file of a folder (or every post of a Jekyll
list), the other files whose content is most similar. Each file becomes an
`article` with a Simhash fingerprint and is stored under its key (the MD5 hash
of its path) in a global in-memory cache. `compareFiles` then gives every
article a `Related` list. It takes the other articles in Go map-iteration
order and stamps each copy with its CompareSimhash distance to the base. It
stops after `*length` of them and sorts that list by score.
`getRelatedPosts` reads a prefix of that list back. The Jekyll mode turns the
cache into a list of `post` values for Liquid templates.

This project models that ranking core:

- `articles.dfy` (module `Articles`) holds the `article` and `post` records. Go's `uint8` and `uint64` are bounded newtypes. It also holds the two ways an article is built before it is inserted.
- `article_list.dfy` (module `ArticleList`) holds `articleList`'s `Len`, `Less` and `Swap`. `sort.Sort` is an in-place insertion sort on an `array` that uses only that interface. Since Go 1.19 this is the algorithm Go's `sort.Sort` applies to lists of up to 12 elements; the default length is 5.
- `ranking.dfy` (module `Ranking`) is the specification. It states what `compareFiles` computes for one base key, over the cache as a value of type `map<string, Article>`. It also holds `getRelatedPosts`, which only reads the cache, and the lemmas.
- `gorelated.dfy` (module `Gorelated`) holds the global cache as a class `Cache` with a `map` field. It has the insert, `compareFiles` with its nested loops and write-back, and the Jekyll conversion loop.

Go's map iteration order is random and is chosen anew for every `range`. The
model takes it as parameters. `order` is the order of the outer loop of
`compareFiles`. `orders[i]` is the order of its i-th inner loop. Each is a
duplicate-free sequence of exactly the cache's keys. Every property is proved
for all such orders. `stopwords.CompareSimhash` is a parameter `compare` of
type `(Uint64, Uint64) -> Uint8`. Nothing is assumed about it: not symmetry,
not a zero self-distance, not a popcount. `name2key` is a parameter of type
`string -> string` and is not assumed injective. The `Simhash` of a file's
content is passed in as a value.

Three behaviours of the code are worth stating plainly, since a reader of its
comments might expect otherwise:

- The comments of `compareFiles` (gorelated.go:228-230) speak of comparing each file with all the others and sorting them by score. The code cuts the list first, in map order, and sorts it afterwards, so a list need not hold the closest articles (see Findings).
- There is no tie-break: equal scores keep whatever order the sort leaves, which may differ from run to run with the map order.
- Clamping to the cache size minus one happens only in `getRelatedPosts`. `compareFiles` reaches the same length through its counter guard. A negative count makes the slice in `getRelatedPosts` panic.

## Model

| member | source | states |
|---|---|---|
| `Articles.FolderArticle` | gorelated.go:280 | the folder walk's article is keyed by the hash of its own path (`key == name2key(path)`, the fact `Gorelated.Cache.Visit` relies on to keep the cache keyed by path), holds the path and the fingerprint, and has Go zero values elsewhere (empty display fields, score 0, no related list) |
| `Articles.JekyllArticle` | gorelated.go:130-139 | a CSV record yields an article exactly when it has at least five fields (otherwise Go's indexing panics); URL, path, title, description and thumbnail come from fields 0-4 and the key is `name2key` of the path, the fact `Gorelated.Cache.AddJekyllRecord` relies on to keep the cache keyed by path |
| `ArticleList.Swap` | gorelated.go:46-48 | exchanges positions i and j, leaves every other position as it was, and so keeps the list's multiset |
| `ArticleList.Sort` | gorelated.go:253 | `sort.Sort` through `Len`/`Less` (gorelated.go:43-51), which are its helpers (`Len` is the array's length, `Less` compares two scores strictly) and carry no contract of their own: the array ends non-decreasing by `Score` and is a permutation of what it held |
| `Ranking.IterationOrderLength` | gorelated.go:234 | a map-iteration order has as many elements as the map has keys |
| `Ranking.CandidatesFacts` | gorelated.go:237-247 | the inner loop without its counter yields one entry per key of the order other than the base; each entry is the scored copy of its key, and no key occurs twice |
| `Ranking.CandidatesCount` | gorelated.go:237-247 | over an iteration order of the whole cache there are exactly size(cache) - 1 candidates |
| `Ranking.SelectedUnbounded` | gorelated.go:238 | with a bound of at least the number of keys, the counter guard `max<*length` lets every candidate through |
| `Ranking.CandidatesIgnoreRelated` | gorelated.go:239-246 | the entries built for a base depend only on fields other than `Related`, so lists already written back for earlier bases do not change them |
| `Ranking.WriteBackExtendsPrefix` | gorelated.go:253-257 | writing one base key's ranked list back into the cache changes only that entry's `Related`, so the lists already written for earlier base keys stay as they were |
| `Ranking.RankedListFacts` | gorelated.go:234-257 | a list that is the sorted permutation of the selected entries has length min(max(length, 0), size(cache) - 1), contains no entry with the base's key, has distinct keys that are keys of the cache, has each entry equal to the cached article of its key with `Score` = compare(base fingerprint, its fingerprint) and no `Related`, and is sorted by score |
| `Ranking.RankedCorpusFacts` | gorelated.go:232-260 | after compareFiles the cache keeps its key set and is still keyed by key, and every article's list has the properties of `RankedListFacts` |
| `Ranking.SelectionIsNotClosest` | gorelated.go:236-253 | a concrete three-article cache where the as-written selection gives article a the entry at distance 64 and leaves out the one at distance 0 |
| `Ranking.GetRelatedPosts` | gorelated.go:220-225 | the count becomes min(numberPosts, size(cache) - 1); the result is the prefix of that length of the article's `Related` list (an unknown path reads Go's zero article, whose list is empty); it panics exactly when the count is negative or exceeds the list's length |
| `Ranking.RelatedPostsOfRankedArticle` | gorelated.go:209-211 | in a cache keyed by path, called with the path `v.Path` of a cached article v whose list has the length compareFiles gives, getRelatedPosts returns v's whole list when the length is non-negative and panics when it is negative |
| `Ranking.ReportReadsWholeLists` | gorelated.go:205-211 | after compareFiles on a cache keyed by key and by path, the report loop's `getRelatedPosts(v.Path, *length)` returns, for every cached v, exactly v's ranked list (a panic when the length is negative) |
| `Ranking.InsertKeepsKeying` | gorelated.go:54 | inserting an article whose key is the hash of its path (the key documented as the MD5 of the path) keeps the cache keyed by key and by path (the inserts at gorelated.go:140 and :281) |
| `Ranking.SameMetadataKeepsKeyedByPath` | gorelated.go:232-260 | rewriting only the `Related` fields, as compareFiles does, keeps the cache keyed by path, in both directions |
| `Gorelated.Cache.constructor` | gorelated.go:97 | the cache starts empty |
| `Gorelated.Cache.Visit` | gorelated.go:275-282 | a matching file is inserted as its folder article under the hash of its path, every other entry unchanged, and the cache stays keyed by key and, if it was, by path |
| `Gorelated.Cache.AddJekyllRecord` | gorelated.go:130-140 | a record of at least five fields is inserted as its Jekyll article under the hash of its path, and the cache stays keyed by key and, if it was, by path; a shorter record (a panic in Go) is reported and changes nothing |
| `Gorelated.Cache.Insert` | gorelated.go:281 | `cache[a.Key] = a` (also gorelated.go:140) stores a under its key, replacing any earlier article with that key, adds only that key, leaves every other entry unchanged and keeps every article stored under its own key |
| `Gorelated.Cache.SelectFor` | gorelated.go:237-250 | the inner loop for one base returns exactly the first `length` candidates in the inner order (none when `length <= 0`) |
| `Gorelated.Cache.CompareFiles` | gorelated.go:232-260 | only `Related` fields change and the key set stays; the i-th base key of the outer order gets the sorted permutation of what the i-th inner loop selected; so every list has length min(max(length, 0), size(cache) - 1), is sorted by score, has distinct keys, never names its own article, and holds scored copies of other cached articles |
| `Gorelated.Cache.SelectClosest` | gorelated.go:232-253 | the corrected selection: it returns min(max(length, 0), size(cache) - 1) candidates sorted by score, drawn from the candidates, and every candidate left out scores at least as much as every one kept |
| `ArticleList.SortedPrefixIsSmallest` | gorelated.go:253 | cutting a sorted permutation of a list after n elements keeps n of its elements, sorted, and every element left out scores at least as much as every element kept |
| `Gorelated.Cache.JekyllPosts` | gorelated.go:146-158 | one post per cache entry, in iteration order; each post carries its article's URL, title, description and thumbnail, and its `Related` has the same length and order as the article's, with those four fields copied and no further nesting |

## Left out

- Flag parsing, locating the executable, resolving the input path and checking that it exists (gorelated.go:77-103, 186-193) are command-line and file-system glue.
- Walking the folder, matching file names against the extension regexp, reading files and CSV records, marshalling and indenting JSON, and writing `posts.json` (gorelated.go:111-139, 160-177, 197-201, 272-278) are I/O. Only the article each input yields and its insert into the cache (`Gorelated.Cache.Visit`, `Gorelated.Cache.AddJekyllRecord`) are modelled. The walk and the CSV loop that call them are not.
- The bodies of `stopwords.Simhash` and `stopwords.CompareSimhash` belong to an external library that is not part of this model. The fingerprint is an input value and the distance is an arbitrary function parameter.
- `name2key` (gorelated.go:263-267) is MD5 through `crypto/md5`. It is an arbitrary function parameter, not assumed injective.
- Logging, timing and the `fmt.Println` report (gorelated.go:178, 202-215, 259) are output only. Of the report loop, only its call to `getRelatedPosts` is modelled, by `Ranking.ReportReadsWholeLists`.
- Ranking.GetRelatedPosts: Go lets `s[:n]` reach up to `cap(s)`, not just `len(s)`, and the capacity `append` leaves is not modelled. The model panics whenever `n > len`. In the program's own call (`ReportReadsWholeLists`) the count equals the list's length, so this does not arise.
- ArticleList.Sort: for lists longer than 12, Go's `sort.Sort` is, since Go 1.19, pattern-defeating quicksort, which may leave equal-score entries in another order than this insertion sort does. Only sortedness and permutation are claimed, and they hold for either.
- There is no concurrency in the source, and none in the model.

## Findings

| source | as written | input that shows it | evidently intended | confidence | as-written member | corrected member |
|---|---|---|---|---|---|---|
| gorelated.go:236-253 | the guard `max<*length` stops collecting after the first `*length` other articles in map-iteration order, and only those are sorted, so the list is an arbitrary `*length` others in score order | articles a (fingerprint 0), b (1) and c (0); a distance of 0 for equal fingerprints and 64 otherwise; inner order a, b, c; length 1: a's list is [b] at distance 64, and c at distance 0 is missing | score every other article, sort them all, keep the `*length` closest | high; not executed | `Ranking.SelectionIsNotClosest` | `Gorelated.Cache.SelectClosest` |

`Gorelated.Cache.CompareFiles` keeps the as-written selection, because that is
the behaviour of the program being modelled. `SelectClosest` states the
intended selection and proves it keeps the closest articles.
