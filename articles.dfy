/** The records of gorelated: an article of the corpus and a Jekyll post.
    Go's fixed-width integers are modelled as bounded newtypes. */
module Articles {

  /** Go's uint8, the type of a similarity score. */
  newtype Uint8 = x: int | 0 <= x < 0x100

  /** Go's uint64, the type of a Simhash fingerprint. */
  newtype Uint64 = x: int | 0 <= x < 0x1_0000_0000_0000_0000

  /** The distance function of the external stopwords library (CompareSimhash);
      nothing is assumed about it beyond its type. */
  type Compare = (Uint64, Uint64) -> Uint8

  /** An article: its key (the hash of its path), its path, the four Jekyll
      display fields, its fingerprint, its distance to some other article
      (meaningful only inside a related list) and its related articles. */
  datatype Article = Article(
    key: string,
    path: string,
    url: string,
    title: string,
    description: string,
    thumbnail: string,
    simHash: Uint64,
    score: Uint8,
    related: seq<Article>)

  /** A Jekyll post: the display fields of an article and its related posts. */
  datatype Post = Post(
    url: string,
    title: string,
    description: string,
    thumbnail: string,
    related: seq<Post>)

  /** The article built by the folder walk for a matching file: only the key,
      the path and the fingerprint are set, every other field has Go's zero value. */
  function FolderArticle(path: string, name2key: string -> string, simHash: Uint64): (a: Article)
    ensures a.key == name2key(a.path) && a.path == path && a.simHash == simHash
    ensures a.url == a.title == a.description == a.thumbnail == ""
    ensures a.score == 0 && a.related == []
  {
    Article(name2key(path), path, "", "", "", "", simHash, 0, [])
  }

  datatype Option<T> = None | Some(value: T)

  /** The article built from one record of the Jekyll CSV list
      (URL, path, title, description, thumbnail). A record with fewer than
      five fields makes Go's indexing panic: the result is then None. */
  function JekyllArticle(record: seq<string>, name2key: string -> string, simHash: Uint64): (r: Option<Article>)
    ensures r.Some? <==> |record| >= 5
    ensures r.Some? ==>
      && r.value.key == name2key(r.value.path)
      && r.value.url == record[0] && r.value.path == record[1]
      && r.value.title == record[2] && r.value.description == record[3]
      && r.value.thumbnail == record[4]
      && r.value.simHash == simHash && r.value.score == 0 && r.value.related == []
  {
    if |record| < 5 then None
    else Some(Article(name2key(record[1]), record[1], record[0], record[2], record[3], record[4], simHash, 0, []))
  }
}
