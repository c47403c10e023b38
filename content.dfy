/** The content tree the ingestor reads: folders with optional, already decoded
    `article.json` / `category.json` descriptors. */
module Content {
  import opened Wrappers

  /** The members of a decoded JSON object, in document order; keys never repeat. */
  type JsonObject<V> = m: seq<(string, V)> | forall j, k :: 0 <= j < k < |m| ==> m[j].0 != m[k].0
    witness []

  /** One entry of an article's `languages` object. */
  datatype ArticleText = ArticleText(title: string, description: string, file: string,
                                     keywords: Option<string>)

  /** A decoded `article.json`; absent members are `None`. */
  datatype ArticleDescriptor = ArticleDescriptor(id: Option<string>, author: Option<string>,
                                                 published: Option<string>, edited: Option<string>,
                                                 languages: JsonObject<ArticleText>)

  /** A decoded `category.json`: its top-level members, each read as language tag and name. */
  datatype CategoryDescriptor = CategoryDescriptor(members: JsonObject<string>)

  /** A directory: `name` is its basename, `readable` whether `opendir` succeeds on it,
      `children` its sub-directories (other entries are files and are never visited). */
  datatype Folder = Folder(name: string, article: Option<ArticleDescriptor>,
                           category: Option<CategoryDescriptor>, readable: bool,
                           children: seq<Folder>)

  /** Property access `$object->key` on a decoded JSON object. */
  function Lookup<V>(members: JsonObject<V>, key: string): (r: Option<V>)
    ensures r.None? <==> forall k :: 0 <= k < |members| ==> members[k].0 != key
    ensures r.Some? ==> exists k :: 0 <= k < |members| && members[k] == (key, r.value)
  {
    if members == [] then None
    else if members[0].0 == key then Some(members[0].1)
    else Lookup(members[1..], key)
  }

  /** Keys are unique, so the member found under a key is the only one. */
  lemma LookupUnique<V>(members: JsonObject<V>, k: nat)
    requires k < |members|
    ensures Lookup(members, members[k].0) == Some(members[k].1)
  {
    var r := Lookup(members, members[k].0);
    var j :| 0 <= j < |members| && members[j] == (members[k].0, r.value);
    assert j == k;
  }
}
