/** The tree ingestor (`makeArticle`, `makeCategory`, `addFolder`) as functions from the
    tables before to the tables after, and what ingestion guarantees about the rows it adds. */
module Ingest {
  import opened Wrappers
  import opened Schema
  import opened Content

  /** `$info->id ?? basename($path)` for an article. */
  function ArticleIdentifier(d: ArticleDescriptor, basename: string): string {
    d.id.GetOr(basename)
  }

  /** `$info->id ?? basename($path)` for a category. */
  function CategoryIdentifier(d: CategoryDescriptor, basename: string): string {
    Lookup(d.members, "id").GetOr(basename)
  }

  /** The `articles_data` row for one entry of `languages`. */
  function ArticleDataFor(id: int, path: string, entry: (string, ArticleText)): ArticleData {
    ArticleData(id, entry.0, entry.1.title, entry.1.description, entry.1.keywords.GetOr(""),
                path + entry.1.file)
  }

  /** The rows `makeArticle`'s loop inserts into `articles_data`, one per language entry. */
  function ArticleRows(id: int, path: string, languages: seq<(string, ArticleText)>): seq<ArticleData> {
    seq(|languages|, k requires 0 <= k < |languages| => ArticleDataFor(id, path, languages[k]))
  }

  /** The rows `makeCategory`'s loop inserts into `categories_data`, one per top-level member. */
  function CategoryRows(id: int, members: seq<(string, string)>): seq<CategoryData> {
    seq(|members|, k requires 0 <= k < |members| => CategoryData(id, members[k].0, members[k].1))
  }

  /** The `articles_indexes` row `makeArticle` inserts; its id is the next AUTOINCREMENT value. */
  function NewArticleIndex(t: Tables, path: string, basename: string, d: ArticleDescriptor,
                           category: int, now: string): ArticleIndex {
    ArticleIndex(t.articleSeq + 1, category, ArticleIdentifier(d, basename), d.author.GetOr(""),
                 d.published.GetOr(now), d.edited.GetOr(now), path)
  }

  /** The `categories_indexes` row `makeCategory` inserts. */
  function NewCategoryIndex(t: Tables, path: string, basename: string, d: CategoryDescriptor,
                            parent: int): CategoryIndex {
    CategoryIndex(t.categorySeq + 1, parent, CategoryIdentifier(d, basename), path)
  }

  /** The tables after `makeArticle(path, category)`. */
  function WithArticle(t: Tables, path: string, basename: string, d: ArticleDescriptor,
                       category: int, now: string): Tables {
    var id := t.articleSeq + 1;
    t.(articlesIndexes := t.articlesIndexes + [NewArticleIndex(t, path, basename, d, category, now)],
       articleSeq := id,
       articlesData := t.articlesData + ArticleRows(id, path, d.languages))
  }

  /** The tables after `makeCategory(path, parent)`. */
  function WithCategory(t: Tables, path: string, basename: string, d: CategoryDescriptor,
                        parent: int): Tables {
    var id := t.categorySeq + 1;
    t.(categoriesIndexes := t.categoriesIndexes + [NewCategoryIndex(t, path, basename, d, parent)],
       categorySeq := id,
       categoriesData := t.categoriesData + CategoryRows(id, d.members))
  }

  /** The tables after `addFolder(path, parent)` on folder `f`. */
  function Ingested(t: Tables, path: string, f: Folder, parent: int, now: string): Tables
    decreases f, |f.children| + 1
  {
    if f.article.Some? then WithArticle(t, path, f.name, f.article.value, parent, now)
    else
      var t1 := if f.category.Some? then WithCategory(t, path, f.name, f.category.value, parent) else t;
      var p1 := if f.category.Some? then t.categorySeq + 1 else parent;
      if f.readable then ChildrenIngested(t1, path, f, |f.children|, p1, now) else t1
  }

  /** The tables after `addFolder` has visited the first `n` sub-directories of `f`. */
  function ChildrenIngested(t: Tables, path: string, f: Folder, n: nat, parent: int, now: string): Tables
    requires n <= |f.children|
    decreases f, n
  {
    if n == 0 then t
    else
      var c := f.children[n - 1];
      Ingested(ChildrenIngested(t, path, f, n - 1, parent, now), path + c.name + "/", c, parent, now)
  }

  // ---------------------------------------------------------------------------
  // Reference counts over the tree

  /** Folders with `article.json` that a walk from `f` reaches: it stops at an article
      folder and does not enter an unreadable one. */
  function ArticleFolders(f: Folder): nat
    decreases f, |f.children| + 1
  {
    if f.article.Some? then 1
    else if f.readable then ArticleFoldersIn(f, |f.children|)
    else 0
  }

  function ArticleFoldersIn(f: Folder, n: nat): nat
    requires n <= |f.children|
    decreases f, n
  {
    if n == 0 then 0 else ArticleFoldersIn(f, n - 1) + ArticleFolders(f.children[n - 1])
  }

  /** Folders with `category.json` but no `article.json` that the same walk reaches
      (an unreadable one still counts: its descriptor is read before the directory is listed). */
  function CategoryFolders(f: Folder): nat
    decreases f, |f.children| + 1
  {
    if f.article.Some? then 0
    else (if f.category.Some? then 1 else 0) + (if f.readable then CategoryFoldersIn(f, |f.children|) else 0)
  }

  function CategoryFoldersIn(f: Folder, n: nat): nat
    requires n <= |f.children|
    decreases f, n
  {
    if n == 0 then 0 else CategoryFoldersIn(f, n - 1) + CategoryFolders(f.children[n - 1])
  }

  // ---------------------------------------------------------------------------
  // Append-only growth and fresh ids

  /** `r` extends `t` the only way ingestion changes a store: every table keeps its old
      rows as a prefix, counters never go back, and every new index row has an id above
      the counter of `t`, hence above every id `t` already holds. */
  ghost predicate Grows(t: Tables, r: Tables) {
    && t.categoriesIndexes <= r.categoriesIndexes && t.categoriesData <= r.categoriesData
    && t.articlesIndexes <= r.articlesIndexes && t.articlesData <= r.articlesData
    && t.categorySeq <= r.categorySeq && t.articleSeq <= r.articleSeq
    && (forall k :: |t.categoriesIndexes| <= k < |r.categoriesIndexes| ==>
          t.categorySeq < r.categoriesIndexes[k].id <= r.categorySeq)
    && (forall k :: |t.articlesIndexes| <= k < |r.articlesIndexes| ==>
          t.articleSeq < r.articlesIndexes[k].id <= r.articleSeq)
  }

  lemma GrowsTransitive(a: Tables, b: Tables, c: Tables)
    requires Grows(a, b) && Grows(b, c)
    ensures Grows(a, c)
  {
    forall k | |a.categoriesIndexes| <= k < |c.categoriesIndexes|
      ensures a.categorySeq < c.categoriesIndexes[k].id <= c.categorySeq
    {
      if k < |b.categoriesIndexes| {
        assert c.categoriesIndexes[k] == b.categoriesIndexes[k];
      }
    }
    forall k | |a.articlesIndexes| <= k < |c.articlesIndexes|
      ensures a.articleSeq < c.articlesIndexes[k].id <= c.articleSeq
    {
      if k < |b.articlesIndexes| {
        assert c.articlesIndexes[k] == b.articlesIndexes[k];
      }
    }
  }

  /** A parent that resolves keeps resolving as the store grows. */
  lemma GrowsKeepsParent(t: Tables, r: Tables, p: int)
    requires Grows(t, r) && ValidParent(t, p)
    ensures ValidParent(r, p)
  {
    if p != 0 {
      var i :| i in t.categoriesIndexes && i.id == p;
      assert r.categoriesIndexes[..|t.categoriesIndexes|] == t.categoriesIndexes;
    }
  }

  /** `makeArticle` appends one index row with a fresh id, owned by `category`, and one data
      row per language entry pointing at it; a well-formed store stays well-formed. */
  lemma WithArticleGrows(t: Tables, path: string, basename: string, d: ArticleDescriptor,
                         category: int, now: string)
    ensures var r := WithArticle(t, path, basename, d, category, now);
            Grows(t, r) && (WellFormed(t) ==> WellFormed(r))
  {
    var r := WithArticle(t, path, basename, d, category, now);
    var n := NewArticleIndex(t, path, basename, d, category, now);
    if WellFormed(t) {
      assert ArticleIds(r.articlesIndexes) == ArticleIds(t.articlesIndexes) + {n.id};
      forall x | x in r.articlesData ensures x.id in ArticleIds(r.articlesIndexes) {
        if x !in t.articlesData {
          var k :| 0 <= k < |r.articlesData| && r.articlesData[k] == x;
          assert x == ArticleRows(n.id, path, d.languages)[k - |t.articlesData|];
        }
      }
    }
  }

  /** `makeCategory` appends one index row with a fresh id and parent `parent`, and one data
      row per member pointing at it; a well-formed store stays well-formed. */
  lemma WithCategoryGrows(t: Tables, path: string, basename: string, d: CategoryDescriptor, parent: int)
    ensures var r := WithCategory(t, path, basename, d, parent);
            Grows(t, r) && (WellFormed(t) ==> WellFormed(r))
  {
    var r := WithCategory(t, path, basename, d, parent);
    var n := NewCategoryIndex(t, path, basename, d, parent);
    if WellFormed(t) {
      assert CategoryIds(r.categoriesIndexes) == CategoryIds(t.categoriesIndexes) + {n.id};
      forall x | x in r.categoriesData ensures x.id in CategoryIds(r.categoriesIndexes) {
        if x !in t.categoriesData {
          var k :| 0 <= k < |r.categoriesData| && r.categoriesData[k] == x;
          assert x == CategoryRows(n.id, d.members)[k - |t.categoriesData|];
        }
      }
    }
  }

  /** Ingestion only appends, hands out fresh ids, and keeps a well-formed store well-formed. */
  lemma {:induction false} IngestedGrows(t: Tables, path: string, f: Folder, parent: int, now: string)
    ensures var r := Ingested(t, path, f, parent, now);
            Grows(t, r) && (WellFormed(t) ==> WellFormed(r))
    decreases f, |f.children| + 1
  {
    if f.article.Some? {
      WithArticleGrows(t, path, f.name, f.article.value, parent, now);
    } else {
      var t1 := if f.category.Some? then WithCategory(t, path, f.name, f.category.value, parent) else t;
      var p1 := if f.category.Some? then t.categorySeq + 1 else parent;
      if f.category.Some? {
        WithCategoryGrows(t, path, f.name, f.category.value, parent);
      }
      if f.readable {
        ChildrenIngestedGrows(t1, path, f, |f.children|, p1, now);
        GrowsTransitive(t, t1, ChildrenIngested(t1, path, f, |f.children|, p1, now));
      }
    }
  }

  lemma {:induction false} ChildrenIngestedGrows(t: Tables, path: string, f: Folder, n: nat,
                                                 parent: int, now: string)
    requires n <= |f.children|
    ensures var r := ChildrenIngested(t, path, f, n, parent, now);
            Grows(t, r) && (WellFormed(t) ==> WellFormed(r))
    decreases f, n
  {
    if n > 0 {
      var c := f.children[n - 1];
      var m := ChildrenIngested(t, path, f, n - 1, parent, now);
      ChildrenIngestedGrows(t, path, f, n - 1, parent, now);
      IngestedGrows(m, path + c.name + "/", c, parent, now);
      GrowsTransitive(t, m, Ingested(m, path + c.name + "/", c, parent, now));
    }
  }

  // ---------------------------------------------------------------------------
  // Referential integrity

  lemma WithArticleLinked(t: Tables, path: string, basename: string, d: ArticleDescriptor,
                          category: int, now: string)
    requires Linked(t) && ValidParent(t, category)
    ensures Linked(WithArticle(t, path, basename, d, category, now))
  {
    WithArticleGrows(t, path, basename, d, category, now);
  }

  /** After `makeCategory` under a resolving parent, the new id is itself a parent that resolves. */
  lemma WithCategoryLinked(t: Tables, path: string, basename: string, d: CategoryDescriptor, parent: int)
    requires Linked(t) && ValidParent(t, parent)
    ensures var r := WithCategory(t, path, basename, d, parent);
            Linked(r) && ValidParent(r, t.categorySeq + 1)
  {
    var r := WithCategory(t, path, basename, d, parent);
    var n := NewCategoryIndex(t, path, basename, d, parent);
    WithCategoryGrows(t, path, basename, d, parent);
    assert CategoryIds(r.categoriesIndexes) == CategoryIds(t.categoriesIndexes) + {n.id};
    forall i | i in r.categoriesIndexes
      ensures i.parent == 0 || (ValidParent(r, i.parent) && i.parent < i.id)
    {
      if i == n && parent != 0 {
        var j :| j in t.categoriesIndexes && j.id == parent;
      }
    }
  }

  /** Ingesting under a parent that resolves keeps every parent and owning category resolvable. */
  lemma {:induction false} IngestedLinked(t: Tables, path: string, f: Folder, parent: int, now: string)
    requires Linked(t) && ValidParent(t, parent)
    ensures Linked(Ingested(t, path, f, parent, now))
    decreases f, |f.children| + 1
  {
    if f.article.Some? {
      WithArticleLinked(t, path, f.name, f.article.value, parent, now);
    } else {
      var t1 := if f.category.Some? then WithCategory(t, path, f.name, f.category.value, parent) else t;
      var p1 := if f.category.Some? then t.categorySeq + 1 else parent;
      if f.category.Some? {
        WithCategoryLinked(t, path, f.name, f.category.value, parent);
      }
      if f.readable {
        ChildrenIngestedLinked(t1, path, f, |f.children|, p1, now);
      }
    }
  }

  lemma {:induction false} ChildrenIngestedLinked(t: Tables, path: string, f: Folder, n: nat,
                                                  parent: int, now: string)
    requires n <= |f.children|
    requires Linked(t) && ValidParent(t, parent)
    ensures Linked(ChildrenIngested(t, path, f, n, parent, now))
    decreases f, n
  {
    if n > 0 {
      var c := f.children[n - 1];
      var m := ChildrenIngested(t, path, f, n - 1, parent, now);
      ChildrenIngestedLinked(t, path, f, n - 1, parent, now);
      ChildrenIngestedGrows(t, path, f, n - 1, parent, now);
      GrowsKeepsParent(t, m, parent);
      IngestedLinked(m, path + c.name + "/", c, parent, now);
    }
  }

  // ---------------------------------------------------------------------------
  // One data row per entity and language

  /** `makeArticle` keeps one `articles_data` row per id and language: its rows carry the
      fresh id, and the `languages` keys they come from never repeat. */
  lemma WithArticleOneRow(t: Tables, path: string, basename: string, d: ArticleDescriptor,
                          category: int, now: string)
    requires WellFormed(t) && OneRowPerLanguage(t)
    ensures OneRowPerLanguage(WithArticle(t, path, basename, d, category, now))
  {
    var r := WithArticle(t, path, basename, d, category, now);
    var rows := ArticleRows(t.articleSeq + 1, path, d.languages);
    var m := |t.articlesData|;
    assert r.articlesData == t.articlesData + rows;
    forall j, k | 0 <= j < k < |r.articlesData|
      ensures ArticleDataKey(r.articlesData[j]) != ArticleDataKey(r.articlesData[k])
    {
      if k < m {
        assert r.articlesData[j] == t.articlesData[j] && r.articlesData[k] == t.articlesData[k];
      } else if j < m {
        assert r.articlesData[j] in t.articlesData;
        var i :| i in t.articlesIndexes && i.id == r.articlesData[j].id;
        assert r.articlesData[k] == rows[k - m];
      } else {
        assert r.articlesData[j] == rows[j - m] && r.articlesData[k] == rows[k - m];
      }
    }
  }

  /** `makeCategory` keeps one `categories_data` row per id and language. */
  lemma WithCategoryOneRow(t: Tables, path: string, basename: string, d: CategoryDescriptor, parent: int)
    requires WellFormed(t) && OneRowPerLanguage(t)
    ensures OneRowPerLanguage(WithCategory(t, path, basename, d, parent))
  {
    var r := WithCategory(t, path, basename, d, parent);
    var rows := CategoryRows(t.categorySeq + 1, d.members);
    var m := |t.categoriesData|;
    assert r.categoriesData == t.categoriesData + rows;
    forall j, k | 0 <= j < k < |r.categoriesData|
      ensures CategoryDataKey(r.categoriesData[j]) != CategoryDataKey(r.categoriesData[k])
    {
      if k < m {
        assert r.categoriesData[j] == t.categoriesData[j] && r.categoriesData[k] == t.categoriesData[k];
      } else if j < m {
        assert r.categoriesData[j] in t.categoriesData;
        var i :| i in t.categoriesIndexes && i.id == r.categoriesData[j].id;
        assert r.categoriesData[k] == rows[k - m];
      } else {
        assert r.categoriesData[j] == rows[j - m] && r.categoriesData[k] == rows[k - m];
      }
    }
  }

  /** Ingesting a tree into a well-formed store keeps one data row per id and language. */
  lemma {:induction false} IngestedOneRow(t: Tables, path: string, f: Folder, parent: int, now: string)
    requires WellFormed(t) && OneRowPerLanguage(t)
    ensures OneRowPerLanguage(Ingested(t, path, f, parent, now))
    decreases f, |f.children| + 1
  {
    if f.article.Some? {
      WithArticleOneRow(t, path, f.name, f.article.value, parent, now);
    } else {
      var t1 := if f.category.Some? then WithCategory(t, path, f.name, f.category.value, parent) else t;
      var p1 := if f.category.Some? then t.categorySeq + 1 else parent;
      if f.category.Some? {
        WithCategoryOneRow(t, path, f.name, f.category.value, parent);
        WithCategoryGrows(t, path, f.name, f.category.value, parent);
      }
      if f.readable {
        ChildrenIngestedOneRow(t1, path, f, |f.children|, p1, now);
      }
    }
  }

  lemma {:induction false} ChildrenIngestedOneRow(t: Tables, path: string, f: Folder, n: nat,
                                                  parent: int, now: string)
    requires n <= |f.children|
    requires WellFormed(t) && OneRowPerLanguage(t)
    ensures OneRowPerLanguage(ChildrenIngested(t, path, f, n, parent, now))
    decreases f, n
  {
    if n > 0 {
      var c := f.children[n - 1];
      var m := ChildrenIngested(t, path, f, n - 1, parent, now);
      ChildrenIngestedOneRow(t, path, f, n - 1, parent, now);
      ChildrenIngestedGrows(t, path, f, n - 1, parent, now);
      IngestedOneRow(m, path + c.name + "/", c, parent, now);
    }
  }

  // ---------------------------------------------------------------------------
  // How many rows ingestion adds

  /** One `articles_indexes` row per reachable article folder, one `categories_indexes` row
      per reachable category folder, and the counters advance by as much. */
  lemma {:induction false} IngestedCounts(t: Tables, path: string, f: Folder, parent: int, now: string)
    ensures var r := Ingested(t, path, f, parent, now);
            && |r.articlesIndexes| == |t.articlesIndexes| + ArticleFolders(f)
            && r.articleSeq == t.articleSeq + ArticleFolders(f)
            && |r.categoriesIndexes| == |t.categoriesIndexes| + CategoryFolders(f)
            && r.categorySeq == t.categorySeq + CategoryFolders(f)
    decreases f, |f.children| + 1
  {
    if f.article.None? {
      var t1 := if f.category.Some? then WithCategory(t, path, f.name, f.category.value, parent) else t;
      var p1 := if f.category.Some? then t.categorySeq + 1 else parent;
      if f.readable {
        ChildrenIngestedCounts(t1, path, f, |f.children|, p1, now);
      }
    }
  }

  lemma {:induction false} ChildrenIngestedCounts(t: Tables, path: string, f: Folder, n: nat,
                                                  parent: int, now: string)
    requires n <= |f.children|
    ensures var r := ChildrenIngested(t, path, f, n, parent, now);
            && |r.articlesIndexes| == |t.articlesIndexes| + ArticleFoldersIn(f, n)
            && r.articleSeq == t.articleSeq + ArticleFoldersIn(f, n)
            && |r.categoriesIndexes| == |t.categoriesIndexes| + CategoryFoldersIn(f, n)
            && r.categorySeq == t.categorySeq + CategoryFoldersIn(f, n)
    decreases f, n
  {
    if n > 0 {
      var c := f.children[n - 1];
      ChildrenIngestedCounts(t, path, f, n - 1, parent, now);
      IngestedCounts(ChildrenIngested(t, path, f, n - 1, parent, now), path + c.name + "/", c, parent, now);
    }
  }

  // ---------------------------------------------------------------------------
  // Where new rows attach

  /** Every category row added under `parent` hangs from `parent` itself or from an older
      category added in the same walk; every article row added belongs to `parent` or to a
      category added in the same walk. */
  ghost predicate AttachedUnder(t: Tables, r: Tables, parent: int) {
    && (forall k :: |t.categoriesIndexes| <= k < |r.categoriesIndexes| ==>
          r.categoriesIndexes[k].parent == parent
          || t.categorySeq < r.categoriesIndexes[k].parent < r.categoriesIndexes[k].id)
    && (forall k :: |t.articlesIndexes| <= k < |r.articlesIndexes| ==>
          r.articlesIndexes[k].category == parent
          || t.categorySeq < r.articlesIndexes[k].category <= r.categorySeq)
  }

  lemma {:induction false} IngestedAttaches(t: Tables, path: string, f: Folder, parent: int, now: string)
    ensures AttachedUnder(t, Ingested(t, path, f, parent, now), parent)
    decreases f, |f.children| + 1
  {
    var r := Ingested(t, path, f, parent, now);
    if f.article.None? {
      var t1 := if f.category.Some? then WithCategory(t, path, f.name, f.category.value, parent) else t;
      var p1 := if f.category.Some? then t.categorySeq + 1 else parent;
      if f.category.Some? {
        WithCategoryGrows(t, path, f.name, f.category.value, parent);
      }
      if f.readable {
        ChildrenIngestedAttaches(t1, path, f, |f.children|, p1, now);
        ChildrenIngestedGrows(t1, path, f, |f.children|, p1, now);
        forall k | |t.categoriesIndexes| <= k < |r.categoriesIndexes|
          ensures r.categoriesIndexes[k].parent == parent
                  || t.categorySeq < r.categoriesIndexes[k].parent < r.categoriesIndexes[k].id
        {
          if k < |t1.categoriesIndexes| {
            assert r.categoriesIndexes[k] == t1.categoriesIndexes[k];
          }
        }
      }
    }
  }

  lemma {:induction false} ChildrenIngestedAttaches(t: Tables, path: string, f: Folder, n: nat,
                                                    parent: int, now: string)
    requires n <= |f.children|
    ensures AttachedUnder(t, ChildrenIngested(t, path, f, n, parent, now), parent)
    decreases f, n
  {
    if n > 0 {
      var c := f.children[n - 1];
      var m := ChildrenIngested(t, path, f, n - 1, parent, now);
      var r := Ingested(m, path + c.name + "/", c, parent, now);
      ChildrenIngestedAttaches(t, path, f, n - 1, parent, now);
      ChildrenIngestedGrows(t, path, f, n - 1, parent, now);
      IngestedAttaches(m, path + c.name + "/", c, parent, now);
      IngestedGrows(m, path + c.name + "/", c, parent, now);
      forall k | |t.categoriesIndexes| <= k < |m.categoriesIndexes|
        ensures r.categoriesIndexes[k] == m.categoriesIndexes[k]
      {
      }
      forall k | |t.articlesIndexes| <= k < |m.articlesIndexes|
        ensures r.articlesIndexes[k] == m.articlesIndexes[k]
      {
      }
    }
  }

  // ---------------------------------------------------------------------------
  // The three kinds of folder

  /** A folder with `article.json` adds exactly one article row, owned by the incoming parent,
      and no category row; neither its `category.json` nor its sub-directories matter. */
  lemma ArticleFolderIsLeaf(t: Tables, path: string, f: Folder, parent: int, now: string)
    requires f.article.Some?
    ensures var r := Ingested(t, path, f, parent, now);
            && r.articlesIndexes == t.articlesIndexes + [NewArticleIndex(t, path, f.name, f.article.value, parent, now)]
            && r.articlesIndexes[|t.articlesIndexes|].category == parent
            && r.categoriesIndexes == t.categoriesIndexes && r.categoriesData == t.categoriesData
            && r == Ingested(t, path, f.(category := None, children := []), parent, now)
  {
  }

  /** A folder with only `category.json` adds its category row first, with the incoming parent
      and the folder's path, then ingests every sub-directory with the new id as parent.
      When the directory cannot be listed the row stays and nothing below it is visited. */
  lemma CategoryFolderHandsDownId(t: Tables, path: string, f: Folder, parent: int, now: string)
    requires f.article.None? && f.category.Some?
    ensures var r := Ingested(t, path, f, parent, now);
            var t1 := WithCategory(t, path, f.name, f.category.value, parent);
            && |r.categoriesIndexes| > |t.categoriesIndexes|
            && r.categoriesIndexes[|t.categoriesIndexes|] == CategoryIndex(t.categorySeq + 1, parent,
                 CategoryIdentifier(f.category.value, f.name), path)
            && r == (if f.readable then ChildrenIngested(t1, path, f, |f.children|, t.categorySeq + 1, now) else t1)
  {
    var t1 := WithCategory(t, path, f.name, f.category.value, parent);
    if f.readable {
      ChildrenIngestedGrows(t1, path, f, |f.children|, t.categorySeq + 1, now);
      assert t1.categoriesIndexes[|t.categoriesIndexes|] == NewCategoryIndex(t, path, f.name, f.category.value, parent);
    }
  }

  /** A folder with neither descriptor adds nothing itself and hands its own parent down. */
  lemma PassThroughFolder(t: Tables, path: string, f: Folder, parent: int, now: string)
    requires f.article.None? && f.category.None?
    ensures Ingested(t, path, f, parent, now) ==
            if f.readable then ChildrenIngested(t, path, f, |f.children|, parent, now) else t
  {
  }

  /** A descriptor-less folder holding an article folder and then a category folder attaches
      both to its own parent, not one to the other. */
  lemma PassThroughSiblings(t: Tables, path: string, f: Folder, parent: int, now: string)
    requires f.article.None? && f.category.None? && f.readable && |f.children| == 2
    requires f.children[0].article.Some?
    requires f.children[1].article.None? && f.children[1].category.Some?
    ensures var r := Ingested(t, path, f, parent, now);
            && |r.articlesIndexes| > |t.articlesIndexes| && |r.categoriesIndexes| > |t.categoriesIndexes|
            && r.articlesIndexes[|t.articlesIndexes|].category == parent
            && r.categoriesIndexes[|t.categoriesIndexes|].parent == parent
  {
    var a, c := f.children[0], f.children[1];
    var t1 := Ingested(t, path + a.name + "/", a, parent, now);
    assert ChildrenIngested(t, path, f, 1, parent, now) == t1;
    CategoryFolderHandsDownId(t1, path + c.name + "/", c, parent, now);
    IngestedGrows(t1, path + c.name + "/", c, parent, now);
    var r := Ingested(t1, path + c.name + "/", c, parent, now);
    assert r.articlesIndexes[|t.articlesIndexes|] == t1.articlesIndexes[|t.articlesIndexes|];
  }

  /** The other `readdir` order: a category folder and then an article folder. The category
      hangs from the folder's own parent, and so does the article, although by then the
      category (and whatever it holds) has been ingested: its id does not leak to the sibling. */
  lemma PassThroughSiblingsCategoryFirst(t: Tables, path: string, f: Folder, parent: int, now: string)
    requires f.article.None? && f.category.None? && f.readable && |f.children| == 2
    requires f.children[0].article.None? && f.children[0].category.Some?
    requires f.children[1].article.Some?
    ensures var r := Ingested(t, path, f, parent, now);
            && |r.categoriesIndexes| > |t.categoriesIndexes| && |r.articlesIndexes| > |t.articlesIndexes|
            && r.categoriesIndexes[|t.categoriesIndexes|].parent == parent
            && r.articlesIndexes[|r.articlesIndexes| - 1].category == parent
            && r.articlesIndexes[|r.articlesIndexes| - 1].path == path + f.children[1].name + "/"
  {
    var c, a := f.children[0], f.children[1];
    var t1 := Ingested(t, path + c.name + "/", c, parent, now);
    assert ChildrenIngested(t, path, f, 1, parent, now) == t1;
    CategoryFolderHandsDownId(t, path + c.name + "/", c, parent, now);
    IngestedGrows(t, path + c.name + "/", c, parent, now);
    var r := Ingested(t1, path + a.name + "/", a, parent, now);
    assert ChildrenIngested(t, path, f, 2, parent, now) == r;
    assert r == WithArticle(t1, path + a.name + "/", a.name, a.article.value, parent, now);
    assert r.articlesIndexes == t1.articlesIndexes + [NewArticleIndex(t1, path + a.name + "/", a.name, a.article.value, parent, now)];
    assert r.categoriesIndexes == t1.categoriesIndexes;
    assert r.categoriesIndexes[|t.categoriesIndexes|] == t1.categoriesIndexes[|t.categoriesIndexes|];
  }
}
