/** The four tables `createTables` declares, the autoincrement counters behind their
    primary keys, and the two views (`categories`, `articles`) that join them on `id`. */
module Schema {
  import opened Wrappers
  import opened Relational

  /** A row of `categories_indexes`. */
  datatype CategoryIndex = CategoryIndex(id: int, parent: int, identifier: string, path: string)

  /** A row of `categories_data`: the name of category `id` in language `lang`. */
  datatype CategoryData = CategoryData(id: int, lang: string, name: string)

  /** A row of `articles_indexes`. */
  datatype ArticleIndex = ArticleIndex(id: int, category: int, identifier: string, author: string,
                                       published: string, edited: string, path: string)

  /** A row of `articles_data`: the texts of article `id` in language `lang`. */
  datatype ArticleData = ArticleData(id: int, lang: string, title: string, description: string,
                                     keywords: string, file: string)

  /** A row of the `categories` view, which is also what a `Category` object holds.
      The view has no `path` column. */
  datatype Category = Category(id: int, parent: int, identifier: string, lang: string, name: string)

  /** A row of the `articles` view, which is also what an `Article` object holds.
      `identifier` and `path` are `None` when the query that fetched the row did not select them. */
  datatype Article = Article(id: int, identifier: Option<string>, category: int, lang: string,
                             title: string, description: string, author: string,
                             published: string, edited: string, path: Option<string>,
                             file: string, keywords: string)

  /** The whole store: the four tables in insertion order, and for each AUTOINCREMENT key
      the largest id ever handed out (SQLite's `sqlite_sequence`). */
  datatype Tables = Tables(categoriesIndexes: seq<CategoryIndex>, categoriesData: seq<CategoryData>,
                           categorySeq: nat,
                           articlesIndexes: seq<ArticleIndex>, articlesData: seq<ArticleData>,
                           articleSeq: nat)

  /** `createTables` on a store that has none of them: four empty tables, no id handed out yet. */
  function Created(): (t: Tables)
    ensures WellFormed(t) && OneRowPerLanguage(t)
  {
    Tables([], [], 0, [], [], 0)
  }

  function CategoryKey(i: CategoryIndex): int { i.id }
  function CategoryRef(d: CategoryData): int { d.id }
  function ArticleKey(i: ArticleIndex): int { i.id }
  function ArticleRef(d: ArticleData): int { d.id }

  function CategoryRow(i: CategoryIndex, d: CategoryData): Category {
    Category(i.id, i.parent, i.identifier, d.lang, d.name)
  }

  function ArticleRow(i: ArticleIndex, d: ArticleData): Article {
    Article(i.id, Some(i.identifier), i.category, d.lang, d.title, d.description,
            i.author, i.published, i.edited, Some(i.path), d.file, d.keywords)
  }

  /** The `categories` view: every row carries the id, parent and identifier of the
      index row whose id its data row names. */
  function CategoriesView(t: Tables): (r: seq<Category>)
    ensures forall c :: c in r ==>
              && FindKey(t.categoriesIndexes, CategoryKey, c.id).Some?
              && var i := FindKey(t.categoriesIndexes, CategoryKey, c.id).value;
                 c.parent == i.parent && c.identifier == i.identifier
    ensures forall c :: c in r ==>
              exists d :: (d in t.categoriesData && FindKey(t.categoriesIndexes, CategoryKey, d.id).Some?
                           && c == CategoryRow(FindKey(t.categoriesIndexes, CategoryKey, d.id).value, d))
    ensures forall d :: d in t.categoriesData && FindKey(t.categoriesIndexes, CategoryKey, d.id).Some? ==>
              CategoryRow(FindKey(t.categoriesIndexes, CategoryKey, d.id).value, d) in r
  {
    Join(t.categoriesIndexes, t.categoriesData, CategoryKey, CategoryRef, CategoryRow)
  }

  /** The `articles` view: every row carries the fields of the index row whose id its data row names. */
  function ArticlesView(t: Tables): (r: seq<Article>)
    ensures forall a :: a in r ==>
              && FindKey(t.articlesIndexes, ArticleKey, a.id).Some?
              && var i := FindKey(t.articlesIndexes, ArticleKey, a.id).value;
                 a.category == i.category && a.identifier == Some(i.identifier) && a.path == Some(i.path)
    ensures forall a :: a in r ==>
              exists d :: (d in t.articlesData && FindKey(t.articlesIndexes, ArticleKey, d.id).Some?
                           && a == ArticleRow(FindKey(t.articlesIndexes, ArticleKey, d.id).value, d))
    ensures forall d :: d in t.articlesData && FindKey(t.articlesIndexes, ArticleKey, d.id).Some? ==>
              ArticleRow(FindKey(t.articlesIndexes, ArticleKey, d.id).value, d) in r
  {
    Join(t.articlesIndexes, t.articlesData, ArticleKey, ArticleRef, ArticleRow)
  }

  function CategoryIds(ci: seq<CategoryIndex>): set<int> {
    set i | i in ci :: i.id
  }

  function ArticleIds(ai: seq<ArticleIndex>): set<int> {
    set i | i in ai :: i.id
  }

  /** What every store this code writes satisfies: AUTOINCREMENT ids are positive,
      strictly increasing in insertion order and never above the counter, and every
      data row names an existing index row. */
  ghost predicate WellFormed(t: Tables) {
    && (forall j, k :: 0 <= j < k < |t.categoriesIndexes| ==>
          t.categoriesIndexes[j].id < t.categoriesIndexes[k].id)
    && (forall i :: i in t.categoriesIndexes ==> 0 < i.id <= t.categorySeq)
    && (forall d :: d in t.categoriesData ==> d.id in CategoryIds(t.categoriesIndexes))
    && (forall j, k :: 0 <= j < k < |t.articlesIndexes| ==>
          t.articlesIndexes[j].id < t.articlesIndexes[k].id)
    && (forall i :: i in t.articlesIndexes ==> 0 < i.id <= t.articleSeq)
    && (forall d :: d in t.articlesData ==> d.id in ArticleIds(t.articlesIndexes))
  }

  /** A parent or owning category as the schema's REFERENCES clauses mean it: 0 for the
      root, otherwise the id of an existing category. */
  ghost predicate ValidParent(t: Tables, p: int) {
    p == 0 || p in CategoryIds(t.categoriesIndexes)
  }

  /** Referential integrity on top of `WellFormed`: every parent and every owning category
      resolves, and a parent is always older than its child, so parent links never cycle. */
  ghost predicate Linked(t: Tables) {
    && WellFormed(t)
    && (forall i :: i in t.categoriesIndexes ==> i.parent == 0 || (ValidParent(t, i.parent) && i.parent < i.id))
    && (forall a :: a in t.articlesIndexes ==> ValidParent(t, a.category))
  }

  // ---------------------------------------------------------------------------
  // One translation per entity and language

  function CategoryDataKey(d: CategoryData): (int, string) { (d.id, d.lang) }
  function ArticleDataKey(d: ArticleData): (int, string) { (d.id, d.lang) }
  function CategoryKeyOf(c: Category): (int, string) { (c.id, c.lang) }
  function ArticleKeyOf(a: Article): (int, string) { (a.id, a.lang) }

  /** Each data table holds at most one row per (entity id, language tag). The schema
      declares no key on that pair; ingestion keeps it (`Ingest.IngestedOneRow`). */
  ghost predicate OneRowPerLanguage(t: Tables) {
    DistinctBy(t.categoriesData, CategoryDataKey) && DistinctBy(t.articlesData, ArticleDataKey)
  }

  /** With one data row per id and language, no two view rows share an id and a language. */
  lemma ViewsOneRowPerLanguage(t: Tables)
    requires OneRowPerLanguage(t)
    ensures DistinctBy(CategoriesView(t), CategoryKeyOf) && DistinctBy(ArticlesView(t), ArticleKeyOf)
  {
    JoinKeepsDistinct(t.categoriesIndexes, t.categoriesData, CategoryKey, CategoryRef, CategoryRow,
                      CategoryDataKey, CategoryKeyOf);
    JoinKeepsDistinct(t.articlesIndexes, t.articlesData, ArticleKey, ArticleRef, ArticleRow,
                      ArticleDataKey, ArticleKeyOf);
  }
}
