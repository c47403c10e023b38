/** The query layer: `categories`, `category`, `categoryByIdentifier`, `article`,
    `articleByIdentifier`, `Category::articles`, `Category::articlesRecursive`,
    `Category::subCategories` and `Article::getCategory`, as read-only functions of the
    tables and of the store's current language `lang`. */
module Queries {
  import opened Wrappers
  import opened Relational
  import opened Schema

  // Row predicates of the WHERE clauses, one named function per clause so that
  // every query and every lemma about it speaks of the same predicate.

  function CategoryIn(lang: string, parent: int): Category -> bool {
    (c: Category) => c.lang == lang && c.parent == parent
  }

  function CategoryWithId(lang: string, id: int): Category -> bool {
    (c: Category) => c.id == id && c.lang == lang
  }

  function CategoryNamed(lang: string, identifier: string): Category -> bool {
    (c: Category) => c.identifier == identifier && c.lang == lang
  }

  function ArticleWithId(lang: string, id: int): Article -> bool {
    (a: Article) => a.id == id && a.lang == lang
  }

  function ArticleNamed(lang: string, identifier: string): Article -> bool {
    (a: Article) => a.identifier == Some(identifier) && a.lang == lang
  }

  function ArticleIn(lang: string, category: int): Article -> bool {
    (a: Article) => a.lang == lang && a.category == category
  }

  function ArticleInAny(lang: string, categories: seq<int>): Article -> bool {
    (a: Article) => a.lang == lang && a.category in categories
  }

  /** `categories(parent)`: exactly the view rows in the current language whose parent is `parent`. */
  function Categories(t: Tables, lang: string, parent: int): (r: seq<Category>)
    ensures forall c :: c in r <==> c in CategoriesView(t) && c.lang == lang && c.parent == parent
  {
    Filter(CategoriesView(t), CategoryIn(lang, parent))
  }

  /** With one data row per id and language, `categories(p)` never lists a category twice. */
  lemma CategoriesNoDuplicates(t: Tables, lang: string, p: int)
    requires OneRowPerLanguage(t)
    ensures DistinctBy(Categories(t, lang, p), CategoryKeyOf)
  {
    ViewsOneRowPerLanguage(t);
    FilterKeepsDistinct(CategoriesView(t), CategoryIn(lang, p), CategoryKeyOf);
  }

  /** `category(id)`: a view row with that id in the current language, `None` (the source's
      `false`) exactly when there is none. */
  function CategoryById(t: Tables, lang: string, id: int): (r: Option<Category>)
    ensures r.None? <==> forall c :: c in CategoriesView(t) ==> !(c.id == id && c.lang == lang)
    ensures r.Some? ==> r.value in CategoriesView(t) && r.value.id == id && r.value.lang == lang
  {
    First(CategoriesView(t), CategoryWithId(lang, id))
  }

  /** `categoryByIdentifier(name)`: a view row with that identifier in the current language,
      `None` exactly when there is none. */
  function CategoryByIdentifier(t: Tables, lang: string, identifier: string): (r: Option<Category>)
    ensures r.None? <==> forall c :: c in CategoriesView(t) ==> !(c.identifier == identifier && c.lang == lang)
    ensures r.Some? ==> r.value in CategoriesView(t) && r.value.identifier == identifier && r.value.lang == lang
  {
    First(CategoriesView(t), CategoryNamed(lang, identifier))
  }

  /** `article(id)`: a view row with that id in the current language, without the
      `identifier` and `path` columns the query does not select; `None` exactly when there is none. */
  function ArticleById(t: Tables, lang: string, id: int): (r: Option<Article>)
    ensures r.None? <==> forall a :: a in ArticlesView(t) ==> !(a.id == id && a.lang == lang)
    ensures r.Some? ==> r.value.identifier.None? && r.value.path.None?
                        && exists a :: a in ArticlesView(t) && a.id == id && a.lang == lang
                                       && r.value == a.(identifier := None, path := None)
  {
    match First(ArticlesView(t), ArticleWithId(lang, id))
    case None => None
    case Some(a) => Some(a.(identifier := None, path := None))
  }

  /** `articleByIdentifier(name)`: a view row with that identifier in the current language,
      `None` exactly when there is none. */
  function ArticleByIdentifier(t: Tables, lang: string, identifier: string): (r: Option<Article>)
    ensures r.None? <==> forall a :: a in ArticlesView(t) ==> !(a.identifier == Some(identifier) && a.lang == lang)
    ensures r.Some? ==> r.value in ArticlesView(t) && r.value.identifier == Some(identifier) && r.value.lang == lang
  {
    First(ArticlesView(t), ArticleNamed(lang, identifier))
  }

  /** `Category::subCategories()`: the categories whose parent is `c`. */
  function SubCategories(t: Tables, lang: string, c: Category): (r: seq<Category>)
    ensures forall x :: x in r <==> x in CategoriesView(t) && x.lang == lang && x.parent == c.id
    ensures OneRowPerLanguage(t) ==> DistinctBy(r, CategoryKeyOf)
  {
    var r := Categories(t, lang, c.id);
    assert OneRowPerLanguage(t) ==> DistinctBy(r, CategoryKeyOf) by {
      if OneRowPerLanguage(t) { CategoriesNoDuplicates(t, lang, c.id); }
    }
    r
  }

  /** `Article::getCategory()`: the category owning `a`, in the current language. */
  function ArticleCategory(t: Tables, lang: string, a: Article): (r: Option<Category>)
    ensures r.Some? ==> r.value in CategoriesView(t) && r.value.id == a.category && r.value.lang == lang
    ensures r.None? <==> forall c :: c in CategoriesView(t) ==> !(c.id == a.category && c.lang == lang)
  {
    CategoryById(t, lang, a.category)
  }

  /** `Category::articles(NULL, limit, start)` on the category with id `category`: a page of
      the view rows in the current language owned by that category. */
  function CategoryArticles(t: Tables, lang: string, category: int, limit: int, start: int)
    : (r: Option<seq<Article>>)
    ensures r.Some? <==> limit > 0 || start <= 0
    ensures r.Some? ==> forall a :: a in r.value ==>
              a in ArticlesView(t) && a.lang == lang && a.category == category
    ensures r.Some? && limit > 0 ==> |r.value| <= limit
    ensures limit <= 0 && start <= 0 ==> forall a ::
              a in r.value <==> a in ArticlesView(t) && a.lang == lang && a.category == category
  {
    Paginate(Filter(ArticlesView(t), ArticleIn(lang, category)), limit, start)
  }

  /** With a positive limit, `Category::articles` returns the window of the unpaginated
      listing that starts after its first `start` rows and holds at most `limit` of them. */
  lemma ArticlesPageIsWindow(t: Tables, lang: string, category: int, limit: int, start: int)
    requires limit > 0
    ensures var all := CategoryArticles(t, lang, category, 0, 0).value;
            var page := CategoryArticles(t, lang, category, limit, start).value;
            var skip := Skipped(|all|, start);
            |page| == Min(limit, |all| - skip) && forall k :: 0 <= k < |page| ==> page[k] == all[skip + k]
  {
    var rows := Filter(ArticlesView(t), ArticleIn(lang, category));
    assert CategoryArticles(t, lang, category, 0, 0) == Paginate(rows, 0, 0) == Some(rows);
    assert CategoryArticles(t, lang, category, limit, start) == Paginate(rows, limit, start);
  }

  /** With one data row per id and language, `category(id)` finds the only matching row. */
  lemma CategoryByIdIsOnly(t: Tables, lang: string, c: Category)
    requires OneRowPerLanguage(t)
    requires c in CategoriesView(t) && c.lang == lang
    ensures CategoryById(t, lang, c.id) == Some(c)
  {
    var v := CategoriesView(t);
    ViewsOneRowPerLanguage(t);
    var found := CategoryById(t, lang, c.id).value;
    var j :| 0 <= j < |v| && v[j] == c;
    var k :| 0 <= k < |v| && v[k] == found;
    assert CategoryKeyOf(v[j]) == CategoryKeyOf(v[k]);
    assert j == k;
  }

  /** With one data row per id and language, `article(id)` finds the only matching row. */
  lemma ArticleByIdIsOnly(t: Tables, lang: string, a: Article)
    requires OneRowPerLanguage(t)
    requires a in ArticlesView(t) && a.lang == lang
    ensures ArticleById(t, lang, a.id) == Some(a.(identifier := None, path := None))
  {
    var v := ArticlesView(t);
    ViewsOneRowPerLanguage(t);
    var found := First(v, ArticleWithId(lang, a.id)).value;
    var j :| 0 <= j < |v| && v[j] == a;
    var k :| 0 <= k < |v| && v[k] == found && ArticleWithId(lang, a.id)(v[k]);
    assert ArticleKeyOf(v[j]) == ArticleKeyOf(v[k]);
    assert j == k;
  }

  /** With one data row per id and language, `Category::articles` never repeats an article. */
  lemma ArticlesNoDuplicates(t: Tables, lang: string, category: int, limit: int, start: int)
    requires OneRowPerLanguage(t) && (limit > 0 || start <= 0)
    ensures DistinctBy(CategoryArticles(t, lang, category, limit, start).value, ArticleKeyOf)
  {
    ViewsOneRowPerLanguage(t);
    var rows := Filter(ArticlesView(t), ArticleIn(lang, category));
    FilterKeepsDistinct(ArticlesView(t), ArticleIn(lang, category), ArticleKeyOf);
    PaginateKeepsDistinct(rows, limit, start, ArticleKeyOf);
  }

  // ---------------------------------------------------------------------------
  // The recursive common table expression of `articlesRecursive`

  /** Rows `WITH RECURSIVE pcat` may hold at most (its `LIMIT 100`), the seed row included. */
  const RecursionLimit: nat := 100

  /** `SELECT ci.id FROM categories_indexes ci WHERE ci.parent = p`, in table order. */
  function ChildIds(ci: seq<CategoryIndex>, p: int): (r: seq<int>)
    ensures forall c :: c in r <==> exists i :: i in ci && i.id == c && i.parent == p
  {
    if ci == [] then []
    else (if ci[0].parent == p then [ci[0].id] else []) + ChildIds(ci[1..], p)
  }

  /** SQLite's evaluation of the recursive table: take the head of the queue, add it to the
      table (`out`), queue its children, until the queue is empty or the table holds
      `RecursionLimit` rows. */
  function Walk(ci: seq<CategoryIndex>, queue: seq<int>, out: seq<int>): (r: seq<int>)
    requires |out| <= RecursionLimit
    ensures |r| <= RecursionLimit
    ensures out <= r
    decreases RecursionLimit - |out|
  {
    if queue == [] || |out| == RecursionLimit then out
    else Walk(ci, queue[1..] + ChildIds(ci, queue[0]), out + [queue[0]])
  }

  /** The contents of `pcat` for `VALUES(root)`. */
  function SubtreeIds(ci: seq<CategoryIndex>, root: int): seq<int> {
    Walk(ci, [root], [])
  }

  /** `Category::articlesRecursive(NULL, limit, start)`: a page of the view rows in the
      current language whose category is one of the ids in `pcat`. */
  function CategoryArticlesRecursive(t: Tables, lang: string, category: int, limit: int, start: int)
    : (r: Option<seq<Article>>)
    ensures r.Some? <==> limit > 0 || start <= 0
    ensures r.Some? ==> forall a :: a in r.value ==>
              a in ArticlesView(t) && a.lang == lang && a.category in SubtreeIds(t.categoriesIndexes, category)
    ensures r.Some? && limit > 0 ==> |r.value| <= limit
    ensures limit <= 0 && start <= 0 ==> forall a ::
              a in r.value <==> a in ArticlesView(t) && a.lang == lang
                                && a.category in SubtreeIds(t.categoriesIndexes, category)
  {
    Paginate(Filter(ArticlesView(t), ArticleInAny(lang, SubtreeIds(t.categoriesIndexes, category))), limit, start)
  }

  /** With a positive limit, `Category::articlesRecursive` returns the window of the
      unpaginated listing that starts after its first `start` rows and holds at most `limit`. */
  lemma RecursivePageIsWindow(t: Tables, lang: string, category: int, limit: int, start: int)
    requires limit > 0
    ensures var all := CategoryArticlesRecursive(t, lang, category, 0, 0).value;
            var page := CategoryArticlesRecursive(t, lang, category, limit, start).value;
            var skip := Skipped(|all|, start);
            |page| == Min(limit, |all| - skip) && forall k :: 0 <= k < |page| ==> page[k] == all[skip + k]
  {
    var rows := Filter(ArticlesView(t), ArticleInAny(lang, SubtreeIds(t.categoriesIndexes, category)));
    assert CategoryArticlesRecursive(t, lang, category, 0, 0) == Paginate(rows, 0, 0) == Some(rows);
    assert CategoryArticlesRecursive(t, lang, category, limit, start) == Paginate(rows, limit, start);
  }

  // ---------------------------------------------------------------------------
  // Descendants, independently of the walk

  ghost predicate ChildOf(ci: seq<CategoryIndex>, c: int, p: int) {
    exists i :: i in ci && i.id == c && i.parent == p
  }

  /** `path` follows parent links downwards: each id is a child of the one before. */
  ghost predicate Chain(ci: seq<CategoryIndex>, path: seq<int>) {
    |path| >= 1 && forall j :: 0 <= j < |path| - 1 ==> ChildOf(ci, path[j + 1], path[j])
  }

  /** `x` is `root` or a descendant of `root` through parent links. */
  ghost predicate InSubtree(ci: seq<CategoryIndex>, root: int, x: int) {
    exists path :: Chain(ci, path) && path[0] == root && path[|path| - 1] == x
  }

  /** The walk never leaves the subtree: every id it adds descends from `root`. */
  lemma {:induction false} WalkStaysInSubtree(ci: seq<CategoryIndex>, root: int, queue: seq<int>, out: seq<int>)
    requires |out| <= RecursionLimit
    requires forall x :: x in queue ==> InSubtree(ci, root, x)
    requires forall x :: x in out ==> InSubtree(ci, root, x)
    ensures forall x :: x in Walk(ci, queue, out) ==> InSubtree(ci, root, x)
    decreases RecursionLimit - |out|
  {
    if queue != [] && |out| < RecursionLimit {
      var q := queue[0];
      assert InSubtree(ci, root, q);
      var path :| Chain(ci, path) && path[0] == root && path[|path| - 1] == q;
      forall c | c in ChildIds(ci, q) ensures InSubtree(ci, root, c) {
        var ext := path + [c];
        forall j | 0 <= j < |ext| - 1 ensures ChildOf(ci, ext[j + 1], ext[j]) {
          if j < |path| - 1 {
            assert ext[j + 1] == path[j + 1] && ext[j] == path[j];
          }
        }
        assert Chain(ci, ext);
      }
      WalkStaysInSubtree(ci, root, queue[1..] + ChildIds(ci, q), out + [q]);
    }
  }

  /** Everything a child of a table row can be is already in the table or still queued. */
  ghost predicate ChildrenTracked(ci: seq<CategoryIndex>, queue: seq<int>, out: seq<int>) {
    forall y, c :: y in out && ChildOf(ci, c, y) ==> c in out || c in queue
  }

  /** A walk that stops below the limit stopped because the queue ran dry, so its table
      holds every child of every row it holds. */
  lemma {:induction false} WalkClosed(ci: seq<CategoryIndex>, queue: seq<int>, out: seq<int>)
    requires |out| <= RecursionLimit
    requires ChildrenTracked(ci, queue, out)
    ensures var r := Walk(ci, queue, out);
            |r| < RecursionLimit ==> forall y, c :: y in r && ChildOf(ci, c, y) ==> c in r
    decreases RecursionLimit - |out|
  {
    if queue != [] && |out| < RecursionLimit {
      var q := queue[0];
      var queue', out' := queue[1..] + ChildIds(ci, q), out + [q];
      forall y, c | y in out' && ChildOf(ci, c, y) ensures c in out' || c in queue' {
        if y in out {
          if c !in out && c != q {
            assert c in queue;
            assert c in queue[1..];
          }
        }
      }
      WalkClosed(ci, queue', out');
    }
  }

  /** `pcat` always holds the category itself. */
  lemma SubtreeHasRoot(ci: seq<CategoryIndex>, root: int)
    ensures root in SubtreeIds(ci, root)
  {
    assert [root][1..] + ChildIds(ci, root) == ChildIds(ci, root);
    assert [] + [root] == [root];
    var r := Walk(ci, ChildIds(ci, root), [root]);
    assert SubtreeIds(ci, root) == r;
    assert [root] <= r;
    assert r[0] == root;
  }

  /** Every id in `pcat` descends from the category. */
  lemma SubtreeIdsDescend(ci: seq<CategoryIndex>, root: int)
    ensures forall x :: x in SubtreeIds(ci, root) ==> InSubtree(ci, root, x)
  {
    assert Chain(ci, [root]);
    WalkStaysInSubtree(ci, root, [root], []);
  }

  /** When `pcat` stays under its limit, it holds every descendant of the category. */
  lemma SubtreeIdsComplete(ci: seq<CategoryIndex>, root: int, x: int)
    requires |SubtreeIds(ci, root)| < RecursionLimit
    requires InSubtree(ci, root, x)
    ensures x in SubtreeIds(ci, root)
  {
    var r := SubtreeIds(ci, root);
    WalkClosed(ci, [root], []);
    SubtreeHasRoot(ci, root);
    var path :| Chain(ci, path) && path[0] == root && path[|path| - 1] == x;
    var j := 0;
    while j < |path| - 1
      invariant 0 <= j < |path|
      invariant path[j] in r
    {
      assert ChildOf(ci, path[j + 1], path[j]);
      j := j + 1;
    }
  }

  /** `articlesRecursive` returns everything `articles` returns for the same category. */
  lemma RecursiveIncludesDirect(t: Tables, lang: string, category: int)
    ensures forall a :: a in CategoryArticles(t, lang, category, 0, 0).value ==>
              a in CategoryArticlesRecursive(t, lang, category, 0, 0).value
  {
    SubtreeHasRoot(t.categoriesIndexes, category);
  }

  /** `articlesRecursive` only returns articles of the category or of its descendants. */
  lemma RecursiveStaysInSubtree(t: Tables, lang: string, category: int, limit: int, start: int)
    requires limit > 0 || start <= 0
    ensures forall a :: a in CategoryArticlesRecursive(t, lang, category, limit, start).value ==>
              InSubtree(t.categoriesIndexes, category, a.category)
  {
    SubtreeIdsDescend(t.categoriesIndexes, category);
  }

  /** Below the limit, `articlesRecursive` is the union of `articles` over the category and
      all its descendants. */
  lemma RecursiveIsUnionOfDescendants(t: Tables, lang: string, category: int)
    requires |SubtreeIds(t.categoriesIndexes, category)| < RecursionLimit
    ensures forall a :: a in CategoryArticlesRecursive(t, lang, category, 0, 0).value <==>
              exists d :: InSubtree(t.categoriesIndexes, category, d)
                          && a in CategoryArticles(t, lang, d, 0, 0).value
  {
    var ci := t.categoriesIndexes;
    SubtreeIdsDescend(ci, category);
    forall a, d | InSubtree(ci, category, d) && a in CategoryArticles(t, lang, d, 0, 0).value
      ensures a in CategoryArticlesRecursive(t, lang, category, 0, 0).value
    {
      SubtreeIdsComplete(ci, category, d);
    }
  }

  /** With one data row per id and language, `articlesRecursive` never repeats an article,
      even when a category id reaches `pcat` more than once. */
  lemma RecursiveNoDuplicates(t: Tables, lang: string, category: int, limit: int, start: int)
    requires OneRowPerLanguage(t) && (limit > 0 || start <= 0)
    ensures DistinctBy(CategoryArticlesRecursive(t, lang, category, limit, start).value, ArticleKeyOf)
  {
    ViewsOneRowPerLanguage(t);
    var p := ArticleInAny(lang, SubtreeIds(t.categoriesIndexes, category));
    FilterKeepsDistinct(ArticlesView(t), p, ArticleKeyOf);
    PaginateKeepsDistinct(Filter(ArticlesView(t), p), limit, start, ArticleKeyOf);
  }

  /** Every category `categories(p)` lists is found again by `category(id)`, with parent `p`. */
  lemma ListedCategoryHasParent(t: Tables, lang: string, p: int, c: Category)
    requires c in Categories(t, lang, p)
    ensures CategoryById(t, lang, c.id).Some? && CategoryById(t, lang, c.id).value.parent == p
  {
  }
}
