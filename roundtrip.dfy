/** Ingestion read back through the query layer: what `makeArticle` and `makeCategory`
    make visible to `article`, `category`, `categories` and `Category::articles`, and
    that they leave every other answer as it was. */
module RoundTrip {
  import opened Wrappers
  import opened Relational
  import opened Schema
  import opened Content
  import opened Ingest
  import opened Queries

  /** The `articles` view row `makeArticle` creates for one language entry. */
  function NewArticleRow(t: Tables, path: string, basename: string, d: ArticleDescriptor,
                         category: int, now: string, entry: (string, ArticleText)): Article {
    ArticleRow(NewArticleIndex(t, path, basename, d, category, now), ArticleDataFor(t.articleSeq + 1, path, entry))
  }

  /** The `categories` view row `makeCategory` creates for one member. */
  function NewCategoryRow(t: Tables, path: string, basename: string, d: CategoryDescriptor,
                          parent: int, member: (string, string)): Category {
    CategoryRow(NewCategoryIndex(t, path, basename, d, parent), CategoryData(t.categorySeq + 1, member.0, member.1))
  }

  /** The `articles` view rows `makeArticle` creates, one per language entry, in entry order. */
  function NewArticleRows(t: Tables, path: string, basename: string, d: ArticleDescriptor,
                          category: int, now: string): seq<Article> {
    seq(|d.languages|, k requires 0 <= k < |d.languages| => NewArticleRow(t, path, basename, d, category, now, d.languages[k]))
  }

  /** The `categories` view rows `makeCategory` creates, one per member, in member order. */
  function NewCategoryRows(t: Tables, path: string, basename: string, d: CategoryDescriptor,
                           parent: int): seq<Category> {
    seq(|d.members|, k requires 0 <= k < |d.members| => NewCategoryRow(t, path, basename, d, parent, d.members[k]))
  }

  /** After `makeArticle` the `articles` view is the old view followed by one row per language
      entry, and every old row has an id below the fresh one. */
  lemma ArticlesViewAfterInsert(t: Tables, path: string, basename: string, d: ArticleDescriptor,
                                category: int, now: string)
    requires WellFormed(t)
    ensures ArticlesView(WithArticle(t, path, basename, d, category, now)) ==
              ArticlesView(t) + NewArticleRows(t, path, basename, d, category, now)
    ensures forall a :: a in ArticlesView(t) ==> a.id <= t.articleSeq
  {
    var n := NewArticleIndex(t, path, basename, d, category, now);
    var id := t.articleSeq + 1;
    var rows := ArticleRows(id, path, d.languages);
    var t' := WithArticle(t, path, basename, d, category, now);
    assert t'.articlesIndexes == t.articlesIndexes + [n] && t'.articlesData == t.articlesData + rows;
    forall x | x in t.articlesData ensures FindKey(t.articlesIndexes, ArticleKey, ArticleRef(x)).Some? {
      var i :| i in t.articlesIndexes && i.id == x.id;
      assert ArticleKey(i) == ArticleRef(x);
    }
    forall i | i in t.articlesIndexes ensures ArticleKey(i) != ArticleKey(n) { }
    forall x | x in rows ensures ArticleRef(x) == ArticleKey(n) { }
    JoinAfterInsert(t.articlesIndexes, t.articlesData, n, rows, ArticleKey, ArticleRef, ArticleRow);
    assert JoinedTo(n, rows, ArticleRow) == NewArticleRows(t, path, basename, d, category, now);
    var v := ArticlesView(t);
    forall a | a in v ensures a.id <= t.articleSeq {
      var i := FindKey(t.articlesIndexes, ArticleKey, a.id).value;
      assert i in t.articlesIndexes;
    }
  }

  /** After `makeCategory` the `categories` view is the old view followed by one row per member,
      and every old row has an id below the fresh one. */
  lemma CategoriesViewAfterInsert(t: Tables, path: string, basename: string, d: CategoryDescriptor, parent: int)
    requires WellFormed(t)
    ensures CategoriesView(WithCategory(t, path, basename, d, parent)) ==
              CategoriesView(t) + NewCategoryRows(t, path, basename, d, parent)
    ensures forall c :: c in CategoriesView(t) ==> c.id <= t.categorySeq
  {
    var n := NewCategoryIndex(t, path, basename, d, parent);
    var id := t.categorySeq + 1;
    var rows := CategoryRows(id, d.members);
    var t' := WithCategory(t, path, basename, d, parent);
    assert t'.categoriesIndexes == t.categoriesIndexes + [n] && t'.categoriesData == t.categoriesData + rows;
    forall x | x in t.categoriesData ensures FindKey(t.categoriesIndexes, CategoryKey, CategoryRef(x)).Some? {
      var i :| i in t.categoriesIndexes && i.id == x.id;
      assert CategoryKey(i) == CategoryRef(x);
    }
    forall i | i in t.categoriesIndexes ensures CategoryKey(i) != CategoryKey(n) { }
    forall x | x in rows ensures CategoryRef(x) == CategoryKey(n) { }
    JoinAfterInsert(t.categoriesIndexes, t.categoriesData, n, rows, CategoryKey, CategoryRef, CategoryRow);
    assert JoinedTo(n, rows, CategoryRow) == NewCategoryRows(t, path, basename, d, parent);
    var v := CategoriesView(t);
    forall c | c in v ensures c.id <= t.categorySeq {
      var i := FindKey(t.categoriesIndexes, CategoryKey, c.id).value;
      assert i in t.categoriesIndexes;
    }
  }

  /** Among the new rows, the one with the fresh id in a language is the descriptor's entry for
      that language, and there is none when the descriptor lacks it. */
  lemma FirstNewArticle(t: Tables, path: string, basename: string, d: ArticleDescriptor,
                        category: int, now: string, lang: string)
    ensures First(NewArticleRows(t, path, basename, d, category, now), ArticleWithId(lang, t.articleSeq + 1)) ==
              match Lookup(d.languages, lang)
              case None => None
              case Some(text) => Some(NewArticleRow(t, path, basename, d, category, now, (lang, text)))
  {
    var added := NewArticleRows(t, path, basename, d, category, now);
    var p := ArticleWithId(lang, t.articleSeq + 1);
    if Lookup(d.languages, lang).Some? {
      var k :| 0 <= k < |d.languages| && d.languages[k] == (lang, Lookup(d.languages, lang).value);
      assert added[k] == NewArticleRow(t, path, basename, d, category, now, d.languages[k]);
      assert p(added[k]);
    }
    var found := First(added, p);
    if found.Some? {
      var k :| 0 <= k < |added| && added[k] == found.value && p(added[k]);
      LookupUnique(d.languages, k);
    }
  }

  /** Among the new rows, the one with the fresh id in a language is the descriptor's member
      under that key, and there is none when the descriptor lacks it. */
  lemma FirstNewCategory(t: Tables, path: string, basename: string, d: CategoryDescriptor,
                         parent: int, lang: string)
    ensures First(NewCategoryRows(t, path, basename, d, parent), CategoryWithId(lang, t.categorySeq + 1)) ==
              match Lookup(d.members, lang)
              case None => None
              case Some(name) => Some(NewCategoryRow(t, path, basename, d, parent, (lang, name)))
  {
    var added := NewCategoryRows(t, path, basename, d, parent);
    var p := CategoryWithId(lang, t.categorySeq + 1);
    if Lookup(d.members, lang).Some? {
      var k :| 0 <= k < |d.members| && d.members[k] == (lang, Lookup(d.members, lang).value);
      assert added[k] == NewCategoryRow(t, path, basename, d, parent, d.members[k]);
      assert p(added[k]);
    }
    var found := First(added, p);
    if found.Some? {
      var k :| 0 <= k < |added| && added[k] == found.value && p(added[k]);
      LookupUnique(d.members, k);
    }
  }

  /** `article(id)` on the id `makeArticle` returned finds the article exactly in the languages
      its descriptor lists, with that language's texts, the defaults for absent members, the
      content path resolved against the folder, and the incoming parent as category. */
  lemma ArticleRoundTrip(t: Tables, path: string, basename: string, d: ArticleDescriptor,
                         category: int, now: string, lang: string)
    requires WellFormed(t)
    ensures ArticleById(WithArticle(t, path, basename, d, category, now), lang, t.articleSeq + 1) ==
              match Lookup(d.languages, lang)
              case None => None
              case Some(text) => Some(Article(t.articleSeq + 1, None, category, lang, text.title, text.description,
                                              d.author.GetOr(""), d.published.GetOr(now), d.edited.GetOr(now),
                                              None, path + text.file, text.keywords.GetOr("")))
  {
    var v, added := ArticlesView(t), NewArticleRows(t, path, basename, d, category, now);
    var p := ArticleWithId(lang, t.articleSeq + 1);
    ArticlesViewAfterInsert(t, path, basename, d, category, now);
    FirstAppend(v, added, p);
    assert First(v, p).None?;
    FirstNewArticle(t, path, basename, d, category, now, lang);
  }

  /** `makeArticle` leaves `article(x)` unchanged for every other id `x`. */
  lemma ArticleByIdUnchanged(t: Tables, path: string, basename: string, d: ArticleDescriptor,
                             category: int, now: string, lang: string, x: int)
    requires WellFormed(t) && x != t.articleSeq + 1
    ensures ArticleById(WithArticle(t, path, basename, d, category, now), lang, x) == ArticleById(t, lang, x)
  {
    var v, added := ArticlesView(t), NewArticleRows(t, path, basename, d, category, now);
    var p := ArticleWithId(lang, x);
    ArticlesViewAfterInsert(t, path, basename, d, category, now);
    FirstAppend(v, added, p);
    assert First(added, p).None?;
  }

  /** `category(id)` on the id `makeCategory` returned finds the category exactly under the keys
      of its descriptor, with the incoming parent and that key's name. */
  lemma CategoryRoundTrip(t: Tables, path: string, basename: string, d: CategoryDescriptor,
                          parent: int, lang: string)
    requires WellFormed(t)
    ensures CategoryById(WithCategory(t, path, basename, d, parent), lang, t.categorySeq + 1) ==
              match Lookup(d.members, lang)
              case None => None
              case Some(name) => Some(Category(t.categorySeq + 1, parent, CategoryIdentifier(d, basename), lang, name))
  {
    var v, added := CategoriesView(t), NewCategoryRows(t, path, basename, d, parent);
    var p := CategoryWithId(lang, t.categorySeq + 1);
    CategoriesViewAfterInsert(t, path, basename, d, parent);
    FirstAppend(v, added, p);
    assert First(v, p).None?;
    FirstNewCategory(t, path, basename, d, parent, lang);
  }

  /** `makeCategory` leaves `category(x)` unchanged for every other id `x`. */
  lemma CategoryByIdUnchanged(t: Tables, path: string, basename: string, d: CategoryDescriptor,
                              parent: int, lang: string, x: int)
    requires WellFormed(t) && x != t.categorySeq + 1
    ensures CategoryById(WithCategory(t, path, basename, d, parent), lang, x) == CategoryById(t, lang, x)
  {
    var v, added := CategoriesView(t), NewCategoryRows(t, path, basename, d, parent);
    var p := CategoryWithId(lang, x);
    CategoriesViewAfterInsert(t, path, basename, d, parent);
    FirstAppend(v, added, p);
    assert First(added, p).None?;
  }

  /** A new category row lies under `q` in language `lang` exactly when `q` is the incoming
      parent and the descriptor names the category in that language. */
  lemma NewCategoryListed(t: Tables, path: string, basename: string, d: CategoryDescriptor,
                          parent: int, lang: string, q: int, c: Category)
    ensures c in NewCategoryRows(t, path, basename, d, parent) && c.lang == lang && c.parent == q <==>
              (q == parent && Lookup(d.members, lang) == Some(c.name)
               && c == Category(t.categorySeq + 1, parent, CategoryIdentifier(d, basename), lang, c.name))
  {
    var added := NewCategoryRows(t, path, basename, d, parent);
    if c in added && c.lang == lang && c.parent == q {
      var k :| 0 <= k < |added| && added[k] == c;
      LookupUnique(d.members, k);
    }
    if q == parent && Lookup(d.members, lang) == Some(c.name)
       && c == Category(t.categorySeq + 1, parent, CategoryIdentifier(d, basename), lang, c.name) {
      var k :| 0 <= k < |d.members| && d.members[k] == (lang, c.name);
      assert added[k] == c;
    }
  }

  /** After `makeCategory(path, parent)`, `categories(q)` lists what it listed before plus, when
      `q` is `parent` and the descriptor names the category in the current language, the new
      category; nothing else appears or disappears. */
  lemma CategoryListed(t: Tables, path: string, basename: string, d: CategoryDescriptor,
                       parent: int, lang: string, q: int, c: Category)
    requires WellFormed(t)
    ensures c in Categories(WithCategory(t, path, basename, d, parent), lang, q) <==>
              || c in Categories(t, lang, q)
              || (q == parent && Lookup(d.members, lang) == Some(c.name)
                  && c == Category(t.categorySeq + 1, parent, CategoryIdentifier(d, basename), lang, c.name))
  {
    CategoriesViewAfterInsert(t, path, basename, d, parent);
    NewCategoryListed(t, path, basename, d, parent, lang, q, c);
  }

  /** A new article row lies in category `q` in language `lang` exactly when `q` is the incoming
      category and the descriptor has that language. */
  lemma NewArticleListed(t: Tables, path: string, basename: string, d: ArticleDescriptor,
                         category: int, now: string, lang: string, q: int, a: Article)
    ensures a in NewArticleRows(t, path, basename, d, category, now) && a.lang == lang && a.category == q <==>
              (q == category && Lookup(d.languages, lang).Some?
               && a == NewArticleRow(t, path, basename, d, category, now, (lang, Lookup(d.languages, lang).value)))
  {
    var added := NewArticleRows(t, path, basename, d, category, now);
    if a in added && a.lang == lang && a.category == q {
      var k :| 0 <= k < |added| && added[k] == a;
      LookupUnique(d.languages, k);
    }
    if q == category && Lookup(d.languages, lang).Some? {
      var k :| 0 <= k < |d.languages| && d.languages[k] == (lang, Lookup(d.languages, lang).value);
      assert added[k] == NewArticleRow(t, path, basename, d, category, now, d.languages[k]);
    }
  }

  /** After `makeArticle(path, category)`, `Category::articles()` of category `q` (no limit, no
      offset) returns what it did before plus, when `q` is that category and the descriptor has
      the current language, the new article in that language; nothing else changes. */
  lemma ArticleListed(t: Tables, path: string, basename: string, d: ArticleDescriptor,
                      category: int, now: string, lang: string, q: int, a: Article)
    requires WellFormed(t)
    ensures a in CategoryArticles(WithArticle(t, path, basename, d, category, now), lang, q, 0, 0).value <==>
              || a in CategoryArticles(t, lang, q, 0, 0).value
              || (q == category && Lookup(d.languages, lang).Some?
                  && a == NewArticleRow(t, path, basename, d, category, now,
                                        (lang, Lookup(d.languages, lang).value)))
  {
    ArticlesViewAfterInsert(t, path, basename, d, category, now);
    NewArticleListed(t, path, basename, d, category, now, lang, q, a);
  }

  /** After `makeArticle(path, category)`, `Category::articlesRecursive()` of category `q` (no
      limit, no offset) returns what it did before plus, when `category` is in `q`'s `pcat` and
      the descriptor has the current language, the new article; `pcat` itself is unchanged. */
  lemma RecursiveListed(t: Tables, path: string, basename: string, d: ArticleDescriptor,
                        category: int, now: string, lang: string, q: int, a: Article)
    requires WellFormed(t)
    ensures a in CategoryArticlesRecursive(WithArticle(t, path, basename, d, category, now), lang, q, 0, 0).value <==>
              || a in CategoryArticlesRecursive(t, lang, q, 0, 0).value
              || (category in SubtreeIds(t.categoriesIndexes, q) && Lookup(d.languages, lang).Some?
                  && a == NewArticleRow(t, path, basename, d, category, now,
                                        (lang, Lookup(d.languages, lang).value)))
  {
    ArticlesViewAfterInsert(t, path, basename, d, category, now);
    NewArticleListed(t, path, basename, d, category, now, lang, a.category, a);
  }

  /** Among the new article rows, the first one carrying identifier `x` in a language is the
      descriptor's entry for it when `x` is the article's identifier (its `id` member, or the
      folder's basename), and there is none otherwise. */
  lemma FirstNewArticleNamed(t: Tables, path: string, basename: string, d: ArticleDescriptor,
                             category: int, now: string, lang: string, x: string)
    ensures First(NewArticleRows(t, path, basename, d, category, now), ArticleNamed(lang, x)) ==
              if x != ArticleIdentifier(d, basename) then None
              else match Lookup(d.languages, lang)
                   case None => None
                   case Some(text) => Some(NewArticleRow(t, path, basename, d, category, now, (lang, text)))
  {
    var added := NewArticleRows(t, path, basename, d, category, now);
    var p := ArticleNamed(lang, x);
    forall k | 0 <= k < |added| ensures added[k].identifier == Some(ArticleIdentifier(d, basename)) {
      assert added[k] == NewArticleRow(t, path, basename, d, category, now, d.languages[k]);
    }
    if x == ArticleIdentifier(d, basename) && Lookup(d.languages, lang).Some? {
      var k :| 0 <= k < |d.languages| && d.languages[k] == (lang, Lookup(d.languages, lang).value);
      assert added[k] == NewArticleRow(t, path, basename, d, category, now, d.languages[k]);
      assert p(added[k]);
    }
    var found := First(added, p);
    if found.Some? {
      var k :| 0 <= k < |added| && added[k] == found.value && p(added[k]);
      LookupUnique(d.languages, k);
    }
  }

  /** Among the new category rows, the first one carrying identifier `x` in a language is the
      member under that key when `x` is the category's identifier, and there is none otherwise. */
  lemma FirstNewCategoryNamed(t: Tables, path: string, basename: string, d: CategoryDescriptor,
                              parent: int, lang: string, x: string)
    ensures First(NewCategoryRows(t, path, basename, d, parent), CategoryNamed(lang, x)) ==
              if x != CategoryIdentifier(d, basename) then None
              else match Lookup(d.members, lang)
                   case None => None
                   case Some(name) => Some(NewCategoryRow(t, path, basename, d, parent, (lang, name)))
  {
    var added := NewCategoryRows(t, path, basename, d, parent);
    var p := CategoryNamed(lang, x);
    forall k | 0 <= k < |added| ensures added[k].identifier == CategoryIdentifier(d, basename) {
      assert added[k] == NewCategoryRow(t, path, basename, d, parent, d.members[k]);
    }
    if x == CategoryIdentifier(d, basename) && Lookup(d.members, lang).Some? {
      var k :| 0 <= k < |d.members| && d.members[k] == (lang, Lookup(d.members, lang).value);
      assert added[k] == NewCategoryRow(t, path, basename, d, parent, d.members[k]);
      assert p(added[k]);
    }
    var found := First(added, p);
    if found.Some? {
      var k :| 0 <= k < |added| && added[k] == found.value && p(added[k]);
      LookupUnique(d.members, k);
    }
  }

  /** After `makeArticle`, `articleByIdentifier(x)` keeps its old answer when it had one (the
      first match wins); otherwise it finds the new article exactly when `x` is its identifier
      and it has the current language. */
  lemma ArticleByIdentifierAfterInsert(t: Tables, path: string, basename: string, d: ArticleDescriptor,
                                       category: int, now: string, lang: string, x: string)
    requires WellFormed(t)
    ensures ArticleByIdentifier(WithArticle(t, path, basename, d, category, now), lang, x) ==
              if ArticleByIdentifier(t, lang, x).Some? then ArticleByIdentifier(t, lang, x)
              else if x == ArticleIdentifier(d, basename) && Lookup(d.languages, lang).Some? then
                Some(NewArticleRow(t, path, basename, d, category, now, (lang, Lookup(d.languages, lang).value)))
              else None
  {
    ArticlesViewAfterInsert(t, path, basename, d, category, now);
    FirstAppend(ArticlesView(t), NewArticleRows(t, path, basename, d, category, now), ArticleNamed(lang, x));
    FirstNewArticleNamed(t, path, basename, d, category, now, lang, x);
  }

  /** After `makeCategory`, `categoryByIdentifier(x)` keeps its old answer when it had one;
      otherwise it finds the new category exactly when `x` is its identifier and it has a name
      in the current language. */
  lemma CategoryByIdentifierAfterInsert(t: Tables, path: string, basename: string, d: CategoryDescriptor,
                                        parent: int, lang: string, x: string)
    requires WellFormed(t)
    ensures CategoryByIdentifier(WithCategory(t, path, basename, d, parent), lang, x) ==
              if CategoryByIdentifier(t, lang, x).Some? then CategoryByIdentifier(t, lang, x)
              else if x == CategoryIdentifier(d, basename) && Lookup(d.members, lang).Some? then
                Some(Category(t.categorySeq + 1, parent, x, lang, Lookup(d.members, lang).value))
              else None
  {
    var added := NewCategoryRows(t, path, basename, d, parent);
    var p := CategoryNamed(lang, x);
    CategoriesViewAfterInsert(t, path, basename, d, parent);
    FirstAppend(CategoriesView(t), added, p);
    FirstNewCategoryNamed(t, path, basename, d, parent, lang, x);
    if x == CategoryIdentifier(d, basename) && Lookup(d.members, lang).Some? {
      assert NewCategoryRow(t, path, basename, d, parent, (lang, Lookup(d.members, lang).value))
          == Category(t.categorySeq + 1, parent, x, lang, Lookup(d.members, lang).value);
    }
  }
}
