/** The `DataBase` object: the four tables and their AUTOINCREMENT counters as fields the
    ingestor appends to, the current language, and the bootstrap that fills an empty store
    from the content tree. */
module Articles {
  import opened Wrappers
  import opened Relational
  import opened Schema
  import opened Content
  import opened Ingest
  import Queries

  class DataBase {
    var categoriesIndexes: seq<CategoryIndex>
    var categoriesData: seq<CategoryData>
    var categorySeq: nat
    var articlesIndexes: seq<ArticleIndex>
    var articlesData: seq<ArticleData>
    var articleSeq: nat
    var language: string
    var basepath: string

    /** The store as a value, for the functions that specify the methods below. */
    function Snapshot(): Tables
      reads this
    {
      Tables(categoriesIndexes, categoriesData, categorySeq, articlesIndexes, articlesData, articleSeq)
    }

    /** Opens the store. `stored` is what the probe `SELECT 1 FROM categories` finds: an
        existing store is used as it is; when the probe fails the tables are created and the
        tree under `basepath` is ingested under the root category 0. `now` is the time stamp
        that stands in for `date(DATE_ATOM)`. */
    constructor (stored: Option<Tables>, basepath: string, root: Folder, language: string, now: string)
      ensures this.basepath == basepath && this.language == language
      ensures stored.Some? ==> Snapshot() == stored.value
      ensures stored.None? ==> Snapshot() == Ingested(Created(), basepath, root, 0, now)
      ensures stored.None? ==> Linked(Snapshot()) && OneRowPerLanguage(Snapshot())
    {
      var t := if stored.Some? then stored.value else Created();
      categoriesIndexes := t.categoriesIndexes;
      categoriesData := t.categoriesData;
      categorySeq := t.categorySeq;
      articlesIndexes := t.articlesIndexes;
      articlesData := t.articlesData;
      articleSeq := t.articleSeq;
      this.language := language;
      this.basepath := basepath;
      new;
      if stored.None? {
        AddFolder(basepath, root, 0, now);
        IngestedLinked(Created(), basepath, root, 0, now);
        IngestedOneRow(Created(), basepath, root, 0, now);
      }
    }

    /** `makeArticle(path, category)` for the folder `basename` whose `article.json` decodes
        to `d`: one index row under the next id, then one data row per language entry. */
    method MakeArticle(path: string, basename: string, d: ArticleDescriptor, category: int, now: string)
      returns (id: int)
      modifies this
      ensures Snapshot() == WithArticle(old(Snapshot()), path, basename, d, category, now)
      ensures id == old(articleSeq) + 1
      ensures language == old(language) && basepath == old(basepath)
    {
      var identifier := ArticleIdentifier(d, basename);
      var edited := d.edited.GetOr(now);
      var published := d.published.GetOr(now);
      articleSeq := articleSeq + 1;
      id := articleSeq;
      articlesIndexes := articlesIndexes + [ArticleIndex(id, category, identifier, d.author.GetOr(""),
                                                         published, edited, path)];
      ghost var head := Snapshot();
      var i := 0;
      while i < |d.languages|
        invariant 0 <= i <= |d.languages|
        invariant Snapshot() == head.(articlesData := articlesData)
        invariant language == old(language) && basepath == old(basepath)
        invariant articlesData == old(articlesData) + ArticleRows(id, path, d.languages[..i])
      {
        var (lang, text) := d.languages[i];
        articlesData := articlesData + [ArticleData(id, lang, text.title, text.description,
                                                    text.keywords.GetOr(""), path + text.file)];
        assert ArticleRows(id, path, d.languages[..i + 1]) ==
               ArticleRows(id, path, d.languages[..i]) + [ArticleDataFor(id, path, d.languages[i])];
        i := i + 1;
      }
      assert d.languages[..i] == d.languages;
    }

    /** `makeCategory(path, parent)` for the folder `basename` whose `category.json` decodes
        to `d`: one index row under the next id, then one data row per top-level member. */
    method MakeCategory(path: string, basename: string, d: CategoryDescriptor, parent: int)
      returns (id: int)
      modifies this
      ensures Snapshot() == WithCategory(old(Snapshot()), path, basename, d, parent)
      ensures id == old(categorySeq) + 1
      ensures language == old(language) && basepath == old(basepath)
    {
      var identifier := CategoryIdentifier(d, basename);
      categorySeq := categorySeq + 1;
      id := categorySeq;
      categoriesIndexes := categoriesIndexes + [CategoryIndex(id, parent, identifier, path)];
      ghost var head := Snapshot();
      var i := 0;
      while i < |d.members|
        invariant 0 <= i <= |d.members|
        invariant Snapshot() == head.(categoriesData := categoriesData)
        invariant language == old(language) && basepath == old(basepath)
        invariant categoriesData == old(categoriesData) + CategoryRows(id, d.members[..i])
      {
        var (lang, name) := d.members[i];
        categoriesData := categoriesData + [CategoryData(id, lang, name)];
        assert CategoryRows(id, d.members[..i + 1]) ==
               CategoryRows(id, d.members[..i]) + [CategoryData(id, d.members[i].0, d.members[i].1)];
        i := i + 1;
      }
      assert d.members[..i] == d.members;
    }

    /** `addFolder(path, parent)` on the directory `f`: an article folder becomes an article
        and is not entered; a category folder becomes a category that its sub-directories
        are filed under; the sub-directories of a readable folder are visited in order. */
    method AddFolder(path: string, f: Folder, parent: int, now: string)
      modifies this
      ensures Snapshot() == Ingested(old(Snapshot()), path, f, parent, now)
      ensures language == old(language) && basepath == old(basepath)
      decreases f
    {
      if f.article.Some? {
        var _ := MakeArticle(path, f.name, f.article.value, parent, now);
        return;
      }
      var p := parent;
      if f.category.Some? {
        p := MakeCategory(path, f.name, f.category.value, parent);
      }
      if !f.readable {
        return;
      }
      ghost var t1 := Snapshot();
      var i := 0;
      while i < |f.children|
        invariant 0 <= i <= |f.children|
        invariant Snapshot() == ChildrenIngested(t1, path, f, i, p, now)
        invariant language == old(language) && basepath == old(basepath)
      {
        var c := f.children[i];
        AddFolder(path + c.name + "/", c, p, now);
        i := i + 1;
      }
    }

    /** `setLanguage(l)`: every lookup below answers in language `l` from now on. */
    method SetLanguage(language: string)
      modifies this
      ensures GetLanguage() == language
      ensures Snapshot() == old(Snapshot()) && basepath == old(basepath)
      ensures forall p, c :: c in Categories(p) <==>
                c in CategoriesView(Snapshot()) && c.lang == language && c.parent == p
    {
      this.language := language;
    }

    /** `getLanguage()`: the language the lookups answer in. */
    function GetLanguage(): (r: string)
      reads this
      ensures forall p :: Categories(p) == Queries.Categories(Snapshot(), r, p)
    {
      language
    }

    // The lookups, answering in the current language.

    /** `categories(parent)` in the current language. */
    function Categories(parent: int): (r: seq<Category>)
      reads this
      ensures forall c :: c in r <==> c in CategoriesView(Snapshot()) && c.lang == language && c.parent == parent
      ensures OneRowPerLanguage(Snapshot()) ==> DistinctBy(r, CategoryKeyOf)
    {
      var r := Queries.Categories(Snapshot(), language, parent);
      assert OneRowPerLanguage(Snapshot()) ==> DistinctBy(r, CategoryKeyOf) by {
        if OneRowPerLanguage(Snapshot()) { Queries.CategoriesNoDuplicates(Snapshot(), language, parent); }
      }
      r
    }

    /** `category(id)` in the current language. */
    function Category(id: int): (r: Option<Category>)
      reads this
      ensures r.None? <==> forall c :: c in CategoriesView(Snapshot()) ==> !(c.id == id && c.lang == language)
      ensures r.Some? ==> r.value in CategoriesView(Snapshot()) && r.value.id == id && r.value.lang == language
    {
      Queries.CategoryById(Snapshot(), language, id)
    }

    /** `categoryByIdentifier(identifier)` in the current language. */
    function CategoryByIdentifier(identifier: string): (r: Option<Category>)
      reads this
      ensures r.None? <==> forall c :: c in CategoriesView(Snapshot()) ==>
                             !(c.identifier == identifier && c.lang == language)
      ensures r.Some? ==> r.value in CategoriesView(Snapshot()) && r.value.identifier == identifier
                          && r.value.lang == language
    {
      Queries.CategoryByIdentifier(Snapshot(), language, identifier)
    }

    /** `article(id)` in the current language, without `identifier` and `path`. */
    function Article(id: int): (r: Option<Article>)
      reads this
      ensures r.None? <==> forall a :: a in ArticlesView(Snapshot()) ==> !(a.id == id && a.lang == language)
      ensures r.Some? ==> r.value.identifier.None? && r.value.path.None?
                          && exists a :: a in ArticlesView(Snapshot()) && a.id == id && a.lang == language
                                         && r.value == a.(identifier := None, path := None)
    {
      Queries.ArticleById(Snapshot(), language, id)
    }

    /** `articleByIdentifier(identifier)` in the current language. */
    function ArticleByIdentifier(identifier: string): (r: Option<Article>)
      reads this
      ensures r.None? <==> forall a :: a in ArticlesView(Snapshot()) ==>
                             !(a.identifier == Some(identifier) && a.lang == language)
      ensures r.Some? ==> r.value in ArticlesView(Snapshot()) && r.value.identifier == Some(identifier)
                          && r.value.lang == language
    {
      Queries.ArticleByIdentifier(Snapshot(), language, identifier)
    }
  }
}
