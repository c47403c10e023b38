# ArticlesCMS store, ingestor and queries in Dafny

ArticlesCMS keeps a site's articles and categories as folders on disk. Each article folder holds
an `article.json` descriptor, and each category folder holds a `category.json`. On first use,
`DataBase` in `articles.php` walks the folder tree and fills four SQL tables. After that it
answers lookups through two views that join those tables, always in the current language.

This project models that core:

- **Store.** The tables `categories_indexes`, `categories_data`, `articles_indexes` and
  `articles_data` are sequences of rows. The AUTOINCREMENT counters are `nat`s.
  - Module `Schema` holds them as a value (`Tables`).
  - Class `Articles.DataBase` holds them as fields that its methods append to.
- **Views.** The `categories` and `articles` views are joins (`Schema.CategoriesView`,
  `Schema.ArticlesView`). They are built from the relational stand-ins in `Relational`:
  - `Filter` stands for `WHERE`.
  - `First` is the row `fetchObject` returns.
  - `FindKey` is a primary-key lookup.
  - `Join` is the view.
  - `Paginate` is `LIMIT … OFFSET …`.
- **Content tree** (`Content`). A folder has a basename, its decoded descriptors (if present),
  whether `opendir` succeeds, and its sub-directories in the order `readdir` returns them.
  JSON objects are member sequences whose keys never repeat.
- **Ingestor** (`Ingest`, `Articles.DataBase`). `addFolder`, `makeArticle` and `makeCategory`
  are imperative methods with loops. Each is proved to leave the store equal to a function of
  the old store: `Ingest.Ingested`, `Ingest.WithArticle` or `Ingest.WithCategory`. What
  ingestion guarantees is then proved about those functions:
  - classification precedence;
  - parent propagation;
  - fan-out to one row per language;
  - defaults;
  - fresh ids;
  - append-only growth;
  - referential integrity.
- **Queries** (`Queries`). The read-only methods are functions of the tables and the current
  language:
  - `categories`, `category`, `categoryByIdentifier`, `article`, `articleByIdentifier`;
  - `Category::subCategories`, `Category::articles`, `Category::articlesRecursive`;
  - `Article::getCategory`.

  The recursive common table expression of `articlesRecursive` is modelled as SQLite evaluates
  it: a FIFO queue of ids, with at most 100 rows in `pcat` counting the seed.
- **Round trips** (`RoundTrip`). This module proves what one `makeArticle` or `makeCategory`
  makes visible to the lookups it covers: `category(id)` and `article(id)` (the new id answers
  with the new rows, every other id as before), `categoryByIdentifier` and
  `articleByIdentifier` (the old answer stays when there was one), and the unpaginated
  `categories(q)` and `articles()`.

The lookups of `Articles.DataBase` (`Categories`, `Category`, `CategoryByIdentifier`, `Article`,
`ArticleByIdentifier`) are the `Queries` functions applied to the current tables and the
current language, so `SetLanguage` changes what they answer.

The time stamp `date(DATE_ATOM)` is a parameter `now`. The result of the bootstrap probe
`SELECT 1 FROM categories LIMIT 1` is a parameter `stored`: `None` when the probe fails, and the
existing tables otherwise.

Where the code and its own comments or schema leave room for another reading, the model follows the code:

- **Identifiers can repeat.** `identifier` is not declared unique in the schema, and ingestion
  does not check it. `categoryByIdentifier` and `articleByIdentifier` return the first
  matching row.
- **The recursion cap counts ids, not levels.** `LIMIT 100` in the recursive query bounds the
  rows of `pcat`, with the category itself included. Below that cap, `pcat` is exactly the
  category and its descendants (`Queries.RecursiveIsUnionOfDescendants`).
- **Category descriptors use their top-level keys.** `makeCategory` iterates the top-level
  members of `category.json`, not a `languages` object as the comment at
  `articles.php:60-73` describes. A top-level `"id"` member therefore also becomes a data row
  whose language is `id`.
- **One row per language is kept by ingestion, not by the schema.** `categories_data` and
  `articles_data` declare no primary key and no UNIQUE constraint on (id, lang). They hold at
  most one row per pair because ingestion hands out fresh ids and JSON keys never repeat
  (`Ingest.IngestedOneRow`). A store handed in as `stored` is not checked for it.
- **`article(id)` selects fewer columns.** It does not select `identifier` and `path`, so those
  fields of its result are `None`.

## Model

| member | source | states |
|---|---|---|
| Relational.Filter | articles.php:300 | a row is kept exactly when it is in the table and satisfies the `WHERE` condition, and each kept row appears exactly as often as in the table; the result is no longer than the table |
| Relational.First | articles.php:316-319 | `fetchObject` yields nothing exactly when no row matches; otherwise it yields a matching row that is in the result set |
| Relational.FindKey | articles.php:192 | a primary-key lookup fails exactly when no index row has the key; otherwise it returns an index row with that key |
| Relational.Join | articles.php:200-203 | every joined row is built from a data row and the index row its id resolves to; every data row whose id resolves yields its row; the join has exactly as many rows as there are data rows whose id resolves, so no data row yields more than one row |
| Relational.JoinAfterInsert | articles.php:200-203 | after a fresh index row and data rows referencing it are appended, the join is the old join followed by one row per new data row |
| Relational.Paginate | articles.php:110-113 | `LIMIT` is emitted only for a positive limit and `OFFSET` only for a positive start; with a limit, the result is the window of `min(limit, rest)` rows after the skipped ones; with neither, it is all rows; an OFFSET without a LIMIT gives no claimed result |
| Relational.JoinKeepsDistinct | articles.php:200-203 | when the data rows never repeat a key and the join carries that key over, the joined rows never repeat it either |
| Relational.FilterKeepsDistinct | articles.php:300 | a `WHERE` keeps rows whose key does not repeat from repeating it |
| Relational.PaginateKeepsDistinct | articles.php:110-113 | a page of rows whose key does not repeat does not repeat it |
| Relational.PagesConcatenate | articles.php:110-112 | two consecutive pages of sizes a and b, put together, equal the page of size a+b |
| Content.Lookup | articles.php:228 | `$info->key` is absent exactly when no member has that key; otherwise it is the value of a member with that key |
| Content.LookupUnique | articles.php:255-260 | since JSON keys are unique, looking up a member's key returns that member's value |
| Schema.Created | articles.php:188-224 | `createTables` on an empty store gives four empty tables and counters at 0, which is well formed |
| Schema.CategoriesView | articles.php:200-203 | every `categories` row carries the parent and identifier of the index row its id resolves to; every row is the join of such an index row with a data row of `categories_data`, and every data row whose id resolves appears in the view |
| Schema.ArticlesView | articles.php:220-223 | every `articles` row carries the category, identifier and path of the index row its id resolves to; every row is the join of such an index row with a data row of `articles_data`, all columns included; and every data row whose id resolves appears in the view |
| Schema.ViewsOneRowPerLanguage | articles.php:196-223 | when the data tables hold at most one row per (id, lang), which ingestion keeps although the schema does not declare it, so do both views |
| Ingest.GrowsTransitive | articles.php:264-284 | append-only growth with fresh ids composes across successive inserts |
| Ingest.GrowsKeepsParent | articles.php:193 | a parent id that resolves keeps resolving as the store grows |
| Ingest.WithArticleGrows | articles.php:226-248 | `makeArticle` only appends: one index row with an id above every earlier one, and data rows; a well-formed store stays well formed |
| Ingest.WithCategoryGrows | articles.php:250-262 | `makeCategory` only appends: one index row with an id above every earlier one, and data rows; a well-formed store stays well formed |
| Ingest.IngestedGrows | articles.php:264-284 | `addFolder` only appends rows, hands out ids above every id already stored, never moves a counter back, and keeps a well-formed store well formed |
| Ingest.ChildrenIngestedGrows | articles.php:278-283 | visiting the first n sub-directories only appends, with fresh ids |
| Ingest.WithArticleLinked | articles.php:206-207 | an article inserted under a resolving category keeps every category reference resolvable |
| Ingest.WithCategoryLinked | articles.php:250-254 | a category inserted under a resolving parent keeps the store linked, and its own id becomes a resolving parent |
| Ingest.IngestedLinked | articles.php:264-284 | ingesting under a resolving parent keeps every parent and owning category resolvable, with each parent older than its child |
| Ingest.ChildrenIngestedLinked | articles.php:278-283 | the same for the first n sub-directories |
| Ingest.WithArticleOneRow | articles.php:236-246 | `makeArticle` keeps at most one article data row per (id, lang) |
| Ingest.WithCategoryOneRow | articles.php:255-260 | `makeCategory` keeps at most one category data row per (id, lang) |
| Ingest.IngestedOneRow | articles.php:264-284 | `addFolder` keeps at most one data row per (id, lang) in both data tables |
| Ingest.ChildrenIngestedOneRow | articles.php:278-283 | the same for the first n sub-directories |
| Ingest.IngestedCounts | articles.php:264-284 | `addFolder` adds exactly one article index row per reachable article folder and one category index row per reachable category folder, and the counters advance by as much |
| Ingest.ChildrenIngestedCounts | articles.php:278-283 | the same counts over the first n sub-directories |
| Ingest.IngestedAttaches | articles.php:264-284 | every category row added under `parent` hangs from `parent` or from a category added in the same pass, and likewise for article rows |
| Ingest.ChildrenIngestedAttaches | articles.php:278-283 | the same for the first n sub-directories |
| Ingest.ArticleFolderIsLeaf | articles.php:266-270 | a folder with `article.json` adds exactly one article index row, owned by the incoming parent, and no category rows; its `category.json` and sub-directories are ignored |
| Ingest.CategoryFolderHandsDownId | articles.php:271-277 | a folder with only `category.json` first adds its category row (new id, incoming parent, its path); its sub-directories are then ingested under the new id, or not visited when the folder is unreadable, and the category row stays either way |
| Ingest.PassThroughFolder | articles.php:275-283 | a folder with neither descriptor adds no rows of its own: unreadable, it leaves the store as it was; readable, the store is exactly what visiting its sub-directories under the incoming parent gives |
| Ingest.PassThroughSiblings | articles.php:275-283 | under a descriptor-less folder, an article sibling and a category sibling both attach to the folder's own parent |
| Ingest.PassThroughSiblingsCategoryFirst | articles.php:275-283 | under a descriptor-less folder, a category sibling visited before an article sibling also attaches to the folder's parent, and the article keeps the parent and its own path |
| Queries.Categories | articles.php:299-304 | `categories(p)` returns exactly the view rows in the current language whose parent is p |
| Queries.CategoriesNoDuplicates | articles.php:299-304 | with one row per (id, lang), `categories(p)` never lists a category twice |
| Queries.CategoryById | articles.php:316-319 | `category(id)` returns false exactly when no row has that id in the current language; otherwise it returns such a row |
| Queries.CategoryByIdentifier | articles.php:321-327 | `categoryByIdentifier(name)` returns false exactly when no row has that identifier in the current language; otherwise it returns such a row |
| Queries.ArticleById | articles.php:329-333 | `article(id)` returns false exactly when no row has that id in the current language; otherwise it returns such a row without identifier and path |
| Queries.ArticleByIdentifier | articles.php:335-341 | `articleByIdentifier(name)` returns false exactly when no row has that identifier in the current language; otherwise it returns such a row |
| Queries.CategoryByIdIsOnly | articles.php:316-319 | with one row per (id, lang), `category(id)` returns exactly the view row of that id in the current language |
| Queries.ArticleByIdIsOnly | articles.php:329-333 | with one row per (id, lang), `article(id)` returns exactly the view row of that id in the current language, without identifier and path |
| Queries.SubCategories | articles.php:95-97 | `subCategories()` returns exactly the rows in the current language whose parent is this category, and none twice when there is one row per (id, lang) |
| Queries.ArticleCategory | articles.php:54-56 | `getCategory()` returns the row of the owning category in the current language, or false exactly when there is none |
| Queries.CategoryArticles | articles.php:106-118 | `articles()` returns only rows in the current language owned by this category, at most `limit` of them when the limit is positive, and all of them with no limit and no offset; an offset without a limit yields no claimed result |
| Queries.ArticlesPageIsWindow | articles.php:110-112 | with a positive limit, `articles()` returns the window of the unpaginated listing after the first `start` rows, `min(limit, rest)` long |
| Queries.ArticlesNoDuplicates | articles.php:106-118 | with one row per (id, lang), `articles()` never lists an article twice |
| Queries.ChildIds | articles.php:136-137 | the recursive step yields exactly the ids of index rows whose parent is the given id |
| Queries.Walk | articles.php:134-138 | the recursive table never exceeds 100 rows and only ever grows |
| Queries.CategoryArticlesRecursive | articles.php:127-144 | `articlesRecursive()` returns only rows in the current language whose category is in `pcat`, at most `limit` of them, and all of them with no limit and no offset |
| Queries.RecursivePageIsWindow | articles.php:121-144 | with a positive limit, `articlesRecursive()` returns the window of the unpaginated listing after the first `start` rows, `min(limit, rest)` long |
| Queries.WalkStaysInSubtree | articles.php:135-137 | every id the recursion adds descends from the seed through parent links |
| Queries.WalkClosed | articles.php:134-138 | a recursion that stops below its limit has added every child of every id it holds |
| Queries.SubtreeHasRoot | articles.php:135 | `pcat` always contains the category itself |
| Queries.SubtreeIdsDescend | articles.php:134-138 | every id in `pcat` is the category or one of its descendants |
| Queries.SubtreeIdsComplete | articles.php:134-138 | when `pcat` stays under 100 rows, it holds every descendant of the category |
| Queries.RecursiveIncludesDirect | articles.php:127-144 | `articlesRecursive()` returns every article `articles()` returns for the same category |
| Queries.RecursiveStaysInSubtree | articles.php:127-144 | `articlesRecursive()` returns only articles of the category or of its descendants |
| Queries.RecursiveIsUnionOfDescendants | articles.php:127-144 | below the cap, `articlesRecursive()` is exactly the union of `articles()` over the category and all its descendants |
| Queries.RecursiveNoDuplicates | articles.php:127-144 | with one row per (id, lang), `articlesRecursive()` never lists an article twice |
| Queries.ListedCategoryHasParent | articles.php:299-319 | every category `categories(p)` lists is found again by `category(id)`, with parent p |
| RoundTrip.ArticlesViewAfterInsert | articles.php:226-248 | after `makeArticle`, the `articles` view is the old view followed by one row per language entry; every old row has an id below the new one |
| RoundTrip.CategoriesViewAfterInsert | articles.php:250-262 | after `makeCategory`, the `categories` view is the old view followed by one row per member; every old row has an id below the new one |
| RoundTrip.FirstNewArticle | articles.php:236-246 | among the new article rows, the first one with the new id in a language is the descriptor's entry for that language, and there is none when the entry is absent |
| RoundTrip.FirstNewCategory | articles.php:255-260 | among the new category rows, the first one with the new id in a language is the member under that key, and there is none when the member is absent |
| RoundTrip.ArticleRoundTrip | articles.php:226-248 | `article(id)` on the id `makeArticle` returned gives the article exactly in the languages of its descriptor, with that language's title, description and keywords (default ""), file `path` + file, author (default ""), published and edited (default now), and the incoming category |
| RoundTrip.ArticleByIdUnchanged | articles.php:226-248 | `makeArticle` leaves `article(x)` unchanged for every other id x |
| RoundTrip.CategoryRoundTrip | articles.php:250-262 | `category(id)` on the id `makeCategory` returned gives the category exactly under the descriptor's keys, with the incoming parent, the identifier (`id` member or basename) and that key's name |
| RoundTrip.CategoryByIdUnchanged | articles.php:250-262 | `makeCategory` leaves `category(x)` unchanged for every other id x |
| RoundTrip.FirstNewArticleNamed | articles.php:228-246 | among the new article rows, the first one with a given identifier in a language is the descriptor's entry, exactly when the identifier is the new article's and the entry exists |
| RoundTrip.FirstNewCategoryNamed | articles.php:252-260 | among the new category rows, the first one with a given identifier in a language is the member under that key, exactly when the identifier is the new category's and the key exists |
| RoundTrip.ArticleByIdentifierAfterInsert | articles.php:226-248 | after `makeArticle`, `articleByIdentifier(x)` keeps its old answer when there was one; otherwise it gives the new article when x is its identifier and it has the current language, and false else |
| RoundTrip.CategoryByIdentifierAfterInsert | articles.php:250-262 | after `makeCategory`, `categoryByIdentifier(x)` keeps its old answer when there was one; otherwise it gives the new category when x is its identifier and it has a name in the current language, and false else |
| RoundTrip.NewCategoryListed | articles.php:253-260 | a new category row is in language l under q exactly when q is the incoming parent and the descriptor has key l |
| RoundTrip.CategoryListed | articles.php:250-262 | after `makeCategory`, `categories(q)` lists what it listed before plus the new category, exactly when q is its parent and it has a name in the current language |
| RoundTrip.RecursiveListed | articles.php:226-248 | after `makeArticle`, `articlesRecursive()` of category q lists what it listed before plus the new article, exactly when its category is in q's `pcat` and it has the current language |
| RoundTrip.NewArticleListed | articles.php:233-246 | a new article row is in language l and category q exactly when q is the incoming category and the descriptor has language l |
| RoundTrip.ArticleListed | articles.php:226-248 | after `makeArticle`, `articles()` of category q lists what it listed before plus the new article, exactly when q is its category and it has the current language |
| Articles.DataBase.constructor | articles.php:170-183 | on an existing store no row is added; when the probe fails the store becomes the ingestion of the whole tree into freshly created tables under the root category 0, and that store is linked and holds one data row per (id, lang) |
| Articles.DataBase.MakeArticle | articles.php:226-248 | inserts the index row under the next id and returns that id; then, in a loop, inserts one data row per language entry; the new store is exactly `WithArticle` of the old one |
| Articles.DataBase.MakeCategory | articles.php:250-262 | inserts the index row under the next id and returns that id; then, in a loop, inserts one data row per top-level member; the new store is exactly `WithCategory` of the old one |
| Articles.DataBase.AddFolder | articles.php:264-284 | the recursive walk with its loop over sub-directories leaves the store exactly `Ingested` of the old one |
| Articles.DataBase.SetLanguage | articles.php:286-292 | after `setLanguage(l)`, `getLanguage()` returns l, the tables are unchanged, and `categories(p)` lists exactly the view rows in language l under p |
| Articles.DataBase.GetLanguage | articles.php:290-292 | `getLanguage()` returns the language that `categories` answers in |
| Articles.DataBase.Categories | articles.php:299-304 | `categories(p)` returns exactly the view rows in the current language whose parent is p, and none twice when there is one row per (id, lang) |
| Articles.DataBase.Category | articles.php:316-319 | `category(id)` returns false exactly when no row has that id in the current language; otherwise it returns such a row |
| Articles.DataBase.CategoryByIdentifier | articles.php:321-327 | `categoryByIdentifier(name)` returns false exactly when no row has that identifier in the current language; otherwise it returns such a row |
| Articles.DataBase.Article | articles.php:329-333 | `article(id)` returns false exactly when no row has that id in the current language; otherwise it returns such a row without identifier and path |
| Articles.DataBase.ArticleByIdentifier | articles.php:335-341 | `articleByIdentifier(name)` returns false exactly when no row has that identifier in the current language; otherwise it returns such a row |

## Left out

- The bootstrap assumes the probe `SELECT 1 FROM categories LIMIT 1` (`articles.php:176`) fails quietly, with `errorCode()` other than "00000" (`stored` is `None`). Under PDO's `ERRMODE_EXCEPTION`, the default since PHP 8.0, the probe throws instead and the bootstrap never runs. That mode is not modelled.
- SQL text and PDO are not modelled. That covers `query`, `exec`, `prepare`, `fetchObject`, `errorCode` and `lastInsertId`: the tables are sequences and the views are joins.
- Transactions and rollback are not modelled. The bootstrap's single transaction is modelled as a single step that does not fail. In the source, `createTables()` (`articles.php:178`) runs before `beginTransaction()` (`articles.php:179`). So an ingestion that fails and rolls back leaves the empty schema behind; the next probe then succeeds, and the store stays empty for good. The model does not capture that path.
- A query that returns `FALSE` or throws (`articles.php:114`, `articles.php:140`) is not modelled. That is engine behaviour.
- The `$order` argument of `articles` and `articlesRecursive` is not modelled. It is a raw `ORDER BY` fragment. The model returns rows in table order, as an engine scanning the tables would; that order is the engine's choice, not a promise of the source.
- An OFFSET without a LIMIT (`limit <= 0 < start`) yields `None`. Whether that statement is valid depends on the engine.
- Quoting and SQL injection in the interpolated statements are not modelled. Values are taken as stored verbatim.
- File and JSON access is not modelled: `file_get_contents`, `json_decode`, `file_exists`, `opendir`, `readdir` and `is_dir`. Descriptors arrive already decoded and folders are a tree.
- The sub-directory order is whatever `readdir` returns. It is a parameter, and nothing is claimed about it.
- Descriptor values that are not strings are not modelled.
- Ingestion stamps a missing `published` or `edited` with a single time `now`. The source calls `date(DATE_ATOM)` twice, so the two stamps may differ by the call interval.
- A missing `author` is stored as "". That is what PHP's string interpolation of an absent property produces.
- Reading the configuration file (`articles.php:171-174`) is not modelled. The constructor's `root` is taken to be the folder found at `basepath`; the model does not tie the two. The source also needs `basepath` to end in "/", because it appends `article.json`, `category.json` and entry names directly (`articles.php:266`, `articles.php:271`, `articles.php:280`); the model assumes this and does not check it.
- The `newCategory` stub and the `defaultCaching` field are not modelled. Neither does anything.
- The PHP generators are not modelled lazily. Their results are sequences.
- A partially created schema is not modelled, for example tables present but views missing. `stored` is either a complete store or none.
- `Articles.DataBase.AddFolder` is proved for any incoming parent. Referential integrity (`Ingest.IngestedLinked`) is proved for a parent that resolves, which covers the bootstrap's root 0.
- `articles` and `articlesRecursive` with a limit or an offset are not related to their answers before an insert. The round trips cover their unpaginated form (`RoundTrip.ArticleListed`, `RoundTrip.RecursiveListed`), and `Queries.ArticlesPageIsWindow` and `Queries.RecursivePageIsWindow` relate every page to it.
- Symbolic links are not modelled. `is_dir` and `opendir` follow them (`articles.php:276-282`), so a link to an ancestor would make `addFolder` revisit folders without end; a finite `Folder` tree cannot express that walk.
- The default arguments are not modelled as defaults. These are `$language = "en"` (`articles.php:170`), `$parent = 0` (`articles.php:264`), `$parent_category = 0` (`articles.php:299`) and `$limit = 0, $start = 0` (`articles.php:106`, `articles.php:127`). Every caller in the model passes them explicitly; the bootstrap passes the parent 0 that `addFolder($this->basepath)` gets by default (`articles.php:180`).
