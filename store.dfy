/** The in-memory store and the in-memory branch of every route handler.
    Each route is one method of `Store`; the mutating routes take the request
    cookies and run the `requireAuth` gate first, so a refused request gets
    401 and leaves the store as it was. Ids of new records are parameters:
    the service draws them at random. */
module InMemoryStore {
  import opened Wrappers
  import opened Records
  import opened JsArrays
  import opened Ordering
  import opened Search
  import opened Auth
  import opened Text

  function HasCategoryId(id: string): Category -> bool { (c: Category) => c.id == id }
  function OtherCategoryId(id: string): Category -> bool { (c: Category) => c.id != id }
  function HasArticleId(id: string): Article -> bool { (a: Article) => a.id == id }
  function OtherArticleId(id: string): Article -> bool { (a: Article) => a.id != id }
  function HasAdId(id: string): Ad -> bool { (d: Ad) => d.id == id }
  function OtherAdId(id: string): Ad -> bool { (d: Ad) => d.id != id }
  function InCategory(catId: string): Article -> bool { (a: Article) => a.body.categoryId == Some(catId) }
  function OutsideCategory(catId: string): Article -> bool { (a: Article) => a.body.categoryId != Some(catId) }

  /** The articles filed under `catId`, in store order. */
  function ArticlesOf(articles: seq<Article>, catId: string): (r: seq<Article>)
    ensures forall a :: a in r <==> a in articles && a.body.categoryId == Some(catId)
  {
    Filter(articles, InCategory(catId))
  }

  /** After a category is deleted, no article is filed under it any more. */
  lemma DeleteCategoryEmptiesIt(articles: seq<Article>, id: string)
    ensures ArticlesOf(Filter(articles, OutsideCategory(id)), id) == []
  {
    FilterKeepsNone(Filter(articles, OutsideCategory(id)), InCategory(id));
  }

  /** Deleting a category leaves the articles of every other category as
      they were, in the same order. */
  lemma DeleteCategoryKeepsOthers(articles: seq<Article>, id: string, other: string)
    requires other != id
    ensures ArticlesOf(Filter(articles, OutsideCategory(id)), other) == ArticlesOf(articles, other)
  {
    FilterOfFilter(articles, OutsideCategory(id), InCategory(other));
  }

  /** Deleting a category removes exactly the articles filed under it: the
      removed and the kept articles together are the articles before. */
  lemma DeleteCategoryRemovesExactly(articles: seq<Article>, id: string)
    ensures multiset(Filter(articles, OutsideCategory(id))) + multiset(ArticlesOf(articles, id)) == multiset(articles)
  {
    FilterPartition(articles, OutsideCategory(id), InCategory(id));
  }

  /** Deleting twice leaves the store as deleting once does, for every kind
      of record, the category cascade included. */
  lemma DeleteTwiceIsDeleteOnce(categories: seq<Category>, articles: seq<Article>, ads: seq<Ad>, id: string)
    ensures Filter(Filter(categories, OtherCategoryId(id)), OtherCategoryId(id)) == Filter(categories, OtherCategoryId(id))
    ensures Filter(Filter(articles, OutsideCategory(id)), OutsideCategory(id)) == Filter(articles, OutsideCategory(id))
    ensures Filter(Filter(articles, OtherArticleId(id)), OtherArticleId(id)) == Filter(articles, OtherArticleId(id))
    ensures Filter(Filter(ads, OtherAdId(id)), OtherAdId(id)) == Filter(ads, OtherAdId(id))
  {
    FilterOfFilter(categories, OtherCategoryId(id), OtherCategoryId(id));
    FilterOfFilter(articles, OutsideCategory(id), OutsideCategory(id));
    FilterOfFilter(articles, OtherArticleId(id), OtherArticleId(id));
    FilterOfFilter(ads, OtherAdId(id), OtherAdId(id));
  }

  /** Deleting an id that is not stored changes nothing. */
  lemma DeleteAbsentIsNoOp(categories: seq<Category>, articles: seq<Article>, ads: seq<Ad>, id: string)
    ensures (forall c :: c in categories ==> c.id != id) ==>
              Filter(categories, OtherCategoryId(id)) == categories
    ensures (forall a :: a in articles ==> a.body.categoryId != Some(id)) ==>
              Filter(articles, OutsideCategory(id)) == articles
    ensures (forall a :: a in articles ==> a.id != id) ==>
              Filter(articles, OtherArticleId(id)) == articles
    ensures (forall d :: d in ads ==> d.id != id) ==>
              Filter(ads, OtherAdId(id)) == ads
  {
    if forall c :: c in categories ==> c.id != id {
      FilterKeepsAll(categories, OtherCategoryId(id));
    }
    if forall a :: a in articles ==> a.body.categoryId != Some(id) {
      FilterKeepsAll(articles, OutsideCategory(id));
    }
    if forall a :: a in articles ==> a.id != id {
      FilterKeepsAll(articles, OtherArticleId(id));
    }
    if forall d :: d in ads ==> d.id != id {
      FilterKeepsAll(ads, OtherAdId(id));
    }
  }

  /** With ids unique, deleting an article id removes at most one article. */
  lemma {:induction false} DeleteArticleRemovesAtMostOne(articles: seq<Article>, id: string)
    requires UniqueBy(articles, ArticleId)
    ensures |Filter(articles, OtherArticleId(id))| + 1 >= |articles|
  {
    if articles != [] {
      var tail := articles[1..];
      assert UniqueBy(tail, ArticleId) by {
        forall i, j | 0 <= i < j < |tail| ensures ArticleId(tail[i]) != ArticleId(tail[j]) {
          assert tail[i] == articles[i + 1] && tail[j] == articles[j + 1];
        }
      }
      if articles[0].id == id {
        forall a | a in tail ensures OtherArticleId(id)(a) {
          var k :| 0 <= k < |tail| && tail[k] == a;
          assert ArticleId(articles[0]) != ArticleId(articles[k + 1]);
        }
        FilterKeepsAll(tail, OtherArticleId(id));
        assert Filter(articles, OtherArticleId(id)) == Filter(tail, OtherArticleId(id));
      } else {
        DeleteArticleRemovesAtMostOne(tail, id);
        assert Filter(articles, OtherArticleId(id)) == [articles[0]] + Filter(tail, OtherArticleId(id));
      }
    }
  }

  /** A created article is listed last among the articles of its category. */
  lemma CreatedArticleIsListed(articles: seq<Article>, a: Article, catId: string)
    requires a.body.categoryId == Some(catId)
    ensures ArticlesOf(articles + [a], catId) == ArticlesOf(articles, catId) + [a]
  {
    FilterAppend(articles, [a], InCategory(catId));
    assert [a][1..] == [];
  }

  /** An article created under a fresh id is what a lookup of that id returns. */
  lemma CreatedArticleIsFound(articles: seq<Article>, a: Article)
    requires forall b :: b in articles ==> b.id != a.id
    ensures Find(articles + [a], HasArticleId(a.id)) == Some(a)
  {
    FindAppended(articles, a, HasArticleId(a.id));
  }

  /** After an update, a lookup of the id returns the updated article. */
  lemma UpdatedArticleIsFound(articles: seq<Article>, id: string, body: ArticleBody)
    requires FindIndex(articles, HasArticleId(id)).Some?
    ensures var i := FindIndex(articles, HasArticleId(id)).value;
            Find(articles[i := Article(id, body)], HasArticleId(id)) == Some(Article(id, body))
  {
    var i := FindIndex(articles, HasArticleId(id)).value;
    FindIndexReplaced(articles, HasArticleId(id), i, Article(id, body));
  }

  class Store {
    var categories: seq<Category>
    var articles: seq<Article>
    var ads: seq<Ad>

    /** The store as the service starts it: three categories, three articles, three ads. */
    constructor ()
      ensures categories == SeedCategories && articles == SeedArticles && ads == SeedAds
      ensures Valid()
    {
      categories, articles, ads := SeedCategories, SeedArticles, SeedAds;
    }

    /** Every id is unique within its collection. */
    ghost predicate Valid()
      reads this
    {
      UniqueBy(categories, CategoryId) && UniqueBy(articles, ArticleId) && UniqueBy(ads, AdId)
    }

    /** GET /api/categories: sorts the stored list in place by `order` and returns it. */
    method GetCategories() returns (r: seq<Category>)
      modifies this
      ensures categories == SortByOrder(old(categories)) && r == categories
      ensures SortedByOrder(r) && multiset(r) == multiset(old(categories))
      ensures articles == old(articles) && ads == old(ads)
      ensures old(Valid()) ==> Valid()
    {
      ghost var before := categories;
      categories := SortByOrder(categories);
      r := categories;
      if UniqueBy(before, CategoryId) {
        SortByOrderUnique(before);
      }
    }

    /** POST /api/categories: appends `{id, name, order: order || 0}`. */
    method PostCategory(cookies: Cookies, id: string, name: Field, order: Option<int>) returns (r: Response<Category>)
      modifies this
      ensures !RequireAuth(cookies) ==> r == Unauthorized && unchanged(this)
      ensures RequireAuth(cookies) ==>
        && r == Ok(Category(id, name, OrderOrZero(order)))
        && categories == old(categories) + [r.value]
        && articles == old(articles) && ads == old(ads)
      ensures old(Valid()) && (forall c :: c in old(categories) ==> c.id != id) ==> Valid()
    {
      if !RequireAuth(cookies) {
        return Unauthorized;
      }
      var cat := Category(id, name, OrderOrZero(order));
      if UniqueBy(categories, CategoryId) && (forall c :: c in categories ==> c.id != id) {
        UniqueByAppend(categories, CategoryId, cat);
      }
      categories := categories + [cat];
      r := Ok(cat);
    }

    /** PUT /api/categories/:id: replaces the name and order of the first
        category with that id, keeping its id; 404 when there is none. */
    method PutCategory(cookies: Cookies, id: string, name: Field, order: Option<int>) returns (r: Response<Category>)
      modifies this
      ensures !RequireAuth(cookies) ==> r == Unauthorized && unchanged(this)
      ensures RequireAuth(cookies) && FindIndex(old(categories), HasCategoryId(id)).None? ==>
        r == NotFound && unchanged(this)
      ensures RequireAuth(cookies) && FindIndex(old(categories), HasCategoryId(id)).Some? ==>
        var i := FindIndex(old(categories), HasCategoryId(id)).value;
        && r == Ok(Category(id, name, OrderOrZero(order)))
        && categories == old(categories)[i := r.value]
        && articles == old(articles) && ads == old(ads)
      ensures old(Valid()) ==> Valid()
    {
      if !RequireAuth(cookies) {
        return Unauthorized;
      }
      var idx := FindIndex(categories, HasCategoryId(id));
      if idx.None? {
        return NotFound;
      }
      var i := idx.value;
      var cat := Category(categories[i].id, name, OrderOrZero(order));
      if UniqueBy(categories, CategoryId) {
        UniqueByReplace(categories, CategoryId, i, cat);
      }
      categories := categories[i := cat];
      r := Ok(categories[i]);
    }

    /** DELETE /api/categories/:id: removes every category with that id and
        every article filed under it. */
    method DeleteCategory(cookies: Cookies, id: string) returns (r: Response<()>)
      modifies this
      ensures !RequireAuth(cookies) ==> r == Unauthorized && unchanged(this)
      ensures RequireAuth(cookies) ==>
        && r == NoContent
        && categories == Filter(old(categories), OtherCategoryId(id))
        && articles == Filter(old(articles), OutsideCategory(id))
        && ads == old(ads)
      ensures old(Valid()) ==> Valid()
    {
      if !RequireAuth(cookies) {
        return Unauthorized;
      }
      if UniqueBy(categories, CategoryId) && UniqueBy(articles, ArticleId) {
        UniqueByFilter(categories, CategoryId, OtherCategoryId(id));
        UniqueByFilter(articles, ArticleId, OutsideCategory(id));
      }
      categories := Filter(categories, OtherCategoryId(id));
      articles := Filter(articles, OutsideCategory(id));
      r := NoContent;
    }

    /** GET /api/categories/:categoryId/articles. */
    method GetCategoryArticles(catId: string) returns (r: seq<Article>)
      ensures r == ArticlesOf(articles, catId)
      ensures forall a :: a in r <==> a in articles && a.body.categoryId == Some(catId)
    {
      r := Filter(articles, InCategory(catId));
    }

    /** GET /api/articles/:id: the first article with that id, or 404. */
    method GetArticle(id: string) returns (r: Response<Article>)
      ensures r.Ok? || r.NotFound?
      ensures r.NotFound? <==> forall a :: a in articles ==> a.id != id
      ensures r.Ok? ==> r == Ok(Find(articles, HasArticleId(id)).value)
      ensures r.Ok? ==> r.value in articles && r.value.id == id
      ensures Valid() && r.Ok? ==> forall b :: b in articles && b.id == id ==> b == r.value
    {
      var a := Find(articles, HasArticleId(id));
      if a.None? {
        return NotFound;
      }
      r := Ok(a.value);
      if Valid() {
        forall b | b in articles && b.id == id ensures b == r.value {
          UniqueByOnly(articles, ArticleId, b, r.value);
        }
      }
    }

    /** POST /api/articles: appends the article with the given fields as they are. */
    method PostArticle(cookies: Cookies, id: string, body: ArticleBody) returns (r: Response<Article>)
      modifies this
      ensures !RequireAuth(cookies) ==> r == Unauthorized && unchanged(this)
      ensures RequireAuth(cookies) ==>
        && r == Ok(Article(id, body))
        && articles == old(articles) + [r.value]
        && categories == old(categories) && ads == old(ads)
      ensures old(Valid()) && (forall a :: a in old(articles) ==> a.id != id) ==> Valid()
    {
      if !RequireAuth(cookies) {
        return Unauthorized;
      }
      var art := Article(id, body);
      if UniqueBy(articles, ArticleId) && (forall a :: a in articles ==> a.id != id) {
        UniqueByAppend(articles, ArticleId, art);
      }
      articles := articles + [art];
      r := Ok(art);
    }

    /** PUT /api/articles/:id: replaces every field of the first article with
        that id, keeping its id; 404 when there is none. */
    method PutArticle(cookies: Cookies, id: string, body: ArticleBody) returns (r: Response<Article>)
      modifies this
      ensures !RequireAuth(cookies) ==> r == Unauthorized && unchanged(this)
      ensures RequireAuth(cookies) && FindIndex(old(articles), HasArticleId(id)).None? ==>
        r == NotFound && unchanged(this)
      ensures RequireAuth(cookies) && FindIndex(old(articles), HasArticleId(id)).Some? ==>
        var i := FindIndex(old(articles), HasArticleId(id)).value;
        && r == Ok(Article(id, body))
        && articles == old(articles)[i := r.value]
        && categories == old(categories) && ads == old(ads)
      ensures old(Valid()) ==> Valid()
    {
      if !RequireAuth(cookies) {
        return Unauthorized;
      }
      var idx := FindIndex(articles, HasArticleId(id));
      if idx.None? {
        return NotFound;
      }
      var i := idx.value;
      var art := Article(articles[i].id, body);
      if UniqueBy(articles, ArticleId) {
        UniqueByReplace(articles, ArticleId, i, art);
      }
      articles := articles[i := art];
      r := Ok(articles[i]);
    }

    /** DELETE /api/articles/:id: removes every article with that id. */
    method DeleteArticle(cookies: Cookies, id: string) returns (r: Response<()>)
      modifies this
      ensures !RequireAuth(cookies) ==> r == Unauthorized && unchanged(this)
      ensures RequireAuth(cookies) ==>
        && r == NoContent
        && articles == Filter(old(articles), OtherArticleId(id))
        && categories == old(categories) && ads == old(ads)
      ensures old(Valid()) ==> Valid()
      ensures old(Valid()) ==> |articles| + 1 >= |old(articles)|
    {
      if !RequireAuth(cookies) {
        return Unauthorized;
      }
      if UniqueBy(articles, ArticleId) {
        UniqueByFilter(articles, ArticleId, OtherArticleId(id));
        DeleteArticleRemovesAtMostOne(articles, id);
      }
      articles := Filter(articles, OtherArticleId(id));
      r := NoContent;
    }

    /** GET /api/search?q=: the matching articles, in store order. */
    method SearchArticlesRoute(q: Field) returns (r: seq<Article>)
      ensures r == SearchArticles(articles, q)
      ensures forall a :: a in r <==> a in articles && Contains(Haystack(a), Needle(q))
    {
      r := Filter(articles, MatchesNeedle(Needle(q)));
    }

    /** GET /api/ads: the stored ads as they are. */
    method GetAds() returns (r: seq<Ad>)
      ensures r == ads
    {
      r := ads;
    }

    /** POST /api/ads: appends the ad with the given fields as they are. */
    method PostAd(cookies: Cookies, id: string, body: AdBody) returns (r: Response<Ad>)
      modifies this
      ensures !RequireAuth(cookies) ==> r == Unauthorized && unchanged(this)
      ensures RequireAuth(cookies) ==>
        && r == Ok(Ad(id, body))
        && ads == old(ads) + [r.value]
        && categories == old(categories) && articles == old(articles)
      ensures old(Valid()) && (forall d :: d in old(ads) ==> d.id != id) ==> Valid()
    {
      if !RequireAuth(cookies) {
        return Unauthorized;
      }
      var ad := Ad(id, body);
      if UniqueBy(ads, AdId) && (forall d :: d in ads ==> d.id != id) {
        UniqueByAppend(ads, AdId, ad);
      }
      ads := ads + [ad];
      r := Ok(ad);
    }

    /** PUT /api/ads/:id: replaces every field of the first ad with that id,
        keeping its id; 404 when there is none. */
    method PutAd(cookies: Cookies, id: string, body: AdBody) returns (r: Response<Ad>)
      modifies this
      ensures !RequireAuth(cookies) ==> r == Unauthorized && unchanged(this)
      ensures RequireAuth(cookies) && FindIndex(old(ads), HasAdId(id)).None? ==>
        r == NotFound && unchanged(this)
      ensures RequireAuth(cookies) && FindIndex(old(ads), HasAdId(id)).Some? ==>
        var i := FindIndex(old(ads), HasAdId(id)).value;
        && r == Ok(Ad(id, body))
        && ads == old(ads)[i := r.value]
        && categories == old(categories) && articles == old(articles)
      ensures old(Valid()) ==> Valid()
    {
      if !RequireAuth(cookies) {
        return Unauthorized;
      }
      var idx := FindIndex(ads, HasAdId(id));
      if idx.None? {
        return NotFound;
      }
      var i := idx.value;
      var ad := Ad(ads[i].id, body);
      if UniqueBy(ads, AdId) {
        UniqueByReplace(ads, AdId, i, ad);
      }
      ads := ads[i := ad];
      r := Ok(ads[i]);
    }

    /** DELETE /api/ads/:id: removes every ad with that id. */
    method DeleteAd(cookies: Cookies, id: string) returns (r: Response<()>)
      modifies this
      ensures !RequireAuth(cookies) ==> r == Unauthorized && unchanged(this)
      ensures RequireAuth(cookies) ==>
        && r == NoContent
        && ads == Filter(old(ads), OtherAdId(id))
        && categories == old(categories) && articles == old(articles)
      ensures old(Valid()) ==> Valid()
    {
      if !RequireAuth(cookies) {
        return Unauthorized;
      }
      if UniqueBy(ads, AdId) {
        UniqueByFilter(ads, AdId, OtherAdId(id));
      }
      ads := Filter(ads, OtherAdId(id));
      r := NoContent;
    }
  }

  /** A browser without a session tries to create a category and is refused,
      logs in with a wrong password and is refused again, then logs in with
      the configured password and succeeds: the category is stored once. */
  method LoginThenCreate(store: Store, jar: Cookies, id: string)
    returns (first: Response<Category>, second: Response<Category>, last: Response<Category>)
    requires !RequireAuth(jar)
    modifies store
    ensures first == Unauthorized && second == Unauthorized
    ensures last == Ok(Category(id, Some("Tech"), 5))
    ensures store.categories == old(store.categories) + [last.value]
    ensures store.articles == old(store.articles) && store.ads == old(store.ads)
  {
    first := store.PostCategory(jar, id, Some("Tech"), Some(5));
    var password := AdminPassword(None);
    var refused := Login(Some("guess"), password);
    var jar1 := ApplyReply(jar, refused.cookie);
    second := store.PostCategory(jar1, id, Some("Tech"), Some(5));
    var accepted := Login(Some(DefaultAdminPassword), password);
    var jar2 := ApplyReply(jar1, accepted.cookie);
    last := store.PostCategory(jar2, id, Some("Tech"), Some(5));
  }

  /** Deleting a category id that no category has still removes the articles
      filed under it: create does not check `categoryId`, so such orphans can
      exist, and the cascade filter does not look at the categories. */
  method DeleteOrphanCategory(store: Store, cookies: Cookies, catId: string, articleId: string, body: ArticleBody)
    requires RequireAuth(cookies)
    requires body.categoryId == Some(catId)
    requires forall c :: c in store.categories ==> c.id != catId
    modifies store
    ensures store.categories == old(store.categories)
    ensures Article(articleId, body) !in store.articles
    ensures store.articles == Filter(old(store.articles), OutsideCategory(catId))
  {
    var created := store.PostArticle(cookies, articleId, body);
    assert store.articles == old(store.articles) + [Article(articleId, body)];
    FilterKeepsAll(store.categories, OtherCategoryId(catId));
    var deleted := store.DeleteCategory(cookies, catId);
    FilterAppend(old(store.articles), [Article(articleId, body)], OutsideCategory(catId));
    assert [Article(articleId, body)][1..] == [];
  }
}
