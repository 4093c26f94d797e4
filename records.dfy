/** The three record kinds of the in-memory store, the request bodies they
    are built from, the responses of the routes, and the store's seed data. */
module Records {
  import opened Wrappers

  /** A request-body field: `None` when the client left it out. */
  type Field = Option<string>

  /** A category. `order` is the number stored after `order || 0`. */
  datatype Category = Category(id: string, name: Field, order: int)

  /** The fields of an article that a create or update request supplies. */
  datatype ArticleBody = ArticleBody(
    title: Field, description: Field, content: Field, imageUrl: Field,
    author: Field, publishedAt: Field, categoryId: Field, sourceUrl: Field)

  datatype Article = Article(id: string, body: ArticleBody)

  /** The fields of an ad that a create or update request supplies;
      `kind` is the record's `type` property. */
  datatype AdBody = AdBody(kind: Field, placement: Field, imageUrl: Field, clickUrl: Field)

  datatype Ad = Ad(id: string, body: AdBody)

  /** What a route sends back, by HTTP status. */
  datatype Response<T> =
    | Ok(value: T)    // 200 with a JSON body
    | NoContent       // 204, after a delete
    | NotFound        // 404 'Not found'
    | Unauthorized    // 401 from the admin gate
    | Forbidden       // 403 'Wrong password'
  {
    function Status(): int {
      match this
      case Ok(_) => 200
      case NoContent => 204
      case NotFound => 404
      case Unauthorized => 401
      case Forbidden => 403
    }
  }

  /** `order || 0` for a numeric order: the falsy cases (absent, or 0)
      give 0, and every other number is kept. */
  function OrderOrZero(order: Option<int>): (n: int)
    ensures n == 0 <==> order == None || order == Some(0)
    ensures order.Some? && order.value != 0 ==> n == order.value
  {
    match order
    case None => 0
    case Some(n) => n
  }

  function CategoryId(c: Category): string { c.id }
  function ArticleId(a: Article): string { a.id }
  function AdId(a: Ad): string { a.id }

  const SeedCategories: seq<Category> := [
    Category("sports", Some("Sports"), 1),
    Category("politics", Some("Politics"), 2),
    Category("entertainment", Some("Entertainment"), 3)
  ]

  const SeedArticle1: Article :=
    Article("a1", ArticleBody(Some("Virat hits winning six"), Some("A thrilling finish."),
      Some("Full content of the sports article..."), Some("https://picsum.photos/600/300?random=1"),
      Some("Reporter A"), Some("2025-09-01"), Some("sports"), Some("https://example.com/article/a1")))
  const SeedArticle2: Article :=
    Article("a2", ArticleBody(Some("Election update"), Some("Key results in..."),
      Some("Full content of the politics article..."), Some("https://picsum.photos/600/300?random=2"),
      Some("Reporter B"), Some("2025-09-02"), Some("politics"), Some("https://example.com/article/a2")))
  const SeedArticle3: Article :=
    Article("a3", ArticleBody(Some("Movie review"), Some("New hit movie..."),
      Some("Full content of the entertainment article..."), Some("https://picsum.photos/600/300?random=3"),
      Some("Reporter C"), Some("2025-09-03"), Some("entertainment"), Some("https://example.com/article/a3")))

  const SeedArticles: seq<Article> := [SeedArticle1, SeedArticle2, SeedArticle3]

  const SeedAds: seq<Ad> := [
    Ad("ad1", AdBody(Some("banner"), Some("top"), Some("https://picsum.photos/800/150?random=10"), Some("https://example.com/ad1"))),
    Ad("ad2", AdBody(Some("banner"), Some("bottom"), Some("https://picsum.photos/800/150?random=11"), Some("https://example.com/ad2"))),
    Ad("ad3", AdBody(Some("interstitial"), Some("interstitial"), Some("https://picsum.photos/800/1200?random=12"), Some("https://example.com/ad3")))
  ]
}
