/** The in-memory search route: an article matches when its lower-cased
    `title + ' ' + (description || '') + ' ' + (content || '')` contains the
    lower-cased query `(q || '')`. */
module Search {
  import opened Wrappers
  import opened Records
  import opened Text
  import opened JsArrays

  /** `f || ''` for a string field. */
  function OrEmpty(f: Field): string {
    match f
    case None => ""
    case Some(s) => s
  }

  /** How `+` renders a field: an absent one becomes the text "undefined". */
  function Rendered(f: Field): string {
    match f
    case None => "undefined"
    case Some(s) => s
  }

  /** The lower-cased text the search looks in: the three lower-cased fields
      joined by blanks, with no upper-case letter left. */
  function Haystack(a: Article): (h: string)
    ensures h == Lower(Rendered(a.body.title)) + " " + Lower(OrEmpty(a.body.description)) + " " + Lower(OrEmpty(a.body.content))
    ensures forall i :: 0 <= i < |h| ==> !('A' <= h[i] <= 'Z')
  {
    LowerJoin(Rendered(a.body.title), OrEmpty(a.body.description), OrEmpty(a.body.content));
    Lower(Rendered(a.body.title) + " " + OrEmpty(a.body.description) + " " + OrEmpty(a.body.content))
  }

  /** The lower-cased query: as long as the query (empty when absent), with
      no upper-case letter left, so lower-casing it again changes nothing. */
  function Needle(q: Field): (n: string)
    ensures q.None? ==> n == ""
    ensures q.Some? ==> |n| == |q.value|
    ensures forall i :: 0 <= i < |n| ==> !('A' <= n[i] <= 'Z')
    ensures Lower(n) == n
  {
    LowerIdempotent(OrEmpty(q));
    Lower(OrEmpty(q))
  }

  function MatchesNeedle(needle: string): Article -> bool {
    (a: Article) => Contains(Haystack(a), needle)
  }

  /** The articles that match `q`, in store order. */
  function SearchArticles(articles: seq<Article>, q: Field): (r: seq<Article>)
    ensures forall a :: a in r <==> a in articles && Contains(Haystack(a), Needle(q))
    ensures |r| <= |articles|
  {
    Filter(articles, MatchesNeedle(Needle(q)))
  }

  /** A missing or empty query returns every article, in store order. */
  lemma SearchWithoutQuery(articles: seq<Article>)
    ensures SearchArticles(articles, None) == articles
    ensures SearchArticles(articles, Some("")) == articles
  {
    assert Needle(None) == "" && Needle(Some("")) == "";
    forall a | a in articles ensures MatchesNeedle("")(a) {
      ContainsEmpty(Haystack(a));
    }
    FilterKeepsAll(articles, MatchesNeedle(""));
  }

  /** Case does not matter in the query: `q` and its lower-cased form
      select the same articles. */
  lemma SearchIgnoresQueryCase(articles: seq<Article>, q: string)
    ensures SearchArticles(articles, Some(Lower(q))) == SearchArticles(articles, Some(q))
  {
    LowerIdempotent(q);
  }

  /** An article whose title, description or content contains the query,
      ignoring case, is found. */
  lemma SearchFindsField(articles: seq<Article>, a: Article, q: string)
    requires a in articles
    requires || Contains(Lower(Rendered(a.body.title)), Lower(q))
             || Contains(Lower(OrEmpty(a.body.description)), Lower(q))
             || Contains(Lower(OrEmpty(a.body.content)), Lower(q))
    ensures a in SearchArticles(articles, Some(q))
  {
    var t, d, c := Rendered(a.body.title), OrEmpty(a.body.description), OrEmpty(a.body.content);
    LowerJoin(t, d, c);
    ContainsInJoin(Lower(t), Lower(d), Lower(c), Lower(q));
  }

  /** An article stored without a title is found by the query "undefined",
      since `+` renders the missing title as that word. */
  lemma SearchMatchesMissingTitle(articles: seq<Article>, a: Article)
    requires a in articles && a.body.title.None?
    ensures a in SearchArticles(articles, Some("undefined"))
  {
    var u := Lower("undefined");
    assert u == "undefined";
    assert OccursAt(u, u, 0);
    SearchFindsField(articles, a, "undefined");
  }

  /** A title that starts with "Virat" contains the query "virat", ignoring case. */
  lemma CapitalisedTitleMatches(title: string)
    requires |title| >= 5 && title[..5] == "Virat"
    ensures Contains(Lower(title), "virat")
  {
    var t, n := Lower(title), "virat";
    var p := title[..5];
    assert p[0] == 'V' && p[1] == 'i' && p[2] == 'r' && p[3] == 'a' && p[4] == 't';
    assert t[0] == LowerChar(p[0]) == 'v';
    assert t[1] == p[1] && t[2] == p[2] && t[3] == p[3] && t[4] == p[4];
    assert t[0..5] == n;
    assert OccursAt(t, n, 0);
  }

  /** The seeded cricket story is found by the query "virat", although its
      title spells the word with a capital letter. */
  lemma SearchFindsSeededStory()
    ensures SeedArticle1 in SearchArticles(SeedArticles, Some("virat"))
  {
    var a := SeedArticle1;
    ViratTitleFound(SeedArticles, a, a.body.title.value);
  }

  /** An article whose title starts with "Virat" is found by the query "virat". */
  lemma ViratTitleFound(articles: seq<Article>, a: Article, title: string)
    requires a in articles && a.body.title == Some(title)
    requires |title| >= 5 && title[..5] == "Virat"
    ensures a in SearchArticles(articles, Some("virat"))
  {
    CapitalisedTitleMatches(title);
    LowerKeepsLowerCase("virat");
    SearchFindsField(articles, a, "virat");
  }
}
