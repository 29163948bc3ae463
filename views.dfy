/**
 * The viewsets: their permission lists, the serializer chosen per action,
 * the public queryset and homepage, the review queryset, and the create
 * operations that write rows into the store.
 */
module Views {
  import opened Wrappers
  import opened Seqs
  import opened Accounts
  import opened Permissions
  import opened Models
  import opened Ordering
  import opened Serializers

  // ---- Permissions ---------------------------------------------------------

  /** CategoryViewSet.get_permissions: anyone may GET; every other method, HEAD and OPTIONS included, needs staff. */
  function CategoryPermissions(verb: HttpMethod): (perms: seq<Permission>)
    ensures verb == GET <==> perms == [AllowAny]
    ensures verb != GET <==> perms == [IsAdminUser]
  {
    if verb == GET then [AllowAny] else [IsAdminUser]
  }

  /** ArticleViewSet.get_permissions: the same split as for categories. */
  function ArticlePermissions(verb: HttpMethod): (perms: seq<Permission>)
    ensures verb == GET <==> perms == [AllowAny]
    ensures verb != GET <==> perms == [IsAdminUser]
  {
    if verb == GET then [AllowAny] else [IsAdminUser]
  }

  /** ReviewViewSet.permission_classes. */
  const ReviewPermissions: seq<Permission> := [IsAuthenticatedOrReadOnly]

  /** Categories: GET is open; anything else is allowed to staff only. */
  lemma CategoryAccess(verb: HttpMethod, user: Actor)
    ensures CheckPermissions(CategoryPermissions(verb), Request(verb, user), CategoryView) ==
      if verb == GET || user.IsStaff() then Allow
      else if user.IsAuthenticated() then Forbidden
      else NotAuthenticated
  {
  }

  /** Articles: GET is open; anything else is allowed to staff only. */
  lemma ArticleAccess(verb: HttpMethod, user: Actor)
    ensures CheckPermissions(ArticlePermissions(verb), Request(verb, user), ArticleView) ==
      if verb == GET || user.IsStaff() then Allow
      else if user.IsAuthenticated() then Forbidden
      else NotAuthenticated
  {
  }

  /** The role plays no part for articles: a non-staff EDITOR or ADMIN cannot write, a staff SUBSCRIBER can. */
  lemma ArticleWritesIgnoreRole(verb: HttpMethod, id: nat, role: Role)
    requires verb != GET
    ensures CheckPermissions(ArticlePermissions(verb), Request(verb, Member(id, false, role)), ArticleView) == Forbidden
    ensures CheckPermissions(ArticlePermissions(verb), Request(verb, Member(id, true, role)), ArticleView) == Allow
  {
  }

  /** HEAD and OPTIONS are not GET, so they are treated as writes. */
  lemma HeadAndOptionsNeedStaff(user: Actor)
    requires !user.IsStaff()
    ensures CheckPermissions(CategoryPermissions(HEAD), Request(HEAD, user), CategoryView) != Allow
    ensures CheckPermissions(ArticlePermissions(OPTIONS), Request(OPTIONS, user), ArticleView) != Allow
  {
  }

  /** Reviews: safe methods are open, everything else needs a signed-in user, and no signed-in user is refused. */
  lemma ReviewAccess(verb: HttpMethod, user: Actor)
    ensures CheckPermissions(ReviewPermissions, Request(verb, user), ReviewView) ==
      if verb in SafeMethods || user.IsAuthenticated() then Allow else NotAuthenticated
  {
  }

  // ---- Serializer selection ------------------------------------------------

  const WriteActions: set<string> := {"create", "update", "partial_update"}

  /**
   * ArticleViewSet.get_serializer_class: every action gets exactly one of three
   * serializers, and only the write actions get the write serializer.
   */
  function SerializerFor(action: string): (s: Serializer)
    ensures s == ArticleWriteSerializer <==> action in WriteActions
    ensures s == ArticleDetailSerializer <==> action == "retrieve"
    ensures s == ArticleSerializer <==> action != "retrieve" && action !in WriteActions
  {
    if action == "list" then ArticleSerializer
    else if action == "retrieve" then ArticleDetailSerializer
    else if action in WriteActions then ArticleWriteSerializer
    else ArticleSerializer
  }

  /** Whatever write action a client calls, it cannot set the author or the publication time. */
  lemma WriteActionsCannotSetOwnership(action: string)
    requires action in WriteActions
    ensures "author" !in Writable(SerializerFor(action))
    ensures "published_at" !in Writable(SerializerFor(action))
  {
    OwnershipFieldsNotWritable();
  }

  // ---- Public articles and the homepage ------------------------------------

  /** PublicArticleViewSet.queryset: published articles only. */
  function PublicQueryset(articles: seq<ArticleRow>): (r: seq<ArticleRow>)
    ensures forall a :: a in r <==> a in articles && a.isPublished
    ensures multiset(r) <= multiset(articles)
  {
    Select(articles, (a: ArticleRow) => a.isPublished)
  }

  const HomepageSize: nat := 50
  const BodyPreviewLength: nat := 50

  /** One homepage item: the headline and the first 50 characters of the body. */
  datatype HomepageEntry = HomepageEntry(headline: string, body: string)

  function HomepageItem(a: ArticleRow): HomepageEntry
  {
    HomepageEntry(a.headline, Prefix(a.body, BodyPreviewLength))
  }

  /** The articles the homepage shows: published ones, newest first, at most 50. */
  function HomepageArticles(articles: seq<ArticleRow>): (top: seq<ArticleRow>)
    ensures |top| == Min(HomepageSize, |PublicQueryset(articles)|)
    ensures forall i :: 0 <= i < |top| ==> top[i] == OrderByPublishedDesc(PublicQueryset(articles))[i]
  {
    Prefix(OrderByPublishedDesc(PublicQueryset(articles)), HomepageSize)
  }

  /** The homepage as intended: one item per selected article, in the same order. */
  function Homepage(articles: seq<ArticleRow>): (r: seq<HomepageEntry>)
    ensures |r| == |HomepageArticles(articles)|
    ensures forall i :: 0 <= i < |r| ==> r[i] == HomepageItem(HomepageArticles(articles)[i])
  {
    var top := HomepageArticles(articles);
    seq(|top|, i requires 0 <= i < |top| => HomepageItem(top[i]))
  }

  /**
   * The selection is the top of the published articles: at most 50, newest
   * first, all published and stored, and no published article left out is
   * newer than one that was taken.
   */
  lemma HomepageSelection(articles: seq<ArticleRow>)
    ensures var top := HomepageArticles(articles);
      && |top| == Min(HomepageSize, |PublicQueryset(articles)|)
      && NewestFirst(top)
      && (forall i :: 0 <= i < |top| ==> top[i].isPublished && top[i] in articles)
      && (forall a, i :: a in articles && a.isPublished && a !in top && 0 <= i < |top| ==> AtLeastAsRecent(top[i], a))
      && multiset(top) <= multiset(PublicQueryset(articles))
  {
    var published := PublicQueryset(articles);
    var sorted := OrderByPublishedDesc(published);
    var top := HomepageArticles(articles);
    assert top == sorted[..|top|];
    assert multiset(top) <= multiset(published) by {
      PrefixSubMultiset(sorted, HomepageSize);
    }
    forall i | 0 <= i < |top| ensures top[i].isPublished && top[i] in articles {
      assert top[i] == sorted[i];
      assert sorted[i] in multiset(sorted);
    }
    forall a, i | a in articles && a.isPublished && a !in top && 0 <= i < |top|
      ensures AtLeastAsRecent(top[i], a)
    {
      assert a in multiset(published);
      assert a in multiset(sorted);
      LeftOutIsNoNewer(sorted, HomepageSize, a, i);
    }
  }

  /** In a newest-first sequence, an element beyond a prefix is no newer than any element of the prefix. */
  lemma LeftOutIsNoNewer(sorted: seq<ArticleRow>, n: nat, a: ArticleRow, i: int)
    requires NewestFirst(sorted) && a in sorted && a !in Prefix(sorted, n)
    requires 0 <= i < |Prefix(sorted, n)|
    ensures AtLeastAsRecent(Prefix(sorted, n)[i], a)
  {
    var top := Prefix(sorted, n);
    var k :| 0 <= k < |sorted| && sorted[k] == a;
    assert forall j :: 0 <= j < |top| ==> top[j] == sorted[j];
    assert i < k;
  }

  /** Each homepage entry is the headline and the body's 50-character prefix (the whole body if shorter) of a published article. */
  lemma HomepageEntries(articles: seq<ArticleRow>)
    ensures var r := Homepage(articles);
      && |r| <= HomepageSize
      && forall i :: 0 <= i < |r| ==>
           exists a :: a in articles && a.isPublished && r[i].headline == a.headline
                       && |r[i].body| == Min(BodyPreviewLength, |a.body|) && r[i].body == a.body[..|r[i].body|]
  {
    var top := HomepageArticles(articles);
    var r := Homepage(articles);
    assert forall i :: 0 <= i < |top| ==> top[i].isPublished && top[i] in articles by {
      HomepageSelection(articles);
    }
    forall i | 0 <= i < |r|
      ensures exists a :: a in articles && a.isPublished && r[i].headline == a.headline
                          && |r[i].body| == Min(BodyPreviewLength, |a.body|) && r[i].body == a.body[..|r[i].body|]
    {
      var a := top[i];
      assert r[i] == HomepageItem(a);
      assert a in articles && a.isPublished;
    }
  }

  /**
   * The homepage as written: each item also reads `article.ratings`, which
   * an article does not have, so the first article raises AttributeError.
   */
  function HomepageAsWritten(articles: seq<ArticleRow>): (r: Result<seq<HomepageEntry>, string>)
    ensures r.Ok? ==> r.value == []
  {
    if HomepageArticles(articles) == [] then Ok([])
    else Err("AttributeError: 'Article' object has no attribute 'ratings'")
  }

  /** As written, the homepage fails whenever any article is published. */
  lemma HomepageAsWrittenFails(articles: seq<ArticleRow>, a: ArticleRow)
    requires a in articles && a.isPublished
    ensures HomepageAsWritten(articles).Err?
    ensures |Homepage(articles)| > 0
  {
    assert a in PublicQueryset(articles);
  }

  /** A concrete store: one published article. */
  lemma HomepageAsWrittenCounterexample()
    ensures var a := ArticleRow(1, "Election results", "Counting is complete.", Some(DefaultImage), 1, 1, Some(0), true, 0);
      HomepageAsWritten([a]).Err? && Homepage([a]) == [HomepageEntry("Election results", "Counting is complete.")]
  {
    var a := ArticleRow(1, "Election results", "Counting is complete.", Some(DefaultImage), 1, 1, Some(0), true, 0);
    assert PublicQueryset([a]) == [a];
    assert OrderByPublishedDesc([a]) == [a];
  }

  // ---- Reviews -------------------------------------------------------------

  /** ReviewViewSet.get_queryset: the reviews of the URL's article, or all reviews on the un-nested route. */
  function ReviewQueryset(reviews: seq<ReviewRow>, kwargs: UrlKwargs): (r: seq<ReviewRow>)
    ensures UrlArticleId(kwargs).Some? ==>
              forall x :: x in r <==> x in reviews && x.articleId == UrlArticleId(kwargs).value
    ensures UrlArticleId(kwargs).None? ==> r == reviews
    ensures multiset(r) <= multiset(reviews)
  {
    match UrlArticleId(kwargs)
    case Some(id) => ReviewsOfSubMultiset(reviews, id); ReviewsOf(reviews, id)
    case None => reviews
  }

  /** When both ids are in the URL, `article_pk` decides and `public_article_pk` is ignored. */
  lemma ReviewQuerysetPrefersArticlePk(reviews: seq<ReviewRow>, a: nat, b: nat)
    ensures ReviewQueryset(reviews, UrlKwargs(Some(a), Some(b))) == ReviewQueryset(reviews, UrlKwargs(Some(a), None))
  {
  }

  // ---- Creating rows -------------------------------------------------------

  /** The row CategoryViewSet's create stores: validated name and description, premium off. */
  function CategoryCreation(p: Payload, categories: seq<CategoryRow>, id: nat, now: Time): (r: Result<CategoryRow, set<string>>)
    ensures r.Err? <==> ValidateCategory(p, categories).Err?
    ensures r.Err? ==> r.error == ValidateCategory(p, categories).error
    ensures r.Ok? ==> !r.value.isPremium && r.value.id == id && r.value.name == p["name"].s
                      && !NameTaken(categories, r.value.name)
                      && DescriptionOf(p).Some? && r.value.description == DescriptionOf(p).value
                      && r.value.createdAt == now && r.value.updatedAt == now
  {
    match ValidateCategory(p, categories)
    case Err(e) => Err(e)
    case Ok(d) => Ok(NewCategory(id, d.name, d.description, now))
  }

  /** The row ArticleViewSet's create stores: the validated fields, the requester as author, no publication time. */
  function ArticleCreation(p: Payload, categories: seq<CategoryRow>, id: nat, requester: nat, now: Time)
    : (r: Result<ArticleRow, set<string>>)
    ensures r.Err? <==> ValidateArticleWrite(p, categories).Err?
    ensures r.Err? ==> r.error == ValidateArticleWrite(p, categories).error
    ensures r.Ok? ==> r.value.id == id && r.value.authorId == requester && r.value.publishedAt.None?
                      && r.value.headline == p["headline"].s && r.value.body == p["body"].s
                      && r.value.categoryId == p["category"].i
                      && r.value.isPublished == ("is_published" in p && p["is_published"] == Bool(true))
                      && r.value.createdAt == now
  {
    match ValidateArticleWrite(p, categories)
    case Err(e) => Err(e)
    case Ok(d) => Ok(ArticleRow(id, d.headline, d.body, d.image, d.categoryId, requester, None, d.isPublished, now))
  }

  /** An `author` or `published_at` in the body changes nothing about the stored article. */
  lemma ArticleCreationIgnoresClientOwnership(p: Payload, author: Value, publishedAt: Value,
                                              categories: seq<CategoryRow>, id: nat, requester: nat, now: Time)
    ensures ArticleCreation(p["author" := author]["published_at" := publishedAt], categories, id, requester, now)
         == ArticleCreation(p, categories, id, requester, now)
  {
    var withAuthor := p["author" := author];
    var q := withAuthor["published_at" := publishedAt];
    var w := Writable(ArticleWriteSerializer);
    assert ValidateArticleWrite(q, categories) == ValidateArticleWrite(p, categories) by {
      OwnershipFieldsNotWritable();
      RestrictIgnoresUpdateOutside(p, "author", author, w);
      RestrictIgnoresUpdateOutside(withAuthor, "published_at", publishedAt, w);
      ArticleWriteIgnoresOtherKeys(p, categories);
      ArticleWriteIgnoresOtherKeys(q, categories);
    }
  }

  datatype ReviewError = Invalid(fields: set<string>) | NoArticleInUrl

  /**
   * The row ReviewViewSet's create stores: the requester as user, the URL's
   * article (overriding the body's `article`), the validated rating and an
   * empty comment (the serializer has no comment field). Without an article
   * id in the URL the NOT NULL article column cannot be filled.
   */
  function ReviewCreation(p: Payload, articles: seq<ArticleRow>, kwargs: UrlKwargs, id: nat, requester: nat, now: Time)
    : (r: Result<ReviewRow, ReviewError>)
    ensures r == Err(NoArticleInUrl) <==> ValidateReview(p, articles).Ok? && UrlArticleId(kwargs).None?
    ensures r.Err? && r.error.Invalid? <==> ValidateReview(p, articles).Err?
    ensures r.Err? && r.error.Invalid? ==> r.error.fields == ValidateReview(p, articles).error
    ensures r.Ok? ==> r.value.id == id && r.value.userId == requester
                      && UrlArticleId(kwargs) == Some(r.value.articleId)
                      && ValidRating(r.value.ratings) && r.value.ratings == p["ratings"].i
                      && r.value.comment == "" && r.value.createdAt == now && r.value.updatedAt == now
  {
    match ValidateReview(p, articles)
    case Err(e) => Err(Invalid(e))
    case Ok(d) =>
      match UrlArticleId(kwargs)
      case None => Err(NoArticleInUrl)
      case Some(articleId) => Ok(ReviewRow(id, articleId, requester, d.ratings, "", now, now))
  }

  /** A `user` in the body changes nothing about the stored review. */
  lemma ReviewCreationIgnoresClientUser(p: Payload, user: Value, articles: seq<ArticleRow>, kwargs: UrlKwargs,
                                        id: nat, requester: nat, now: Time)
    ensures ReviewCreation(p["user" := user], articles, kwargs, id, requester, now)
         == ReviewCreation(p, articles, kwargs, id, requester, now)
  {
    var q := p["user" := user];
    assert ArticleRefOf(q, articles) == ArticleRefOf(p, articles);
    assert RatingsOf(q) == RatingsOf(p);
  }

  /** The headline the thank-you mail names: the URL article's, or 'Unknown Article'. */
  function NotificationHeadline(articles: seq<ArticleRow>, articleId: nat): (h: string)
    ensures FindArticle(articles, articleId).Some? ==> h == FindArticle(articles, articleId).value.headline
    ensures FindArticle(articles, articleId).None? ==> h == "Unknown Article"
  {
    match FindArticle(articles, articleId)
    case Some(a) => a.headline
    case None => "Unknown Article"
  }
  /** In a store with distinct primary keys, the mail names the headline of the very article reviewed. */
  lemma NotificationNamesStoredArticle(articles: seq<ArticleRow>, i: int)
    requires KeysDistinct(articles, ArticleKey) && 0 <= i < |articles|
    ensures NotificationHeadline(articles, articles[i].id) == articles[i].headline
  {
    FindStoredArticle(articles, i);
  }


  /** CategoryViewSet create: validate, then insert under the next id. */
  method CreateCategory(db: Store, p: Payload, now: Time) returns (res: Result<nat, set<string>>)
    requires db.Valid()
    modifies db
    ensures db.Valid()
    ensures db.articles == old(db.articles) && db.reviews == old(db.reviews)
    ensures db.nextArticleId == old(db.nextArticleId) && db.nextReviewId == old(db.nextReviewId)
    ensures match CategoryCreation(p, old(db.categories), old(db.nextCategoryId), now)
      case Err(e) => res == Err(e) && db.categories == old(db.categories) && db.nextCategoryId == old(db.nextCategoryId)
      case Ok(row) => res == Ok(row.id) && db.categories == old(db.categories) + [row]
                      && db.nextCategoryId == old(db.nextCategoryId) + 1
  {
    var made := CategoryCreation(p, db.categories, db.nextCategoryId, now);
    match made
    case Err(e) =>
      res := Err(e);
    case Ok(row) =>
      db.InsertCategory(row);
      res := Ok(row.id);
  }

  /** ArticleViewSet create and perform_create: validate, then insert with the requester as author. */
  method CreateArticle(db: Store, p: Payload, requester: nat, now: Time) returns (res: Result<nat, set<string>>)
    requires db.Valid()
    modifies db
    ensures db.Valid()
    ensures db.categories == old(db.categories) && db.reviews == old(db.reviews)
    ensures db.nextCategoryId == old(db.nextCategoryId) && db.nextReviewId == old(db.nextReviewId)
    ensures match ArticleCreation(p, old(db.categories), old(db.nextArticleId), requester, now)
      case Err(e) => res == Err(e) && db.articles == old(db.articles) && db.nextArticleId == old(db.nextArticleId)
      case Ok(row) => res == Ok(row.id) && db.articles == old(db.articles) + [row]
                      && db.nextArticleId == old(db.nextArticleId) + 1
    ensures res.Ok? ==> FindArticle(db.articles, res.value).Some?
                        && FindArticle(db.articles, res.value).value.authorId == requester
  {
    var made := ArticleCreation(p, db.categories, db.nextArticleId, requester, now);
    match made
    case Err(e) =>
      res := Err(e);
    case Ok(row) =>
      AppendThenFind(db.articles, row, row.id);
      db.InsertArticle(row);
      res := Ok(row.id);
  }

  /** What a successful review creation reports: the new id, and the thank-you mail's recipient and headline. */
  datatype ReviewCreated = ReviewCreated(id: nat, recipient: nat, headline: string)

  /** ReviewViewSet create and perform_create: validate, insert with the requester and the URL's article, pick the mail's headline. */
  method CreateReview(db: Store, p: Payload, kwargs: UrlKwargs, requester: nat, now: Time)
    returns (res: Result<ReviewCreated, ReviewError>)
    requires db.Valid()
    modifies db
    ensures db.Valid()
    ensures db.categories == old(db.categories) && db.articles == old(db.articles)
    ensures db.nextCategoryId == old(db.nextCategoryId) && db.nextArticleId == old(db.nextArticleId)
    ensures match ReviewCreation(p, old(db.articles), kwargs, old(db.nextReviewId), requester, now)
      case Err(e) => res == Err(e) && db.reviews == old(db.reviews) && db.nextReviewId == old(db.nextReviewId)
      case Ok(row) => db.reviews == old(db.reviews) + [row] && db.nextReviewId == old(db.nextReviewId) + 1
                      && res == Ok(ReviewCreated(row.id, requester, NotificationHeadline(db.articles, row.articleId)))
    ensures RatingsValid(old(db.reviews)) ==> RatingsValid(db.reviews)
  {
    var made := ReviewCreation(p, db.articles, kwargs, db.nextReviewId, requester, now);
    match made
    case Err(e) =>
      res := Err(e);
    case Ok(row) =>
      db.InsertReview(row);
      res := Ok(ReviewCreated(row.id, requester, NotificationHeadline(db.articles, row.articleId)));
  }
}
