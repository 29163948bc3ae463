/**
 * The four serializers: which fields each exposes and accepts, how a request
 * body is validated into the data a write stores, the computed fields
 * `rating` and `article_headline`, and the output representations.
 */
module Serializers {
  import opened Wrappers
  import opened Seqs
  import opened Models

  /** A JSON-like value of a request body or a response field. */
  datatype Value = Null | Int(i: int) | Str(s: string) | Bool(b: bool)
                 | Link(viewName: string, pk: nat) | Obj(fields: map<string, Value>)

  /** A request body: field names to values; the client may send any keys. */
  type Payload = map<string, Value>

  datatype Serializer =
    CategorySerializer | ArticleSerializer | ReviewSerializer | ArticleDetailSerializer | ArticleWriteSerializer

  /** The `fields` list of each serializer. */
  function Fields(s: Serializer): seq<string>
  {
    match s
    case CategorySerializer => ["id", "name", "description"]
    case ArticleSerializer => ["id", "category", "headline", "image", "body", "published_at", "author"]
    case ReviewSerializer => ["id", "article", "article_headline", "ratings"]
    case ArticleDetailSerializer => ["id", "headline", "image", "body", "category", "rating", "published_at"]
    case ArticleWriteSerializer => ["headline", "image", "body", "category", "is_published"]
  }

  /** Fields that are output only: the primary key, method fields and fields declared read-only. */
  function ReadOnlyFields(s: Serializer): set<string>
  {
    match s
    case CategorySerializer => {"id"}
    case ArticleSerializer => {"id"}
    case ReviewSerializer => {"id", "article_headline"}
    case ArticleDetailSerializer => {"id", "category", "rating"}
    case ArticleWriteSerializer => {}
  }

  /** The `fields` list as a set: the keys of every representation. */
  function FieldSet(s: Serializer): set<string>
  {
    set f | f in Fields(s)
  }

  /** The fields a client may supply through the serializer. */
  function Writable(s: Serializer): set<string>
  {
    set f | f in Fields(s) && f !in ReadOnlyFields(s)
  }

  /** The part of a body a serializer reads: every other key is ignored. */
  function Restrict(p: Payload, keys: set<string>): (q: Payload)
    ensures forall k :: k in q <==> k in p && k in keys
    ensures forall k :: k in q ==> q[k] == p[k]
  {
    map k | k in p && k in keys :: p[k]
  }

  /** Setting a key outside `keys` does not change the restriction to `keys`. */
  lemma RestrictIgnoresUpdateOutside(p: Payload, k: string, v: Value, keys: set<string>)
    requires k !in keys
    ensures Restrict(p[k := v], keys) == Restrict(p, keys)
  {
  }

  /** Neither the author nor the publication time nor a review's user nor a category's premium flag can come from a client. */
  lemma OwnershipFieldsNotWritable()
    ensures Writable(ArticleWriteSerializer) == {"headline", "image", "body", "category", "is_published"}
    ensures Writable(ReviewSerializer) == {"article", "ratings"}
    ensures Writable(CategorySerializer) == {"name", "description"}
    ensures "author" !in Writable(ArticleWriteSerializer) && "published_at" !in Writable(ArticleWriteSerializer)
    ensures "user" !in Fields(ReviewSerializer)
    ensures "is_premium" !in Fields(CategorySerializer)
  {
    assert "headline" in Fields(ArticleWriteSerializer) && "image" in Fields(ArticleWriteSerializer);
    assert "body" in Fields(ArticleWriteSerializer) && "category" in Fields(ArticleWriteSerializer);
    assert "is_published" in Fields(ArticleWriteSerializer);
    assert "article" in Fields(ReviewSerializer) && "ratings" in Fields(ReviewSerializer);
    assert "name" in Fields(CategorySerializer) && "description" in Fields(CategorySerializer);
  }

  // ---- Field validation --------------------------------------------------

  /**
   * A required, non-blank text field without null characters, of at most
   * `maxLength` characters when a bound is given.
   */
  function RequiredText(p: Payload, name: string, maxLength: Option<nat>): (r: Option<string>)
    ensures r.Some? <==> name in p && p[name].Str? && p[name].s != "" && '\0' !in p[name].s
                         && (maxLength.Some? ==> |p[name].s| <= maxLength.value)
    ensures r.Some? ==> r.value == p[name].s
  {
    if name in p && p[name].Str? && p[name].s != "" && NoNullCharacter(p[name].s)
       && (maxLength.None? || |p[name].s| <= maxLength.value)
    then Some(p[name].s) else None
  }

  /** Text fields refuse the null character. */
  predicate NoNullCharacter(s: string)
  {
    forall i :: 0 <= i < |s| ==> s[i] != '\0'
  }

  /** The image: optional, nullable, the placeholder when absent; `None` marks an invalid value. */
  function ImageOf(p: Payload): (r: Option<Option<string>>)
    ensures "image" !in p ==> r == Some(Some(DefaultImage))
  {
    if "image" !in p then Some(Some(DefaultImage))
    else match p["image"]
      case Null => Some(None)
      case Str(s) => Some(Some(s))
      case _ => None
  }

  /** An optional boolean that is false when absent. */
  function FlagOf(p: Payload, name: string): (r: Option<bool>)
    ensures name !in p ==> r == Some(false)
  {
    if name !in p then Some(false)
    else if p[name].Bool? then Some(p[name].b)
    else None
  }

  /** The category reference: the id of an existing category. */
  function CategoryRefOf(p: Payload, categories: seq<CategoryRow>): (r: Option<nat>)
    ensures r.Some? <==> "category" in p && p["category"].Int? && p["category"].i >= 0
                         && FindCategory(categories, p["category"].i).Some?
    ensures r.Some? ==> r.value == p["category"].i
  {
    if "category" in p && p["category"].Int? && p["category"].i >= 0
       && FindCategory(categories, p["category"].i).Some?
    then Some(p["category"].i) else None
  }

  /** The article reference of a review body: the id of an existing article. */
  function ArticleRefOf(p: Payload, articles: seq<ArticleRow>): (r: Option<nat>)
    ensures r.Some? <==> "article" in p && p["article"].Int? && p["article"].i >= 0
                         && FindArticle(articles, p["article"].i).Some?
  {
    if "article" in p && p["article"].Int? && p["article"].i >= 0
       && FindArticle(articles, p["article"].i).Some?
    then Some(p["article"].i) else None
  }

  /** The rating of a review body: an integer that passes the model's 0..4 validators. */
  function RatingsOf(p: Payload): (r: Option<nat>)
    ensures r.Some? <==> "ratings" in p && p["ratings"].Int? && ValidRating(p["ratings"].i)
    ensures r.Some? ==> r.value == p["ratings"].i
  {
    if "ratings" in p && p["ratings"].Int? && ValidRating(p["ratings"].i)
    then Some(p["ratings"].i) else None
  }

  function ErrorIf(failed: bool, name: string): set<string>
  {
    if failed then {name} else {}
  }

  // ---- ArticleWriteSerializer ----------------------------------------------

  /** What ArticleWriteSerializer hands to `save`. */
  datatype ArticleData = ArticleData(
    headline: string, body: string, image: Option<string>, categoryId: nat, isPublished: bool)

  function ArticleWriteErrors(p: Payload, categories: seq<CategoryRow>): set<string>
  {
    ErrorIf(RequiredText(p, "headline", Some(HeadlineMaxLength)).None?, "headline")
    + ErrorIf(RequiredText(p, "body", None).None?, "body")
    + ErrorIf(ImageOf(p).None?, "image")
    + ErrorIf(CategoryRefOf(p, categories).None?, "category")
    + ErrorIf(FlagOf(p, "is_published").None?, "is_published")
  }

  /** Validation of an article body: every failing field is reported, and only whitelisted fields are read. */
  function ValidateArticleWrite(p: Payload, categories: seq<CategoryRow>): (r: Result<ArticleData, set<string>>)
    ensures r.Err? <==> ArticleWriteErrors(p, categories) != {}
    ensures r.Err? ==> r.error == ArticleWriteErrors(p, categories) && r.error <= Writable(ArticleWriteSerializer)
    ensures r.Ok? ==> r.value.headline == p["headline"].s && r.value.body == p["body"].s
                      && 0 < |r.value.headline| <= HeadlineMaxLength
                      && r.value.categoryId == p["category"].i
                      && FindCategory(categories, r.value.categoryId).Some?
                      && r.value.isPublished == ("is_published" in p && p["is_published"] == Bool(true))
  {
    var errors := ArticleWriteErrors(p, categories);
    if errors != {} then
      OwnershipFieldsNotWritable();
      Err(errors)
    else
      Ok(ArticleData(
        RequiredText(p, "headline", Some(HeadlineMaxLength)).value,
        RequiredText(p, "body", None).value,
        ImageOf(p).value,
        CategoryRefOf(p, categories).value,
        FlagOf(p, "is_published").value))
  }

  /** Keys outside the whitelist (an `author`, a `published_at`, anything else) have no effect on the outcome. */
  lemma ArticleWriteIgnoresOtherKeys(p: Payload, categories: seq<CategoryRow>)
    ensures ValidateArticleWrite(p, categories)
         == ValidateArticleWrite(Restrict(p, Writable(ArticleWriteSerializer)), categories)
  {
    OwnershipFieldsNotWritable();
    var q := Restrict(p, Writable(ArticleWriteSerializer));
    assert RequiredText(p, "headline", Some(HeadlineMaxLength)) == RequiredText(q, "headline", Some(HeadlineMaxLength));
    assert RequiredText(p, "body", None) == RequiredText(q, "body", None);
    assert ImageOf(p) == ImageOf(q);
    assert CategoryRefOf(p, categories) == CategoryRefOf(q, categories);
    assert FlagOf(p, "is_published") == FlagOf(q, "is_published");
  }

  // ---- ReviewSerializer ----------------------------------------------------

  /** What ReviewSerializer hands to `save`: the body's article reference and the rating. */
  datatype ReviewData = ReviewData(articleRef: nat, ratings: nat)

  function ReviewErrors(p: Payload, articles: seq<ArticleRow>): set<string>
  {
    ErrorIf(ArticleRefOf(p, articles).None?, "article") + ErrorIf(RatingsOf(p).None?, "ratings")
  }

  function ValidateReview(p: Payload, articles: seq<ArticleRow>): (r: Result<ReviewData, set<string>>)
    ensures r.Err? <==> ReviewErrors(p, articles) != {}
    ensures r.Err? ==> r.error == ReviewErrors(p, articles)
    ensures r.Ok? ==> ValidRating(r.value.ratings) && r.value.ratings == p["ratings"].i
  {
    var errors := ReviewErrors(p, articles);
    if errors != {} then Err(errors)
    else Ok(ReviewData(ArticleRefOf(p, articles).value, RatingsOf(p).value))
  }

  /** A rating is refused exactly when it is missing, not an integer, or outside 0..4. */
  lemma RatingAcceptedIffInBounds(p: Payload, articles: seq<ArticleRow>)
    ensures "ratings" !in ReviewErrors(p, articles) <==>
            "ratings" in p && p["ratings"].Int? && 0 <= p["ratings"].i <= 4
  {
  }

  // ---- CategorySerializer --------------------------------------------------

  datatype CategoryData = CategoryData(name: string, description: Option<string>)

  /**
   * The description: optional, nullable, blank allowed, at most 250 characters
   * and no null character; `None` marks an invalid value.
   */
  function DescriptionOf(p: Payload): (r: Option<Option<string>>)
    ensures "description" !in p ==> r == Some(None)
    ensures r == Some(None) <==> "description" !in p || p["description"].Null?
    ensures r.Some? && r.value.Some? <==>
              "description" in p && p["description"].Str? && '\0' !in p["description"].s
              && |p["description"].s| <= DescriptionMaxLength
    ensures r.Some? && r.value.Some? ==> r.value.value == p["description"].s
  {
    if "description" !in p then Some(None)
    else match p["description"]
      case Null => Some(None)
      case Str(s) => if |s| <= DescriptionMaxLength && NoNullCharacter(s) then Some(Some(s)) else None
      case _ => None
  }

  /** Whether some other category already has this name (the unique constraint on `name`). */
  predicate NameTaken(categories: seq<CategoryRow>, name: string)
  {
    exists i :: 0 <= i < |categories| && categories[i].name == name
  }

  function CategoryErrors(p: Payload, categories: seq<CategoryRow>): set<string>
  {
    var name := RequiredText(p, "name", Some(CategoryNameMaxLength));
    ErrorIf(name.None? || NameTaken(categories, name.value), "name") + ErrorIf(DescriptionOf(p).None?, "description")
  }

  function ValidateCategory(p: Payload, categories: seq<CategoryRow>): (r: Result<CategoryData, set<string>>)
    ensures r.Err? <==> CategoryErrors(p, categories) != {}
    ensures r.Err? ==> r.error == CategoryErrors(p, categories) && r.error <= Writable(CategorySerializer)
    ensures r.Ok? ==> r.value.name == p["name"].s && !NameTaken(categories, r.value.name)
                      && 0 < |r.value.name| <= CategoryNameMaxLength
                      && DescriptionOf(p).Some? && r.value.description == DescriptionOf(p).value
  {
    var errors := CategoryErrors(p, categories);
    if errors != {} then
      OwnershipFieldsNotWritable();
      Err(errors)
    else Ok(CategoryData(RequiredText(p, "name", Some(CategoryNameMaxLength)).value, DescriptionOf(p).value))
  }

  /** A body that sets `is_premium` validates exactly like one that does not. */
  lemma CategoryIgnoresPremiumFlag(p: Payload, v: Value, categories: seq<CategoryRow>)
    ensures ValidateCategory(p["is_premium" := v], categories) == ValidateCategory(p, categories)
  {
    var q := p["is_premium" := v];
    assert RequiredText(q, "name", Some(CategoryNameMaxLength)) == RequiredText(p, "name", Some(CategoryNameMaxLength));
    assert DescriptionOf(q) == DescriptionOf(p);
  }

  // ---- Computed fields -----------------------------------------------------

  /** The URL of a nested review route: `article_pk` under articles, `public_article_pk` under public articles. */
  datatype UrlKwargs = UrlKwargs(articlePk: Option<nat>, publicArticlePk: Option<nat>)

  /**
   * `kwargs.get('article_pk') or kwargs.get('public_article_pk')`. URL values
   * are non-empty strings, so a present `article_pk` (even "0") wins.
   */
  function UrlArticleId(kwargs: UrlKwargs): (id: Option<nat>)
    ensures kwargs.articlePk.Some? ==> id == kwargs.articlePk
    ensures kwargs.articlePk.None? ==> id == kwargs.publicArticlePk
  {
    if kwargs.articlePk.Some? then kwargs.articlePk else kwargs.publicArticlePk
  }

  /**
   * ReviewSerializer.get_article_headline: the headline of the article the URL
   * names. It looks at the URL only, never at the review being shown.
   */
  function ArticleHeadline(articles: seq<ArticleRow>, kwargs: UrlKwargs): (h: Option<string>)
    ensures h.Some? <==> UrlArticleId(kwargs).Some? && FindArticle(articles, UrlArticleId(kwargs).value).Some?
    ensures h.Some? ==> exists i :: 0 <= i < |articles| && articles[i].id == UrlArticleId(kwargs).value
                                    && articles[i].headline == h.value
  {
    match UrlArticleId(kwargs)
    case None => None
    case Some(id) =>
      match FindArticle(articles, id)
      case None => None
      case Some(a) => Some(a.headline)
  }

  /** `obj.reviews.all()`: the reviews of one article. */
  function ReviewsOf(reviews: seq<ReviewRow>, articleId: nat): (own: seq<ReviewRow>)
    ensures forall x :: x in own <==> x in reviews && x.articleId == articleId
    ensures |own| <= |reviews|
  {
    if reviews == [] then []
    else if reviews[0].articleId == articleId then [reviews[0]] + ReviewsOf(reviews[1..], articleId)
    else ReviewsOf(reviews[1..], articleId)
  }

  /** An article's reviews repeat no stored review: each occurs at most as often as in the table. */
  lemma {:induction false} ReviewsOfSubMultiset(reviews: seq<ReviewRow>, articleId: nat)
    ensures multiset(ReviewsOf(reviews, articleId)) <= multiset(reviews)
  {
    if reviews != [] {
      assert reviews == [reviews[0]] + reviews[1..];
      ReviewsOfSubMultiset(reviews[1..], articleId);
    }
  }

  lemma {:induction false} ReviewsOfAppend(reviews: seq<ReviewRow>, r: ReviewRow, articleId: nat)
    ensures ReviewsOf(reviews + [r], articleId)
         == ReviewsOf(reviews, articleId) + (if r.articleId == articleId then [r] else [])
  {
    if reviews == [] {
      assert reviews + [r] == [r];
    } else {
      assert (reviews + [r])[1..] == reviews[1..] + [r];
      ReviewsOfAppend(reviews[1..], r, articleId);
    }
  }

  function SumRatings(reviews: seq<ReviewRow>): int
  {
    if reviews == [] then 0 else reviews[0].ratings + SumRatings(reviews[1..])
  }

  /** ArticleDetailSerializer.get_rating: the sum (not the mean) of the article's ratings, or none without reviews. */
  function Rating(reviews: seq<ReviewRow>, articleId: nat): (rating: Option<int>)
    ensures rating.None? <==> forall i :: 0 <= i < |reviews| ==> reviews[i].articleId != articleId
  {
    var own := ReviewsOf(reviews, articleId);
    if own == [] then
      assert forall i :: 0 <= i < |reviews| ==> reviews[i].articleId != articleId by {
        forall i | 0 <= i < |reviews| ensures reviews[i].articleId != articleId {
          assert reviews[i] in reviews;
        }
      }
      None
    else
      assert own[0] in own;
      Some(SumRatings(own))
  }

  lemma {:induction false} SumRatingsBounds(reviews: seq<ReviewRow>)
    requires forall i :: 0 <= i < |reviews| ==> ValidRating(reviews[i].ratings)
    ensures 0 <= SumRatings(reviews) <= MaxRating * |reviews|
  {
    if reviews != [] {
      SumRatingsBounds(reviews[1..]);
    }
  }

  lemma {:induction false} SumRatingsAppend(a: seq<ReviewRow>, b: seq<ReviewRow>)
    ensures SumRatings(a + b) == SumRatings(a) + SumRatings(b)
  {
    if a == [] {
      assert a + b == b;
    } else {
      assert (a + b)[1..] == a[1..] + b;
      SumRatingsAppend(a[1..], b);
    }
  }

  /** With ratings in 0..4, the rating of an article with `n` reviews lies in 0..4n. */
  lemma RatingBounds(reviews: seq<ReviewRow>, articleId: nat)
    requires forall i :: 0 <= i < |reviews| ==> ValidRating(reviews[i].ratings)
    requires Rating(reviews, articleId).Some?
    ensures 0 <= Rating(reviews, articleId).value <= MaxRating * |ReviewsOf(reviews, articleId)|
  {
    var own := ReviewsOf(reviews, articleId);
    forall i | 0 <= i < |own| ensures ValidRating(own[i].ratings) {
      assert own[i] in reviews;
    }
    SumRatingsBounds(own);
  }

  /** A new review of the article adds its rating to the sum; reviews of other articles change nothing. */
  lemma RatingAfterReview(reviews: seq<ReviewRow>, r: ReviewRow, articleId: nat)
    ensures Rating(reviews + [r], articleId) ==
      if r.articleId != articleId then Rating(reviews, articleId)
      else match Rating(reviews, articleId)
        case None => Some(r.ratings as int)
        case Some(total) => Some(total + r.ratings)
  {
    var own := ReviewsOf(reviews, articleId);
    var extra := if r.articleId == articleId then [r] else [];
    var after := ReviewsOf(reviews + [r], articleId);
    assert after == own + extra by {
      ReviewsOfAppend(reviews, r, articleId);
    }
    assert SumRatings(after) == SumRatings(own) + SumRatings(extra) by {
      SumRatingsAppend(own, extra);
    }
    if r.articleId == articleId {
      assert SumRatings(extra) == r.ratings;
    } else {
      assert after == own;
    }
  }

  // ---- Representations -----------------------------------------------------

  function OptionalText(o: Option<string>): Value
  {
    if o.Some? then Str(o.value) else Null
  }

  function OptionalInt(o: Option<int>): Value
  {
    if o.Some? then Int(o.value) else Null
  }

  /** CategorySerializer output: exactly its three fields, so the premium flag is never shown. */
  function CategoryRepresentation(c: CategoryRow): (out: map<string, Value>)
    ensures out.Keys == FieldSet(CategorySerializer)
    ensures "is_premium" !in out
    ensures out["id"] == Int(c.id) && out["name"] == Str(c.name)
  {
    map["id" := Int(c.id), "name" := Str(c.name), "description" := OptionalText(c.description)]
  }

  /** ReviewSerializer output: the review's own fields and the URL's headline, but neither user nor comment. */
  function ReviewRepresentation(r: ReviewRow, articles: seq<ArticleRow>, kwargs: UrlKwargs): (out: map<string, Value>)
    ensures out.Keys == FieldSet(ReviewSerializer)
    ensures "user" !in out && "comment" !in out
    ensures out["article_headline"] == OptionalText(ArticleHeadline(articles, kwargs))
  {
    map["id" := Int(r.id), "article" := Int(r.articleId),
        "article_headline" := OptionalText(ArticleHeadline(articles, kwargs)),
        "ratings" := Int(r.ratings)]
  }

  /** ArticleSerializer output: the category as a link to its detail view, the author as a key. */
  function ArticleRepresentation(a: ArticleRow): (out: map<string, Value>)
    ensures out.Keys == FieldSet(ArticleSerializer)
    ensures out["category"] == Link("category-detail", a.categoryId) && out["author"] == Int(a.authorId)
  {
    map["id" := Int(a.id), "category" := Link("category-detail", a.categoryId),
        "headline" := Str(a.headline), "image" := OptionalText(a.image), "body" := Str(a.body),
        "published_at" := OptionalInt(a.publishedAt), "author" := Int(a.authorId)]
  }

  /** ArticleDetailSerializer output: the category nested, the summed rating, no author. */
  function ArticleDetailRepresentation(a: ArticleRow, categories: seq<CategoryRow>, reviews: seq<ReviewRow>)
    : (out: map<string, Value>)
    ensures out.Keys == FieldSet(ArticleDetailSerializer)
    ensures out["rating"] == OptionalInt(Rating(reviews, a.id))
    ensures FindCategory(categories, a.categoryId).Some? ==>
              out["category"] == Obj(CategoryRepresentation(FindCategory(categories, a.categoryId).value))
  {
    var found := FindCategory(categories, a.categoryId);
    var category := if found.Some? then Obj(CategoryRepresentation(found.value)) else Null;
    var rating := OptionalInt(Rating(reviews, a.id));
    map["id" := Int(a.id), "headline" := Str(a.headline), "image" := OptionalText(a.image),
        "body" := Str(a.body), "category" := category, "rating" := rating,
        "published_at" := OptionalInt(a.publishedAt)]
  }
}
