/**
 * The stored entities (Category, Article, Review), their field defaults and
 * bounds, the Article model instance with its `publish` operation, and an
 * in-memory store standing for the database tables.
 */
module Models {
  import opened Wrappers
  import opened Seqs

  /** A point in time; the current time is always passed in. */
  type Time = int

  const CategoryNameMaxLength: nat := 100
  const DescriptionMaxLength: nat := 250
  const HeadlineMaxLength: nat := 300

  /** The image field's default: the storage service's placeholder. Images are opaque names. */
  const DefaultImage: string := "placeholder"

  /** Bounds of the validators on Review.ratings. */
  const MinRating: int := 0
  const MaxRating: int := 4

  datatype CategoryRow = CategoryRow(
    id: nat, name: string, description: Option<string>, isPremium: bool,
    createdAt: Time, updatedAt: Time)

  datatype ArticleRow = ArticleRow(
    id: nat, headline: string, body: string, image: Option<string>,
    categoryId: nat, authorId: nat, publishedAt: Option<Time>, isPublished: bool,
    createdAt: Time)

  datatype ReviewRow = ReviewRow(
    id: nat, articleId: nat, userId: nat, ratings: nat, comment: string,
    createdAt: Time, updatedAt: Time)

  /** A rating passes the model's validators exactly when it lies in 0..4. */
  predicate ValidRating(k: int) { MinRating <= k <= MaxRating }

  /** Every stored rating passed the validators; the database itself does not enforce them. */
  predicate RatingsValid(reviews: seq<ReviewRow>)
  {
    forall i :: 0 <= i < |reviews| ==> ValidRating(reviews[i].ratings)
  }

  /** A new category with the model's defaults: not premium, both timestamps `now`. */
  function NewCategory(id: nat, name: string, description: Option<string>, now: Time): (c: CategoryRow)
    ensures !c.isPremium
    ensures c.id == id && c.name == name && c.description == description
    ensures c.createdAt == now && c.updatedAt == now
  {
    CategoryRow(id, name, description, false, now, now)
  }

  /** The row `publish` leaves: published, with the first publication time kept if there was one. */
  function PublishedRow(r: ArticleRow, now: Time): (p: ArticleRow)
    ensures p.isPublished
    ensures r.publishedAt.Some? ==> p.publishedAt == r.publishedAt
    ensures r.publishedAt.None? ==> p.publishedAt == Some(now)
    ensures p.(isPublished := r.isPublished, publishedAt := r.publishedAt) == r
  {
    r.(isPublished := true, publishedAt := if r.publishedAt.Some? then r.publishedAt else Some(now))
  }

  /** Publishing again, at any later or earlier time, changes nothing. */
  lemma PublishIdempotent(r: ArticleRow, t1: Time, t2: Time)
    ensures PublishedRow(PublishedRow(r, t1), t2) == PublishedRow(r, t1)
  {
  }

  /** The publication time is `now` exactly when the article had none. */
  lemma PublishSetsTimeOnce(r: ArticleRow, now: Time)
    ensures PublishedRow(r, now).publishedAt == Some(now) <==> r.publishedAt.None? || r.publishedAt == Some(now)
  {
  }

  /** The first article with id `id`, if any (`Article.objects.filter(pk=id).first()`). */
  function FindArticle(rows: seq<ArticleRow>, id: nat): Option<ArticleRow>
  {
    Find(rows, (a: ArticleRow) => a.id == id)
  }

  /** The first category with id `id`, if any. */
  function FindCategory(rows: seq<CategoryRow>, id: nat): Option<CategoryRow>
  {
    Find(rows, (c: CategoryRow) => c.id == id)
  }

  /** Every row whose id is `row.id` replaced by `row` (an UPDATE by primary key). */
  function ReplaceArticle(rows: seq<ArticleRow>, row: ArticleRow): (r: seq<ArticleRow>)
    ensures |r| == |rows|
  {
    if rows == [] then []
    else [if rows[0].id == row.id then row else rows[0]] + ReplaceArticle(rows[1..], row)
  }

  /**
   * Django's `save` at time `now`: update the row with the same primary key, or
   * insert one when there is none. The insert stamps `created_at` with `now`
   * (auto_now_add); an update writes the row as given.
   */
  function SavedArticles(rows: seq<ArticleRow>, row: ArticleRow, now: Time): seq<ArticleRow>
  {
    if FindArticle(rows, row.id).Some? then ReplaceArticle(rows, row) else rows + [row.(createdAt := now)]
  }

  lemma {:induction false} ReplaceThenFind(rows: seq<ArticleRow>, row: ArticleRow, id: nat)
    ensures FindArticle(ReplaceArticle(rows, row), id) ==
      if id == row.id then (if FindArticle(rows, id).Some? then Some(row) else None)
      else FindArticle(rows, id)
  {
    if rows != [] {
      ReplaceThenFind(rows[1..], row, id);
    }
  }

  lemma {:induction false} AppendThenFind(rows: seq<ArticleRow>, row: ArticleRow, id: nat)
    ensures FindArticle(rows + [row], id) ==
      if FindArticle(rows, id).Some? then FindArticle(rows, id)
      else if id == row.id then Some(row) else None
  {
    if rows != [] {
      assert (rows + [row])[1..] == rows[1..] + [row];
      AppendThenFind(rows[1..], row, id);
    }
  }

  /**
   * After saving, looking up the saved id yields the saved row, stamped with
   * the save time if it was inserted; every other id is unaffected.
   */
  lemma SaveThenFind(rows: seq<ArticleRow>, row: ArticleRow, now: Time, id: nat)
    ensures FindArticle(SavedArticles(rows, row, now), id) ==
      if id != row.id then FindArticle(rows, id)
      else if FindArticle(rows, id).Some? then Some(row)
      else Some(row.(createdAt := now))
  {
    if FindArticle(rows, row.id).Some? {
      ReplaceThenFind(rows, row, id);
    } else {
      AppendThenFind(rows, row.(createdAt := now), id);
    }
  }

  function CategoryKey(c: CategoryRow): nat { c.id }
  function ArticleKey(a: ArticleRow): nat { a.id }
  function ReviewKey(r: ReviewRow): nat { r.id }

  /** With distinct primary keys, looking up a stored article's id finds that very row. */
  lemma FindStoredArticle(rows: seq<ArticleRow>, i: int)
    requires KeysDistinct(rows, ArticleKey) && 0 <= i < |rows|
    ensures FindArticle(rows, rows[i].id) == Some(rows[i])
  {
    var p := (a: ArticleRow) => a.id == rows[i].id;
    forall j | 0 <= j < i ensures !p(rows[j]) {
      assert ArticleKey(rows[j]) != ArticleKey(rows[i]);
    }
    FindFirst(rows, p, i);
  }

  /** The database: one sequence per table, kept in insertion order, and the next free primary keys. */
  class Store {
    var categories: seq<CategoryRow>
    var articles: seq<ArticleRow>
    var reviews: seq<ReviewRow>
    var nextCategoryId: nat
    var nextArticleId: nat
    var nextReviewId: nat

    /** Primary keys are distinct within each table and below the next one to be handed out. */
    ghost predicate Valid()
      reads this
    {
      (forall i :: 0 <= i < |categories| ==> categories[i].id < nextCategoryId) &&
      (forall i :: 0 <= i < |articles| ==> articles[i].id < nextArticleId) &&
      (forall i :: 0 <= i < |reviews| ==> reviews[i].id < nextReviewId) &&
      KeysDistinct(categories, CategoryKey) && KeysDistinct(articles, ArticleKey) && KeysDistinct(reviews, ReviewKey)
    }

    constructor ()
      ensures Valid()
      ensures categories == [] && articles == [] && reviews == []
      ensures nextCategoryId == 1 && nextArticleId == 1 && nextReviewId == 1
    {
      categories, articles, reviews := [], [], [];
      nextCategoryId, nextArticleId, nextReviewId := 1, 1, 1;
    }

    /** INSERT of a new category under the next primary key. */
    method InsertCategory(row: CategoryRow)
      requires Valid() && row.id == nextCategoryId
      modifies this
      ensures Valid()
      ensures categories == old(categories) + [row] && nextCategoryId == old(nextCategoryId) + 1
      ensures articles == old(articles) && reviews == old(reviews)
      ensures nextArticleId == old(nextArticleId) && nextReviewId == old(nextReviewId)
    {
      categories := categories + [row];
      nextCategoryId := nextCategoryId + 1;
    }

    /** INSERT of a new article under the next primary key. */
    method InsertArticle(row: ArticleRow)
      requires Valid() && row.id == nextArticleId
      modifies this
      ensures Valid()
      ensures articles == old(articles) + [row] && nextArticleId == old(nextArticleId) + 1
      ensures categories == old(categories) && reviews == old(reviews)
      ensures nextCategoryId == old(nextCategoryId) && nextReviewId == old(nextReviewId)
    {
      articles := articles + [row];
      nextArticleId := nextArticleId + 1;
    }

    /** INSERT of a new review under the next primary key. */
    method InsertReview(row: ReviewRow)
      requires Valid() && row.id == nextReviewId
      modifies this
      ensures Valid()
      ensures reviews == old(reviews) + [row] && nextReviewId == old(nextReviewId) + 1
      ensures categories == old(categories) && articles == old(articles)
      ensures nextCategoryId == old(nextCategoryId) && nextArticleId == old(nextArticleId)
    {
      reviews := reviews + [row];
      nextReviewId := nextReviewId + 1;
    }

    /** `save` of an article instance at time `now`: update by primary key, or insert when the key is absent. */
    method SaveArticle(row: ArticleRow, now: Time)
      requires Valid()
      modifies this
      ensures Valid()
      ensures articles == SavedArticles(old(articles), row, now)
      ensures nextArticleId == if row.id < old(nextArticleId) then old(nextArticleId) else row.id + 1
      ensures categories == old(categories) && reviews == old(reviews)
      ensures nextCategoryId == old(nextCategoryId) && nextReviewId == old(nextReviewId)
    {
      ReplaceKeepsIds(articles, row);
      articles := SavedArticles(articles, row, now);
      if nextArticleId <= row.id {
        nextArticleId := row.id + 1;
      }
    }
  }

  lemma {:induction false} ReplaceKeepsIds(rows: seq<ArticleRow>, row: ArticleRow)
    ensures forall i :: 0 <= i < |rows| ==> ReplaceArticle(rows, row)[i].id == rows[i].id
  {
    if rows != [] {
      ReplaceKeepsIds(rows[1..], row);
      forall i | 0 <= i < |rows|
        ensures ReplaceArticle(rows, row)[i].id == rows[i].id
      {
        if i > 0 {
          assert ReplaceArticle(rows, row)[i] == ReplaceArticle(rows[1..], row)[i - 1];
        }
      }
    }
  }

  /** An article model instance: the fields `publish` assigns before saving itself. */
  class Article {
    var id: nat
    var headline: string
    var body: string
    var image: Option<string>
    var categoryId: nat
    var authorId: nat
    var publishedAt: Option<Time>
    var isPublished: bool
    /** Unset until the first save stamps it (auto_now_add). */
    var createdAt: Option<Time>

    /** The row the instance writes when saved at `now`; an insert stamps the creation time with `now`. */
    function RowAt(now: Time): ArticleRow
      reads this
    {
      ArticleRow(id, headline, body, image, categoryId, authorId, publishedAt, isPublished,
                 if createdAt.Some? then createdAt.value else now)
    }

    /** A new, unsaved instance with the model's defaults: unpublished, no publication or creation time, placeholder image. */
    constructor (id: nat, headline: string, body: string, categoryId: nat, authorId: nat)
      ensures this.id == id && this.headline == headline && this.body == body
      ensures this.categoryId == categoryId && this.authorId == authorId
      ensures image == Some(DefaultImage) && publishedAt.None? && !isPublished && createdAt.None?
    {
      this.id, this.headline, this.body := id, headline, body;
      this.image := Some(DefaultImage);
      this.categoryId, this.authorId := categoryId, authorId;
      this.publishedAt, this.isPublished := None, false;
      this.createdAt := None;
    }

    /**
     * Article.publish: mark as published, set the publication time only if none
     * is set yet, then save the instance into the store.
     */
    method Publish(now: Time, db: Store)
      requires db.Valid()
      modifies this, db
      ensures isPublished
      ensures old(publishedAt).Some? ==> publishedAt == old(publishedAt)
      ensures old(publishedAt).None? ==> publishedAt == Some(now)
      ensures id == old(id) && headline == old(headline) && body == old(body) && image == old(image)
      ensures categoryId == old(categoryId) && authorId == old(authorId)
      ensures createdAt == if FindArticle(old(db.articles), id).None? then Some(now) else old(createdAt)
      ensures db.Valid()
      ensures db.articles == SavedArticles(old(db.articles), PublishedRow(old(RowAt(now)), now), now)
      ensures FindArticle(db.articles, id) == Some(RowAt(now))
      ensures db.categories == old(db.categories) && db.reviews == old(db.reviews)
      ensures db.nextArticleId == if id < old(db.nextArticleId) then old(db.nextArticleId) else id + 1
      ensures db.nextCategoryId == old(db.nextCategoryId) && db.nextReviewId == old(db.nextReviewId)
    {
      var inserting := FindArticle(db.articles, id).None?;
      isPublished := true;
      if publishedAt.None? {
        publishedAt := Some(now);
      }
      var row := RowAt(now);
      SaveThenFind(db.articles, row, now, id);
      db.SaveArticle(row, now);
      if inserting {
        createdAt := Some(now);
      }
    }
  }

  /**
   * Two calls to `publish` leave the publication time of the first, and an
   * article first stored by the first call keeps that call's creation time.
   */
  method PublishTwice(a: Article, db: Store, t1: Time, t2: Time)
    requires db.Valid()
    modifies a, db
    ensures a.isPublished
    ensures a.publishedAt == if old(a.publishedAt).Some? then old(a.publishedAt) else Some(t1)
    ensures FindArticle(old(db.articles), a.id).None? ==> a.createdAt == Some(t1)
    ensures FindArticle(db.articles, a.id) == Some(a.RowAt(t2))
  {
    a.Publish(t1, db);
    a.Publish(t2, db);
  }
}
