# News publishing rules: a Dafny model

This project models the access and publishing rules of a small news service
built on Django REST Framework. The service stores categories, articles and
reviews. Anyone may read. Staff users manage categories and articles. Signed-in
users write reviews. An article is published once, and its publication time is
never moved afterwards.

The model works over an abstract in-memory store, one sequence of rows per
table. The current time is always a parameter.

Modules:

- `Accounts`: the requesting actor and the role values of the user model.
  ADMIN is not among the model's role choices, but the role check accepts it.
- `Permissions`: the project's `IsAdminOrEditor` check, the three framework
  permission classes the views use, and how a list of them becomes one decision.
- `Models`: the three row types with their defaults and bounds. Also an
  `Article` class for a model instance, whose `Publish` method modifies the
  instance and saves it. Also a `Store` class for the database tables.
- `Ordering`: `order_by('-published_at')`. The result is a permutation of its
  input, newest first.
- `Serializers`: the field lists, validation of request bodies, the `rating`
  and `article_headline` computed fields, and the output representations.
- `Filters`: the `ArticleFilter` filter set.
- `Views`: each viewset's permissions, the serializer chosen per action, the
  public queryset, the homepage, the review queryset, and the create operations
  that write rows.

The model follows the code. Points a reader might not expect:

- Writing articles requires the framework's staff flag (`is_staff`). The
  EDITOR role is not enough (`Views.ArticleWritesIgnoreRole`).
- HEAD and OPTIONS on categories and articles are not GET, so they need staff
  too.
- Creating an article with `is_published = true` through the API stores no
  publication time. Only `Article.publish` sets one, and the API never calls it.
- Any signed-in user may create or delete any review. Ownership is not checked.

Conventions:

- Articles without a publication time sort last under "newest first". This is
  SQLite's behaviour, the framework's default database. The order among equal
  times is left open.
- Case-insensitive matching folds ASCII letters only.
- A character is one element of a Dafny `string`.

## Model

| member | source | states |
|---|---|---|
| `Permissions.AdminOrEditor` | news/permissions.py:4-9 | IsAdminOrEditor allows only signed-in users, and a signed-in user exactly when the role is ADMIN or EDITOR. |
| `Permissions.AdminOrEditorDeniesAnonymous` | news/permissions.py:4-9 | A request with nobody signed in never passes IsAdminOrEditor. |
| `Permissions.AdminOrEditorAllowsBothRoles` | news/permissions.py:8 | A signed-in user with role ADMIN or EDITOR passes, whatever its staff flag. |
| `Permissions.AdminOrEditorDeniesOtherRoles` | news/permissions.py:8 | Every other role is refused, SUBSCRIBER and other spellings included, even for staff. |
| `Permissions.AdminOrEditorIgnoresViewAndMethod` | news/permissions.py:4-9 | The decision depends on the user alone, not on the view or the HTTP method. |
| `Permissions.CheckPermissions` | news/views.py:16-27 | A view's permission list allows a request iff every class in it allows. A refusal is "not authenticated" exactly when nobody is signed in, else "forbidden". |
| `Models.NewCategory` | news/models.py:7-12 | A new category is not premium, and both its timestamps are the creation time. |
| `Models.PublishedRow` | news/models.py:30-35 | After publishing, the article is published. An existing publication time is kept, a missing one becomes `now`, and no other field changes. |
| `Models.PublishIdempotent` | news/models.py:33-34 | Publishing a second time, at any time, leaves the row the first publish produced. |
| `Models.PublishSetsTimeOnce` | news/models.py:33-34 | The publication time equals `now` after publish iff it was unset, or already equal to `now`. |
| `Seqs.Find` | news/views.py:78 | `filter(...).first()` returns a stored row that passes the filter, or nothing exactly when no row passes it. |
| `Models.SaveThenFind` | news/models.py:27-35 | After `save`, looking up the saved id gives the saved row. On an insert, the row carries the save time as its creation time. Every other id gives what it gave before. |
| `Models.FindStoredArticle` | news/views.py:78 | With distinct primary keys, looking up a stored article's id finds that very article. |
| `Models.Store.SaveArticle` | news/models.py:27-35 | `save` updates the row with the instance's id, or inserts when there is none, stamping the creation time with the save time. The other tables are unchanged. The store invariant holds: primary keys are distinct and below the next id. |
| `Models.Article.constructor` | news/models.py:18-27 | A new, unsaved article instance is unpublished and has the placeholder image. It has neither a publication time nor a creation time. |
| `Models.Article.Publish` | news/models.py:27-35 | The instance becomes published, keeping an existing publication time or taking `now`. Its other fields are unchanged, except that a first save (an insert) sets its creation time to `now`. The stored article table is the old one with the published row saved, and the stored row equals the instance. The other tables and id counters are unchanged, except that the article counter moves past an id it had not issued. |
| `Models.PublishTwice` | news/models.py:27-35 | Two publish calls leave the publication time of the first. An article first stored by the first call keeps that call's time as its creation time. The stored row equals the instance. |
| `Ordering.OrderByPublishedDesc` | news/filters.py:15 | The ordered queryset is a permutation of its input, and every article is at least as recent as each one after it. |
| `Serializers.OwnershipFieldsNotWritable` | news/serializers.py:7-54 | Clients can write only headline, image, body, category and is_published of an article, article and ratings of a review, and name and description of a category. So author, published_at, a review's user and is_premium are never client-supplied. |
| `Serializers.ValidateArticleWrite` | news/serializers.py:51-54 | An article body is accepted iff every whitelisted field is valid. If not, the failing fields are reported, all of them whitelisted. If so, the data holds the body's headline (1..300 characters), body, an existing category and the is_published flag (false when absent). Headline and body hold no null character. |
| `Serializers.ArticleWriteIgnoresOtherKeys` | news/serializers.py:54 | Validating a body gives the same outcome as validating it restricted to the five whitelisted keys. |
| `Serializers.ValidateReview` | news/serializers.py:22-26 | A review body is accepted iff it names an existing article and a valid rating. An accepted rating lies in 0..4 and is the body's rating. |
| `Serializers.RatingAcceptedIffInBounds` | news/models.py:42 | The rating field is accepted iff it is an integer in 0..4. |
| `Serializers.ValidateCategory` | news/serializers.py:4-7 | A category body is accepted iff its name is non-blank, at most 100 characters, free of null characters and unused, and its description is absent, null, or at most 250 characters with no null character. Errors name only writable fields. On success the data holds the body's name and its description as read: none when absent or null, otherwise the string. |
| `Serializers.CategoryIgnoresPremiumFlag` | news/serializers.py:7 | A body that sets `is_premium` validates exactly like one that does not. |
| `Serializers.UrlArticleId` | news/serializers.py:29 | The URL's article id is `article_pk` when present, else `public_article_pk`. |
| `Serializers.ArticleHeadline` | news/serializers.py:27-35 | `article_headline` is present iff the URL names an article id and that article exists. Then it is the headline of a stored article with that id. |
| `Serializers.ReviewsOf` | news/serializers.py:45 | An article's reviews are exactly the stored reviews whose article id is that article's. |
| `Serializers.ReviewsOfSubMultiset` | news/serializers.py:45 | An article's reviews repeat no stored review: each occurs at most as often as in the table. |
| `Serializers.Rating` | news/serializers.py:44-49 | `rating` is none iff no review belongs to the article. |
| `Serializers.RatingBounds` | news/serializers.py:48 | With every rating in 0..4, the rating of an article with n reviews lies in 0..4n. |
| `Serializers.RatingAfterReview` | news/serializers.py:48 | Adding a review of the article adds its rating to the sum, or starts the sum when there was none. A review of another article changes nothing. With the empty case, this fixes the rating as the sum of the ratings, not their mean. |
| `Serializers.CategoryRepresentation` | news/serializers.py:4-7 | A category's output has exactly the keys id, name and description. `is_premium` is never shown. |
| `Serializers.ReviewRepresentation` | news/serializers.py:22-26 | A review's output has exactly id, article, article_headline and ratings, with no user and no comment. The headline comes from the URL. |
| `Serializers.ArticleRepresentation` | news/serializers.py:9-18 | The list output has exactly its seven fields. The category is a link to the category detail view, and the author is a user id. |
| `Serializers.ArticleDetailRepresentation` | news/serializers.py:37-49 | The detail output has exactly its seven fields. The category is nested as CategorySerializer output and the rating is the summed rating. |
| `Filters.OccursIffSubstring` | news/filters.py:6 | The substring check is true iff the needle stands at some position of the text. |
| `Filters.FilterCategoryId` | news/filters.py:5 | `category_id` keeps exactly the articles whose category id equals the value. |
| `Filters.FilterCategoryName` | news/filters.py:6 | `category_name` keeps exactly the articles whose category exists and whose name contains the value, ignoring ASCII case. |
| `Filters.FilterLastNews` | news/filters.py:13-16 | `last_news = true` returns a newest-first permutation of the queryset. `false` returns the queryset unchanged. |
| `Filters.ApplyArticleFilter` | news/filters.py:4-16 | The filter set never lengthens the queryset. Without a category id or a non-empty category name, it returns a permutation of its input. |
| `Filters.ApplyArticleFilterSound` | news/filters.py:4-16 | The filter set returns a sub-multiset of its input. Each given filter holds of every result, the result is newest first when asked, and no parameters mean no change. |
| `Filters.ApplyArticleFilterComplete` | news/filters.py:4-16 | Every input article that passes each given filter is in the result. |
| `Filters.EmptyNameMatchesEveryCategory` | news/filters.py:6 | An empty name matches every article whose category exists, so skipping an empty parameter loses nothing. |
| `Filters.UpperCaseQueryMatchesTheSame` | news/filters.py:6 | Upper-casing the ASCII letters of a `category_name` query never changes which names it matches. |
| `Views.CategoryPermissions` | news/views.py:16-19 | Categories use `[AllowAny]` exactly for GET and `[IsAdminUser]` for every other method. |
| `Views.ArticlePermissions` | news/views.py:24-27 | Articles use `[AllowAny]` exactly for GET and `[IsAdminUser]` for every other method. |
| `Views.CategoryAccess` | news/views.py:16-19 | Categories: GET is allowed for anyone. Any other method is allowed for staff only, refused as forbidden for other signed-in users and as not authenticated for anonymous ones. |
| `Views.ArticleAccess` | news/views.py:24-27 | Articles: the same table as categories. |
| `Views.ArticleWritesIgnoreRole` | news/views.py:27 | Writing articles depends on the staff flag alone. A non-staff user of any role, EDITOR and ADMIN included, is forbidden, and a staff user of any role is allowed. |
| `Views.HeadAndOptionsNeedStaff` | news/views.py:17 | HEAD on categories and OPTIONS on articles are refused to non-staff users. |
| `Views.ReviewAccess` | news/views.py:64 | Reviews: safe methods are open to all, every other method needs a signed-in user, and no signed-in user is ever refused. |
| `Views.SerializerFor` | news/views.py:33-41 | The write serializer is chosen iff the action is create, update or partial_update, and the detail serializer iff it is retrieve. Every other action gets the list serializer. |
| `Views.WriteActionsCannotSetOwnership` | news/views.py:38-39 | Under every write action, neither author nor published_at is writable. |
| `Views.PublicQueryset` | news/views.py:44 | The public viewset serves exactly the published articles. |
| `Views.Homepage` | news/views.py:49-58 | The corrected homepage has one entry per selected article, in selection order. Each entry is that article's headline and body preview. |
| `Views.HomepageArticles` | news/views.py:49 | The selection is the first min(50, number of published) articles of the published ones in newest-first order. |
| `Views.HomepageSelection` | news/views.py:49 | The homepage selection holds min(50, number of published) articles, all published and stored, newest first, and repeats none (it is a sub-multiset of the published articles). No published article left out is newer than one taken. |
| `Views.HomepageEntries` | news/views.py:50-58 | At most 50 entries. Each holds the headline of a published article and the body's 50-character prefix, or the whole body if shorter. |
| `Views.HomepageAsWritten` | news/views.py:49-58 | The homepage as written succeeds only with an empty selection, and then returns no entries. |
| `Views.HomepageAsWrittenFails` | news/views.py:53 | As written, the homepage fails whenever any article is published, though the corrected one has entries. |
| `Views.HomepageAsWrittenCounterexample` | news/views.py:53 | With one published article, the as-written homepage fails and the corrected one shows its headline and body. |
| `Views.ReviewQueryset` | news/views.py:66-72 | With an article id in the URL, the queryset holds exactly the reviews of that article. Without one, it holds all reviews. Either way it repeats no review (a sub-multiset of the table). |
| `Views.ReviewQuerysetPrefersArticlePk` | news/views.py:67-69 | When both URL ids are present, `public_article_pk` is ignored. |
| `Views.CategoryCreation` | news/views.py:13-15 | A created category is valid, has the body's name, which is unused, and the body's description (none when absent or null). It is never premium and both timestamps are the creation time. Validation errors are passed through. |
| `Views.ArticleCreation` | news/views.py:29-30 | A created article has the requester as author and no publication time. Its headline, body, category and flag come from the body. Validation errors are passed through. |
| `Views.ArticleCreationIgnoresClientOwnership` | news/serializers.py:54 | Adding `author` or `published_at` to the body does not change the created article. |
| `Views.ReviewCreation` | news/views.py:73-77 | A created review has the requester as user, the URL's article id, the validated rating and an empty comment. Without a URL article id, a valid body is refused. An invalid body is refused with the serializer's error fields. |
| `Views.ReviewCreationIgnoresClientUser` | news/views.py:77 | Adding `user` to the body does not change the created review. |
| `Views.NotificationHeadline` | news/views.py:78-79 | The mail names the URL article's headline, or 'Unknown Article' when no such article exists. |
| `Views.NotificationNamesStoredArticle` | news/views.py:78-79 | With distinct primary keys, the mail names the headline of the very article reviewed. |
| `Views.CreateCategory` | news/views.py:13-15 | The category table grows by the created row, or stays unchanged on a validation error. The category counter moves on by one exactly on success. The other tables and counters are untouched. |
| `Views.CreateArticle` | news/views.py:29-30 | The article table grows by the created row and the article counter by one, or both stay unchanged on error. The other tables and counters are untouched. The new id then finds an article authored by the requester. |
| `Views.CreateReview` | news/views.py:73-79 | The review table grows by the created row and the review counter by one, or both stay unchanged on error. The other tables and counters are untouched. The result carries the new id, the requester as the mail's recipient, and the mail's headline. If every stored rating was in 0..4 before, every one still is. |

## Left out

- Sending the thank-you mail is left out: it is outbound I/O with errors swallowed. Only the recipient (the requesting user's id) and the choice of headline are modelled.
- The ORM, querysets and routing are represented by sequences of rows. Of the URL configuration, only the two parameters `article_pk` and `public_article_pk` are kept.
- The database's foreign-key checks are not modelled, so a review may name a URL article that does not exist. On a database that enforces the checks, such a review is refused before the mail's headline is chosen, and 'Unknown Article' cannot occur. The NOT NULL article column is modelled: a review without a URL article id is refused.
- Image storage is left out; an image is an opaque name or null.
- The framework's value coercions are left out: numbers are not read as strings, and "true" or 1 are not read as booleans. Whitespace trimming of text fields is left out too. A value of the wrong type is simply invalid.
- `FilterParams` holds query parameters already cleaned by the filter's form fields; the cleaning is left out. So `category_name` is taken as already stripped: a query of only spaces arrives as the empty name and leaves the queryset alone. `category_id` is taken as an already parsed integer: the decimal parsing of the query string, and a non-integral value, are not modelled. `last_news` is taken as an already parsed boolean.
- The update, partial-update and delete paths are left out. They use the framework's default behaviour, not code of this project. Serializer choice and permissions for them are modelled.
- The database's primary-key sequence is left out: `save` of an instance whose id is absent inserts it and moves the next id past it.
- Models.Article.Publish: an instance that was never saved but whose id matches a stored row is updated with the save time as its creation time. In the source, that UPDATE writes a null `created_at`, which the NOT NULL column refuses. The model does not represent that database error.
- Whether a refusal of an anonymous request is answered 401 or 403 depends on the configured authentication classes, which are not part of this model; the model only tells "not authenticated" from "forbidden".
- The permission of the public article viewset is left out. It comes from project settings that are not part of this model.
- `ArticleFilter` is not attached to any viewset in the files modelled. Its filters are modelled as functions on their own.
- User registration, the user list view, the user serializers and the admin configuration are left out. They are configuration of library code.
- The `ratings` item of the homepage is left out of the corrected homepage (see Findings). What it was meant to hold is not evident.
- Wall-clock time is a parameter.

## Findings

| source | as written | input that shows it | evidently intended | confidence | as-written member | corrected member |
|---|---|---|---|---|---|---|
| news/views.py:53 | Each homepage item reads `article.ratings`. Article declares no such field (news/models.py:18-37), and its reviews are reached as `reviews`. | A store with one published article. The first item raises AttributeError, so the homepage fails. | One item per selected article, with the headline and the first 50 characters of the body. | high, not executed | `Views.HomepageAsWritten` (shown by `Views.HomepageAsWrittenFails` and `Views.HomepageAsWrittenCounterexample`) | `Views.Homepage` (proved by `Views.HomepageSelection` and `Views.HomepageEntries`) |
