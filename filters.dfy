/**
 * ArticleFilter: `category_id` (exact match on the category's id),
 * `category_name` (case-insensitive substring of the category's name, over
 * ASCII letters) and `last_news` (newest first when true).
 */
module Filters {
  import opened Wrappers
  import opened Seqs
  import opened Models
  import opened Ordering

  /**
   * Query parameters as the filter's form fields have cleaned them: the name is
   * already stripped of surrounding whitespace and the id already parsed. An
   * absent one leaves the queryset alone.
   */
  datatype FilterParams = FilterParams(categoryId: Option<int>, categoryName: Option<string>, lastNews: Option<bool>)

  function LowerAscii(c: char): char
  {
    if 'A' <= c <= 'Z' then (c as int - 'A' as int + 'a' as int) as char else c
  }

  function Lower(s: string): (r: string)
    ensures |r| == |s|
    ensures forall i :: 0 <= i < |s| ==> r[i] == LowerAscii(s[i])
  {
    seq(|s|, i requires 0 <= i < |s| => LowerAscii(s[i]))
  }

  predicate StartsWith(s: string, prefix: string)
  {
    |prefix| <= |s| && s[..|prefix|] == prefix
  }

  /** Whether `needle` occurs in `hay`, checked position by position. */
  predicate Occurs(needle: string, hay: string)
    decreases |hay|
  {
    StartsWith(hay, needle) || (|hay| > 0 && Occurs(needle, hay[1..]))
  }

  /** `needle` stands in `hay` at position `i`. */
  predicate OccursAt(needle: string, hay: string, i: int)
  {
    0 <= i && i + |needle| <= |hay| && hay[i..i + |needle|] == needle
  }

  /** The positional check agrees with the definition of a substring. */
  lemma {:induction false} OccursIffSubstring(needle: string, hay: string)
    decreases |hay|
    ensures Occurs(needle, hay) <==> exists i :: OccursAt(needle, hay, i)
  {
    if |hay| > 0 {
      OccursIffSubstring(needle, hay[1..]);
    }
    if Occurs(needle, hay) {
      if StartsWith(hay, needle) {
        assert OccursAt(needle, hay, 0);
      } else {
        var i :| OccursAt(needle, hay[1..], i);
        assert hay[1..][i..i + |needle|] == hay[i + 1..i + 1 + |needle|];
        assert OccursAt(needle, hay, i + 1);
      }
    }
    forall i | OccursAt(needle, hay, i) ensures Occurs(needle, hay) {
      if i > 0 {
        var tail := hay[1..];
        assert tail[i - 1..i - 1 + |needle|] == hay[i..i + |needle|];
        assert OccursAt(needle, tail, i - 1);
      }
    }
  }

  /** `icontains`, ASCII case folding only. */
  predicate ContainsIgnoringCase(hay: string, needle: string)
  {
    Occurs(Lower(needle), Lower(hay))
  }

  predicate InCategory(a: ArticleRow, id: int)
  {
    a.categoryId == id
  }

  /** The article's category exists and its name contains `name`, ignoring case. */
  predicate CategoryNameMatches(a: ArticleRow, categories: seq<CategoryRow>, name: string)
  {
    var c := FindCategory(categories, a.categoryId);
    c.Some? && ContainsIgnoringCase(c.value.name, name)
  }

  /** The `category_id` filter. */
  function FilterCategoryId(qs: seq<ArticleRow>, id: int): (r: seq<ArticleRow>)
    ensures forall a :: a in r <==> a in qs && a.categoryId == id
    ensures multiset(r) <= multiset(qs)
  {
    Select(qs, (a: ArticleRow) => InCategory(a, id))
  }

  /** The `category_name` filter. */
  function FilterCategoryName(qs: seq<ArticleRow>, categories: seq<CategoryRow>, name: string): (r: seq<ArticleRow>)
    ensures forall a :: a in r <==> a in qs && CategoryNameMatches(a, categories, name)
    ensures multiset(r) <= multiset(qs)
  {
    Select(qs, (a: ArticleRow) => CategoryNameMatches(a, categories, name))
  }

  /** filter_last_news: newest first when the value is true, the queryset untouched otherwise. */
  function FilterLastNews(qs: seq<ArticleRow>, value: bool): (r: seq<ArticleRow>)
    ensures value ==> multiset(r) == multiset(qs) && NewestFirst(r)
    ensures !value ==> r == qs
  {
    if value then OrderByPublishedDesc(qs) else qs
  }

  /**
   * The filter set, applied in declaration order. An empty name, like an
   * absent parameter, leaves the queryset alone.
   */
  function ApplyArticleFilter(qs: seq<ArticleRow>, categories: seq<CategoryRow>, params: FilterParams)
    : (r: seq<ArticleRow>)
    ensures |r| <= |qs|
    ensures params.categoryId.None? && (params.categoryName.None? || params.categoryName == Some("")) ==>
              multiset(r) == multiset(qs)
  {
    var byId := if params.categoryId.Some? then FilterCategoryId(qs, params.categoryId.value) else qs;
    var byName := if params.categoryName.Some? && params.categoryName.value != ""
                  then FilterCategoryName(byId, categories, params.categoryName.value) else byId;
    if params.lastNews.Some? then FilterLastNews(byName, params.lastNews.value) else byName
  }

  /** The filtered queryset holds only input articles that pass every given filter, newest first when asked. */
  lemma ApplyArticleFilterSound(qs: seq<ArticleRow>, categories: seq<CategoryRow>, params: FilterParams)
    ensures var r := ApplyArticleFilter(qs, categories, params);
      && multiset(r) <= multiset(qs)
      && (params.categoryId.Some? ==> forall a :: a in r ==> a.categoryId == params.categoryId.value)
      && (params.categoryName.Some? && params.categoryName.value != "" ==>
            forall a :: a in r ==> CategoryNameMatches(a, categories, params.categoryName.value))
      && (params.lastNews == Some(true) ==> NewestFirst(r))
      && (params == FilterParams(None, None, None) ==> r == qs)
  {
    var r := ApplyArticleFilter(qs, categories, params);
    var byId := if params.categoryId.Some? then FilterCategoryId(qs, params.categoryId.value) else qs;
    var byName := if params.categoryName.Some? && params.categoryName.value != ""
                  then FilterCategoryName(byId, categories, params.categoryName.value) else byId;
    assert multiset(r) == multiset(byName) && multiset(byName) <= multiset(byId) && multiset(byId) <= multiset(qs);
    forall a | a in r ensures a in byName && a in byId {
      assert a in multiset(r);
      assert a in multiset(byId);
    }
  }

  /** The filter set drops no input article that passes every given filter. */
  lemma ApplyArticleFilterComplete(qs: seq<ArticleRow>, categories: seq<CategoryRow>, params: FilterParams, a: ArticleRow)
    requires a in qs
    requires params.categoryId.Some? ==> a.categoryId == params.categoryId.value
    requires params.categoryName.Some? && params.categoryName.value != "" ==>
               CategoryNameMatches(a, categories, params.categoryName.value)
    ensures a in ApplyArticleFilter(qs, categories, params)
  {
    var byId := if params.categoryId.Some? then FilterCategoryId(qs, params.categoryId.value) else qs;
    assert a in byId;
    var byName := if params.categoryName.Some? && params.categoryName.value != ""
                  then FilterCategoryName(byId, categories, params.categoryName.value) else byId;
    assert a in byName;
    if params.lastNews.Some? {
      var r := FilterLastNews(byName, params.lastNews.value);
      assert a in multiset(byName);
      assert a in multiset(r);
    }
  }

  /** The empty string is contained in every name, so the empty-name shortcut loses nothing. */
  lemma EmptyNameMatchesEveryCategory(a: ArticleRow, categories: seq<CategoryRow>)
    requires FindCategory(categories, a.categoryId).Some?
    ensures CategoryNameMatches(a, categories, "")
  {
    assert Lower("") == [];
    var name := Lower(FindCategory(categories, a.categoryId).value.name);
    assert name[..0] == [];
  }

  function UpperAscii(c: char): char
  {
    if 'a' <= c <= 'z' then (c as int - 'a' as int + 'A' as int) as char else c
  }

  function Upper(s: string): (r: string)
    ensures |r| == |s|
    ensures forall i :: 0 <= i < |s| ==> r[i] == UpperAscii(s[i])
  {
    seq(|s|, i requires 0 <= i < |s| => UpperAscii(s[i]))
  }

  /** Matching ignores letter case: upper-casing the query's ASCII letters finds the same categories. */
  lemma UpperCaseQueryMatchesTheSame(hay: string, needle: string)
    ensures ContainsIgnoringCase(hay, Upper(needle)) == ContainsIgnoringCase(hay, needle)
  {
    assert Lower(Upper(needle)) == Lower(needle) by {
      forall i | 0 <= i < |needle| ensures Lower(Upper(needle))[i] == Lower(needle)[i] {
        assert Upper(needle)[i] == UpperAscii(needle[i]);
      }
    }
  }
}
