/**
 * `order_by('-published_at')`: latest publication first. Articles without a
 * publication time come last (the convention of SQLite, the framework's
 * default database); the order among equal times is left open.
 */
module Ordering {
  import opened Wrappers
  import opened Models

  /** `a` may stand before `b`: `a` was published no earlier than `b`, a missing time counting as earliest. */
  predicate AtLeastAsRecent(a: ArticleRow, b: ArticleRow)
  {
    match b.publishedAt
    case None => true
    case Some(t) => a.publishedAt.Some? && a.publishedAt.value >= t
  }

  lemma AtLeastAsRecentTotal(a: ArticleRow, b: ArticleRow)
    ensures AtLeastAsRecent(a, b) || AtLeastAsRecent(b, a)
  {
  }

  lemma AtLeastAsRecentTransitive(a: ArticleRow, b: ArticleRow, c: ArticleRow)
    requires AtLeastAsRecent(a, b) && AtLeastAsRecent(b, c)
    ensures AtLeastAsRecent(a, c)
  {
  }

  predicate NewestFirst(s: seq<ArticleRow>)
  {
    forall i, j :: 0 <= i < j < |s| ==> AtLeastAsRecent(s[i], s[j])
  }

  /** Insert `x` before the first element it is at least as recent as. */
  function InsertByRecency(x: ArticleRow, s: seq<ArticleRow>): (r: seq<ArticleRow>)
    ensures multiset(r) == multiset(s) + multiset{x}
    ensures |r| == |s| + 1
  {
    if s == [] then [x]
    else if AtLeastAsRecent(x, s[0]) then [x] + s
    else
      assert s == [s[0]] + s[1..];
      [s[0]] + InsertByRecency(x, s[1..])
  }

  lemma {:induction false} InsertKeepsNewestFirst(x: ArticleRow, s: seq<ArticleRow>)
    requires NewestFirst(s)
    ensures NewestFirst(InsertByRecency(x, s))
  {
    if s == [] {
    } else if AtLeastAsRecent(x, s[0]) {
      forall j | 0 < j < |s| ensures AtLeastAsRecent(x, s[j]) {
        AtLeastAsRecentTransitive(x, s[0], s[j]);
      }
    } else {
      var rest := InsertByRecency(x, s[1..]);
      InsertKeepsNewestFirst(x, s[1..]);
      AtLeastAsRecentTotal(x, s[0]);
      forall k | 0 <= k < |rest| ensures AtLeastAsRecent(s[0], rest[k]) {
        assert rest[k] in multiset(rest);
        if rest[k] != x {
          assert rest[k] in multiset(s[1..]);
          assert rest[k] in s[1..];
        }
      }
      var r := [s[0]] + rest;
      forall i, j | 0 <= i < j < |r| ensures AtLeastAsRecent(r[i], r[j]) {
        if i > 0 {
          assert r[i] == rest[i - 1] && r[j] == rest[j - 1];
        } else {
          assert r[j] == rest[j - 1];
        }
      }
    }
  }

  /** The articles in `-published_at` order: a permutation of the input, newest first. */
  function OrderByPublishedDesc(s: seq<ArticleRow>): (r: seq<ArticleRow>)
    ensures multiset(r) == multiset(s)
    ensures |r| == |s|
    ensures NewestFirst(r)
  {
    if s == [] then []
    else
      assert s == [s[0]] + s[1..];
      var rest := OrderByPublishedDesc(s[1..]);
      InsertKeepsNewestFirst(s[0], rest);
      InsertByRecency(s[0], rest)
  }
}
