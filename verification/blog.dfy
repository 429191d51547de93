/**
 * The blog post query layer: listing the published posts newest first,
 * the latest few of them, lookup by slug, and the posts related to a given
 * one by a shared tag. The post collection, a module-level import in the
 * site's code, is an explicit parameter of every query here.
 */
module Blog {
  import opened Wrappers
  import opened JsArray

  /**
   * A post record as the content pipeline supplies it. `publishedAt` is the
   * point in time the date string parses to, as an integer key; `tags` may be
   * absent. Display-only fields other than the title are not modelled.
   */
  datatype Post = Post(slug: string, title: string, publishedAt: int, tags: Option<seq<string>>, published: bool)

  /** The number of posts the "latest" and "related" queries return by default. */
  const DefaultLimit := 3

  /** `post.tags || []`: an absent tag list reads as empty. */
  function TagList(p: Post): (r: seq<string>)
    ensures p.tags.None? ==> r == []
    ensures p.tags.Some? ==> r == p.tags.value
  {
    match p.tags
    case None => []
    case Some(ts) => ts
  }

  /** `current.some(tag => other.includes(tag))`: some tag of `current` occurs in `other`. */
  function SharesTag(current: seq<string>, other: seq<string>): (b: bool)
    ensures b <==> exists t :: t in current && t in other
    ensures current == [] || other == [] ==> !b
  {
    exists i :: 0 <= i < |current| && current[i] in other
  }

  /** The `post.published` test of the listing and of the related-posts filter. */
  predicate IsPublished(p: Post) {
    p.published
  }

  /** Newest first: `publishedAt` never increases along the sequence. */
  predicate NewestFirst(s: seq<Post>) {
    forall i, j :: 0 <= i < j < |s| ==> s[i].publishedAt >= s[j].publishedAt
  }

  // ---------------------------------------------------------------------------
  // The sort by `publishedAt`, descending, with the comparator
  // `(a, b) => b.publishedAt - a.publishedAt`. `Array.prototype.sort` is
  // stable, so posts with equal dates keep their order from the input; the
  // model is a stable insertion sort.
  // ---------------------------------------------------------------------------

  lemma ConsNewestFirst(x: Post, s: seq<Post>)
    requires NewestFirst(s)
    requires forall y :: y in s ==> y.publishedAt <= x.publishedAt
    ensures NewestFirst([x] + s)
  {
    forall i, j | 0 <= i < j < |s| + 1 ensures ([x] + s)[i].publishedAt >= ([x] + s)[j].publishedAt {
      assert ([x] + s)[j] == s[j - 1];
      if i > 0 {
        assert ([x] + s)[i] == s[i - 1];
      }
    }
  }

  /** Places `p` in front of the first post of `s` that is not newer than it. */
  function Insert(p: Post, s: seq<Post>): (r: seq<Post>)
    ensures multiset(r) == multiset(s) + multiset{p}
    ensures forall x :: x in r <==> x in s || x == p
  {
    if s == [] || p.publishedAt >= s[0].publishedAt then [p] + s
    else
      assert s == [s[0]] + s[1..];
      [s[0]] + Insert(p, s[1..])
  }

  /** Inserting into a newest-first sequence keeps it newest first. */
  lemma {:induction false} InsertKeepsNewestFirst(p: Post, s: seq<Post>)
    requires NewestFirst(s)
    ensures NewestFirst(Insert(p, s))
  {
    if s == [] || p.publishedAt >= s[0].publishedAt {
      forall y | y in s ensures y.publishedAt <= p.publishedAt {
        var j :| 0 <= j < |s| && s[j] == y;
      }
      ConsNewestFirst(p, s);
    } else {
      var rest := Insert(p, s[1..]);
      InsertKeepsNewestFirst(p, s[1..]);
      forall y | y in rest ensures y.publishedAt <= s[0].publishedAt {
        if y != p {
          var j :| 0 <= j < |s[1..]| && s[1..][j] == y;
          assert s[j + 1] == y;
        }
      }
      ConsNewestFirst(s[0], rest);
    }
  }

  function SortByDate(s: seq<Post>): (r: seq<Post>)
    ensures multiset(r) == multiset(s)
    ensures forall p :: p in r <==> p in s
    ensures |r| == |s|
    ensures NewestFirst(r)
  {
    if s == [] then []
    else
      assert s == [s[0]] + s[1..];
      InsertKeepsNewestFirst(s[0], SortByDate(s[1..]));
      Insert(s[0], SortByDate(s[1..]))
  }

  /** The posts of `s` dated `d`, in their order in `s`. */
  function WithDate(s: seq<Post>, d: int): seq<Post> {
    Filter(s, (p: Post) => p.publishedAt == d)
  }

  lemma {:induction false} InsertWithDate(p: Post, s: seq<Post>, d: int)
    ensures WithDate(Insert(p, s), d) == if p.publishedAt == d then [p] + WithDate(s, d) else WithDate(s, d)
  {
    if s == [] || p.publishedAt >= s[0].publishedAt {
      var r := [p] + s;
      assert r[0] == p && r[1..] == s;
    } else {
      var rest := Insert(p, s[1..]);
      var r := [s[0]] + rest;
      assert r[0] == s[0] && r[1..] == rest;
      InsertWithDate(p, s[1..], d);
    }
  }

  /** The sort is stable: for every date, the posts with that date keep their input order. */
  lemma {:induction false} SortKeepsOrderOfTies(s: seq<Post>, d: int)
    ensures WithDate(SortByDate(s), d) == WithDate(s, d)
  {
    if s != [] {
      SortKeepsOrderOfTies(s[1..], d);
      InsertWithDate(s[0], SortByDate(s[1..]), d);
    }
  }

  lemma WithDateHead(s: seq<Post>, d: int)
    requires s != []
    ensures WithDate(s, d) == if s[0].publishedAt == d then [s[0]] + WithDate(s[1..], d) else WithDate(s[1..], d)
  {
  }

  lemma NonEmptyHasTies(s: seq<Post>)
    requires s != []
    ensures WithDate(s, s[0].publishedAt) != []
  {
    WithDateHead(s, s[0].publishedAt);
  }

  /** Two newest-first sequences that agree on the posts of every date are equal. */
  lemma {:induction false} SameTiesSameOrder(t: seq<Post>, u: seq<Post>)
    requires NewestFirst(t) && NewestFirst(u)
    requires forall d :: WithDate(t, d) == WithDate(u, d)
    ensures t == u
  {
    if t == [] || u == [] {
      if t != [] {
        NonEmptyHasTies(t);
      } else if u != [] {
        NonEmptyHasTies(u);
      }
    } else {
      var dt, du := t[0].publishedAt, u[0].publishedAt;
      WithDateHead(t, dt);
      WithDateHead(u, du);
      assert t[0] in WithDate(u, dt);
      assert u[0] in WithDate(t, du);
      assert dt == du;
      assert WithDate(t, dt)[0] == t[0];
      assert WithDate(u, dt)[0] == u[0];
      forall d ensures WithDate(t[1..], d) == WithDate(u[1..], d) {
        WithDateHead(t, d);
        WithDateHead(u, d);
        if d == dt {
          assert [t[0]] + WithDate(t[1..], d) == [u[0]] + WithDate(u[1..], d);
          assert ([t[0]] + WithDate(t[1..], d))[1..] == WithDate(t[1..], d);
          assert ([u[0]] + WithDate(u[1..], d))[1..] == WithDate(u[1..], d);
        }
      }
      SameTiesSameOrder(t[1..], u[1..]);
      assert t == [t[0]] + t[1..] && u == [u[0]] + u[1..];
    }
  }

  /**
   * The sort's result is the one and only newest-first arrangement of `s`
   * that keeps posts of equal date in their input order.
   */
  lemma SortByDateIsUnique(s: seq<Post>, t: seq<Post>)
    requires NewestFirst(t)
    requires forall d :: WithDate(t, d) == WithDate(s, d)
    ensures t == SortByDate(s)
  {
    forall d ensures WithDate(t, d) == WithDate(SortByDate(s), d) {
      SortKeepsOrderOfTies(s, d);
    }
    SameTiesSameOrder(t, SortByDate(s));
  }

  /** Sorting a sequence that is already newest first leaves it as it is. */
  lemma SortByDateOfSorted(s: seq<Post>)
    requires NewestFirst(s)
    ensures SortByDate(s) == s
  {
    SortByDateIsUnique(s, s);
  }

  /** A post missing from a newest-first prefix is no newer than anything in the prefix, and the prefix stopped short of the end. */
  lemma PrefixHoldsNewest(s: seq<Post>, k: nat, q: Post)
    requires NewestFirst(s) && k <= |s|
    requires q in s && q !in s[..k]
    ensures k < |s|
    ensures forall p :: p in s[..k] ==> p.publishedAt >= q.publishedAt
  {
    forall p | p in s[..k] ensures p.publishedAt >= q.publishedAt {
      var i :| 0 <= i < k && s[..k][i] == p;
      assert s[i] == p;
    }
  }

  // ---------------------------------------------------------------------------
  // The four queries of the blog library.
  // ---------------------------------------------------------------------------

  /** `getBlogPosts()`: every published post, newest first. */
  function GetBlogPosts(posts: seq<Post>): (r: seq<Post>)
    ensures NewestFirst(r)
    ensures forall p :: p in r <==> p in posts && p.published
    ensures forall p :: multiset(r)[p] == if p.published then multiset(posts)[p] else 0
  {
    FilterCount(posts, IsPublished);
    SortByDate(Filter(posts, IsPublished))
  }

  /** Published posts with the same date appear in `getBlogPosts()` in their collection order. */
  lemma GetBlogPostsKeepsOrderOfTies(posts: seq<Post>, d: int)
    ensures WithDate(GetBlogPosts(posts), d) == Filter(posts, (p: Post) => IsPublished(p) && p.publishedAt == d)
  {
    SortKeepsOrderOfTies(Filter(posts, IsPublished), d);
    FilterTwice(posts, IsPublished, (p: Post) => p.publishedAt == d, (p: Post) => IsPublished(p) && p.publishedAt == d);
  }

  /**
   * `getLatestBlogPosts(limit = 3)`: `getBlogPosts().slice(0, limit)`. A
   * non-negative limit larger than the number of published posts returns
   * them all; a negative one drops that many posts from the end.
   */
  function GetLatestBlogPosts(posts: seq<Post>, limit: int := DefaultLimit): (r: seq<Post>)
    ensures r == GetBlogPosts(posts)[..SliceEnd(|GetBlogPosts(posts)|, limit)]
    ensures 0 <= limit ==> |r| <= limit
    ensures NewestFirst(r)
    ensures forall p :: p in r ==> p in posts && p.published
  {
    SliceTo(GetBlogPosts(posts), limit)
  }

  /** A published post left out of the latest posts is no newer than any of them, and the limit was reached. */
  lemma LatestAreNewest(posts: seq<Post>, limit: int, q: Post)
    requires 0 <= limit
    requires q in posts && q.published
    ensures var latest := GetLatestBlogPosts(posts, limit);
            q !in latest ==> |latest| == limit && forall p :: p in latest ==> p.publishedAt >= q.publishedAt
  {
    var all := GetBlogPosts(posts);
    if q !in GetLatestBlogPosts(posts, limit) {
      PrefixHoldsNewest(all, SliceEnd(|all|, limit), q);
    }
  }

  /** Every post carries a distinct slug (the content pipeline's promise; the queries do not check it). */
  predicate SlugsUnique(posts: seq<Post>) {
    forall i, j :: 0 <= i < j < |posts| ==> posts[i].slug != posts[j].slug
  }

  /**
   * `getBlogPost(slug)`: the first post whose slug is exactly `slug`,
   * published or not, or `None` when no post has that slug.
   */
  function GetBlogPost(posts: seq<Post>, slug: string): (r: Option<Post>)
    ensures r.None? <==> forall p :: p in posts ==> p.slug != slug
    ensures r.Some? ==> r.value.slug == slug
    ensures r.Some? ==> exists i :: 0 <= i < |posts| && posts[i] == r.value && forall j :: 0 <= j < i ==> posts[j].slug != slug
  {
    Find(posts, (p: Post) => p.slug == slug)
  }

  /** With unique slugs, looking up a post's slug finds that very post, drafts included. */
  lemma GetBlogPostFindsEachPost(posts: seq<Post>, p: Post)
    requires SlugsUnique(posts)
    requires p in posts
    ensures GetBlogPost(posts, p.slug) == Some(p)
  {
    var k :| 0 <= k < |posts| && posts[k] == p;
    FindUnique(posts, (q: Post) => q.slug == p.slug, k);
  }

  /** The condition a post of the collection must meet to be related to `current`, looked up by `currentSlug`. */
  function IsRelated(current: Post, currentSlug: string, p: Post): (b: bool)
    ensures b ==> p.published && p.slug != currentSlug
    ensures b <==> p.slug != currentSlug && p.published && exists t :: t in TagList(current) && t in TagList(p)
    ensures TagList(current) == [] ==> !b
  {
    p.slug != currentSlug && IsPublished(p) && SharesTag(TagList(current), TagList(p))
  }

  /** The two filters of `getRelatedPosts`, in collection order, before sorting and slicing. */
  function RelatedCandidates(posts: seq<Post>, current: Post, currentSlug: string): (r: seq<Post>)
    ensures forall p :: p in r <==> p in posts && IsRelated(current, currentSlug, p)
  {
    Filter(Filter(posts, (p: Post) => p.slug != currentSlug && IsPublished(p)),
           (p: Post) => SharesTag(TagList(current), TagList(p)))
  }

  /** The two filters act as one filter by the three conditions of `IsRelated`, so candidates keep their collection order. */
  lemma RelatedCandidatesIsOneFilter(posts: seq<Post>, current: Post, currentSlug: string)
    ensures RelatedCandidates(posts, current, currentSlug) == Filter(posts, (p: Post) => IsRelated(current, currentSlug, p))
  {
    FilterTwice(posts, (p: Post) => p.slug != currentSlug && IsPublished(p),
                (p: Post) => SharesTag(TagList(current), TagList(p)),
                (p: Post) => IsRelated(current, currentSlug, p));
  }

  /**
   * `getRelatedPosts(currentSlug, limit = 3)`: the other published posts that
   * share a tag with the post `currentSlug` names, newest first, cut to
   * `limit`; empty when no post has that slug.
   */
  function GetRelatedPosts(posts: seq<Post>, currentSlug: string, limit: int := DefaultLimit): (r: seq<Post>)
    ensures GetBlogPost(posts, currentSlug).None? ==> r == []
    ensures forall p :: p in r ==> p in posts && p.published && p.slug != currentSlug
    ensures GetBlogPost(posts, currentSlug).Some? ==>
              forall p :: p in r ==> SharesTag(TagList(GetBlogPost(posts, currentSlug).value), TagList(p))
    ensures 0 <= limit ==> |r| <= limit
    ensures NewestFirst(r)
  {
    match GetBlogPost(posts, currentSlug)
    case None => []
    case Some(current) =>
      SliceTo(SortByDate(RelatedCandidates(posts, current, currentSlug)), limit)
  }

  /** With a reference post, the related posts are the sorted candidates cut by `slice(0, limit)`. */
  lemma RelatedIsPrefixOfCandidates(posts: seq<Post>, currentSlug: string, limit: int)
    requires GetBlogPost(posts, currentSlug).Some?
    ensures var sorted := SortByDate(RelatedCandidates(posts, GetBlogPost(posts, currentSlug).value, currentSlug));
            GetRelatedPosts(posts, currentSlug, limit) == sorted[..SliceEnd(|sorted|, limit)]
  {
  }

  /** A post that qualifies but is left out of the related posts is no newer than any of them, and the limit was reached. */
  lemma RelatedAreNewest(posts: seq<Post>, currentSlug: string, limit: int, q: Post)
    requires 0 <= limit
    requires q in posts
    ensures var related := GetRelatedPosts(posts, currentSlug, limit);
            match GetBlogPost(posts, currentSlug)
            case Some(current) =>
              IsRelated(current, currentSlug, q) && q !in related ==>
                |related| == limit && forall p :: p in related ==> p.publishedAt >= q.publishedAt
            case None => true
  {
    match GetBlogPost(posts, currentSlug)
    case Some(current) =>
      if IsRelated(current, currentSlug, q) && q !in GetRelatedPosts(posts, currentSlug, limit) {
        var candidates := RelatedCandidates(posts, current, currentSlug);
        var sorted := SortByDate(candidates);
        assert q in candidates;
        assert q in sorted;
        RelatedIsPrefixOfCandidates(posts, currentSlug, limit);
        assert GetRelatedPosts(posts, currentSlug, limit) == sorted[..SliceEnd(|sorted|, limit)];
        PrefixHoldsNewest(sorted, SliceEnd(|sorted|, limit), q);
      }
    case None =>
  }

  /** A reference post without tags has no related posts. */
  lemma RelatedOfUntaggedIsEmpty(posts: seq<Post>, currentSlug: string, limit: int)
    requires GetBlogPost(posts, currentSlug).Some?
    requires TagList(GetBlogPost(posts, currentSlug).value) == []
    ensures GetRelatedPosts(posts, currentSlug, limit) == []
  {
    var current := GetBlogPost(posts, currentSlug).value;
    var cand := RelatedCandidates(posts, current, currentSlug);
    FilterNone(Filter(posts, (p: Post) => p.slug != currentSlug && IsPublished(p)),
               (p: Post) => SharesTag(TagList(current), TagList(p)));
    assert GetRelatedPosts(posts, currentSlug, limit) == SliceTo(SortByDate(cand), limit);
  }
}
