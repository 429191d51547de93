/**
 * The four-post collection of the library's unit tests, and what each query
 * returns on it. Dates are written as YYYYMMDD integers, whose order is the
 * order of the days they name.
 */
module BlogExamples {
  import opened Wrappers
  import opened JsArray
  import opened Blog

  const Post1 := Post("post-1", "First Post", 20250115, Some(["nextjs", "react"]), true)
  const Post2 := Post("post-2", "Second Post", 20250110, Some(["typescript", "react"]), true)
  const Post3 := Post("post-3", "Third Post", 20250105, Some(["nextjs", "typescript"]), true)
  const DraftPost := Post("draft-post", "Draft Post", 20250120, Some(["draft"]), false)

  const Fixture := [Post1, Post2, Post3, DraftPost]

  /** Filtering two posts decides on each of them in turn. */
  lemma FilterTwo(a: Post, b: Post, f: Post -> bool)
    ensures Filter([a, b], f) == (if f(a) then [a] else []) + (if f(b) then [b] else [])
  {
    assert [a, b] == [a] + [b] && [b] == [b] + [];
    FilterCons(a, [b], f);
    FilterCons(b, [], f);
  }

  /** Filtering four posts decides on each of them in turn. */
  lemma FilterFour(a: Post, b: Post, c: Post, d: Post, f: Post -> bool)
    ensures Filter([a, b, c, d], f) == Filter([a, b], f) + Filter([c, d], f)
  {
    assert [a, b, c, d] == [a, b] + [c, d];
    FilterAppend([a, b], [c, d], f);
  }

  /** Three published posts already newest first and one draft list as the three. */
  lemma ListingOfFour(a: Post, b: Post, c: Post, d: Post)
    requires a.published && b.published && c.published && !d.published
    requires a.publishedAt >= b.publishedAt >= c.publishedAt
    ensures GetBlogPosts([a, b, c, d]) == [a, b, c]
  {
    assert Filter([a, b, c, d], IsPublished) == [a, b, c] by {
      FilterFour(a, b, c, d, IsPublished);
      FilterTwo(a, b, IsPublished);
      FilterTwo(c, d, IsPublished);
    }
    SortByDateOfSorted([a, b, c]);
  }

  /** The draft is left out and the three published posts come newest first. */
  lemma FixtureListing()
    ensures GetBlogPosts(Fixture) == [Post1, Post2, Post3]
  {
    ListingOfFour(Post1, Post2, Post3, DraftPost);
  }

  /** A limit of 2 keeps the two newest posts. */
  lemma FixtureLatestTwo()
    ensures GetLatestBlogPosts(Fixture, 2) == [Post1, Post2]
  {
    FixtureListing();
  }

  /** Without a limit, three posts are kept. */
  lemma FixtureLatestDefault()
    ensures |GetLatestBlogPosts(Fixture)| == 3
  {
    FixtureListing();
  }

  /** A limit of 10, more than there are published posts, keeps all three without error. */
  lemma FixtureLatestLarge()
    ensures GetLatestBlogPosts(Fixture, 10) == [Post1, Post2, Post3]
  {
    FixtureListing();
  }

  lemma FixtureSlugsUnique()
    ensures SlugsUnique(Fixture)
  {
  }

  /** Lookup finds a published post by its slug. */
  lemma FixtureLookup()
    ensures GetBlogPost(Fixture, "post-1") == Some(Post1) && Post1.title == "First Post"
  {
    FixtureSlugsUnique();
    GetBlogPostFindsEachPost(Fixture, Post1);
  }

  /** Lookup finds a draft too. */
  lemma FixtureLookupDraft()
    ensures GetBlogPost(Fixture, "draft-post") == Some(DraftPost) && !DraftPost.published
  {
    FixtureSlugsUnique();
    GetBlogPostFindsEachPost(Fixture, DraftPost);
  }

  /** An unknown slug finds nothing. */
  lemma FixtureLookupMissing()
    ensures GetBlogPost(Fixture, "non-existent") == None
  {
  }

  /** The candidates for the first of four posts, under the hypotheses of `RelatedOfFour`. */
  lemma CandidatesOfFour(a: Post, b: Post, c: Post, d: Post)
    requires b.published && c.published && !d.published
    requires b.slug != a.slug && c.slug != a.slug
    requires SharesTag(TagList(a), TagList(b)) && SharesTag(TagList(a), TagList(c))
    ensures RelatedCandidates([a, b, c, d], a, a.slug) == [b, c]
  {
    var notCurrent := (p: Post) => p.slug != a.slug && IsPublished(p);
    var sharing := (p: Post) => SharesTag(TagList(a), TagList(p));
    assert Filter([a, b, c, d], notCurrent) == [b, c] by {
      FilterFour(a, b, c, d, notCurrent);
      FilterTwo(a, b, notCurrent);
      FilterTwo(c, d, notCurrent);
    }
    FilterTwo(b, c, sharing);
  }

  /**
   * The first of four posts has as related posts the next two, when both are
   * published, share a tag with it and carry another slug; the fourth is a draft.
   */
  lemma RelatedOfFour(a: Post, b: Post, c: Post, d: Post, limit: int)
    requires 0 <= limit
    requires b.published && c.published && !d.published
    requires b.slug != a.slug && c.slug != a.slug
    requires SharesTag(TagList(a), TagList(b)) && SharesTag(TagList(a), TagList(c))
    requires b.publishedAt >= c.publishedAt
    ensures GetRelatedPosts([a, b, c, d], a.slug, limit) == [b, c][..SliceEnd(2, limit)]
  {
    var posts := [a, b, c, d];
    assert GetBlogPost(posts, a.slug) == Some(a) by {
      assert posts[0] == a;
    }
    CandidatesOfFour(a, b, c, d);
    SortByDateOfSorted([b, c]);
    RelatedIsPrefixOfCandidates(posts, a.slug, limit);
  }

  /** Post 1 shares "react" with post 2 and "nextjs" with post 3; the draft and post 1 itself are left out. */
  lemma FixtureRelated()
    ensures GetRelatedPosts(Fixture, "post-1") == [Post2, Post3]
  {
    FixtureSharedTags();
    RelatedOfFour(Post1, Post2, Post3, DraftPost, DefaultLimit);
  }

  /** With a limit of 1 only the newer related post, post 2, is kept. */
  lemma FixtureRelatedLimitOne()
    ensures GetRelatedPosts(Fixture, "post-1", 1) == [Post2]
  {
    FixtureSharedTags();
    RelatedOfFour(Post1, Post2, Post3, DraftPost, 1);
  }

  lemma FixtureSharedTags()
    ensures SharesTag(TagList(Post1), TagList(Post2)) && SharesTag(TagList(Post1), TagList(Post3))
  {
    assert TagList(Post1)[1] in TagList(Post2);
    assert TagList(Post1)[0] in TagList(Post3);
  }

  /** An unknown slug has no related posts. */
  lemma FixtureRelatedMissing()
    ensures GetRelatedPosts(Fixture, "non-existent") == []
  {
    FixtureLookupMissing();
  }
}
