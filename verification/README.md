# Blog post query layer, in Dafny

This project models the blog post query layer of a personal portfolio site
(`src/lib/blog.ts`). It proves properties of the four queries exported by
`src/lib/blog.ts`, over the post collection that the content pipeline
produces. The pages call three of them; only the unit tests call
`getRelatedPosts`.

- `getBlogPosts` lists the published posts, newest first.
- `getLatestBlogPosts(limit = 3)` keeps the first `limit` of them.
- `getBlogPost(slug)` looks a post up by slug. Drafts are included.
- `getRelatedPosts(slug, limit = 3)` lists the other published posts that
  share a tag with the post named by `slug`, newest first, cut to `limit`.

In the source the collection is a module-level import (`allBlogs`). Here it is
the explicit parameter `posts: seq<Post>` of every query. Every query is a
function on values, so no query can change the collection.

Files:

- `wrappers.dfy` holds `Option`, which stands for the source's `undefined` result.
- `js_array.dfy` models the `Array.prototype` operations the queries are built
  from: `filter`, `find` and `slice(0, end)`.
- `blog.dfy` holds the post record, the stable sort by date, the four queries
  and their properties.
- `blog_examples.dfy` holds the four-post collection of the unit tests and the
  results the tests expect, proved as lemmas.

Modelling decisions:

- `publishedAt` is an integer key that stands for the instant the date string
  parses to. The examples write dates as YYYYMMDD numbers, which sort in the
  same order as the days.
- `tags` is optional, as in the source. `TagList` reads a missing list as `[]`,
  as `post.tags || []` does.
- `Array.prototype.sort` has been required to be stable since ECMAScript 2019.
  The model is a stable insertion sort (`SortByDate`). It is proved to be the
  only newest-first order that keeps posts with equal dates in their input
  order.
- `limit` is an `int` with the semantics of `slice(0, limit)`. A negative
  limit drops that many posts from the end.

Two points where the code's behaviour is easy to misread:

- The related-posts query excludes every post whose slug equals `currentSlug`
  (`src/lib/blog.ts:26`). That is the reference post only when slugs are
  unique, and the queries do not check that.
- `limit` goes to `slice` unchecked (`src/lib/blog.ts:14`, `37`), so the model
  also defines a negative limit.

## Model

| member | source | states |
|---|---|---|
| JsArray.Filter | src/lib/blog.ts:4-5 | the result keeps exactly the elements that satisfy the predicate, and is no longer than the input |
| JsArray.FilterCount | src/lib/blog.ts:4-5 | each kept element occurs as often as in the input and each dropped element does not occur at all (a multiset statement) |
| JsArray.FilterTwice | src/lib/blog.ts:25-32 | filtering by `f` and then by `g` gives the same sequence as filtering once by `f && g` |
| JsArray.FilterNone | src/lib/blog.ts:27-32 | filtering is empty when no element satisfies the predicate |
| JsArray.Find | src/lib/blog.ts:18 | the result is `None` exactly when no element satisfies the predicate; otherwise it is the element at the first index that does |
| JsArray.FindUnique | src/lib/blog.ts:18 | when every element satisfying the predicate equals one element, `find` returns that element |
| JsArray.SliceEnd | src/lib/blog.ts:14 | where `slice(0, end)` stops: never past the length; for `end >= 0`, as many elements as possible up to `end`; for `end < 0`, `length + end`, or 0 when that is negative |
| JsArray.SliceTo | src/lib/blog.ts:14 | `slice(0, end)` is the prefix of the input that stops at `SliceEnd` |
| Blog.Insert | src/lib/blog.ts:6-10 | inserting one post adds exactly that post to the multiset of posts |
| Blog.InsertKeepsNewestFirst | src/lib/blog.ts:6-10 | inserting into a newest-first sequence keeps it newest first |
| Blog.SortByDate | src/lib/blog.ts:6-10 | the sort by `publishedAt` descending returns a permutation of its input that is newest first |
| Blog.SortKeepsOrderOfTies | src/lib/blog.ts:6-10 | the sort is stable: for every date, the posts with that date keep their input order |
| Blog.SortByDateIsUnique | src/lib/blog.ts:6-10 | any newest-first sequence that keeps the input order of every date's posts equals the sort's result |
| Blog.SortByDateOfSorted | src/lib/blog.ts:6-10 | sorting a sequence that is already newest first leaves it unchanged |
| Blog.GetBlogPosts | src/lib/blog.ts:3-11 | the listing holds exactly the published posts with their multiplicities, has no drafts and is newest first |
| Blog.GetBlogPostsKeepsOrderOfTies | src/lib/blog.ts:3-11 | published posts with the same date are listed in collection order |
| Blog.GetLatestBlogPosts | src/lib/blog.ts:13-15 | the result is the prefix of the listing that `slice(0, limit)` keeps: for `limit >= 0` the first `min(limit, n)` posts, so at most `limit`; for a negative limit, all but the last `-limit`; the default limit is 3 |
| Blog.LatestAreNewest | src/lib/blog.ts:13-15 | a published post missing from the latest posts means the limit was reached and is no newer than any post returned |
| Blog.GetBlogPost | src/lib/blog.ts:17-19 | the result is `None` exactly when no post has the slug; otherwise it is the first post with exactly that slug, published or not |
| Blog.GetBlogPostFindsEachPost | src/lib/blog.ts:17-19 | with unique slugs, looking up any post's slug returns that post, drafts included |
| Blog.TagList | src/lib/blog.ts:29-30 | an absent tag list reads as `[]`; a present one is used as it is |
| Blog.SharesTag | src/lib/blog.ts:31 | true exactly when some tag of the reference post occurs in the other post's tags; never true when either list is empty |
| Blog.IsRelated | src/lib/blog.ts:26-31 | a post is related exactly when its slug differs from `currentSlug`, it is published and it shares a tag with the reference post; nothing is related to a post without tags |
| Blog.RelatedCandidates | src/lib/blog.ts:25-32 | a post is a candidate exactly when it is in the collection, is published, has a different slug and shares a tag with the reference post |
| Blog.RelatedCandidatesIsOneFilter | src/lib/blog.ts:25-32 | the two filters in sequence equal one filter by the three conditions, so candidates keep collection order |
| Blog.GetRelatedPosts | src/lib/blog.ts:21-38 | an unknown slug gives `[]`; every result is a published post of the collection, with a different slug, that shares a tag with the reference post; at most `limit` results; newest first |
| Blog.RelatedIsPrefixOfCandidates | src/lib/blog.ts:33-37 | the result is the sorted candidate list cut by `slice(0, limit)`, negative limits included |
| Blog.RelatedAreNewest | src/lib/blog.ts:33-37 | a qualifying post missing from the result means the limit was reached and is no newer than any post returned |
| Blog.RelatedOfUntaggedIsEmpty | src/lib/blog.ts:29-31 | a reference post without tags, or with an absent tag list, has no related posts |
| BlogExamples.ListingOfFour | src/lib/__tests__/blog.test.ts:54-70 | three published posts already newest first, plus one draft, list as the three published posts |
| BlogExamples.FixtureListing | src/lib/__tests__/blog.test.ts:54-70 | on the test collection the listing is post-1, post-2, post-3, with the draft left out |
| BlogExamples.FixtureLatestTwo | src/lib/__tests__/blog.test.ts:74-83 | a limit of 2 gives post-1, post-2 |
| BlogExamples.FixtureLatestDefault | src/lib/__tests__/blog.test.ts:85-88 | the default limit gives three posts |
| BlogExamples.FixtureLatestLarge | src/lib/__tests__/blog.test.ts:90-93 | a limit of 10 gives all three published posts, without error |
| BlogExamples.FixtureLookup | src/lib/__tests__/blog.test.ts:97-101 | `post-1` is found, with title "First Post" |
| BlogExamples.FixtureLookupMissing | src/lib/__tests__/blog.test.ts:103-106 | an unknown slug gives `None` |
| BlogExamples.FixtureLookupDraft | src/lib/__tests__/blog.test.ts:108-112 | `draft-post` is found although it is unpublished |
| BlogExamples.CandidatesOfFour | src/lib/blog.ts:25-32 | for the first of four posts, the candidates are the two published posts that share a tag with it; the draft and the post itself are dropped |
| BlogExamples.RelatedOfFour | src/lib/__tests__/blog.test.ts:116-136 | the related posts of the first of four posts are the next two, cut to the limit |
| BlogExamples.FixtureRelated | src/lib/__tests__/blog.test.ts:116-136 | post-1's related posts are post-2 and post-3, newest first |
| BlogExamples.FixtureRelatedMissing | src/lib/__tests__/blog.test.ts:138-141 | an unknown slug has no related posts |
| BlogExamples.FixtureRelatedLimitOne | src/lib/__tests__/blog.test.ts:143-146 | a limit of 1 keeps only post-2 |

## Left out

- Date parsing (`new Date(...).getTime()`) is not modelled. `publishedAt` is already an integer, so a date string that parses to NaN (which would break the comparator) cannot be represented.
- A `limit` that is not an integer (a fraction, NaN or Infinity, as `slice` would receive them) is not modelled: `limit` is an `int`.
- Fields of a post record that the queries never read (summary, image, body, computed fields) are not in `Post`. The title is kept only because a test checks it.
- Slug uniqueness is a promise of the content pipeline. The queries do not rely on it, and the model states it only as the hypothesis `SlugsUnique` of `GetBlogPostFindsEachPost`.
- The content pipeline, the feature-flag configuration (`src/env.mjs`), the React pages and components, the comment widget and the static site data are not part of this model. They are presentation, build configuration or third-party code.
