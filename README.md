# Article queries of a static blog, modelled in Dafny

The blog keeps its articles as markdown files whose frontmatter is validated
against a schema (`src/content.config.ts`). Four small queries in
`src/utils/articles.ts` turn the loaded collection into the lists the pages
render:

- `getPublishedArticles` drops drafts and sorts the rest newest first by
  `publishDate`. A missing date counts as the Unix epoch (0 ms).
- `getFeaturedArticles` keeps the published articles flagged `featured`.
- `getArticlesByTag` keeps the published articles whose `tags` contain a
  given string.
- `getAllTags` collects every tag into a `Set` and returns them sorted
  ascending.

The project models these four queries. It has four modules:

- `Content` (`content.dfy`) holds the shape of a collection entry: `Article`
  is `id` plus `ArticleData`. `ArticleData` has `title`, `author`, an optional
  `description`, optional `publishDate` and `updatedDate` as integer
  milliseconds, `tags`, `draft` and `featured`. Schema defaults are already
  applied.
- `Sequences` (`sequences.dfy`) holds the order-preserving filter
  (`Array.prototype.filter`) and the subsequence relation.
- `Strings` (`strings.dfy`) holds the order that `sort()` with no comparator
  puts strings in, and the facts that make it a strict total order.
- `Articles` (`articles.dfy`) holds the queries. `getCollection("articles",
  filter)` becomes an explicit `collection: seq<Article>` in loader order.
  Its draft callback becomes `Published`.

Two operations change state in place in the source, and both are modelled as
methods over arrays:

- `articles.sort(...)` in `getPublishedArticles` becomes `SortInPlace`. It is
  a stable insertion sort that moves an article left only past a neighbour
  with a strictly earlier key. It is proved equal to the functional stable
  sort `SortNewestFirst`.
- `getAllTags` fills a `Set` in nested loops, then sorts it. This becomes
  `GetAllTags`: two loops maintain a duplicate-free list in insertion order,
  like a JavaScript `Set`. `SortTagsInPlace` then sorts it. The result is
  proved equal to the functional `AllTags`.

Stability is stated with `KeepsTieOrder(r, s)`: for every sort key `k`, the
articles with key `k` appear in `r` in the same order as in `s`.
`StableSortUnique` shows that a newest-first sequence with that property is
unique. So any stable sort with the source's comparator returns the same
list as the model.

## Model

| member | source | states |
|---|---|---|
| Sequences.FilterCount | src/utils/articles.ts:18-26 | `filter` keeps every element that satisfies the predicate, with all its copies, and nothing else: an element is in the result exactly when it is in the input and satisfies the predicate |
| Sequences.FilterIsSubsequence | src/utils/articles.ts:18-26 | the result of `filter` is a subsequence of its input, so the input order is kept |
| Strings.LessIrreflexive | src/utils/articles.ts:33 | no string sorts before itself under the default `sort()` order |
| Strings.LessTransitive | src/utils/articles.ts:33 | the default string order is transitive |
| Strings.LessTotal | src/utils/articles.ts:33 | any two different strings are ordered one way or the other |
| Strings.LessAsymmetric | src/utils/articles.ts:33 | if `a` sorts before `b`, then `b` does not sort before `a` |
| Strings.StrictlyIncreasingHasNoDuplicates | src/utils/articles.ts:33 | a strictly ascending tag list has no repeated tag |
| Strings.StrictlyIncreasingUnique | src/utils/articles.ts:29-33 | two strictly ascending lists with the same elements are equal, so sorting a set of tags has one outcome |
| Articles.NewestFirstIffComparatorAgrees | src/utils/articles.ts:11-15 | a list is newest first (no key followed by a later key) exactly when the comparator `dateB - dateA` is `<= 0` on every pair of neighbours |
| Articles.SwapKeepsTieOrder | src/utils/articles.ts:11-14 | swapping two neighbours with different keys does not change the order among articles whose keys tie |
| Articles.InsertKeepsNewestFirst | src/utils/articles.ts:11-15 | inserting an article into a newest-first list keeps it newest first |
| Articles.InsertKeepsTieOrder | src/utils/articles.ts:11-14 | insertion puts the new article ahead of every article whose key ties with it, as it came first in the input |
| Articles.SortNewestFirst | src/utils/articles.ts:11-15 | the reference sort returns a permutation of its input (same multiset) that is newest first |
| Articles.SortNewestFirstKeepsTieOrder | src/utils/articles.ts:11-14 | the reference sort is stable: for every key, the articles with that key keep their input order |
| Articles.StableSortUnique | src/utils/articles.ts:11-15 | two newest-first lists with the same per-key order are equal, so every stable sort with this comparator gives the same result |
| Articles.MoveLeft | src/utils/articles.ts:11-15 | one insertion step (moving the article past an earlier-keyed neighbour) keeps the sorted-except-one state |
| Articles.Settled | src/utils/articles.ts:11-15 | when the inserted article stops, the sorted prefix is one longer |
| Articles.SortInPlace | src/utils/articles.ts:11-15 | sorting the array in place leaves it newest first, keeps the order of ties, and equals the reference sort of the old contents |
| Articles.PublishedArticlesSpec | src/utils/articles.ts:6-16 | the published list has no drafts; it holds every non-draft article of the collection exactly as often as the collection does; it is newest first with an undated article keyed 0; ties keep loader order |
| Articles.GetPublishedArticles | src/utils/articles.ts:6-16 | filter-then-sort-in-place returns the reference published list, and so inherits all of its properties (no drafts, permutation of the non-drafts, newest first, stable) |
| Articles.UndatedSortsBeforePre1970 | src/utils/articles.ts:12-14 | a missing date counts as the epoch, not as minus infinity: an undated article is listed before one dated in 1969 |
| Articles.EpochTieKeepsLoaderOrder | src/utils/articles.ts:11-14 | an undated article and one dated exactly at the epoch tie, and keep their loader order in either arrangement |
| Articles.FilterKeepsNewestFirst | src/utils/articles.ts:20-25 | filtering a newest-first list keeps it newest first |
| Articles.FeaturedArticlesSpec | src/utils/articles.ts:18-21 | an article is featured-listed exactly when it is in the collection, not a draft, and featured, with its full multiplicity; the list is a subsequence of the published list and is newest first |
| Articles.GetFeaturedArticles | src/utils/articles.ts:18-21 | the method returns the published list filtered to `featured`; every element is featured and not a draft |
| Articles.ArticlesByTagSpec | src/utils/articles.ts:23-26 | an article is returned exactly when it is a published article of the collection whose `tags` contain the tag (exact match), with its full multiplicity; the result is a subsequence of the published list and is newest first |
| Articles.ArticlesByTagEmptyIffUnmatched | src/utils/articles.ts:23-26 | the result is empty (not an error) exactly when no published article carries the tag |
| Articles.GetArticlesByTag | src/utils/articles.ts:23-26 | the method returns the published list filtered to the tag; every element carries the tag and is not a draft |
| Articles.TagSetSnoc | src/utils/articles.ts:30-32 | visiting one more article adds exactly that article's tags to the collected set |
| Articles.InsertTagSpec | src/utils/articles.ts:31 | adding a tag to a strictly ascending list keeps it strictly ascending and adds exactly that tag |
| Articles.InsertTagsSpec | src/utils/articles.ts:31 | adding an article's tags keeps the list strictly ascending and adds exactly those tags |
| Articles.AllTagsSpec | src/utils/articles.ts:28-34 | the tag list is strictly ascending (sorted, no duplicates), and its elements are exactly the union of the input articles' tags, drafts included |
| Articles.AllTagsDependsOnlyOnTagSet | src/utils/articles.ts:28-34 | two inputs with the same union of tags give the same tag list, so repeated tags within or across articles change nothing |
| Articles.AllTagsOrderIndependent | src/utils/articles.ts:28-34 | permuting the input articles leaves the tag list unchanged |
| Articles.AllTagsIgnoresOtherFields | src/utils/articles.ts:28-34 | only the tag lists matter: `draft`, `featured` and every other field are ignored |
| Articles.AllTagsExample | src/utils/articles.ts:28-34 | tags `["b","a"]` and `["a","c"]` give `["a","b","c"]`; no articles give no tags |
| Articles.SwapKeepsDistinct | src/utils/articles.ts:33 | swapping two neighbours keeps a duplicate-free list duplicate-free |
| Articles.SortTagsInPlace | src/utils/articles.ts:33 | sorting the distinct tags in place leaves them strictly ascending and a permutation of the old contents |
| Articles.GetAllTags | src/utils/articles.ts:28-34 | the loops and the sort return a strictly ascending list whose elements are exactly the input's tags; this list equals the reference `AllTags` |

## Left out

- `getCollection` and the `async`/`Promise` wrapping are left out. They are framework I/O that reads markdown files. The model takes the loaded collection as a parameter, in loader order.
- The schema and glob loader in `src/content.config.ts` are left out: required fields, `z.coerce.date()`, and the errors for malformed frontmatter. Records arrive already valid, with `tags = []`, `draft = false` and `featured = false` filled in. The same holds for the `tags ?? []` fallback in the queries, since the schema default means `tags` is always present.
- `astro.config.mjs` is left out: it is build configuration with no logic.
- JavaScript `Date` objects are modelled as integer milliseconds, and `dateB - dateA` as an integer difference. The source's floating-point subtraction of two integer timestamps always has the sign of the exact difference, and `sort` only uses that sign. Invalid dates never reach the queries.
- Articles.SortInPlace: ECMAScript only requires `sort` to be stable, not to use a particular algorithm. The model uses insertion sort. `StableSortUnique` shows that every stable sort with this comparator gives the same list.
- Strings.Less: the model compares Unicode scalar values, but the source's `sort()` compares UTF-16 code units. The two orders differ only between characters above U+FFFF and characters in U+E000–U+FFFF.
- `id` uniqueness is not assumed. The queries never read `id`, and the counting statements hold with duplicates too.
- An undated article is sometimes described as having "the earliest possible date". The code keys it at the epoch instead, so an article dated before 1970 sorts after it. The model follows the code (`SortKey`, `UndatedSortsBeforePre1970`).
