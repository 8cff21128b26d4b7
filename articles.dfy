/** The article queries of src/utils/articles.ts. The collection that
    `getCollection("articles")` yields is passed in explicitly, in the order the
    loader produced it. */
module Articles {
  import opened Content
  import opened Sequences
  import opened Strings

  // ---------------------------------------------------------------------------
  // Publication filter
  // ---------------------------------------------------------------------------

  /** The filter callback given to `getCollection`: `draft !== true`. */
  predicate IsPublished(a: Article)
  {
    a.data.draft != true
  }

  /** The entries `getCollection` returns with that callback, in loader order. */
  function Published(collection: seq<Article>): seq<Article>
  {
    Filter(collection, IsPublished)
  }

  // ---------------------------------------------------------------------------
  // Sort key, comparator and the orders they define
  // ---------------------------------------------------------------------------

  /** `publishDate || new Date(0)` as milliseconds: a missing date counts as the
      Unix epoch, so an undated article sorts after any article dated later than
      1970-01-01 and before any article dated earlier. */
  function SortKey(a: Article): int
  {
    match a.data.publishDate
    case Some(t) => t
    case None => 0
  }

  /** The comparator passed to `sort`: negative when `a` belongs before `b`. */
  function Compare(a: Article, b: Article): int
  {
    SortKey(b) - SortKey(a)
  }

  /** Newest first: no article is followed by one with a later key. */
  predicate NewestFirst(s: seq<Article>)
  {
    forall i, j :: 0 <= i < j < |s| ==> SortKey(s[i]) >= SortKey(s[j])
  }

  /** Being newest first is exactly what the comparator asks of every pair of
      neighbours: `Compare(s[i], s[i + 1]) <= 0`. */
  lemma {:induction false} NewestFirstIffComparatorAgrees(s: seq<Article>)
    ensures NewestFirst(s) <==> forall i :: 0 <= i < |s| - 1 ==> Compare(s[i], s[i + 1]) <= 0
  {
    if (forall i :: 0 <= i < |s| - 1 ==> Compare(s[i], s[i + 1]) <= 0) && s != [] {
      NewestFirstIffComparatorAgrees(s[1..]);
      assert NewestFirst(s[1..]);
      forall i, j | 0 <= i < j < |s|
        ensures SortKey(s[i]) >= SortKey(s[j])
      {
        if i == 0 && j > 1 {
          assert s[1..][0] == s[1] && s[1..][j - 1] == s[j];
        } else if i > 0 {
          assert s[1..][i - 1] == s[i] && s[1..][j - 1] == s[j];
        }
      }
    }
  }

  function KeyIs(k: int): Article -> bool
  {
    a => SortKey(a) == k
  }

  /** The articles of `s` whose sort key is `k`, in their order in `s`. */
  function KeyFilter(s: seq<Article>, k: int): seq<Article>
  {
    Filter(s, KeyIs(k))
  }

  /** `r` keeps the relative order of `s` among articles whose keys tie: this is
      what a stable sort guarantees. */
  ghost predicate KeepsTieOrder(r: seq<Article>, s: seq<Article>)
  {
    forall k :: KeyFilter(r, k) == KeyFilter(s, k)
  }

  lemma KeyFilterCons(x: Article, s: seq<Article>, k: int)
    ensures KeyFilter([x] + s, k) == (if SortKey(x) == k then [x] else []) + KeyFilter(s, k)
  {
    assert ([x] + s)[0] == x && ([x] + s)[1..] == s;
  }

  lemma KeyFilterPair(x: Article, y: Article, k: int)
    requires SortKey(x) != SortKey(y)
    ensures KeyFilter([x, y], k) == KeyFilter([y, x], k)
  {
    KeyFilterCons(x, [y], k);
    KeyFilterCons(y, [], k);
    KeyFilterCons(y, [x], k);
    KeyFilterCons(x, [], k);
    assert [x, y] == [x] + [y] && [y, x] == [y] + [x];
    assert [x] == [x] + [] && [y] == [y] + [];
  }

  /** Swapping two neighbours whose keys differ keeps every tie order. */
  lemma SwapKeepsTieOrder(s: seq<Article>, j: int)
    requires 0 < j < |s| && SortKey(s[j - 1]) != SortKey(s[j])
    ensures KeepsTieOrder(s[j - 1 := s[j]][j := s[j - 1]], s)
  {
    var t := s[j - 1 := s[j]][j := s[j - 1]];
    var pre, post := s[..j - 1], s[j + 1..];
    assert s == pre + [s[j - 1], s[j]] + post;
    assert t == pre + [s[j], s[j - 1]] + post;
    forall k
      ensures KeyFilter(t, k) == KeyFilter(s, k)
    {
      FilterConcat(pre + [s[j - 1], s[j]], post, KeyIs(k));
      FilterConcat(pre, [s[j - 1], s[j]], KeyIs(k));
      FilterConcat(pre + [s[j], s[j - 1]], post, KeyIs(k));
      FilterConcat(pre, [s[j], s[j - 1]], KeyIs(k));
      KeyFilterPair(s[j - 1], s[j], k);
    }
  }

  // ---------------------------------------------------------------------------
  // Reference stable sort
  // ---------------------------------------------------------------------------

  /** Places `x` in front of the first article of `s` whose key is not later
      than its own. */
  function Insert(x: Article, s: seq<Article>): (r: seq<Article>)
    ensures multiset(r) == multiset(s) + multiset{x}
  {
    if s == [] || SortKey(s[0]) <= SortKey(x) then [x] + s
    else
      assert s == [s[0]] + s[1..];
      [s[0]] + Insert(x, s[1..])
  }

  lemma {:induction false} InsertKeepsNewestFirst(x: Article, s: seq<Article>)
    requires NewestFirst(s)
    ensures NewestFirst(Insert(x, s))
  {
    if !(s == [] || SortKey(s[0]) <= SortKey(x)) {
      var tail := Insert(x, s[1..]);
      InsertKeepsNewestFirst(x, s[1..]);
      forall j | 0 <= j < |tail|
        ensures SortKey(s[0]) >= SortKey(tail[j])
      {
        assert tail[j] in multiset(tail);
        if tail[j] != x {
          assert tail[j] in s[1..];
        }
      }
    }
  }

  lemma {:induction false} InsertKeepsTieOrder(x: Article, s: seq<Article>, k: int)
    ensures KeyFilter(Insert(x, s), k) == KeyFilter([x] + s, k)
  {
    if !(s == [] || SortKey(s[0]) <= SortKey(x)) {
      InsertKeepsTieOrder(x, s[1..], k);
      assert s == [s[0]] + s[1..];
      KeyFilterCons(s[0], Insert(x, s[1..]), k);
      KeyFilterCons(x, s[1..], k);
      KeyFilterCons(x, s, k);
      KeyFilterCons(s[0], s[1..], k);
    }
  }

  /** A stable sort, newest first, by insertion from the back. */
  function SortNewestFirst(s: seq<Article>): (r: seq<Article>)
    ensures multiset(r) == multiset(s)
    ensures NewestFirst(r)
  {
    if s == [] then []
    else
      assert s == [s[0]] + s[1..];
      InsertKeepsNewestFirst(s[0], SortNewestFirst(s[1..]));
      Insert(s[0], SortNewestFirst(s[1..]))
  }

  lemma {:induction false} SortNewestFirstKeepsTieOrder(s: seq<Article>)
    ensures KeepsTieOrder(SortNewestFirst(s), s)
  {
    if s != [] {
      SortNewestFirstKeepsTieOrder(s[1..]);
      forall k
        ensures KeyFilter(SortNewestFirst(s), k) == KeyFilter(s, k)
      {
        InsertKeepsTieOrder(s[0], SortNewestFirst(s[1..]), k);
        KeyFilterCons(s[0], SortNewestFirst(s[1..]), k);
        KeyFilterCons(s[0], s[1..], k);
        assert s == [s[0]] + s[1..];
      }
    }
  }

  lemma KeyFilterNonEmpty(s: seq<Article>, k: int)
    requires KeyFilter(s, k) != []
    ensures exists i :: 0 <= i < |s| && SortKey(s[i]) == k
  {
    var x := KeyFilter(s, k)[0];
    FilterCount(s, KeyIs(k), x);
    assert x in s;
  }

  /** There is only one newest-first arrangement of a collection that keeps the
      order of ties: any stable sort with this comparator returns it. */
  lemma {:induction false} StableSortUnique(r: seq<Article>, t: seq<Article>)
    requires NewestFirst(r) && NewestFirst(t)
    requires KeepsTieOrder(r, t)
    ensures r == t
  {
    if r != [] {
      assert KeyFilter(r, SortKey(r[0])) != [] by {
        assert r[0] in r;
      }
      KeyFilterNonEmpty(t, SortKey(r[0]));
    }
    if t != [] {
      assert KeyFilter(t, SortKey(t[0])) != [] by {
        assert t[0] in t;
      }
      assert KeyFilter(r, SortKey(t[0])) != [];
      KeyFilterNonEmpty(r, SortKey(t[0]));
    }
    if r != [] && t != [] {
      var k0 := SortKey(r[0]);
      assert SortKey(t[0]) == k0;
      assert r == [r[0]] + r[1..] && t == [t[0]] + t[1..];
      KeyFilterCons(r[0], r[1..], k0);
      KeyFilterCons(t[0], t[1..], k0);
      assert KeyFilter(r, k0) == KeyFilter(t, k0);
      assert KeyFilter(r, k0)[0] == r[0] && KeyFilter(t, k0)[0] == t[0];
      forall k
        ensures KeyFilter(r[1..], k) == KeyFilter(t[1..], k)
      {
        KeyFilterCons(r[0], r[1..], k);
        KeyFilterCons(t[0], t[1..], k);
        var c := if SortKey(r[0]) == k then [r[0]] else [];
        assert KeyFilter(r, k) == KeyFilter(t, k) == c + KeyFilter(r[1..], k) == c + KeyFilter(t[1..], k);
        assert KeyFilter(r[1..], k) == (c + KeyFilter(r[1..], k))[|c|..];
        assert KeyFilter(t[1..], k) == (c + KeyFilter(t[1..], k))[|c|..];
      }
      StableSortUnique(r[1..], t[1..]);
    }
  }

  // ---------------------------------------------------------------------------
  // getPublishedArticles
  // ---------------------------------------------------------------------------

  /** The first `n` articles of `s` are newest first. */
  ghost predicate SortedPrefix(s: seq<Article>, n: int)
  {
    0 <= n <= |s| && forall p, q :: 0 <= p < q < n ==> SortKey(s[p]) >= SortKey(s[q])
  }

  /** During insertion of the article now at `j`: the first `i + 1` articles
      are newest first apart from it, and it is later than all that follow it. */
  ghost predicate SortedExcept(s: seq<Article>, i: int, j: int)
  {
    && 0 <= j <= i < |s|
    && (forall p, q :: 0 <= p < q <= i && p != j && q != j ==> SortKey(s[p]) >= SortKey(s[q]))
    && (forall q :: j < q <= i ==> SortKey(s[j]) > SortKey(s[q]))
  }

  lemma MoveLeft(s: seq<Article>, i: int, j: int)
    requires SortedExcept(s, i, j) && 0 < j && SortKey(s[j - 1]) < SortKey(s[j])
    ensures SortedExcept(s[j - 1 := s[j]][j := s[j - 1]], i, j - 1)
  {
  }

  lemma Settled(s: seq<Article>, i: int, j: int)
    requires SortedExcept(s, i, j) && (j == 0 || SortKey(s[j - 1]) >= SortKey(s[j]))
    ensures SortedPrefix(s, i + 1)
  {
  }

  /** `articles.sort(...)` with the newest-first comparator, performed in place
      as a stable insertion sort: an article moves left only past neighbours
      whose key is strictly earlier than its own. */
  method SortInPlace(a: array<Article>)
    modifies a
    ensures NewestFirst(a[..])
    ensures KeepsTieOrder(a[..], old(a[..]))
    ensures a[..] == SortNewestFirst(old(a[..]))
  {
    ghost var original := a[..];
    var i := 0;
    while i < a.Length
      invariant 0 <= i <= a.Length
      invariant SortedPrefix(a[..], i)
      invariant KeepsTieOrder(a[..], original)
    {
      var j := i;
      while j > 0 && SortKey(a[j - 1]) < SortKey(a[j])
        invariant SortedExcept(a[..], i, j)
        invariant KeepsTieOrder(a[..], original)
      {
        MoveLeft(a[..], i, j);
        SwapKeepsTieOrder(a[..], j);
        a[j - 1], a[j] := a[j], a[j - 1];
        j := j - 1;
      }
      Settled(a[..], i, j);
      i := i + 1;
    }
    SortNewestFirstKeepsTieOrder(original);
    StableSortUnique(a[..], SortNewestFirst(original));
  }

  /** The published articles of `collection`, newest first, ties in loader order. */
  function PublishedArticles(collection: seq<Article>): seq<Article>
  {
    SortNewestFirst(Published(collection))
  }

  /** What `getPublishedArticles` promises: no drafts; every non-draft article
      of the collection exactly as often as it occurs there; newest first; and
      ties in the order the loader yielded them. */
  lemma PublishedArticlesSpec(collection: seq<Article>)
    ensures forall a :: a in PublishedArticles(collection) ==> !a.data.draft
    ensures forall a ::
      (multiset(PublishedArticles(collection))[a] ==
        if IsPublished(a) then multiset(collection)[a] else 0)
    ensures forall a :: a in PublishedArticles(collection) <==> a in collection && IsPublished(a)
    ensures NewestFirst(PublishedArticles(collection))
    ensures KeepsTieOrder(PublishedArticles(collection), Published(collection))
  {
    var r := PublishedArticles(collection);
    forall a
      ensures multiset(r)[a] == if IsPublished(a) then multiset(collection)[a] else 0
      ensures a in r <==> a in collection && IsPublished(a)
    {
      FilterCount(collection, IsPublished, a);
    }
    SortNewestFirstKeepsTieOrder(Published(collection));
  }

  /** `getPublishedArticles` over an explicit collection. */
  method GetPublishedArticles(collection: seq<Article>) returns (r: seq<Article>)
    ensures r == PublishedArticles(collection)
    ensures forall a :: a in r ==> !a.data.draft
    ensures multiset(r) == multiset(Published(collection))
    ensures NewestFirst(r)
    ensures KeepsTieOrder(r, Published(collection))
  {
    var fetched := Published(collection);
    var a := new Article[|fetched|](i requires 0 <= i < |fetched| => fetched[i]);
    assert a[..] == fetched;
    SortInPlace(a);
    r := a[..];
    PublishedArticlesSpec(collection);
  }

  /** An undated article counts as published at the epoch, so it is listed
      before an article published in 1969. */
  lemma UndatedSortsBeforePre1970(undated: Article, old1969: Article)
    requires undated.data.publishDate == None && !undated.data.draft
    requires old1969.data.publishDate == Some(-1000) && !old1969.data.draft
    ensures PublishedArticles([old1969, undated]) == [undated, old1969]
  {
    var s := [old1969, undated];
    assert s[1..] == [undated] && [undated][1..] == [];
    assert Filter([undated], IsPublished) == [undated];
    assert Published(s) == s;
    assert SortNewestFirst([undated]) == Insert(undated, []) == [undated];
    assert Insert(old1969, [undated]) == [undated] + Insert(old1969, []);
  }

  /** Keys that tie keep their loader order: an undated article and one dated
      exactly at the epoch stay as they came. */
  lemma EpochTieKeepsLoaderOrder(undated: Article, epoch: Article)
    requires undated.data.publishDate == None && !undated.data.draft
    requires epoch.data.publishDate == Some(0) && !epoch.data.draft
    ensures PublishedArticles([undated, epoch]) == [undated, epoch]
    ensures PublishedArticles([epoch, undated]) == [epoch, undated]
  {
    assert [undated, epoch][1..] == [epoch] && [epoch, undated][1..] == [undated];
    assert [undated][1..] == [] && [epoch][1..] == [];
    assert Filter([undated], IsPublished) == [undated] && Filter([epoch], IsPublished) == [epoch];
    assert Published([undated, epoch]) == [undated, epoch];
    assert Published([epoch, undated]) == [epoch, undated];
    assert SortNewestFirst([epoch]) == [epoch] && SortNewestFirst([undated]) == [undated];
  }

  /** Filtering a newest-first sequence leaves it newest first. */
  lemma {:induction false} FilterKeepsNewestFirst(s: seq<Article>, p: Article -> bool)
    requires NewestFirst(s)
    ensures NewestFirst(Filter(s, p))
  {
    if s != [] {
      FilterKeepsNewestFirst(s[1..], p);
      var rest := Filter(s[1..], p);
      forall j | 0 <= j < |rest|
        ensures SortKey(s[0]) >= SortKey(rest[j])
      {
        FilterCount(s[1..], p, rest[j]);
      }
    }
  }

  // ---------------------------------------------------------------------------
  // getFeaturedArticles
  // ---------------------------------------------------------------------------

  predicate IsFeatured(a: Article)
  {
    a.data.featured
  }

  /** The published articles flagged `featured`, in published order. */
  function FeaturedArticles(collection: seq<Article>): seq<Article>
  {
    Filter(PublishedArticles(collection), IsFeatured)
  }

  lemma FeaturedArticlesSpec(collection: seq<Article>)
    ensures forall a :: a in FeaturedArticles(collection) <==>
      a in collection && IsPublished(a) && a.data.featured
    ensures forall a ::
      (multiset(FeaturedArticles(collection))[a] ==
        if IsPublished(a) && a.data.featured then multiset(collection)[a] else 0)
    ensures IsSubsequence(FeaturedArticles(collection), PublishedArticles(collection))
    ensures NewestFirst(FeaturedArticles(collection))
  {
    var published := PublishedArticles(collection);
    PublishedArticlesSpec(collection);
    forall a
      ensures a in FeaturedArticles(collection) <==> a in collection && IsPublished(a) && a.data.featured
      ensures multiset(FeaturedArticles(collection))[a] ==
        if IsPublished(a) && a.data.featured then multiset(collection)[a] else 0
    {
      FilterCount(published, IsFeatured, a);
    }
    FilterIsSubsequence(published, IsFeatured);
    FilterKeepsNewestFirst(published, IsFeatured);
  }

  /** `getFeaturedArticles`: the featured subset of `getPublishedArticles`. */
  method GetFeaturedArticles(collection: seq<Article>) returns (r: seq<Article>)
    ensures r == FeaturedArticles(collection)
    ensures forall a :: a in r ==> a.data.featured && !a.data.draft
  {
    var published := GetPublishedArticles(collection);
    r := Filter(published, IsFeatured);
    FeaturedArticlesSpec(collection);
  }

  // ---------------------------------------------------------------------------
  // getArticlesByTag
  // ---------------------------------------------------------------------------

  /** `(tags ?? []).includes(tag)`: exact, case-sensitive membership. */
  function HasTag(tag: string): Article -> bool
  {
    (a: Article) => tag in a.data.tags
  }

  /** The published articles carrying `tag`, in published order. */
  function ArticlesByTag(collection: seq<Article>, tag: string): seq<Article>
  {
    Filter(PublishedArticles(collection), HasTag(tag))
  }

  lemma ArticlesByTagSpec(collection: seq<Article>, tag: string)
    ensures forall a :: a in ArticlesByTag(collection, tag) <==>
      a in collection && IsPublished(a) && tag in a.data.tags
    ensures forall a ::
      (multiset(ArticlesByTag(collection, tag))[a] ==
        if IsPublished(a) && tag in a.data.tags then multiset(collection)[a] else 0)
    ensures IsSubsequence(ArticlesByTag(collection, tag), PublishedArticles(collection))
    ensures NewestFirst(ArticlesByTag(collection, tag))
  {
    var published := PublishedArticles(collection);
    PublishedArticlesSpec(collection);
    forall a
      ensures a in ArticlesByTag(collection, tag) <==> a in collection && IsPublished(a) && tag in a.data.tags
      ensures multiset(ArticlesByTag(collection, tag))[a] ==
        if IsPublished(a) && tag in a.data.tags then multiset(collection)[a] else 0
    {
      FilterCount(published, HasTag(tag), a);
    }
    FilterIsSubsequence(published, HasTag(tag));
    FilterKeepsNewestFirst(published, HasTag(tag));
  }

  /** A tag that no published article carries gives an empty list, not an
      error, and only such a tag does. */
  lemma ArticlesByTagEmptyIffUnmatched(collection: seq<Article>, tag: string)
    ensures ArticlesByTag(collection, tag) == [] <==>
      forall a :: a in collection && IsPublished(a) ==> tag !in a.data.tags
  {
    ArticlesByTagSpec(collection, tag);
    var r := ArticlesByTag(collection, tag);
    if r != [] {
      assert r[0] in r;
    }
  }

  /** `getArticlesByTag`: the articles of `getPublishedArticles` carrying `tag`. */
  method GetArticlesByTag(collection: seq<Article>, tag: string) returns (r: seq<Article>)
    ensures r == ArticlesByTag(collection, tag)
    ensures forall a :: a in r ==> tag in a.data.tags && !a.data.draft
  {
    var published := GetPublishedArticles(collection);
    r := Filter(published, HasTag(tag));
    ArticlesByTagSpec(collection, tag);
  }

  // ---------------------------------------------------------------------------
  // getAllTags
  // ---------------------------------------------------------------------------

  /** Every tag of every article in `articles`, drafts included. */
  ghost function TagSet(articles: seq<Article>): set<string>
  {
    set a, t | a in articles && t in a.data.tags :: t
  }

  lemma TagSetSnoc(articles: seq<Article>, a: Article)
    ensures forall x :: x in TagSet(articles + [a]) <==> x in TagSet(articles) || x in a.data.tags
  {
    forall x | x in TagSet(articles + [a])
      ensures x in TagSet(articles) || x in a.data.tags
    {
      var b :| b in articles + [a] && x in b.data.tags;
    }
    forall x | x in a.data.tags
      ensures x in TagSet(articles + [a])
    {
      assert a in articles + [a];
    }
    forall x | x in TagSet(articles)
      ensures x in TagSet(articles + [a])
    {
      var b :| b in articles && x in b.data.tags;
      assert b in articles + [a];
    }
  }

  /** Adds `t` to an ascending tag list at its place, unless already there. */
  function InsertTag(t: string, s: seq<string>): seq<string>
  {
    if s == [] then [t]
    else if t == s[0] then s
    else if Less(t, s[0]) then [t] + s
    else [s[0]] + InsertTag(t, s[1..])
  }

  lemma {:induction false} InsertTagSpec(t: string, s: seq<string>)
    requires StrictlyIncreasing(s)
    ensures StrictlyIncreasing(InsertTag(t, s))
    ensures forall x :: x in InsertTag(t, s) <==> x in s || x == t
  {
    if s != [] && t != s[0] {
      assert s == [s[0]] + s[1..];
      if Less(t, s[0]) {
        forall j | 0 < j < |s|
          ensures Less(t, s[j])
        {
          LessTransitive(t, s[0], s[j]);
        }
      } else {
        LessTotal(t, s[0]);
        InsertTagSpec(t, s[1..]);
        var rest := InsertTag(t, s[1..]);
        forall j | 0 <= j < |rest|
          ensures Less(s[0], rest[j])
        {
          assert rest[j] in rest;
        }
      }
    }
  }

  /** Adds each of `tags`, in turn, to the ascending list `s`. */
  function InsertTags(tags: seq<string>, s: seq<string>): seq<string>
  {
    if tags == [] then s else InsertTags(tags[1..], InsertTag(tags[0], s))
  }

  lemma {:induction false} InsertTagsSpec(tags: seq<string>, s: seq<string>)
    requires StrictlyIncreasing(s)
    ensures StrictlyIncreasing(InsertTags(tags, s))
    ensures forall x :: x in InsertTags(tags, s) <==> x in s || x in tags
  {
    if tags != [] {
      InsertTagSpec(tags[0], s);
      InsertTagsSpec(tags[1..], InsertTag(tags[0], s));
      assert tags == [tags[0]] + tags[1..];
    }
  }

  /** The distinct tags of `articles` in ascending order: the value of
      `getAllTags`. */
  function AllTags(articles: seq<Article>): seq<string>
  {
    if articles == [] then []
    else
      var n := |articles| - 1;
      InsertTags(articles[n].data.tags, AllTags(articles[..n]))
  }

  /** The tag list is ascending without repeats and holds exactly the tags of
      the input articles. */
  lemma {:induction false} AllTagsSpec(articles: seq<Article>)
    ensures StrictlyIncreasing(AllTags(articles))
    ensures forall x :: x in AllTags(articles) <==> x in TagSet(articles)
  {
    if articles != [] {
      var n := |articles| - 1;
      AllTagsSpec(articles[..n]);
      InsertTagsSpec(articles[n].data.tags, AllTags(articles[..n]));
      TagSetSnoc(articles[..n], articles[n]);
      assert articles == articles[..n] + [articles[n]];
    }
  }

  /** `getAllTags` depends on nothing but the set of tags: not on the order
      of the articles, not on repeated tags, not on any other field. */
  lemma AllTagsDependsOnlyOnTagSet(a: seq<Article>, b: seq<Article>)
    requires TagSet(a) == TagSet(b)
    ensures AllTags(a) == AllTags(b)
  {
    AllTagsSpec(a);
    AllTagsSpec(b);
    StrictlyIncreasingUnique(AllTags(a), AllTags(b));
  }

  /** Reordering the articles leaves the tag list unchanged. */
  lemma AllTagsOrderIndependent(a: seq<Article>, b: seq<Article>)
    requires multiset(a) == multiset(b)
    ensures AllTags(a) == AllTags(b)
  {
    forall x | x in TagSet(a)
      ensures x in TagSet(b)
    {
      var c :| c in a && x in c.data.tags;
      assert c in multiset(a);
    }
    forall x | x in TagSet(b)
      ensures x in TagSet(a)
    {
      var c :| c in b && x in c.data.tags;
      assert c in multiset(b);
    }
    AllTagsDependsOnlyOnTagSet(a, b);
  }

  /** Only the tag lists matter: `draft`, `featured` and every other field are
      ignored. */
  lemma AllTagsIgnoresOtherFields(a: seq<Article>, b: seq<Article>)
    requires |a| == |b|
    requires forall i :: 0 <= i < |a| ==> a[i].data.tags == b[i].data.tags
    ensures AllTags(a) == AllTags(b)
  {
    forall x | x in TagSet(a)
      ensures x in TagSet(b)
    {
      var c :| c in a && x in c.data.tags;
      var i :| 0 <= i < |a| && a[i] == c;
      assert b[i] in b;
    }
    forall x | x in TagSet(b)
      ensures x in TagSet(a)
    {
      var c :| c in b && x in c.data.tags;
      var i :| 0 <= i < |b| && b[i] == c;
      assert a[i] in a;
    }
    AllTagsDependsOnlyOnTagSet(a, b);
  }

  lemma AllTagsExample(x: Article, y: Article)
    requires x.data.tags == ["b", "a"] && y.data.tags == ["a", "c"]
    ensures AllTags([x, y]) == ["a", "b", "c"]
    ensures AllTags([]) == []
  {
    var expected := ["a", "b", "c"];
    assert Less("a", "b") && Less("b", "c") && Less("a", "c");
    assert StrictlyIncreasing(expected);
    AllTagsSpec([x, y]);
    forall t
      ensures t in AllTags([x, y]) <==> t in expected
    {
      if t in expected {
        if t == "a" || t == "b" {
          assert t in x.data.tags && x in [x, y];
        } else {
          assert t in y.data.tags && y in [x, y];
        }
      }
    }
    StrictlyIncreasingUnique(AllTags([x, y]), expected);
  }

  predicate Distinct(s: seq<string>)
  {
    forall i, j :: 0 <= i < j < |s| ==> s[i] != s[j]
  }

  lemma SwapKeepsDistinct(s: seq<string>, j: int)
    requires 0 < j < |s| && Distinct(s)
    ensures Distinct(s[j - 1 := s[j]][j := s[j - 1]])
  {
    var t := s[j - 1 := s[j]][j := s[j - 1]];
    forall p, q | 0 <= p < q < |t|
      ensures t[p] != t[q]
    {
      var p' := if p == j - 1 then j else if p == j then j - 1 else p;
      var q' := if q == j - 1 then j else if q == j then j - 1 else q;
      assert t[p] == s[p'] && t[q] == s[q'] && p' != q';
    }
  }

  /** `sort()` with no comparator on the distinct tags, in place: insertion
      sort by the default string order. */
  method SortTagsInPlace(a: array<string>)
    requires Distinct(a[..])
    modifies a
    ensures StrictlyIncreasing(a[..])
    ensures multiset(a[..]) == multiset(old(a[..]))
  {
    var i := 0;
    while i < a.Length
      invariant 0 <= i <= a.Length
      invariant forall p, q :: 0 <= p < q < i ==> Less(a[p], a[q])
      invariant multiset(a[..]) == multiset(old(a[..]))
      invariant Distinct(a[..])
    {
      var j := i;
      while j > 0 && Less(a[j], a[j - 1])
        invariant 0 <= j <= i
        invariant forall p, q :: 0 <= p < q <= i && p != j && q != j ==> Less(a[p], a[q])
        invariant forall q :: j < q <= i ==> Less(a[j], a[q])
        invariant multiset(a[..]) == multiset(old(a[..]))
        invariant Distinct(a[..])
      {
        SwapKeepsDistinct(a[..], j);
        a[j - 1], a[j] := a[j], a[j - 1];
        j := j - 1;
      }
      if j > 0 {
        LessTotal(a[j - 1], a[j]);
        forall p | 0 <= p < j - 1
          ensures Less(a[p], a[j])
        {
          LessTransitive(a[p], a[j - 1], a[j]);
        }
      }
      i := i + 1;
    }
  }

  /** `getAllTags`: collect the tags into a set (kept, like a JavaScript `Set`,
      in first-insertion order), then sort them. */
  method GetAllTags(articles: seq<Article>) returns (r: seq<string>)
    ensures StrictlyIncreasing(r)
    ensures forall x :: x in r <==> x in TagSet(articles)
    ensures r == AllTags(articles)
  {
    var seen: seq<string> := [];
    var i := 0;
    while i < |articles|
      invariant 0 <= i <= |articles|
      invariant Distinct(seen)
      invariant forall x :: x in seen <==> x in TagSet(articles[..i])
    {
      var tags := articles[i].data.tags;
      var j := 0;
      while j < |tags|
        invariant 0 <= j <= |tags|
        invariant Distinct(seen)
        invariant forall x :: x in seen <==> x in TagSet(articles[..i]) || x in tags[..j]
      {
        if tags[j] !in seen {
          seen := seen + [tags[j]];
        }
        j := j + 1;
      }
      TagSetSnoc(articles[..i], articles[i]);
      assert articles[..i + 1] == articles[..i] + [articles[i]];
      assert tags[..j] == tags;
      i := i + 1;
    }
    assert articles[..i] == articles;
    var a := new string[|seen|](k requires 0 <= k < |seen| => seen[k]);
    assert a[..] == seen;
    SortTagsInPlace(a);
    r := a[..];
    forall x
      ensures x in r <==> x in seen
    {
      assert x in r <==> x in multiset(r);
      assert x in seen <==> x in multiset(seen);
    }
    AllTagsSpec(articles);
    StrictlyIncreasingUnique(r, AllTags(articles));
  }
}
