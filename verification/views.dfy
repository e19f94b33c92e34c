/** The public visibility rule for posts and the three pages built on it:
    the front page (`index`), a post's page (`post_detail`) and a
    category's page (`category_posts`). Each page is a function of the
    current tables and of the time `now`, so none of them can change the
    tables. */
module Views {
  import opened Query
  import opened Models

  /** How many posts the front page shows at most. */
  const IndexLimit: nat := 5

  /** The category with primary key `id` exists and is published: the join
      `category__is_published=True`. */
  predicate CategoryPublished(categories: seq<Category>, id: nat) {
    exists c :: c in categories && c.id == id && c.isPublished
  }

  /** The visibility rule: the post is published, due (dated at or before
      `now`) and filed under a published category. A post without a
      category is never visible. */
  predicate Visible(p: Post, categories: seq<Category>, now: Time) {
    && PublishedAndDue(p, now)
    && p.category.Some?
    && CategoryPublished(categories, p.category.value)
  }

  /** Every visible post, in table order, before ordering and the limit. */
  function VisiblePosts(posts: seq<Post>, categories: seq<Category>, now: Time): (r: seq<Post>)
    ensures forall p :: p in r <==> p in posts && Visible(p, categories, now)
    ensures forall p :: multiset(r)[p] == if Visible(p, categories, now) then multiset(posts)[p] else 0
  {
    Select(posts, p => Visible(p, categories, now))
  }

  // ---------------------------------------------------------------------
  // `index`

  /** The front page: the visible posts, newest first, cut to the first
      `IndexLimit` after filtering and ordering. */
  function Index(posts: seq<Post>, categories: seq<Category>, now: Time): (r: seq<Post>)
    ensures forall p :: p in r ==> p in posts && Visible(p, categories, now)
    ensures multiset(r) <= multiset(VisiblePosts(posts, categories, now))
    ensures NewestFirst(r)
    ensures |r| == if |VisiblePosts(posts, categories, now)| < IndexLimit
                   then |VisiblePosts(posts, categories, now)| else IndexLimit
  {
    var all := SortNewestFirst(VisiblePosts(posts, categories, now));
    assert |all| == |multiset(all)|;
    assert forall p :: p in all ==> p in multiset(all);
    var n := if |all| < IndexLimit then |all| else IndexLimit;
    PrefixIsSubList(all, n);
    all[..n]
  }

  /** A visible post is missing from the front page only when the page is
      full and the post is no newer than any post on it. In particular,
      with fewer than `IndexLimit` visible posts the page shows them all. */
  lemma IndexOmitsOnlyOlderPosts(posts: seq<Post>, categories: seq<Category>, now: Time, q: Post)
    requires q in posts && Visible(q, categories, now)
    requires q !in Index(posts, categories, now)
    ensures |Index(posts, categories, now)| == IndexLimit
    ensures forall p :: p in Index(posts, categories, now) ==> q.pubDate <= p.pubDate
  {
    var visible := VisiblePosts(posts, categories, now);
    var all := SortNewestFirst(visible);
    var r := Index(posts, categories, now);
    assert q in multiset(all);
    assert |all| == |multiset(visible)|;
    assert r == all[..|r|];
    PrefixKeepsNewest(all, |r|, q);
  }

  /** The boundary is inclusive: a published post in a published category
      dated exactly `now` is listed on a front page with room for it. */
  lemma IndexShowsPostDueNow(posts: seq<Post>, categories: seq<Category>, now: Time, q: Post)
    requires q in posts && q.isPublished && q.pubDate == now
    requires q.category.Some? && CategoryPublished(categories, q.category.value)
    requires |VisiblePosts(posts, categories, now)| < IndexLimit
    ensures q in Index(posts, categories, now)
  {
    if q !in Index(posts, categories, now) {
      IndexOmitsOnlyOlderPosts(posts, categories, now, q);
    }
  }

  // ---------------------------------------------------------------------
  // `post_detail`

  /** The filter of `post_detail`: key `pk` and the visibility rule. */
  function ShownWithKey(categories: seq<Category>, now: Time, pk: nat): Post -> bool {
    (p: Post) => p.id == pk && Visible(p, categories, now)
  }

  /** The page of post `pk`: the post with that key if it is visible,
      `NotFound` otherwise. */
  function PostDetail(posts: seq<Post>, categories: seq<Category>, now: Time, pk: nat): (r: Result<Post>)
    ensures r.Ok? ==> r.value in posts && r.value.id == pk && Visible(r.value, categories, now)
    ensures r == Err(NotFound) <==> !exists p :: p in posts && p.id == pk && Visible(p, categories, now)
  {
    var matches := Select(posts, ShownWithKey(categories, now, pk));
    assert matches != [] ==> matches[0] in matches;
    Get(matches)
  }

  /** With unique primary keys, the page of a stored post shows that post
      exactly when it is visible, and is `NotFound` otherwise: when it is
      unpublished, dated after `now`, without a category, or in a category
      that is unpublished or gone. It never fails with
      `MultipleObjectsReturned`. */
  lemma PostDetailExact(posts: seq<Post>, categories: seq<Category>, now: Time, p: Post)
    requires UniquePostIds(posts) && p in posts
    ensures PostDetail(posts, categories, now, p.id)
         == if Visible(p, categories, now) then Ok(p) else Err(NotFound)
  {
    var keep := ShownWithKey(categories, now, p.id);
    AtMostOneMatch(posts, PostId, p.id, keep);
    var matches := Select(posts, keep);
    if Visible(p, categories, now) {
      assert p in matches;
      assert matches[0] in matches;
    }
    assert PostDetail(posts, categories, now, p.id) == Get(matches);
  }

  /** A key no stored post has is `NotFound`. */
  lemma PostDetailMissingKey(posts: seq<Post>, categories: seq<Category>, now: Time, pk: nat)
    requires forall p :: p in posts ==> p.id != pk
    ensures PostDetail(posts, categories, now, pk) == Err(NotFound)
  {
  }

  // ---------------------------------------------------------------------
  // `category_posts`

  /** What the category page shows: the category and its post list. */
  datatype CategoryPage = CategoryPage(category: Category, postList: seq<Post>)

  /** The filter of the category lookup: the slug and the published flag. */
  function PublishedWithSlug(slug: string): Category -> bool {
    (c: Category) => c.slug == slug && c.isPublished
  }

  /** The published category with the given slug. */
  function PublishedCategoryBySlug(categories: seq<Category>, slug: string): (r: Result<Category>)
    ensures r.Ok? ==> r.value in categories && r.value.slug == slug && r.value.isPublished
    ensures r == Err(NotFound) <==> !exists c :: c in categories && c.slug == slug && c.isPublished
  {
    var matches := Select(categories, PublishedWithSlug(slug));
    assert matches != [] ==> matches[0] in matches;
    Get(matches)
  }

  /** With unique slugs, the lookup finds the category holding the slug
      exactly when that category is published; an unpublished one is
      `NotFound`, whatever posts refer to it. */
  lemma CategoryLookupExact(categories: seq<Category>, c: Category)
    requires UniqueSlugs(categories) && c in categories
    ensures PublishedCategoryBySlug(categories, c.slug)
         == if c.isPublished then Ok(c) else Err(NotFound)
  {
    var keep := PublishedWithSlug(c.slug);
    AtMostOneMatch(categories, CategorySlug, c.slug, keep);
    var matches := Select(categories, keep);
    if c.isPublished {
      assert c in matches;
      assert matches[0] in matches;
    }
    assert PublishedCategoryBySlug(categories, c.slug) == Get(matches);
  }

  /** The posts of category `c` that are published and due. */
  function PostsOfCategory(posts: seq<Post>, c: Category, now: Time): (r: seq<Post>)
    ensures NewestFirst(r)
    ensures forall p :: p in r <==> p in posts && p.category == Some(c.id) && PublishedAndDue(p, now)
    ensures forall p :: multiset(r)[p] ==
              if p.category == Some(c.id) && PublishedAndDue(p, now) then multiset(posts)[p] else 0
  {
    var due := Select(posts, (p: Post) => p.category == Some(c.id) && PublishedAndDue(p, now));
    assert forall p :: p in SortNewestFirst(due) <==> p in multiset(due);
    SortNewestFirst(due)
  }

  /** The category page: `NotFound` unless a published category has the
      slug; then that category and its published, due posts, newest first. */
  function CategoryPosts(posts: seq<Post>, categories: seq<Category>, now: Time, slug: string): (r: Result<CategoryPage>)
    ensures r == Err(NotFound) <==> !exists c :: c in categories && c.slug == slug && c.isPublished
    ensures r.Ok? ==> && r.value.category in categories
                      && r.value.category.slug == slug
                      && r.value.category.isPublished
    ensures r.Ok? ==> NewestFirst(r.value.postList)
    ensures r.Ok? ==> forall p :: p in r.value.postList <==>
                        p in posts && p.category == Some(r.value.category.id) && PublishedAndDue(p, now)
    ensures r.Ok? ==> forall p :: multiset(r.value.postList)[p] ==
                        if p.category == Some(r.value.category.id) && PublishedAndDue(p, now)
                        then multiset(posts)[p] else 0
  {
    match PublishedCategoryBySlug(categories, slug)
    case Err(e) => Err(e)
    case Ok(c) => Ok(CategoryPage(c, PostsOfCategory(posts, c, now)))
  }

  /** The post list of a published, stored category holds exactly the
      visible posts filed under it, each as often as stored: the list's own filter leaves out the
      category condition, and the lookup that precedes it supplies it. */
  lemma CategoryListIsItsVisiblePosts(posts: seq<Post>, categories: seq<Category>, now: Time, c: Category)
    requires c in categories && c.isPublished
    ensures forall p :: p in PostsOfCategory(posts, c, now) <==>
                          p in VisiblePosts(posts, categories, now) && p.category == Some(c.id)
    ensures forall p :: multiset(PostsOfCategory(posts, c, now))[p] ==
                          if p.category == Some(c.id) then multiset(VisiblePosts(posts, categories, now))[p] else 0
  {
    forall p: Post | p.category == Some(c.id)
      ensures Visible(p, categories, now) <==> PublishedAndDue(p, now)
    {
      assert c.id == p.category.value;
    }
  }

  /** A post whose category reference is null appears on none of the three
      pages, even when it is published and due. */
  lemma UncategorizedPostNeverShown(posts: seq<Post>, categories: seq<Category>, now: Time, p: Post, slug: string)
    requires p.category.None?
    ensures p !in Index(posts, categories, now)
    ensures PostDetail(posts, categories, now, p.id) != Ok(p)
    ensures CategoryPosts(posts, categories, now, slug).Ok? ==>
              p !in CategoryPosts(posts, categories, now, slug).value.postList
  {
  }

  /** `get_published_posts` drops only the category condition: it holds
      every visible post, at least as often. */
  lemma PublishedPostsCoverVisible(posts: seq<Post>, categories: seq<Category>, now: Time)
    ensures multiset(VisiblePosts(posts, categories, now)) <= multiset(PublishedPosts(posts, now))
    ensures forall p :: p in Index(posts, categories, now) ==> p in PublishedPosts(posts, now)
  {
    var v, pub := VisiblePosts(posts, categories, now), PublishedPosts(posts, now);
    forall p ensures multiset(v)[p] <= multiset(pub)[p] {
      if Visible(p, categories, now) {
        assert PublishedAndDue(p, now);
      }
    }
  }

  /** A worked case: of a post due yesterday in a published category (A),
      one due tomorrow in the same category (B) and one due yesterday in an
      unpublished category (C), the front page shows only A. */
  lemma FrontPageExample(now: Time, a: Post, b: Post, c: Post, categories: seq<Category>)
    requires categories == [Category(1, "News", "", "news", true), Category(2, "Drafts", "", "drafts", false)]
    requires a == NewPost(1, "A", "", now - 1, 7, None, Some(1))
    requires b == NewPost(2, "B", "", now + 1, 7, None, Some(1))
    requires c == NewPost(3, "C", "", now - 1, 7, None, Some(2))
    ensures Index([a, b, c], categories, now) == [a]
  {
    var posts := [a, b, c];
    assert Visible(a, categories, now) by { assert categories[0] in categories; }
    assert !Visible(b, categories, now);
    assert !Visible(c, categories, now);
    var v := VisiblePosts(posts, categories, now);
    assert multiset(v) == multiset{a} by {
      assert multiset(posts) == multiset{a, b, c};
    }
    var all := SortNewestFirst(v);
    assert multiset(all) == multiset{a};
    assert |all| == 1 && all[0] in multiset(all);
  }
}
