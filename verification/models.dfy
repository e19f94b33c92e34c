/** The blog's records (`Category`, `Location`, `Post`), the values a new
    record starts with, the default ordering of posts, and the
    `get_published_posts` query. */
module Models {
  import opened Query

  /** A point in time, e.g. microseconds since the epoch. */
  type Time = int

  /** A nullable foreign key. */
  datatype Option<T> = None | Some(value: T)

  datatype Category = Category(
    id: nat,
    title: string,
    description: string,
    slug: string,
    isPublished: bool)

  datatype Location = Location(
    id: nat,
    name: string,
    isPublished: bool)

  /** `author` is a required reference to a user; `location` and `category`
      are nullable references. `viewsCount` is a non-negative counter. */
  datatype Post = Post(
    id: nat,
    title: string,
    text: string,
    pubDate: Time,
    author: nat,
    location: Option<nat>,
    category: Option<nat>,
    isPublished: bool,
    viewsCount: nat)

  /** A category as created without an explicit published flag. */
  function NewCategory(id: nat, title: string, description: string, slug: string): (c: Category)
    ensures c.isPublished
    ensures c.id == id && c.title == title && c.description == description && c.slug == slug
  {
    Category(id, title, description, slug, true)
  }

  /** A location as created without an explicit published flag. */
  function NewLocation(id: nat, name: string): (l: Location)
    ensures l.isPublished
    ensures l.id == id && l.name == name
  {
    Location(id, name, true)
  }

  /** A post as created without an explicit published flag or view count. */
  function NewPost(id: nat, title: string, text: string, pubDate: Time, author: nat,
                   location: Option<nat>, category: Option<nat>): (p: Post)
    ensures p.isPublished && p.viewsCount == 0
    ensures p.id == id && p.title == title && p.text == text && p.pubDate == pubDate
    ensures p.author == author && p.location == location && p.category == category
  {
    Post(id, title, text, pubDate, author, location, category, true, 0)
  }

  // ---------------------------------------------------------------------
  // Keys

  function CategoryId(c: Category): nat { c.id }
  function CategorySlug(c: Category): string { c.slug }
  function LocationId(l: Location): nat { l.id }
  function PostId(p: Post): nat { p.id }

  // ---------------------------------------------------------------------
  // Default ordering: newest publication date first

  /** Every post is dated no later than the posts before it. */
  predicate NewestFirst(s: seq<Post>) {
    forall i, j :: 0 <= i < j < |s| ==> s[i].pubDate >= s[j].pubDate
  }

  /** A post no older than any post of a list in the default order may go
      in front of it. */
  lemma ConsNewestFirst(p: Post, s: seq<Post>)
    requires NewestFirst(s)
    requires forall x :: x in s ==> x.pubDate <= p.pubDate
    ensures NewestFirst([p] + s)
  {
    var r := [p] + s;
    forall i, j | 0 <= i < j < |r| ensures r[i].pubDate >= r[j].pubDate {
      assert r[j] == s[j - 1];
      if i > 0 { assert r[i] == s[i - 1]; }
    }
  }

  /** Any post of `rest`, which holds the tail of `s` and an older `p`, is no
      newer than the head of `s`. */
  lemma TailNoNewerThanHead(s: seq<Post>, p: Post, x: Post, rest: seq<Post>)
    requires NewestFirst(s) && s != [] && p.pubDate < s[0].pubDate
    requires multiset(rest) == multiset(s[1..]) + multiset{p}
    requires x in rest
    ensures x.pubDate <= s[0].pubDate
  {
    assert x in multiset(rest);
    if x != p {
      assert x in multiset(s[1..]);
      var j :| 0 <= j < |s[1..]| && s[1..][j] == x;
      assert s[j + 1] == x;
    }
  }

  /** Puts `p` in front of the first post of `s` that is not newer than it. */
  function InsertNewestFirst(p: Post, s: seq<Post>): (r: seq<Post>)
    requires NewestFirst(s)
    ensures NewestFirst(r)
    ensures multiset(r) == multiset(s) + multiset{p}
    decreases |s|
  {
    if s == [] || s[0].pubDate <= p.pubDate then
      ConsNewestFirst(p, s);
      [p] + s
    else
      assert s == [s[0]] + s[1..];
      var rest := InsertNewestFirst(p, s[1..]);
      forall x | x in rest ensures x.pubDate <= s[0].pubDate {
        TailNoNewerThanHead(s, p, x, rest);
      }
      ConsNewestFirst(s[0], rest);
      [s[0]] + rest
  }

  /** The posts of `s` in the default order; posts with equal dates keep
      their relative order. */
  function SortNewestFirst(s: seq<Post>): (r: seq<Post>)
    ensures NewestFirst(r)
    ensures multiset(r) == multiset(s)
    decreases |s|
  {
    if s == [] then []
    else
      assert s == [s[0]] + s[1..];
      InsertNewestFirst(s[0], SortNewestFirst(s[1..]))
  }

  /** The first `k` posts of a list in the default order are in the
      default order and are drawn from the list, without repeats of their
      own. */
  lemma PrefixIsSubList(s: seq<Post>, k: nat)
    requires NewestFirst(s) && k <= |s|
    ensures NewestFirst(s[..k])
    ensures multiset(s[..k]) <= multiset(s)
    ensures forall x :: x in s[..k] ==> x in s
  {
    assert s == s[..k] + s[k..];
    assert multiset(s) == multiset(s[..k]) + multiset(s[k..]);
  }

  /** Taking the first `k` posts of a list in the default order keeps the
      newest ones: every post left out is no newer than every post kept. */
  lemma {:induction false} PrefixKeepsNewest(s: seq<Post>, k: nat, q: Post)
    requires NewestFirst(s) && k <= |s|
    requires q in s && q !in s[..k]
    ensures forall x :: x in s[..k] ==> q.pubDate <= x.pubDate
  {
    var j :| 0 <= j < |s| && s[j] == q;
    assert forall i :: 0 <= i < k ==> s[..k][i] == s[i];
    forall x | x in s[..k] ensures q.pubDate <= x.pubDate {
      var i :| 0 <= i < k && s[..k][i] == x;
      assert s[i] == x;
    }
  }

  // ---------------------------------------------------------------------
  // `Post.get_published_posts`

  /** The published-and-due half of the visibility rule. */
  predicate PublishedAndDue(p: Post, now: Time) {
    p.isPublished && p.pubDate <= now
  }

  /** Posts that are published and dated at or before `now`, whatever their
      category, in the default order. */
  function PublishedPosts(posts: seq<Post>, now: Time): (r: seq<Post>)
    ensures NewestFirst(r)
    ensures forall p :: p in r <==> p in posts && PublishedAndDue(p, now)
    ensures forall p :: multiset(r)[p] == if PublishedAndDue(p, now) then multiset(posts)[p] else 0
  {
    var due := Select(posts, p => PublishedAndDue(p, now));
    assert forall p :: p in SortNewestFirst(due) <==> p in multiset(due);
    SortNewestFirst(due)
  }

  // ---------------------------------------------------------------------
  // Table constraints

  predicate UniqueCategoryIds(categories: seq<Category>) { UniqueKey(categories, CategoryId) }
  predicate UniqueSlugs(categories: seq<Category>) { UniqueKey(categories, CategorySlug) }
  predicate UniqueLocationIds(locations: seq<Location>) { UniqueKey(locations, LocationId) }
  predicate UniquePostIds(posts: seq<Post>) { UniqueKey(posts, PostId) }
}
