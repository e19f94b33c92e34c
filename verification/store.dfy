/** The three tables as the database keeps them: the constraints every
    insert is checked against (unique keys, unique category slug, foreign
    keys that resolve) and the effect of deleting a referenced row
    (`SET_NULL` for a post's category and location, `CASCADE` for its
    author). */
module Store {
  import opened Query
  import opened Models
  import opened Views

  /** Every non-null reference of a post names a stored row. */
  predicate ReferencesResolve(categories: seq<Category>, locations: seq<Location>, posts: seq<Post>) {
    forall p :: p in posts ==>
      && (p.category.Some? ==> exists c :: c in categories && c.id == p.category.value)
      && (p.location.Some? ==> exists l :: l in locations && l.id == p.location.value)
  }

  /** The table constraints: primary keys, the category slug, foreign keys. */
  predicate Consistent(categories: seq<Category>, locations: seq<Location>, posts: seq<Post>) {
    && UniqueCategoryIds(categories)
    && UniqueSlugs(categories)
    && UniqueLocationIds(locations)
    && UniquePostIds(posts)
    && ReferencesResolve(categories, locations, posts)
  }

  /** `SET_NULL` on one post for the deleted category `id`. */
  function WithoutCategory(p: Post, id: nat): (r: Post)
    ensures r.category == if p.category == Some(id) then None else p.category
    ensures r.(category := p.category) == p
  {
    if p.category == Some(id) then p.(category := None) else p
  }

  /** `SET_NULL` on one post for the deleted location `id`. */
  function WithoutLocation(p: Post, id: nat): (r: Post)
    ensures r.location == if p.location == Some(id) then None else p.location
    ensures r.(location := p.location) == p
  {
    if p.location == Some(id) then p.(location := None) else p
  }

  /** The category table without the row keyed `id`. */
  function RemoveCategory(categories: seq<Category>, id: nat): (r: seq<Category>)
    ensures forall c :: c in r <==> c in categories && c.id != id
  {
    Select(categories, (c: Category) => c.id != id)
  }

  /** The location table without the row keyed `id`. */
  function RemoveLocation(locations: seq<Location>, id: nat): (r: seq<Location>)
    ensures forall l :: l in r <==> l in locations && l.id != id
  {
    Select(locations, (l: Location) => l.id != id)
  }

  /** `CASCADE` for the deleted author: the posts written by someone else,
      each exactly as often as before. */
  function RemovePostsBy(posts: seq<Post>, author: nat): (r: seq<Post>)
    ensures forall p :: p in r <==> p in posts && p.author != author
    ensures forall p :: multiset(r)[p] == if p.author != author then multiset(posts)[p] else 0
  {
    Select(posts, (p: Post) => p.author != author)
  }

  /** Deleting category `id` hides exactly the posts that were filed under
      it; every other post stays visible or hidden as it was. */
  lemma DeleteCategoryHidesOnlyItsPosts(p: Post, id: nat, categories: seq<Category>, now: Time)
    ensures Visible(WithoutCategory(p, id), RemoveCategory(categories, id), now)
        <==> Visible(p, categories, now) && p.category != Some(id)
  {
    var q, rest := WithoutCategory(p, id), RemoveCategory(categories, id);
    if Visible(p, categories, now) && p.category != Some(id) {
      var c :| c in categories && c.id == p.category.value && c.isPublished;
      assert c in rest;
    }
  }

  /** Deleting a location changes no post's visibility. */
  lemma DeleteLocationKeepsVisibility(p: Post, id: nat, categories: seq<Category>, now: Time)
    ensures Visible(WithoutLocation(p, id), categories, now) <==> Visible(p, categories, now)
  {
  }

  /** The blog's tables. */
  class Database {
    var categories: seq<Category>
    var locations: seq<Location>
    var posts: seq<Post>

    ghost predicate Valid()
      reads this
    {
      Consistent(categories, locations, posts)
    }

    constructor ()
      ensures Valid()
      ensures categories == [] && locations == [] && posts == []
    {
      categories, locations, posts := [], [], [];
    }

    /** Inserts a category, refused when its key or its slug is taken. */
    method AddCategory(c: Category) returns (ok: bool)
      requires Valid()
      modifies this
      ensures Valid()
      ensures ok <==> forall d :: d in old(categories) ==> d.id != c.id && d.slug != c.slug
      ensures categories == if ok then old(categories) + [c] else old(categories)
      ensures locations == old(locations) && posts == old(posts)
    {
      ok := forall d :: d in categories ==> d.id != c.id && d.slug != c.slug;
      if ok {
        UniqueKeyAppend(categories, CategoryId, c);
        UniqueKeyAppend(categories, CategorySlug, c);
        categories := categories + [c];
      }
    }

    /** Inserts a location, refused when its key is taken. */
    method AddLocation(l: Location) returns (ok: bool)
      requires Valid()
      modifies this
      ensures Valid()
      ensures ok <==> forall m :: m in old(locations) ==> m.id != l.id
      ensures locations == if ok then old(locations) + [l] else old(locations)
      ensures categories == old(categories) && posts == old(posts)
    {
      ok := forall m :: m in locations ==> m.id != l.id;
      if ok {
        UniqueKeyAppend(locations, LocationId, l);
        locations := locations + [l];
      }
    }

    /** Inserts a post, refused when its key is taken or when its category
        or location names no stored row. */
    method AddPost(p: Post) returns (ok: bool)
      requires Valid()
      modifies this
      ensures Valid()
      ensures ok <==> && (forall q :: q in old(posts) ==> q.id != p.id)
                      && (p.category.Some? ==> exists c :: c in categories && c.id == p.category.value)
                      && (p.location.Some? ==> exists l :: l in locations && l.id == p.location.value)
      ensures posts == if ok then old(posts) + [p] else old(posts)
      ensures categories == old(categories) && locations == old(locations)
    {
      ok := && (forall q :: q in posts ==> q.id != p.id)
            && (p.category.Some? ==> exists c :: c in categories && c.id == p.category.value)
            && (p.location.Some? ==> exists l :: l in locations && l.id == p.location.value);
      if ok {
        UniqueKeyAppend(posts, PostId, p);
        posts := posts + [p];
      }
    }

    /** Deletes category `id`; the posts filed under it lose their
        category, and nothing else about any post changes. */
    method DeleteCategory(id: nat)
      requires Valid()
      modifies this
      ensures Valid()
      ensures categories == RemoveCategory(old(categories), id)
      ensures |posts| == |old(posts)|
      ensures forall i :: 0 <= i < |posts| ==> posts[i] == WithoutCategory(old(posts)[i], id)
      ensures locations == old(locations)
    {
      var before := posts;
      var after := seq(|before|, i requires 0 <= i < |before| => WithoutCategory(before[i], id));
      var rest := RemoveCategory(categories, id);
      assert UniquePostIds(after) by {
        forall i, j | 0 <= i < j < |after| ensures after[i].id != after[j].id {
          assert before[i].id != before[j].id;
        }
      }
      UniqueKeySelect(categories, CategoryId, (c: Category) => c.id != id);
      UniqueKeySelect(categories, CategorySlug, (c: Category) => c.id != id);
      forall q | q in after
        ensures q.category.Some? ==> exists c :: c in rest && c.id == q.category.value
        ensures q.location.Some? ==> exists l :: l in locations && l.id == q.location.value
      {
        var i :| 0 <= i < |after| && after[i] == q;
        assert before[i] in before;
        if q.category.Some? {
          var c :| c in categories && c.id == q.category.value;
          assert c in rest;
        }
      }
      posts, categories := after, rest;
    }

    /** Deletes location `id`; the posts placed there lose their location,
        and nothing else about any post changes. */
    method DeleteLocation(id: nat)
      requires Valid()
      modifies this
      ensures Valid()
      ensures locations == RemoveLocation(old(locations), id)
      ensures |posts| == |old(posts)|
      ensures forall i :: 0 <= i < |posts| ==> posts[i] == WithoutLocation(old(posts)[i], id)
      ensures categories == old(categories)
    {
      var before := posts;
      var after := seq(|before|, i requires 0 <= i < |before| => WithoutLocation(before[i], id));
      var rest := RemoveLocation(locations, id);
      assert UniquePostIds(after) by {
        forall i, j | 0 <= i < j < |after| ensures after[i].id != after[j].id {
          assert before[i].id != before[j].id;
        }
      }
      UniqueKeySelect(locations, LocationId, (l: Location) => l.id != id);
      forall q | q in after
        ensures q.category.Some? ==> exists c :: c in categories && c.id == q.category.value
        ensures q.location.Some? ==> exists l :: l in rest && l.id == q.location.value
      {
        var i :| 0 <= i < |after| && after[i] == q;
        assert before[i] in before;
        if q.location.Some? {
          var l :| l in locations && l.id == q.location.value;
          assert l in rest;
        }
      }
      posts, locations := after, rest;
    }

    /** Deletes the user `author`: every post they wrote goes with them;
        the other posts and the other tables are untouched. */
    method DeleteAuthor(author: nat)
      requires Valid()
      modifies this
      ensures Valid()
      ensures posts == RemovePostsBy(old(posts), author)
      ensures categories == old(categories) && locations == old(locations)
    {
      UniqueKeySelect(posts, PostId, (p: Post) => p.author != author);
      posts := RemovePostsBy(posts, author);
    }
  }
}
