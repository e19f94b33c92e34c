# Blogicum: the public visibility rule, in Dafny

Blogicum is a small publishing site built on Django. It stores posts,
categories and locations. Its three public pages are:

- the front page, with the five newest visible posts;
- a post's page;
- a category's page, with all the visible posts of that category.

A post is *visible* when three things hold:

- it is published;
- its publication date is at or before "now";
- it is filed under a category that is itself published.

This project models the records, that visibility rule, the three pages built
on it, and the database behaviour the records declare. It then proves what
the pages promise.

The model has four modules:

- `Query` (query.dfy): the two query forms the pages use. `Select` is a
  filter over a table. `Get` is the fetch of exactly one row behind
  `get_object_or_404`: zero rows give `NotFound` and several give
  `MultipleObjectsReturned`. The lemma `AtMostOneMatch` shows that a lookup
  on a unique column never sees several rows.
- `Models` (models.py): the `Category`, `Location` and `Post` records and
  the values a new record starts with (published, zero views). Also the
  default ordering of posts (newest `pub_date` first), `get_published_posts`
  and the uniqueness constraints. Each nullable reference of a post
  (`category`, `location`) is an `Option` of a primary key; `author` is a
  plain key. `views_count` is a `nat`, so it is never negative.
- `Views` (views.py): the visibility rule `Visible` and the three pages
  `Index`, `PostDetail` and `CategoryPosts`. Each page is a function of the
  tables and of the time `now`, so no page can change the tables.
- `Store` (models.py): a `Database` class whose fields are the three
  tables. Its invariant `Valid` holds these constraints:
  - primary keys are unique;
  - category slugs are unique;
  - every non-null reference names a stored row.

  Its insert methods refuse a row that would break the invariant, as the
  database does with an integrity error. Its delete methods carry out the
  declared `on_delete` rules. Deleting a category or a location sets the
  reference to null on exactly the posts that had it (`SET_NULL`). Deleting
  an author removes exactly that author's posts (`CASCADE`).

## Model

| member | source | states |
|---|---|---|
| `Query.Select` | blogicum/blog/views.py:7-10 | a filter keeps each row that satisfies the condition exactly as often as the table holds it, and keeps nothing else |
| `Query.Get` | blogicum/blog/views.py:16-22 | the single-row fetch succeeds exactly when one row matched, with that row; it is `NotFound` exactly when none matched |
| `Query.AtMostOneMatch` | blogicum/blog/models.py:31-33 | a filter that fixes a unique column to one value matches at most one row |
| `Models.NewCategory` | blogicum/blog/models.py:24-38 | a new category is published by default and keeps the given title, description and slug |
| `Models.NewLocation` | blogicum/blog/models.py:48-53 | a new location is published by default and keeps the given name |
| `Models.NewPost` | blogicum/blog/models.py:63-111 | a new post is published and has zero views by default; every other field is as given |
| `Models.InsertNewestFirst` | blogicum/blog/models.py:123 | inserting into a newest-first list keeps it newest first and adds exactly that one post |
| `Models.SortNewestFirst` | blogicum/blog/models.py:123 | the default ordering gives a permutation of the posts, newest `pub_date` first |
| `Models.PrefixIsSubList` | blogicum/blog/views.py:11 | a slice of a newest-first list is newest first and is drawn from the list, no post more often than in the list |
| `Models.PrefixKeepsNewest` | blogicum/blog/views.py:11 | cutting a newest-first list keeps the newest: every post left out is no newer than every post kept |
| `Models.PublishedPosts` | blogicum/blog/models.py:113-118 | `get_published_posts` holds exactly the published posts dated at or before `now` (each as often as stored), whatever their category, newest first |
| `Views.VisiblePosts` | blogicum/blog/views.py:7-10 | under the visibility rule `Visible`, a post is a candidate for the front page iff it is stored, published, due, and its category exists and is published; each candidate appears as often as stored |
| `Views.Index` | blogicum/blog/views.py:6-12 | the front page is a sub-multiset of the visible posts (no post more often than stored), newest first, and holds min(5, number of visible posts) of them |
| `Views.IndexOmitsOnlyOlderPosts` | blogicum/blog/views.py:7-11 | the limit is applied after filtering and ordering: a visible post is left out only when the page has 5 posts, all at least as new as it |
| `Views.IndexShowsPostDueNow` | blogicum/blog/views.py:9 | the date comparison is inclusive: a published post in a published category dated exactly `now` is listed when the page has room |
| `Views.PostDetail` | blogicum/blog/views.py:15-23 | a post's page returns a stored visible post with that key; it is `NotFound` iff no stored post with that key is visible |
| `Views.PostDetailExact` | blogicum/blog/views.py:16-22 | with unique keys, the page of a stored post is that post when it is visible, and `NotFound` otherwise (unpublished, future date, null or unpublished category); never `MultipleObjectsReturned` |
| `Views.PostDetailMissingKey` | blogicum/blog/views.py:16-22 | a key that no stored post has gives `NotFound` |
| `Views.PublishedCategoryBySlug` | blogicum/blog/views.py:27 | the lookup returns a stored published category with that slug; it is `NotFound` iff there is none |
| `Views.CategoryLookupExact` | blogicum/blog/views.py:27 | with unique slugs, the category holding a slug is found iff it is published; an unpublished one is `NotFound` |
| `Views.PostsOfCategory` | blogicum/blog/views.py:28-32 | the list holds exactly the stored posts of that category that are published and due, each as often as stored, newest first |
| `Views.CategoryPosts` | blogicum/blog/views.py:26-34 | the category page is `NotFound` iff no published category has the slug; otherwise it holds that category and its published, due posts, each as often as stored, newest first |
| `Views.CategoryListIsItsVisiblePosts` | blogicum/blog/views.py:27-32 | for a stored published category (what the lookup returns), its list holds exactly the visible posts filed under that category, each as often as among the visible posts |
| `Views.UncategorizedPostNeverShown` | blogicum/blog/views.py:7-10 | a post whose category is null is on no front page, no post page and no category page |
| `Views.PublishedPostsCoverVisible` | blogicum/blog/models.py:113-118 | `get_published_posts` holds every visible post at least as often, so it covers the front page too |
| `Views.FrontPageExample` | blogicum/blog/views.py:6-12 | with posts A (due, published category), B (future date) and C (unpublished category), the front page is exactly [A] |
| `Store.WithoutCategory` | blogicum/blog/models.py:92-100 | `SET_NULL` clears the category of a post that pointed to the deleted category, and changes no other field |
| `Store.WithoutLocation` | blogicum/blog/models.py:83-91 | `SET_NULL` clears the location of a post that pointed to the deleted location, and changes no other field |
| `Store.RemovePostsBy` | blogicum/blog/models.py:76-82 | `CASCADE` keeps exactly the posts by other authors, each as often as before |
| `Store.DeleteCategoryHidesOnlyItsPosts` | blogicum/blog/models.py:92-96 | after a category is deleted, a post is visible iff it was visible before and was not filed under that category |
| `Store.DeleteLocationKeepsVisibility` | blogicum/blog/models.py:83-87 | deleting a location changes no post's visibility |
| `Store.Database.AddCategory` | blogicum/blog/models.py:31-33 | an insert succeeds iff the key and the slug are both new; the invariant holds afterwards; the other tables do not change |
| `Store.Database.AddLocation` | blogicum/blog/models.py:48-53 | an insert succeeds iff the key is new; the invariant holds afterwards; the other tables do not change |
| `Store.Database.AddPost` | blogicum/blog/models.py:76-100 | an insert succeeds iff the key is new and the category and location are null or stored; the invariant holds afterwards |
| `Store.Database.DeleteCategory` | blogicum/blog/models.py:92-96 | the category row goes; each post keeps its place and every field, except that a reference to that category becomes null; the invariant is kept |
| `Store.Database.DeleteLocation` | blogicum/blog/models.py:83-87 | the location row goes; each post keeps its place and every field, except that a reference to that location becomes null; the invariant is kept |
| `Store.Database.DeleteAuthor` | blogicum/blog/models.py:76-78 | exactly the author's posts are removed; the other posts and tables are unchanged; the invariant is kept |

## Left out

- Rendering: templates, the request and the HTTP response are not modelled. Each page's result is only the data it selects.
- The clock: `now()` is a parameter of every page. Times are integers.
- The database and the ORM are modelled only by `Select` (filter), `Get` (`get()`) and the sort. The page's two queries (category lookup, then post list) are treated as one read.
- SortNewestFirst: the database leaves the order of posts with equal `pub_date` undefined. The model fixes one order: equal dates keep table order. Nothing proved depends on it.
- `created_at` and `updated_at` are not fields of the records. They are set from the clock by the framework's save hooks.
- Primary keys come from the caller. The database's auto-increment is not modelled.
- The user table and authentication are not modelled. An author is an opaque key, and `DeleteAuthor` models only the cascade onto posts.
- NewPost: `views_count` is a `nat`. The database-dependent upper bound of a positive integer column (2147483647 on common backends) is not modelled.
- Form-level validation is not modelled: `blank=False` on the category, `max_length`, and the slug character set. The database itself accepts a post with a null category, and so does `AddPost`.
- Verbose names, help texts and `__str__` are display-only and not modelled.
- The admin registration (blog/admin.py) and the URL table (blogicum/urls.py) hold no decision logic and are not part of this model.

`category_posts` checks the category's published flag in the slug lookup
(blogicum/blog/views.py:27), not in the post filter
(blogicum/blog/views.py:28-32). `Views.CategoryListIsItsVisiblePosts` shows
that its list still holds exactly the visible posts of that category.
