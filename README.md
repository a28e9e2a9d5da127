# Blog index data pipeline

A Dafny model of `getStaticProps` in `src/pages/index.tsx`: the static-generation hook
of the blog index page of a Notion-backed blog. The hook reads the blog-index table,
drops draft posts unless preview mode is on, and defaults each surviving post's
`Authors` to the empty list in place. It collects every author ID into an
insertion-ordered `Set` and asks the user lookup for those IDs. Then it overwrites each
surviving post's `Authors`, in place, with the users' `full_name`s, and returns the
posts with `preview || false`.

The model has two files:

- `wrappers.dfy`: `Option`, `Result` and `Outcome`.
- `index.dfy`: module `BlogIndex`. Posts are objects of class `Post`. Their
  `authors` field is the one the source overwrites. Their other fields (`PostMeta`)
  are never written.

The steps of the hook are methods with loops:

- `CollectPosts` covers lines 18-32.
- `ResolveAuthors` and `MapNames` cover lines 36-38.
- `GetStaticProps` covers the whole of lines 15-47.

Each method is proved against specification functions:

- `Kept` is the draft filter.
- `WithAdded` and `AuthorsToGet` are the insertion-ordered set.
- `Names` is the name mapping, or the first missing ID.
- `FirstUnresolved` is the first post whose names cannot be resolved.

The lemmas about those functions state what the page relies on.

The table is an ordered sequence of `Row(slug, post)` in key order. The hook's
`preview` argument is `Option<bool>`: absent, false or true. It is truthy exactly when
it is `Some(true)`. `postIsPublished` is a parameter `isPublished: PostMeta -> bool`
and is not assumed to equal the `published` field. The user lookup is a parameter
`getNotionUsers: seq<string> -> map<string, User>`. Reading `users[id].full_name` for
an ID the lookup did not return throws in the source. Here it is the error
`UserNotFound(id)`.

The source chains `.map(...)` with `.filter(Boolean)`, and the mapping step returns
either `null` or the post. The model merges the two into one loop that appends the
surviving posts. Both drop exactly the rows whose mapping returned `null`.

The code passes `[...authorsToGet]` to the lookup, a list in first-insertion order.
`AuthorsToGet` keeps that order, and `EarlierPostsRequestedFirst` states it.

## Model

| member | source | states |
|---|---|---|
| BlogIndex.Kept | src/pages/index.tsx:19-32 | the draft filter as row indices; its own contract bounds every kept index by n, and `KeptIsTheFilter` proves order and membership |
| BlogIndex.KeptIsTheFilter | src/pages/index.tsx:19-32 | `Kept` is the filter: the surviving rows keep table order, and a row survives exactly when preview is truthy or the post is published |
| BlogIndex.PreviewKeepsEveryPost | src/pages/index.tsx:23-25 | with a truthy preview (`Truthy`, the negation of `!preview`) no row is dropped: the kept indices are 0 .. n-1 |
| BlogIndex.VisitedPosts | src/pages/index.tsx:19-32 | the row-by-row walk collects exactly the posts of the kept rows, in table order |
| BlogIndex.VisitedRequests | src/pages/index.tsx:26-29 | the row-by-row walk adds to the set exactly the defaulted author lists of the kept rows, in order |
| BlogIndex.WithAddedIsSetAdd | src/pages/index.tsx:27-29 | `WithAdded`, the model of `Set.add`, keeps earlier members in place, never stores an ID twice, and holds exactly the old members and the added IDs |
| BlogIndex.RequestedOnce | src/pages/index.tsx:18 | the IDs passed to the user lookup have no duplicates |
| BlogIndex.RequestedExactlyTheAuthors | src/pages/index.tsx:26-34 | `AuthorsToGet`, the set after the walk, holds an ID exactly when some surviving post lists it as an author |
| BlogIndex.EarlierPostsRequestedFirst | src/pages/index.tsx:34 | the requested IDs are in first-insertion order: the IDs of the first k posts form a prefix |
| BlogIndex.AddAuthors | src/pages/index.tsx:27-29 | the loop adding one post's authors leaves the set equal to the set-add of those IDs |
| BlogIndex.CollectAuthors | src/pages/index.tsx:26-29 | a surviving post's `Authors` becomes `Normalize` of it (its old list or `[]`), and that list is added to the set |
| BlogIndex.CollectPosts | src/pages/index.tsx:18-32 | returns the kept posts in table order and the set of their defaulted author IDs; kept posts get a non-null `Authors`, dropped posts are untouched |
| BlogIndex.Names | src/pages/index.tsx:37 | mapping IDs to names succeeds iff every ID is in the lookup result; on success the names keep length and order with element i = `users[id_i].full_name`; on failure the error names the first missing ID |
| BlogIndex.MapNames | src/pages/index.tsx:37 | the mapping loop returns exactly `Names`: the full names in order, or the first missing ID |
| BlogIndex.FirstUnresolved | src/pages/index.tsx:36-38 | the posts before the returned index all resolve, and the post at it (if any) does not |
| BlogIndex.ResolveAuthors | src/pages/index.tsx:36-38 | passes iff every post resolves; resolved posts hold their names, the first failing post gives the error, and later posts are untouched |
| BlogIndex.CompleteLookupResolvesAll | src/pages/index.tsx:34-38 | every post resolves exactly when the lookup returns every requested ID |
| BlogIndex.CollectedPosts | src/pages/index.tsx:30-36 | the collected posts are distinct objects, each with a non-null author list equal to its defaulted table list, and no dropped post is among them |
| BlogIndex.GetStaticProps | src/pages/index.tsx:15-47 | succeeds iff every kept post resolves against the lookup of the requested IDs; then `preview` is `Truthy(preview)`, the value of `preview || false`, and `posts` are the kept posts in order with their authors' names; otherwise the first missing ID is the error; dropped posts are never modified |

## Left out

- `getBlogIndex` (the table fetch) is not part of this model. Its result is the `table` parameter.
- `getNotionUsers` is not part of this model. It is the `getNotionUsers` parameter, a pure function of the requested IDs. Network failures and its other fields are not modelled.
- `postIsPublished` is not part of this model. It is the abstract parameter `isPublished` over the post's fields that the hook never writes.
- `getBlogLink`, `getDateStr`, `textBlock` and the page component (lines 49-156) render markup. They are not modelled.
- `unstable_revalidate: 10` is a framework setting with no data behaviour. `_app.tsx` is not modelled.
- Object key order is taken as the row order of `table`. JavaScript's integer-like-key reordering in `Object.keys` is not modelled.
- `preview` is modelled as absent, false or true. Other truthy or falsy values are not modelled.
- `Authors` is modelled as absent or a list of ID strings. Other falsy values that `|| []` would also replace are not modelled.
- IDs that name inherited object properties (such as `constructor`) are not modelled. The lookup result is a plain map.
- A user record without `full_name` (which gives `undefined` in the source) is not modelled. Every `User` has a name.
- CollectPosts and GetStaticProps require distinct post objects under distinct keys. In the source, the same object under two keys would be normalised and resolved twice.
- GetStaticProps does not restate the partial in-place state after a failed lookup. ResolveAuthors states it: earlier posts resolved, later ones untouched.
- The asynchronous `await`s are modelled as sequential steps.
