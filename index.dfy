/**
 * The data pipeline of the blog index page: `getStaticProps` in src/pages/index.tsx.
 *
 * The blog-index table arrives as an ordered sequence of rows (slug, post). Unless
 * preview mode is on, unpublished posts are dropped; every surviving post gets its
 * `Authors` list defaulted to the empty list, and every author ID it names is added to
 * an insertion-ordered set. The set is handed to the user lookup, and then each
 * surviving post's author IDs are replaced, in place, by the users' full names.
 */
module BlogIndex {
  import opened Wrappers

  /** A user record returned by the user lookup; the page reads only `full_name`. */
  datatype User = User(fullName: string)

  /** The fields of a blog-index post that the pipeline never writes. */
  datatype PostMeta = PostMeta(slug: string, page: string, published: bool, date: Option<int>)

  /** A post object of the blog-index table. Its `Authors` field is overwritten in place. */
  class Post {
    const meta: PostMeta
    var authors: Option<seq<string>>

    constructor (meta: PostMeta, authors: Option<seq<string>>)
      ensures this.meta == meta && this.authors == authors
    {
      this.meta := meta;
      this.authors := authors;
    }
  }

  /** One key of the blog-index table and the post stored under it. */
  datatype Row = Row(slug: string, post: Post)

  /** The props handed to the page component. */
  datatype Props = Props(preview: bool, posts: seq<Post>)

  /** Reading `full_name` of a user the lookup did not return. */
  datatype LookupError = UserNotFound(id: string)

  // ---------------------------------------------------------------------------
  // Specification
  // ---------------------------------------------------------------------------

  /** JavaScript truthiness of the `preview` argument (absent, false or true). */
  predicate Truthy(preview: Option<bool>)
  {
    preview == Some(true)
  }

  /** Whether a post survives the draft filter. */
  predicate Keeps(preview: Option<bool>, isPublished: PostMeta -> bool, meta: PostMeta)
  {
    Truthy(preview) || isPublished(meta)
  }

  /** No post object is stored under two keys of the table. */
  predicate DistinctPosts(table: seq<Row>)
  {
    forall i, j :: 0 <= i < |table| && 0 <= j < |table| && i != j ==> table[i].post != table[j].post
  }

  predicate NoDuplicates(s: seq<string>)
  {
    forall i, j :: 0 <= i < j < |s| ==> s[i] != s[j]
  }

  /** The indices among the first n rows of the table that survive the filter, in table order. */
  function Kept(table: seq<Row>, preview: Option<bool>, isPublished: PostMeta -> bool, n: nat): (r: seq<nat>)
    requires n <= |table|
    ensures forall k :: 0 <= k < |r| ==> r[k] < n
  {
    if n == 0 then []
    else if Keeps(preview, isPublished, table[n - 1].post.meta) then Kept(table, preview, isPublished, n - 1) + [n - 1]
    else Kept(table, preview, isPublished, n - 1)
  }

  /** The posts stored in the given rows of the table. */
  function PostsAt(table: seq<Row>, rows: seq<nat>): seq<Post>
    requires forall k :: 0 <= k < |rows| ==> rows[k] < |table|
  {
    seq(|rows|, k requires 0 <= k < |rows| => table[rows[k]].post)
  }

  /** `post.Authors || []` */
  function Normalize(authors: Option<seq<string>>): seq<string>
  {
    authors.GetOr([])
  }

  /** The author lists of the given rows after defaulting, taken from a snapshot of the table. */
  function KeptAuthors(before: seq<Option<seq<string>>>, rows: seq<nat>): seq<seq<string>>
    requires forall k :: 0 <= k < |rows| ==> rows[k] < |before|
  {
    seq(|rows|, k requires 0 <= k < |rows| => Normalize(before[rows[k]]))
  }

  /** An insertion-ordered set (a JavaScript `Set`) after `add` of each of `ids` in turn. */
  function WithAdded(added: seq<string>, ids: seq<string>): seq<string>
  {
    if ids == [] then added
    else
      var s := WithAdded(added, ids[..|ids| - 1]);
      var x := ids[|ids| - 1];
      if x in s then s else s + [x]
  }

  /** The IDs requested from the user lookup for the given author lists. */
  function AuthorsToGet(lists: seq<seq<string>>): seq<string>
  {
    if lists == [] then []
    else WithAdded(AuthorsToGet(lists[..|lists| - 1]), lists[|lists| - 1])
  }

  /**
   * `ids.map(id => users[id].full_name)`: the names in the same order, or the first ID that
   * the lookup did not return.
   */
  function Names(ids: seq<string>, users: map<string, User>): (r: Result<seq<string>, LookupError>)
    ensures r.Success? <==> forall i :: 0 <= i < |ids| ==> ids[i] in users
    ensures r.Success? ==>
      |r.value| == |ids| && forall i :: 0 <= i < |ids| ==> r.value[i] == users[ids[i]].fullName
    ensures r.Failure? ==>
      exists i :: 0 <= i < |ids| && ids[i] == r.error.id && ids[i] !in users
                  && forall j :: 0 <= j < i ==> ids[j] in users
  {
    if ids == [] then Success([])
    else if ids[0] !in users then Failure(UserNotFound(ids[0]))
    else
      match Names(ids[1..], users)
      case Success(rest) => Success([users[ids[0]].fullName] + rest)
      case Failure(e) =>
        assert forall i :: 0 <= i < |ids| - 1 ==> ids[1..][i] == ids[i + 1];
        Failure(e)
  }

  /** The index of the first author list that cannot be resolved, or the number of lists. */
  function FirstUnresolved(lists: seq<seq<string>>, users: map<string, User>): (f: nat)
    ensures f <= |lists|
    ensures forall k :: 0 <= k < f ==> Names(lists[k], users).Success?
    ensures f < |lists| ==> Names(lists[f], users).Failure?
  {
    if lists == [] then 0
    else if Names(lists[0], users).Failure? then 0
    else 1 + FirstUnresolved(lists[1..], users)
  }

  // ---------------------------------------------------------------------------
  // Properties of the specification
  // ---------------------------------------------------------------------------

  /**
   * The filter keeps rows in table order, and keeps a row exactly when its post is
   * published or preview mode is on.
   */
  lemma {:induction false} KeptIsTheFilter(table: seq<Row>, preview: Option<bool>, isPublished: PostMeta -> bool, n: nat)
    requires n <= |table|
    ensures var r := Kept(table, preview, isPublished, n);
            && (forall k, l :: 0 <= k < l < |r| ==> r[k] < r[l])
            && (forall i :: 0 <= i < n ==> (i in r <==> Keeps(preview, isPublished, table[i].post.meta)))
  {
    if n > 0 {
      KeptIsTheFilter(table, preview, isPublished, n - 1);
    }
  }

  /** In preview mode no row is dropped: the kept indices are 0, 1, ..., n - 1. */
  lemma {:induction false} PreviewKeepsEveryPost(table: seq<Row>, preview: Option<bool>, isPublished: PostMeta -> bool, n: nat)
    requires Truthy(preview) && n <= |table|
    ensures |Kept(table, preview, isPublished, n)| == n
    ensures forall k :: 0 <= k < n ==> Kept(table, preview, isPublished, n)[k] == k
  {
    if n > 0 {
      PreviewKeepsEveryPost(table, preview, isPublished, n - 1);
    }
  }

  /**
   * `Set.add` keeps what the set held in place, never holds an ID twice, and holds
   * exactly the IDs it held or was given.
   */
  lemma {:induction false} WithAddedIsSetAdd(added: seq<string>, ids: seq<string>)
    ensures added <= WithAdded(added, ids)
    ensures NoDuplicates(added) ==> NoDuplicates(WithAdded(added, ids))
    ensures forall x :: x in WithAdded(added, ids) <==> x in added || x in ids
  {
    if ids != [] {
      var prefix := ids[..|ids| - 1];
      WithAddedIsSetAdd(added, prefix);
      assert ids == prefix + [ids[|ids| - 1]];
    }
  }

  /** The lookup is asked for no ID twice. */
  lemma {:induction false} RequestedOnce(lists: seq<seq<string>>)
    ensures NoDuplicates(AuthorsToGet(lists))
  {
    if lists != [] {
      RequestedOnce(lists[..|lists| - 1]);
      WithAddedIsSetAdd(AuthorsToGet(lists[..|lists| - 1]), lists[|lists| - 1]);
    }
  }

  /** An ID is requested exactly when some kept post names it as an author. */
  lemma {:induction false} RequestedExactlyTheAuthors(lists: seq<seq<string>>, id: string)
    ensures id in AuthorsToGet(lists) <==> exists k :: 0 <= k < |lists| && id in lists[k]
  {
    if lists != [] {
      var n := |lists| - 1;
      var prefix := lists[..n];
      RequestedExactlyTheAuthors(prefix, id);
      WithAddedIsSetAdd(AuthorsToGet(prefix), lists[n]);
      if id in AuthorsToGet(prefix) {
        var k :| 0 <= k < |prefix| && id in prefix[k];
        assert lists[k] == prefix[k];
      } else if id !in lists[n] {
        forall k | 0 <= k < |lists| ensures id !in lists[k] {
          if k < n {
            assert prefix[k] == lists[k];
          }
        }
      }
    }
  }

  /**
   * The set keeps first-insertion order: the IDs requested for the first k posts form a
   * prefix of the IDs requested for all of them.
   */
  lemma {:induction false} EarlierPostsRequestedFirst(lists: seq<seq<string>>, k: nat)
    requires k <= |lists|
    ensures AuthorsToGet(lists[..k]) <= AuthorsToGet(lists)
  {
    if k < |lists| {
      var prefix := lists[..|lists| - 1];
      assert lists[..k] == prefix[..k];
      EarlierPostsRequestedFirst(prefix, k);
      WithAddedIsSetAdd(AuthorsToGet(prefix), lists[|lists| - 1]);
    } else {
      assert lists[..k] == lists;
    }
  }

  /**
   * The lookup resolves every kept post exactly when it returns every requested ID:
   * a missing ID is the only way resolution can fail.
   */
  lemma CompleteLookupResolvesAll(lists: seq<seq<string>>, users: map<string, User>)
    ensures FirstUnresolved(lists, users) == |lists|
            <==> forall id :: id in AuthorsToGet(lists) ==> id in users
  {
    var f := FirstUnresolved(lists, users);
    if f < |lists| {
      var r := Names(lists[f], users);
      var i :| 0 <= i < |lists[f]| && lists[f][i] == r.error.id && lists[f][i] !in users;
      RequestedExactlyTheAuthors(lists, lists[f][i]);
    } else {
      forall id | id in AuthorsToGet(lists) ensures id in users {
        RequestedExactlyTheAuthors(lists, id);
        var k :| 0 <= k < |lists| && id in lists[k];
        var i :| 0 <= i < |lists[k]| && lists[k][i] == id;
        assert Names(lists[k], users).Success?;
      }
    }
  }

  // ---------------------------------------------------------------------------
  // Filter and normalise (lines 18-32)
  // ---------------------------------------------------------------------------

  /** The author fields of the table's posts. */
  ghost function AuthorsOf(table: seq<Row>): (r: seq<Option<seq<string>>>)
    reads set row | row in table :: row.post
    ensures |r| == |table|
    ensures forall i :: 0 <= i < |table| ==> r[i] == table[i].post.authors
  {
    seq(|table|, i requires 0 <= i < |table| reads set row | row in table :: row.post => table[i].post.authors)
  }

  /** Which rows of the table survive the filter. */
  function KeepFlags(table: seq<Row>, preview: Option<bool>, isPublished: PostMeta -> bool): (r: seq<bool>)
    ensures |r| == |table|
  {
    seq(|table|, i requires 0 <= i < |table| => Keeps(preview, isPublished, table[i].post.meta))
  }

  /** The author fields once the first n rows were visited: kept posts have theirs defaulted. */
  function Collected(before: seq<Option<seq<string>>>, keeps: seq<bool>, n: nat): (r: seq<Option<seq<string>>>)
    requires |keeps| == |before|
    ensures |r| == |before|
  {
    seq(|before|, j requires 0 <= j < |before| =>
      if j < n && keeps[j] then Some(Normalize(before[j])) else before[j])
  }

  /** What the walk over the table has produced so far. */
  datatype Visited = Visited(posts: seq<Post>, requested: seq<string>)

  /** The walk over the first n rows, one row at a time, as the loop performs it. */
  function VisitRows(table: seq<Row>, preview: Option<bool>, isPublished: PostMeta -> bool,
                     before: seq<Option<seq<string>>>, n: nat): Visited
    requires n <= |table| == |before|
  {
    if n == 0 then Visited([], [])
    else
      var v := VisitRows(table, preview, isPublished, before, n - 1);
      if Keeps(preview, isPublished, table[n - 1].post.meta)
      then Visited(v.posts + [table[n - 1].post], WithAdded(v.requested, Normalize(before[n - 1])))
      else v
  }

  /** The row-by-row walk collects the kept posts, in table order... */
  lemma {:induction false} VisitedPosts(table: seq<Row>, preview: Option<bool>, isPublished: PostMeta -> bool,
                                        before: seq<Option<seq<string>>>, n: nat)
    requires n <= |table| == |before|
    ensures VisitRows(table, preview, isPublished, before, n).posts
            == PostsAt(table, Kept(table, preview, isPublished, n))
  {
    if n > 0 {
      VisitedPosts(table, preview, isPublished, before, n - 1);
      if Keeps(preview, isPublished, table[n - 1].post.meta) {
        PostsStep(table, Kept(table, preview, isPublished, n - 1), n - 1);
      }
    }
  }

  /** Appending a row index appends that row's post. */
  lemma PostsStep(table: seq<Row>, rows: seq<nat>, i: nat)
    requires i < |table| && forall k :: 0 <= k < |rows| ==> rows[k] < |table|
    ensures PostsAt(table, rows + [i]) == PostsAt(table, rows) + [table[i].post]
  {
  }

  /** ... and requests the author IDs of exactly those posts. */
  lemma {:induction false} VisitedRequests(table: seq<Row>, preview: Option<bool>, isPublished: PostMeta -> bool,
                                           before: seq<Option<seq<string>>>, n: nat)
    requires n <= |table| == |before|
    ensures VisitRows(table, preview, isPublished, before, n).requested
            == AuthorsToGet(KeptAuthors(before, Kept(table, preview, isPublished, n)))
  {
    if n > 0 {
      VisitedRequests(table, preview, isPublished, before, n - 1);
      if Keeps(preview, isPublished, table[n - 1].post.meta) {
        RequestsStep(before, Kept(table, preview, isPublished, n - 1), n - 1);
      }
    }
  }

  lemma RequestsStep(before: seq<Option<seq<string>>>, rows: seq<nat>, i: nat)
    requires i < |before| && forall k :: 0 <= k < |rows| ==> rows[k] < |before|
    ensures AuthorsToGet(KeptAuthors(before, rows + [i]))
            == WithAdded(AuthorsToGet(KeptAuthors(before, rows)), Normalize(before[i]))
  {
    var lists := KeptAuthors(before, rows + [i]);
    assert lists[..|lists| - 1] == KeptAuthors(before, rows);
  }

  /** `for (const author of post.Authors) authorsToGet.add(author)` */
  method AddAuthors(authorsToGet: seq<string>, ids: seq<string>) returns (r: seq<string>)
    ensures r == WithAdded(authorsToGet, ids)
  {
    r := authorsToGet;
    for j := 0 to |ids|
      invariant r == WithAdded(authorsToGet, ids[..j])
    {
      assert ids[..j + 1][..j] == ids[..j];
      if ids[j] !in r {
        r := r + [ids[j]];
      }
    }
    assert ids[..|ids|] == ids;
  }

  /**
   * Lines 26-29, for one surviving post: default its `Authors` to the empty list in place
   * and add each of its author IDs to the set.
   */
  method CollectAuthors(post: Post, authorsToGet: seq<string>) returns (r: seq<string>)
    modifies post
    ensures post.authors == Some(Normalize(old(post.authors)))
    ensures r == WithAdded(authorsToGet, Normalize(old(post.authors)))
  {
    post.authors := Some(post.authors.GetOr([]));
    r := AddAuthors(authorsToGet, post.authors.value);
  }

  /**
   * Lines 18-32: walk the table in key order, drop unpublished posts unless in preview,
   * default each surviving post's `Authors` in place and collect its author IDs.
   */
  method CollectPosts(table: seq<Row>, preview: Option<bool>, isPublished: PostMeta -> bool)
    returns (posts: seq<Post>, authorsToGet: seq<string>)
    requires DistinctPosts(table)
    modifies set row | row in table :: row.post
    ensures posts == PostsAt(table, Kept(table, preview, isPublished, |table|))
    ensures authorsToGet == AuthorsToGet(KeptAuthors(old(AuthorsOf(table)), Kept(table, preview, isPublished, |table|)))
    ensures forall i :: 0 <= i < |table| ==>
      table[i].post.authors ==
        if Keeps(preview, isPublished, table[i].post.meta)
        then Some(Normalize(old(table[i].post.authors)))
        else old(table[i].post.authors)
  {
    ghost var before := AuthorsOf(table);
    ghost var flags := KeepFlags(table, preview, isPublished);
    posts, authorsToGet := [], [];
    for i := 0 to |table|
      invariant Visited(posts, authorsToGet) == VisitRows(table, preview, isPublished, before, i)
      invariant AuthorsOf(table) == Collected(before, flags, i)
    {
      var post := table[i].post;
      if Truthy(preview) || isPublished(post.meta) {
        ghost var visited := AuthorsOf(table);
        authorsToGet := CollectAuthors(post, authorsToGet);
        ghost var now := AuthorsOf(table);
        forall j | 0 <= j < |table| && j != i ensures now[j] == visited[j] {
          assert table[j].post != post;
        }
        assert now == visited[i := post.authors];
        posts := posts + [post];
      }
      assert Collected(before, flags, i + 1) == Collected(before, flags, i)[i := AuthorsOf(table)[i]];
    }
    VisitedPosts(table, preview, isPublished, before, |table|);
    VisitedRequests(table, preview, isPublished, before, |table|);
  }

  // ---------------------------------------------------------------------------
  // Resolve names (lines 36-38)
  // ---------------------------------------------------------------------------

  /** The author lists of posts whose `Authors` field is set. */
  ghost function AuthorLists(posts: seq<Post>): (r: seq<seq<string>>)
    requires forall k :: 0 <= k < |posts| ==> posts[k].authors.Some?
    reads posts
    ensures |r| == |posts|
    ensures forall k :: 0 <= k < |posts| ==> r[k] == posts[k].authors.value
  {
    seq(|posts|, k requires 0 <= k < |posts| && posts[k].authors.Some? reads posts => posts[k].authors.value)
  }

  /** `post.Authors.map(id => users[id].full_name)`, which throws at the first unknown ID. */
  method MapNames(ids: seq<string>, users: map<string, User>) returns (r: Result<seq<string>, LookupError>)
    ensures r == Names(ids, users)
  {
    var names := [];
    for i := 0 to |ids|
      invariant |names| == i
      invariant forall j :: 0 <= j < i ==> ids[j] in users && names[j] == users[ids[j]].fullName
    {
      if ids[i] !in users {
        ghost var expected := Names(ids, users);
        ghost var w :| 0 <= w < |ids| && ids[w] == expected.error.id && ids[w] !in users
                 && forall j :: 0 <= j < w ==> ids[j] in users;
        assert w == i;
        return Failure(UserNotFound(ids[i]));
      }
      names := names + [users[ids[i]].fullName];
    }
    assert Names(ids, users).value == names;
    r := Success(names);
  }

  /**
   * Lines 36-38: overwrite each post's `Authors` with the users' full names, post by post.
   * The first unknown ID throws; the posts before it are already resolved and the rest
   * are untouched.
   */
  method ResolveAuthors(posts: seq<Post>, users: map<string, User>) returns (r: Outcome<LookupError>)
    requires forall k, l :: 0 <= k < |posts| && 0 <= l < |posts| && k != l ==> posts[k] != posts[l]
    requires forall k :: 0 <= k < |posts| ==> posts[k].authors.Some?
    modifies posts
    ensures var lists := old(AuthorLists(posts));
            var f := FirstUnresolved(lists, users);
            && (r.Pass? <==> f == |posts|)
            && (r.Fail? ==> Names(lists[f], users) == Failure(r.error))
            && (forall k :: 0 <= k < f ==> posts[k].authors == Some(Names(lists[k], users).value))
            && (forall k :: f <= k < |posts| ==> posts[k].authors == old(posts[k].authors))
  {
    ghost var lists := AuthorLists(posts);
    for k := 0 to |posts|
      invariant forall l :: 0 <= l < k ==> Names(lists[l], users).Success?
      invariant forall l :: 0 <= l < k ==> posts[l].authors == Some(Names(lists[l], users).value)
      invariant forall l :: k <= l < |posts| ==> posts[l].authors == old(posts[l].authors)
      invariant FirstUnresolved(lists, users) >= k
    {
      var names := MapNames(posts[k].authors.value, users);
      match names
      case Failure(e) =>
        assert FirstUnresolved(lists, users) == k;
        return Fail(e);
      case Success(v) =>
        posts[k].authors := Some(v);
    }
    r := Pass;
  }

  // ---------------------------------------------------------------------------
  // The whole hook (lines 15-47)
  // ---------------------------------------------------------------------------

  /**
   * Lines 15-47: the data-fetching hook. The index table and the user lookup are given:
   * `getNotionUsers` stands for the lookup as a function of the requested IDs.
   */
  method GetStaticProps(table: seq<Row>, preview: Option<bool>, isPublished: PostMeta -> bool,
                        getNotionUsers: seq<string> -> map<string, User>)
    returns (r: Result<Props, LookupError>)
    requires DistinctPosts(table)
    modifies set row | row in table :: row.post
    ensures var kept := Kept(table, preview, isPublished, |table|);
            var lists := KeptAuthors(old(AuthorsOf(table)), kept);
            var users := getNotionUsers(AuthorsToGet(lists));
            var f := FirstUnresolved(lists, users);
            && (r.Success? <==> f == |lists|)
            && (r.Failure? ==> Names(lists[f], users) == Failure(r.error))
            && (r.Success? ==>
                  && r.value.preview == Truthy(preview)
                  && r.value.posts == PostsAt(table, kept)
                  && forall k :: 0 <= k < |kept| ==>
                       r.value.posts[k].authors == Some(Names(lists[k], users).value))
    ensures forall i :: 0 <= i < |table| && !Keeps(preview, isPublished, table[i].post.meta) ==>
              table[i].post.authors == old(table[i].post.authors)
  {
    ghost var before := AuthorsOf(table);
    var posts, ids := CollectPosts(table, preview, isPublished);
    CollectedPosts(table, preview, isPublished, before, posts);
    var users := getNotionUsers(ids);
    label BeforeResolve:
    var outcome := ResolveAuthors(posts, users);
    forall i | 0 <= i < |table| && !Keeps(preview, isPublished, table[i].post.meta)
      ensures table[i].post.authors == old(table[i].post.authors)
    {
      assert table[i].post !in posts;
      assert table[i].post.authors == old@BeforeResolve(table[i].post.authors);
    }
    match outcome
    case Fail(e) =>
      r := Failure(e);
    case Pass =>
      r := Success(Props(Truthy(preview), posts));
  }

  /**
   * What the name resolution starts from: the collected posts are distinct, each has an
   * author list, namely its defaulted list from the table, and no dropped post is among them.
   */
  lemma CollectedPosts(table: seq<Row>, preview: Option<bool>, isPublished: PostMeta -> bool,
                       before: seq<Option<seq<string>>>, posts: seq<Post>)
    requires DistinctPosts(table) && |before| == |table|
    requires posts == PostsAt(table, Kept(table, preview, isPublished, |table|))
    requires forall i :: 0 <= i < |table| ==>
      table[i].post.authors ==
        if Keeps(preview, isPublished, table[i].post.meta) then Some(Normalize(before[i])) else before[i]
    ensures forall k, l :: 0 <= k < |posts| && 0 <= l < |posts| && k != l ==> posts[k] != posts[l]
    ensures forall k :: 0 <= k < |posts| ==> posts[k].authors.Some?
    ensures AuthorLists(posts) == KeptAuthors(before, Kept(table, preview, isPublished, |table|))
    ensures forall i :: 0 <= i < |table| && !Keeps(preview, isPublished, table[i].post.meta) ==>
              table[i].post !in posts
  {
    var kept := Kept(table, preview, isPublished, |table|);
    KeptIsTheFilter(table, preview, isPublished, |table|);
    forall i | 0 <= i < |table| && !Keeps(preview, isPublished, table[i].post.meta)
      ensures table[i].post !in posts
    {
      forall k | 0 <= k < |posts| ensures posts[k] != table[i].post {
        assert kept[k] != i;
      }
    }
  }
}
