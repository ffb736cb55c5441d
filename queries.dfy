/**
 * The read-only handlers of posts/views.py: index, group_posts, profile, post_view
 * and follow_index.  Each is a filter over the posts table, ordered newest first
 * by pub_date and cut into pages of ten by the framework's paginator.
 *
 * A handler that finds no row for a URL parameter answers 404; here it returns None.
 */
module Queries {
  import opened Wrappers
  import opened Models

  /** Paginator(post_list, 10). */
  const PageSize: nat := 10

  /** `k` is a post of `m` with the latest pub_date. */
  ghost predicate IsLatest(m: map<Id, Post>, k: Id) {
    k in m && forall j :: j in m ==> m[j].pubDate <= m[k].pubDate
  }

  lemma {:induction false} LatestExists(m: map<Id, Post>)
    requires |m| > 0
    ensures exists k :: IsLatest(m, k)
    decreases |m|
  {
    var x :| x in m;
    var rest := m - {x};
    assert rest.Keys == m.Keys - {x};
    if |rest| == 0 {
      assert m.Keys == {x};
      assert IsLatest(m, x);
    } else {
      LatestExists(rest);
      var k :| IsLatest(rest, k);
      var best := if m[x].pubDate <= m[k].pubDate then k else x;
      forall j | j in m ensures m[j].pubDate <= m[best].pubDate {
        if j != x { assert j in rest; }
      }
      assert IsLatest(m, best);
    }
  }

  ghost predicate Distinct(ids: seq<Id>) {
    forall i, j :: 0 <= i < j < |ids| ==> ids[i] != ids[j]
  }

  /** Every id names a post of `posts`, and pub_date never increases along the sequence. */
  ghost predicate NewestFirst(posts: map<Id, Post>, ids: seq<Id>) {
    && (forall i :: 0 <= i < |ids| ==> ids[i] in posts)
    && (forall i, j :: 0 <= i < j < |ids| ==> posts[ids[i]].pubDate >= posts[ids[j]].pubDate)
  }

  /**
   * .order_by('-pub_date'): every post of `m` exactly once, newest first.  Posts with
   * equal pub_date come in an order the model leaves unspecified, as the database does.
   */
  ghost function ByPubDateDesc(m: map<Id, Post>): (r: seq<Id>)
    ensures forall id :: id in r <==> id in m
    ensures |r| == |m| && Distinct(r)
    ensures NewestFirst(m, r)
    decreases |m|
  {
    if |m| == 0 then []
    else
      LatestExists(m);
      var k :| IsLatest(m, k);
      var rest := m - {k};
      assert rest.Keys == m.Keys - {k};
      var tail := ByPubDateDesc(rest);
      PrependLatest(m, k, tail);
      [k] + tail
  }

  /** Putting a latest post in front of the ordered remainder keeps the order. */
  lemma PrependLatest(m: map<Id, Post>, k: Id, tail: seq<Id>)
    requires IsLatest(m, k)
    requires NewestFirst(m - {k}, tail) && Distinct(tail)
    requires forall id :: id in tail <==> id in m && id != k
    ensures NewestFirst(m, [k] + tail) && Distinct([k] + tail)
  {
    var r := [k] + tail;
    forall i | 0 <= i < |r| ensures r[i] in m {
      if i > 0 { assert r[i] == tail[i - 1]; }
    }
    forall i, j | 0 <= i < j < |r| ensures m[r[i]].pubDate >= m[r[j]].pubDate && r[i] != r[j] {
      assert r[j] == tail[j - 1];
      if i > 0 {
        assert r[i] == tail[i - 1];
      }
    }
  }

  function Min(a: int, b: int): int {
    if a <= b then a else b
  }

  /** Paginator.num_pages; an empty list still has its one (empty) first page. */
  function NumPages(count: nat): (n: nat)
    ensures n >= 1 && count <= n * PageSize
    ensures count > 0 ==> (n - 1) * PageSize < count
    ensures count == 0 ==> n == 1
  {
    if count == 0 then 1 else (count + PageSize - 1) / PageSize
  }

  /**
   * Paginator.get_page(request.GET.get('page')): `requested` is None when the
   * parameter is missing or not an integer, which gives page 1; a number below 1 or
   * past the last page gives the last page.
   */
  function PageNumber(count: nat, requested: Option<int>): (k: nat)
    ensures 1 <= k <= NumPages(count)
    ensures requested.None? ==> k == 1
    ensures requested.Some? && 1 <= requested.value <= NumPages(count) ==> k == requested.value
    ensures requested.Some? && !(1 <= requested.value <= NumPages(count)) ==> k == NumPages(count)
  {
    match requested
    case None => 1
    case Some(n) => if 1 <= n <= NumPages(count) then n else NumPages(count)
  }

  /** The requested page of `items`: a window of at most ten consecutive items. */
  function Page<T>(items: seq<T>, requested: Option<int>): (r: seq<T>)
    ensures |r| <= PageSize
    ensures items != [] ==> r != []
    ensures forall i :: 0 <= i < |r| ==>
              (PageNumber(|items|, requested) - 1) * PageSize + i < |items| &&
              r[i] == items[(PageNumber(|items|, requested) - 1) * PageSize + i]
    ensures requested.None? ==> r == items[..Min(|items|, PageSize)]
  {
    var k := PageNumber(|items|, requested);
    var lo := (k - 1) * PageSize;
    items[lo..Min(lo + PageSize, |items|)]
  }

  /** No item is lost to pagination: item i is entry i % 10 of page i / 10 + 1. */
  lemma PagePosition<T>(items: seq<T>, i: nat)
    requires i < |items|
    ensures var p := Page(items, Some(i / PageSize + 1)); i % PageSize < |p| && p[i % PageSize] == items[i]
  {
    var k := i / PageSize + 1;
    assert (k - 1) * PageSize + i % PageSize == i;
  }

  /** One page of the posts of `selected`, newest first. */
  ghost function NewestPage(selected: map<Id, Post>, page: Option<int>): (r: seq<Id>)
    ensures |r| <= PageSize
    ensures NewestFirst(selected, r) && Distinct(r)
    ensures r != [] <==> |selected| > 0
    ensures page.None? && |r| < PageSize ==> forall id :: id in selected ==> id in r
    ensures page.None? ==> forall id, j :: id in selected && id !in r && j in r ==> selected[j].pubDate >= selected[id].pubDate
  {
    var all := ByPubDateDesc(selected);
    var r := Page(all, page);
    assert page.None? && |r| < PageSize ==> r == all;
    if page.None? then FirstPageNewest(selected, all, |r|); r else r
  }

  /** A prefix of an ordered listing holds posts no older than any selected post it leaves out. */
  lemma FirstPageNewest(selected: map<Id, Post>, all: seq<Id>, n: nat)
    requires NewestFirst(selected, all) && n <= |all|
    requires forall id :: id in selected ==> id in all
    ensures forall id, j :: id in selected && id !in all[..n] && j in all[..n] ==> selected[j].pubDate >= selected[id].pubDate
  {
    forall id, j | id in selected && id !in all[..n] && j in all[..n] ensures selected[j].pubDate >= selected[id].pubDate {
      var a :| 0 <= a < |all| && all[a] == id;
      var b :| 0 <= b < n && all[..n][b] == j;
    }
  }

  /**
   * Consecutive pages share no post, and every post on page k is at least as new
   * as every post on page k + 1.
   */
  lemma PagesInOrder(selected: map<Id, Post>, k: nat)
    requires 1 <= k < NumPages(|selected|)
    ensures var p, q := NewestPage(selected, Some(k)), NewestPage(selected, Some(k + 1));
      forall a, b :: a in p && b in q ==> a != b && selected[a].pubDate >= selected[b].pubDate
  {
    var all := ByPubDateDesc(selected);
    var lo := (k - 1) * PageSize;
    assert k * PageSize == lo + PageSize;
    PageSlice(all, k);
    PageSlice(all, k + 1);
    assert lo + PageSize < |all| by {
      var n := NumPages(|all|);
      assert (n - 1) * PageSize < |all|;
      assert k * PageSize <= (n - 1) * PageSize;
    }
    SlicesInOrder(selected, all, lo, lo + PageSize, Min(lo + 2 * PageSize, |all|));
  }

  /** In an ordered list without repeats, an earlier slice is disjoint from and no older than a later one. */
  lemma SlicesInOrder(posts: map<Id, Post>, ids: seq<Id>, lo: nat, mid: nat, hi: nat)
    requires NewestFirst(posts, ids) && Distinct(ids)
    requires lo <= mid <= hi <= |ids|
    ensures forall a, b :: a in ids[lo..mid] && b in ids[mid..hi] ==> a != b && posts[a].pubDate >= posts[b].pubDate
  {
    forall a, b | a in ids[lo..mid] && b in ids[mid..hi] ensures a != b && posts[a].pubDate >= posts[b].pubDate {
      var i :| lo <= i < mid && ids[i] == a;
      var j :| mid <= j < hi && ids[j] == b;
    }
  }

  /** Page k, for an existing page k, is the slice of items from (k - 1) * 10 up to k * 10. */
  lemma PageSlice<T>(items: seq<T>, k: nat)
    requires 1 <= k <= NumPages(|items|)
    ensures (k - 1) * PageSize <= |items|
    ensures Page(items, Some(k)) == items[(k - 1) * PageSize..Min(k * PageSize, |items|)]
  {
    assert k * PageSize == (k - 1) * PageSize + PageSize;
  }

  /** A post newer than every other one comes first on the first page. */
  lemma NewestComesFirst(selected: map<Id, Post>, id: Id)
    requires id in selected
    requires forall j :: j in selected && j != id ==> selected[j].pubDate < selected[id].pubDate
    ensures NewestPage(selected, None) != [] && NewestPage(selected, None)[0] == id
  {
    var all := ByPubDateDesc(selected);
    assert id in all;
  }

  /** Every post belongs to some page: no post drops out of a listing. */
  lemma ListedOnSomePage(selected: map<Id, Post>, id: Id)
    requires id in selected
    ensures exists p: int :: id in NewestPage(selected, Some(p))
  {
    var all := ByPubDateDesc(selected);
    var i :| 0 <= i < |all| && all[i] == id;
    PagePosition(all, i);
    assert id in NewestPage(selected, Some(i / PageSize + 1));
  }

  function InGroup(posts: map<Id, Post>, group: Id): (r: map<Id, Post>)
    ensures forall id :: id in r <==> id in posts && posts[id].group == Some(group)
    ensures forall id :: id in r ==> r[id] == posts[id]
  {
    map id | id in posts && posts[id].group == Some(group) :: posts[id]
  }

  function ByAuthor(posts: map<Id, Post>, author: UserName): (r: map<Id, Post>)
    ensures forall id :: id in r <==> id in posts && posts[id].author == author
    ensures forall id :: id in r ==> r[id] == posts[id]
  {
    map id | id in posts && posts[id].author == author :: posts[id]
  }

  /** The authors `user` follows: `i.author for i in Follow.objects.filter(user=user)`. */
  function Followed(follows: map<Id, Follow>, user: UserName): (r: set<UserName>)
    ensures forall a :: a in r <==> HasEdge(follows, user, a)
  {
    set id | id in follows && follows[id].user == user :: follows[id].author
  }

  function ByAuthors(posts: map<Id, Post>, authors: set<UserName>): (r: map<Id, Post>)
    ensures forall id :: id in r <==> id in posts && posts[id].author in authors
    ensures forall id :: id in r ==> r[id] == posts[id]
  {
    map id | id in posts && posts[id].author in authors :: posts[id]
  }

  /** A sub-table orders the same way as the table it was cut from. */
  lemma NewestFirstInTable(selected: map<Id, Post>, posts: map<Id, Post>, ids: seq<Id>)
    requires forall id :: id in selected ==> id in posts && selected[id] == posts[id]
    requires NewestFirst(selected, ids)
    ensures NewestFirst(posts, ids)
  {
  }

  /** index: all posts, newest first. */
  ghost function Index(posts: map<Id, Post>, page: Option<int>): (r: seq<Id>)
    ensures |r| <= PageSize && NewestFirst(posts, r) && Distinct(r)
    ensures r == [] <==> |posts| == 0
    ensures page.None? && |r| < PageSize ==> forall id :: id in posts ==> id in r
    ensures page.None? ==> forall id, j :: id in posts && id !in r && j in r ==> posts[j].pubDate >= posts[id].pubDate
  {
    NewestPage(posts, page)
  }

  /** The post belongs to the group whose slug is `slug`. */
  ghost predicate InGroupWithSlug(groups: map<Id, Group>, p: Post, slug: string) {
    p.group.Some? && p.group.value in groups && groups[p.group.value].slug == slug
  }

  /** The group whose slug is `slug`; slugs are unique, so it is the only one. */
  ghost function GroupWithSlug(groups: map<Id, Group>, slug: string): (g: Id)
    requires SlugsUnique(groups) && SlugTaken(groups, slug)
    ensures g in groups && groups[g].slug == slug
    ensures forall h :: h in groups && groups[h].slug == slug ==> h == g
  {
    var g :| g in groups && groups[g].slug == slug; g
  }

  /**
   * group_posts: 404 for an unknown slug, otherwise the posts of that group, newest
   * first.  get_object_or_404 relies on the slug being unique.
   */
  ghost function GroupPosts(groups: map<Id, Group>, posts: map<Id, Post>, slug: string, page: Option<int>): (r: Option<seq<Id>>)
    requires SlugsUnique(groups)
    ensures r.None? <==> !SlugTaken(groups, slug)
    ensures r.Some? ==> |r.value| <= PageSize && NewestFirst(posts, r.value) && Distinct(r.value)
    ensures r.Some? ==> forall i :: 0 <= i < |r.value| ==> InGroupWithSlug(groups, posts[r.value[i]], slug)
    ensures r.Some? && page.None? && |r.value| < PageSize ==>
              forall id :: id in posts && InGroupWithSlug(groups, posts[id], slug) ==> id in r.value
    ensures r.Some? && page.None? ==>
              forall id, j :: id in posts && InGroupWithSlug(groups, posts[id], slug) && id !in r.value && j in r.value ==>
                posts[j].pubDate >= posts[id].pubDate
  {
    if !SlugTaken(groups, slug) then None
    else
      var g := GroupWithSlug(groups, slug);
      var r := NewestPage(InGroup(posts, g), page);
      NewestFirstInTable(InGroup(posts, g), posts, r);
      Some(r)
  }

  /** Every post of the group is on some page of group_posts. */
  lemma GroupListsEveryPost(groups: map<Id, Group>, posts: map<Id, Post>, slug: string, id: Id)
    requires SlugsUnique(groups)
    requires id in posts && InGroupWithSlug(groups, posts[id], slug)
    ensures exists p: int :: GroupPosts(groups, posts, slug, Some(p)).Some? && id in GroupPosts(groups, posts, slug, Some(p)).value
  {
    var g := GroupWithSlug(groups, slug);
    ListedOnSomePage(InGroup(posts, g), id);
  }

  /** What profile renders: the author, the number of their posts, and a page of them. */
  datatype ProfilePage = ProfilePage(author: UserName, count: nat, page: seq<Id>)

  /** profile: 404 for an unknown username, otherwise that user's posts, newest first. */
  ghost function Profile(users: set<UserName>, posts: map<Id, Post>, username: UserName, page: Option<int>): (r: Option<ProfilePage>)
    ensures r.None? <==> username !in users
    ensures r.Some? ==> r.value.author == username
    ensures r.Some? ==> r.value.count == |ByAuthor(posts, username)|
    ensures r.Some? ==> |r.value.page| <= PageSize && NewestFirst(posts, r.value.page) && Distinct(r.value.page)
    ensures r.Some? ==> forall i :: 0 <= i < |r.value.page| ==> posts[r.value.page[i]].author == username
    ensures r.Some? ==> (r.value.page == [] <==> r.value.count == 0)
    ensures r.Some? && page.None? && |r.value.page| < PageSize ==>
              forall id :: id in posts && posts[id].author == username ==> id in r.value.page
    ensures r.Some? && page.None? ==>
              forall id, j :: id in posts && posts[id].author == username && id !in r.value.page && j in r.value.page ==>
                posts[j].pubDate >= posts[id].pubDate
  {
    if username !in users then None
    else
      var mine := ByAuthor(posts, username);
      var r := NewestPage(mine, page);
      NewestFirstInTable(mine, posts, r);
      Some(ProfilePage(username, |mine|, r))
  }

  /** Every post of an existing user is on some page of their profile. */
  lemma ProfileListsEveryPost(users: set<UserName>, posts: map<Id, Post>, username: UserName, id: Id)
    requires username in users && id in posts && posts[id].author == username
    ensures exists p: int :: Profile(users, posts, username, Some(p)).Some? && id in Profile(users, posts, username, Some(p)).value.page
  {
    ListedOnSomePage(ByAuthor(posts, username), id);
  }

  /** What post_view renders: the URL's user and their post count, the post, and its comments. */
  datatype PostPage = PostPage(user: UserName, count: nat, post: Post, comments: set<Id>)

  /**
   * post_view: 404 unless both the username and the post id exist.  The post is not
   * required to be by that user.  `post.comments.all()` has no ordering, so the
   * comments are a set.
   */
  function PostView(users: set<UserName>, posts: map<Id, Post>, comments: map<Id, Comment>, username: UserName, postId: Id): (r: Option<PostPage>)
    ensures r.None? <==> username !in users || postId !in posts
    ensures r.Some? ==> r.value.post == posts[postId] && r.value.user == username
    ensures r.Some? ==> r.value.count == |ByAuthor(posts, username)|
    ensures r.Some? ==> forall c :: c in r.value.comments <==> c in comments && comments[c].post == postId
  {
    if username !in users || postId !in posts then None
    else Some(PostPage(username, |ByAuthor(posts, username)|, posts[postId], set c | c in comments && comments[c].post == postId))
  }

  /** The whole feed of `user`: every post by an author they follow, newest first. */
  ghost function Feed(posts: map<Id, Post>, follows: map<Id, Follow>, user: UserName): (r: seq<Id>)
    ensures forall id :: id in r <==> id in posts && HasEdge(follows, user, posts[id].author)
    ensures NewestFirst(posts, r) && Distinct(r)
  {
    var selected := ByAuthors(posts, Followed(follows, user));
    var r := ByPubDateDesc(selected);
    NewestFirstInTable(selected, posts, r);
    r
  }

  /** follow_index: a page of the feed. */
  ghost function FollowIndex(posts: map<Id, Post>, follows: map<Id, Follow>, user: UserName, page: Option<int>): (r: seq<Id>)
    ensures |r| <= PageSize && NewestFirst(posts, r) && Distinct(r)
    ensures forall i :: 0 <= i < |r| ==> HasEdge(follows, user, posts[r[i]].author)
    ensures Followed(follows, user) == {} ==> r == []
    ensures page.None? && |r| < PageSize ==> forall id :: id in posts && HasEdge(follows, user, posts[id].author) ==> id in r
    ensures page.None? ==> forall id, j :: id in posts && HasEdge(follows, user, posts[id].author) && id !in r && j in r ==>
              posts[j].pubDate >= posts[id].pubDate
  {
    var selected := ByAuthors(posts, Followed(follows, user));
    assert Followed(follows, user) == {} ==> selected == map[];
    var r := NewestPage(selected, page);
    NewestFirstInTable(selected, posts, r);
    r
  }

  /** A post newer than all others heads the index. */
  lemma NewestHeadsIndex(posts: map<Id, Post>, id: Id)
    requires id in posts
    requires forall j :: j in posts && j != id ==> posts[j].pubDate < posts[id].pubDate
    ensures Index(posts, None) != [] && Index(posts, None)[0] == id
  {
    NewestComesFirst(posts, id);
  }

  /** A post newer than all others heads its author's profile. */
  lemma NewestHeadsProfile(users: set<UserName>, posts: map<Id, Post>, id: Id)
    requires id in posts && posts[id].author in users
    requires forall j :: j in posts && j != id ==> posts[j].pubDate < posts[id].pubDate
    ensures var profile := Profile(users, posts, posts[id].author, None);
              profile.Some? && profile.value.page != [] && profile.value.page[0] == id
  {
    var mine := ByAuthor(posts, posts[id].author);
    NewestComesFirst(mine, id);
    assert Profile(users, posts, posts[id].author, None).value.page == NewestPage(mine, None);
  }

  /** Every post of a followed author is on some page of the feed. */
  lemma FeedListsEveryFollowedPost(posts: map<Id, Post>, follows: map<Id, Follow>, user: UserName, id: Id)
    requires id in posts && HasEdge(follows, user, posts[id].author)
    ensures exists p: int :: id in FollowIndex(posts, follows, user, Some(p))
  {
    ListedOnSomePage(ByAuthors(posts, Followed(follows, user)), id);
  }
}
