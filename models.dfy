/**
 * The blog's entities (groups, posts, comments, follow edges), the constraints the
 * storage places on them, and the cascading deletes along their foreign keys.
 *
 * Tables are maps from the primary key to the row; users, which belong to the
 * authentication collaborator, are a set of usernames (usernames are unique, so a
 * user is identified by it).  Timestamps are natural numbers taken from a counter.
 */
module Models {
  import opened Wrappers

  /** A user, identified by the unique username. */
  type UserName = string

  /** An auto-incremented primary key. */
  type Id = nat

  /** Column widths: Group.title is a CharField(max_length=200), Group.slug a SlugField(max_length=40). */
  const TitleMaxLength: nat := 200
  const SlugMaxLength: nat := 40

  /** An uploaded file; whether it is an image is decided by a foreign library. */
  datatype Upload = Upload(name: string, content: seq<bv8>)

  datatype Group = Group(title: string, slug: string, description: string)

  /** A post has exactly one author; group and image may be absent (null=True). */
  datatype Post = Post(text: string, pubDate: nat, author: UserName, group: Option<Id>, image: Option<Upload>)

  datatype Comment = Comment(post: Id, author: UserName, text: string, created: nat)

  /** A directed subscription edge: `user` follows `author`. */
  datatype Follow = Follow(user: UserName, author: UserName)

  /** The content of the database. */
  datatype Tables = Tables(
    users: set<UserName>,
    groups: map<Id, Group>,
    posts: map<Id, Post>,
    comments: map<Id, Comment>,
    follows: map<Id, Follow>)

  predicate GroupFits(g: Group) {
    |g.title| <= TitleMaxLength && |g.slug| <= SlugMaxLength
  }

  /** Whether some group already uses `slug`. */
  predicate SlugTaken(groups: map<Id, Group>, slug: string) {
    exists id :: id in groups && groups[id].slug == slug
  }

  /** The unique=True constraint on Group.slug. */
  ghost predicate SlugsUnique(groups: map<Id, Group>) {
    forall a, b :: a in groups && b in groups && a != b ==> groups[a].slug != groups[b].slug
  }

  /** Every foreign key of a post points at an existing row. */
  ghost predicate PostResolves(t: Tables, p: Post) {
    p.author in t.users && (p.group.Some? ==> p.group.value in t.groups)
  }

  ghost predicate CommentResolves(t: Tables, c: Comment) {
    c.post in t.posts && c.author in t.users
  }

  ghost predicate FollowResolves(t: Tables, f: Follow) {
    f.user in t.users && f.author in t.users
  }

  /** What the storage itself guarantees: column widths, slug uniqueness, referential integrity. */
  ghost predicate Consistent(t: Tables) {
    && (forall id :: id in t.groups ==> GroupFits(t.groups[id]))
    && SlugsUnique(t.groups)
    && (forall id :: id in t.posts ==> PostResolves(t, t.posts[id]))
    && (forall id :: id in t.comments ==> CommentResolves(t, t.comments[id]))
    && (forall id :: id in t.follows ==> FollowResolves(t, t.follows[id]))
  }

  /** Storing a post whose references resolve (a new one, or a new version of one) keeps the tables consistent. */
  lemma StorePostConsistent(t: Tables, id: Id, p: Post)
    requires Consistent(t) && PostResolves(t, p)
    ensures Consistent(t.(posts := t.posts[id := p]))
  {
    var r := t.(posts := t.posts[id := p]);
    forall k | k in r.posts ensures PostResolves(r, r.posts[k]) {
      if k != id { assert PostResolves(t, t.posts[k]); }
    }
    forall k | k in r.comments ensures CommentResolves(r, r.comments[k]) {
      assert CommentResolves(t, t.comments[k]);
    }
    forall k | k in r.follows ensures FollowResolves(r, r.follows[k]) {
      assert FollowResolves(t, t.follows[k]);
    }
  }

  lemma StoreCommentConsistent(t: Tables, id: Id, c: Comment)
    requires Consistent(t) && CommentResolves(t, c)
    ensures Consistent(t.(comments := t.comments[id := c]))
  {
    var r := t.(comments := t.comments[id := c]);
    forall k | k in r.posts ensures PostResolves(r, r.posts[k]) {
      assert PostResolves(t, t.posts[k]);
    }
    forall k | k in r.comments ensures CommentResolves(r, r.comments[k]) {
      if k != id { assert CommentResolves(t, t.comments[k]); }
    }
    forall k | k in r.follows ensures FollowResolves(r, r.follows[k]) {
      assert FollowResolves(t, t.follows[k]);
    }
  }

  /** Replacing the follow table by one whose edges all resolve keeps the tables consistent. */
  lemma StoreFollowsConsistent(t: Tables, follows: map<Id, Follow>)
    requires Consistent(t)
    requires forall k :: k in follows ==> FollowResolves(t, follows[k])
    ensures Consistent(t.(follows := follows))
  {
    var r := t.(follows := follows);
    forall k | k in r.posts ensures PostResolves(r, r.posts[k]) {
      assert PostResolves(t, t.posts[k]);
    }
    forall k | k in r.comments ensures CommentResolves(r, r.comments[k]) {
      assert CommentResolves(t, t.comments[k]);
    }
  }

  /** A group under a fresh key, within the column widths and with an unused slug, keeps the tables consistent. */
  lemma StoreGroupConsistent(t: Tables, id: Id, g: Group)
    requires Consistent(t) && id !in t.groups && GroupFits(g) && !SlugTaken(t.groups, g.slug)
    ensures Consistent(t.(groups := t.groups[id := g]))
  {
    var r := t.(groups := t.groups[id := g]);
    forall k | k in r.posts ensures PostResolves(r, r.posts[k]) {
      assert PostResolves(t, t.posts[k]);
    }
    forall k | k in r.comments ensures CommentResolves(r, r.comments[k]) {
      assert CommentResolves(t, t.comments[k]);
    }
    forall k | k in r.follows ensures FollowResolves(r, r.follows[k]) {
      assert FollowResolves(t, t.follows[k]);
    }
  }

  /** Whether the table holds at least one edge from `user` to `author`. */
  predicate HasEdge(follows: map<Id, Follow>, user: UserName, author: UserName) {
    exists id :: id in follows && follows[id] == Follow(user, author)
  }

  /** No (user, author) pair is stored twice.  The storage does not demand this. */
  ghost predicate EdgesUnique(follows: map<Id, Follow>) {
    forall a, b :: a in follows && b in follows && a != b ==> follows[a] != follows[b]
  }

  /** No user follows themself.  The storage does not demand this either. */
  ghost predicate NoSelfEdge(follows: map<Id, Follow>) {
    forall id :: id in follows ==> follows[id].user != follows[id].author
  }

  /**
   * Follow has no unique_together and no check constraint: consistent tables may
   * hold the same edge twice, and an edge from a user to themself.
   */
  lemma StorageAllowsRepeatedAndSelfEdges(u: UserName)
    ensures var t := Tables({u}, map[], map[], map[], map[1 := Follow(u, u), 2 := Follow(u, u)]);
      Consistent(t) && !EdgesUnique(t.follows) && !NoSelfEdge(t.follows)
  {
    var follows := map[1 := Follow(u, u), 2 := Follow(u, u)];
    assert follows[1] == follows[2];
  }

  /** The table after `.filter(user=e.user, author=e.author).delete()`: every copy of `e` is gone. */
  function WithoutEdge(follows: map<Id, Follow>, e: Follow): (r: map<Id, Follow>)
    ensures !HasEdge(r, e.user, e.author)
    ensures forall id :: id in follows && follows[id] != e ==> id in r && r[id] == follows[id]
    ensures forall id :: id in r ==> id in follows && r[id] == follows[id]
    ensures !HasEdge(follows, e.user, e.author) ==> r == follows
  {
    map id | id in follows && follows[id] != e :: follows[id]
  }

  /**
   * Deleting the posts `gone`; Comment.post is on_delete=CASCADE, so every comment
   * on one of them goes too.  Nothing else is touched.
   */
  function DropPosts(t: Tables, gone: set<Id>): (r: Tables)
    ensures r.users == t.users && r.groups == t.groups && r.follows == t.follows
    ensures forall id :: id in r.posts <==> id in t.posts && id !in gone
    ensures forall id :: id in r.posts ==> r.posts[id] == t.posts[id]
    ensures forall id :: id in r.comments <==> id in t.comments && t.comments[id].post !in gone
    ensures forall id :: id in r.comments ==> r.comments[id] == t.comments[id]
    ensures Consistent(t) ==> Consistent(r)
  {
    t.(posts := t.posts - gone,
       comments := map id | id in t.comments && t.comments[id].post !in gone :: t.comments[id])
  }

  /** Deleting a post removes the comments on it (Comment.post is CASCADE). */
  function DeletePost(t: Tables, post: Id): (r: Tables)
    ensures post !in r.posts
    ensures forall id :: id in r.comments ==> r.comments[id].post != post
    ensures forall id :: id in t.posts && id != post ==> id in r.posts && r.posts[id] == t.posts[id]
    ensures forall id :: id in t.comments && t.comments[id].post != post ==> id in r.comments && r.comments[id] == t.comments[id]
    ensures r.posts.Keys <= t.posts.Keys && r.comments.Keys <= t.comments.Keys
    ensures forall id :: id in r.posts ==> r.posts[id] == t.posts[id]
    ensures forall id :: id in r.comments ==> r.comments[id] == t.comments[id]
    ensures r.users == t.users && r.groups == t.groups && r.follows == t.follows
    ensures Consistent(t) ==> Consistent(r)
  {
    DropPosts(t, {post})
  }

  /**
   * Deleting a group removes every post in it, and their comments: Post.group is
   * on_delete=CASCADE, not SET_NULL, although the column is nullable.
   */
  function DeleteGroup(t: Tables, group: Id): (r: Tables)
    ensures group !in r.groups
    ensures forall id :: id in r.posts ==> r.posts[id].group != Some(group)
    ensures forall id :: id in t.posts && t.posts[id].group != Some(group) ==> id in r.posts && r.posts[id] == t.posts[id]
    ensures forall id :: id in r.comments ==> id in t.comments && r.comments[id] == t.comments[id]
    ensures forall id :: id in r.comments && r.comments[id].post in t.posts ==> r.comments[id].post in r.posts
    ensures forall id :: id in t.comments && t.comments[id].post in r.posts ==> id in r.comments
    ensures r.users == t.users && r.follows == t.follows
    ensures forall id :: id in t.groups && id != group ==> id in r.groups && r.groups[id] == t.groups[id]
    ensures r.posts.Keys <= t.posts.Keys && r.groups.Keys <= t.groups.Keys
    ensures forall id :: id in r.posts ==> r.posts[id] == t.posts[id]
    ensures forall id :: id in r.groups ==> r.groups[id] == t.groups[id]
    ensures Consistent(t) ==> Consistent(r)
  {
    var s := DropPosts(t, set id | id in t.posts && t.posts[id].group == Some(group));
    var r := s.(groups := s.groups - {group});
    assert Consistent(t) ==> Consistent(r) by {
      if Consistent(t) {
        forall id | id in r.posts ensures PostResolves(r, r.posts[id]) {
          assert PostResolves(t, t.posts[id]);
        }
      }
    }
    r
  }

  /**
   * Deleting a user removes the posts they wrote (with every comment on them), the
   * comments they wrote, and every follow edge in which they are follower or author:
   * Post.author, Comment.author, Follow.user and Follow.author are all CASCADE.
   */
  function DeleteUser(t: Tables, u: UserName): (r: Tables)
    ensures r.users == t.users - {u}
    ensures r.groups == t.groups
    ensures forall id :: id in r.posts ==> r.posts[id].author != u
    ensures forall id :: id in r.comments ==> r.comments[id].author != u
    ensures forall id :: id in r.comments && r.comments[id].post in t.posts ==> r.comments[id].post in r.posts
    ensures forall id :: id in r.follows ==> r.follows[id].user != u && r.follows[id].author != u
    ensures forall id :: id in t.posts && t.posts[id].author != u ==> id in r.posts && r.posts[id] == t.posts[id]
    ensures forall id :: id in t.comments && t.comments[id].author != u && t.comments[id].post in r.posts ==>
              id in r.comments && r.comments[id] == t.comments[id]
    ensures forall id :: id in r.comments ==> id in t.comments && r.comments[id] == t.comments[id]
    ensures forall id :: id in t.follows && t.follows[id].user != u && t.follows[id].author != u ==>
              id in r.follows && r.follows[id] == t.follows[id]
    ensures forall id :: id in r.follows ==> id in t.follows && r.follows[id] == t.follows[id]
    ensures r.posts.Keys <= t.posts.Keys
    ensures forall id :: id in r.posts ==> r.posts[id] == t.posts[id]
    ensures Consistent(t) ==> Consistent(r)
  {
    var s := DropPosts(t, set id | id in t.posts && t.posts[id].author == u);
    var r := s.(users := s.users - {u},
                comments := map id | id in s.comments && s.comments[id].author != u :: s.comments[id],
                follows := map id | id in s.follows && s.follows[id].user != u && s.follows[id].author != u :: s.follows[id]);
    assert Consistent(t) ==> Consistent(r) by {
      if Consistent(t) {
        forall id | id in r.posts ensures PostResolves(r, r.posts[id]) {
          assert PostResolves(t, t.posts[id]);
        }
        forall id | id in r.comments ensures CommentResolves(r, r.comments[id]) {
          assert CommentResolves(t, t.comments[id]);
        }
        forall id | id in r.follows ensures FollowResolves(r, r.follows[id]) {
          assert FollowResolves(t, t.follows[id]);
        }
      }
    }
    r
  }
}
