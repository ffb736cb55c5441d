/**
 * The mutating handlers of posts/views.py (new_post, post_edit, add_comment,
 * profile_follow, profile_unfollow) as methods of a Store that holds the tables,
 * together with the cascading deletes the models declare and the creation of a
 * group under its storage constraints.
 *
 * The authenticated caller (request.user) is a parameter; login_required guarantees
 * it names an existing user.  Responses are tagged values instead of rendered pages.
 */
module Handlers {
  import opened Wrappers
  import opened Models
  import opened Forms
  import opened Queries

  /** The named URL a handler redirects to. */
  datatype Route = IndexRoute | PostRoute(username: UserName, postId: Id) | ProfileRoute(username: UserName)

  datatype Response =
    | Redirect(to: Route)
    /** The form page, shown afresh or again with the names of the fields that failed. */
    | Rendered(errors: Errors)
    /** get_object_or_404 found no row: HTTP 404. */
    | NotFound
    /** An exception escaped the handler: HTTP 500. */
    | ServerError

  /** A GET shows a form; a POST submits one. */
  datatype Request = Get | Submit(body: Submission)

  class Store {
    var users: set<UserName>
    var groups: map<Id, Group>
    var posts: map<Id, Post>
    var comments: map<Id, Comment>
    var follows: map<Id, Follow>
    /** The next timestamp handed to auto_now_add; the clock only moves forward. */
    var clock: nat
    /** The next auto-increment key of each table. */
    var nextGroup: Id
    var nextPost: Id
    var nextComment: Id
    var nextFollow: Id
    /** The image library's verdict on an uploaded file. */
    const isImage: Upload -> bool

    function Snapshot(): Tables
      reads this
    {
      Tables(users, groups, posts, comments, follows)
    }

    /** The storage's constraints, and keys and timestamps drawn from the counters. */
    ghost predicate Valid()
      reads this
    {
      && Consistent(Snapshot())
      && (forall id :: id in groups ==> id < nextGroup)
      && (forall id :: id in posts ==> id < nextPost && posts[id].pubDate < clock)
      && (forall id :: id in comments ==> id < nextComment && comments[id].created < clock)
      && (forall id :: id in follows ==> id < nextFollow)
    }

    /** What the follow handlers maintain, although the storage would allow otherwise. */
    ghost predicate FollowsWellKept()
      reads this
    {
      EdgesUnique(follows) && NoSelfEdge(follows)
    }

    constructor (users: set<UserName>, isImage: Upload -> bool)
      ensures Valid() && FollowsWellKept()
      ensures Snapshot() == Tables(users, map[], map[], map[], map[])
      ensures clock == 1 && nextGroup == 1 && nextPost == 1 && nextComment == 1 && nextFollow == 1
      ensures this.isImage == isImage
    {
      this.users := users;
      groups, posts, comments, follows := map[], map[], map[], map[];
      clock := 1;
      nextGroup, nextPost, nextComment, nextFollow := 1, 1, 1, 1;
      this.isImage := isImage;
    }

    /** An operator creates a group; the storage refuses a taken slug or an over-long column. */
    method CreateGroup(title: string, slug: string, description: string) returns (r: Option<Id>)
      requires Valid()
      modifies this
      ensures Valid() && (old(FollowsWellKept()) ==> FollowsWellKept())
      ensures r.None? <==> SlugTaken(old(groups), slug) || !GroupFits(Group(title, slug, description))
      ensures r.None? ==> groups == old(groups) && nextGroup == old(nextGroup)
      ensures r.Some? ==> r.value == old(nextGroup) && r.value !in old(groups) && nextGroup == old(nextGroup) + 1
      ensures r.Some? ==> groups == old(groups)[r.value := Group(title, slug, description)]
      ensures Snapshot() == old(Snapshot()).(groups := groups)
      ensures clock == old(clock) && nextPost == old(nextPost) && nextComment == old(nextComment) && nextFollow == old(nextFollow)
    {
      var g := Group(title, slug, description);
      if SlugTaken(groups, slug) || !GroupFits(g) {
        return None;
      }
      r := Some(nextGroup);
      StoreGroupConsistent(Snapshot(), nextGroup, g);
      groups := groups[nextGroup := g];
      nextGroup := nextGroup + 1;
    }

    /**
     * new_post: a GET shows the empty form; a valid POST saves a post by the caller,
     * stamped with the current time, and redirects to the index, where it comes first;
     * an invalid POST shows the form again with its errors and saves nothing.
     */
    method NewPost(caller: UserName, req: Request) returns (resp: Response)
      requires Valid() && caller in users
      modifies this
      ensures Valid() && (old(FollowsWellKept()) ==> FollowsWellKept())
      ensures Snapshot() == old(Snapshot()).(posts := posts)
      ensures nextGroup == old(nextGroup) && nextComment == old(nextComment) && nextFollow == old(nextFollow)
      ensures req.Get? ==> resp == Rendered({}) && posts == old(posts) && clock == old(clock) && nextPost == old(nextPost)
      ensures req.Submit? ==>
        match ValidatePostForm(req.body, old(groups).Keys, isImage)
        case Failure(errors) =>
          resp == Rendered(errors) && posts == old(posts) && clock == old(clock) && nextPost == old(nextPost)
        case Success(p) =>
          && resp == Redirect(IndexRoute)
          && old(nextPost) !in old(posts)
          && posts == old(posts)[old(nextPost) := Post(p.text, old(clock), caller, p.group, p.image)]
          && clock == old(clock) + 1 && nextPost == old(nextPost) + 1
          && Index(posts, None) != [] && Index(posts, None)[0] == old(nextPost)
          && Profile(users, posts, caller, None).Some?
          && Profile(users, posts, caller, None).value.page != []
          && Profile(users, posts, caller, None).value.page[0] == old(nextPost)
    {
      if req.Get? {
        return Rendered({});
      }
      var v := ValidatePostForm(req.body, groups.Keys, isImage);
      if v.Failure? {
        return Rendered(v.error);
      }
      var id := nextPost;
      var post := Post(v.value.text, clock, caller, v.value.group, v.value.image);
      assert PostResolves(Snapshot(), post);
      StorePostConsistent(Snapshot(), id, post);
      posts := posts[id := post];
      clock := clock + 1;
      nextPost := nextPost + 1;
      assert Valid();
      assert forall j :: j in posts && j != id ==> posts[j].pubDate < posts[id].pubDate;
      NewestHeadsIndex(posts, id);
      NewestHeadsProfile(users, posts, id);
      resp := Redirect(IndexRoute);
    }

    /**
     * post_edit: 404 for an unknown post; anyone but the author is redirected to the
     * post and nothing changes; the author gets the form on a GET, and on a valid POST
     * the post's text, group and image are replaced (an absent upload keeps the image),
     * while its author, its pub_date and every other row stay as they were.
     */
    method PostEdit(caller: UserName, username: UserName, postId: Id, req: Request) returns (resp: Response)
      requires Valid() && caller in users
      modifies this
      ensures Valid() && (old(FollowsWellKept()) ==> FollowsWellKept())
      ensures Snapshot() == old(Snapshot()).(posts := posts)
      ensures clock == old(clock) && nextGroup == old(nextGroup) && nextPost == old(nextPost)
      ensures nextComment == old(nextComment) && nextFollow == old(nextFollow)
      ensures posts.Keys == old(posts).Keys
      ensures forall id :: id in posts && id != postId ==> posts[id] == old(posts)[id]
      ensures postId in posts ==> posts[postId].author == old(posts)[postId].author && posts[postId].pubDate == old(posts)[postId].pubDate
      ensures postId !in old(posts) ==> resp == NotFound && posts == old(posts)
      ensures postId in old(posts) && old(posts)[postId].author != caller ==>
                resp == Redirect(PostRoute(username, postId)) && posts == old(posts)
      ensures postId in old(posts) && old(posts)[postId].author == caller && req.Get? ==>
                resp == Rendered({}) && posts == old(posts)
      ensures postId in old(posts) && old(posts)[postId].author == caller && req.Submit? ==>
        match ValidatePostForm(req.body, old(groups).Keys, isImage)
        case Failure(errors) => resp == Rendered(errors) && posts == old(posts)
        case Success(p) =>
          && resp == Redirect(PostRoute(username, postId))
          && posts == old(posts)[postId := old(posts)[postId].(
               text := p.text, group := p.group,
               image := if p.image.Some? then p.image else old(posts)[postId].image)]
          && (PostView(users, posts, comments, username, postId).Some? ==>
               PostView(users, posts, comments, username, postId).value.post.text == p.text)
    {
      if postId !in posts {
        return NotFound;
      }
      var post := posts[postId];
      if caller != post.author {
        return Redirect(PostRoute(username, postId));
      }
      if req.Get? {
        return Rendered({});
      }
      match ValidatePostForm(req.body, groups.Keys, isImage)
      case Failure(errors) =>
        resp := Rendered(errors);
      case Success(p) =>
        var image := if p.image.Some? then p.image else post.image;
        StorePostConsistent(Snapshot(), postId, post.(text := p.text, group := p.group, image := image));
        posts := posts[postId := post.(text := p.text, group := p.group, image := image)];
        resp := Redirect(PostRoute(username, postId));
    }

    /**
     * add_comment with the validity check the code evidently intends: a valid POST
     * saves a comment by the caller on `postId`; an invalid one saves nothing.  Both
     * end on the post's page.  A comment on a post that does not exist violates the
     * foreign key, and that exception becomes a server error.
     */
    method AddComment(caller: UserName, username: UserName, postId: Id, req: Request) returns (resp: Response)
      requires Valid() && caller in users
      modifies this
      ensures Valid() && (old(FollowsWellKept()) ==> FollowsWellKept())
      ensures Snapshot() == old(Snapshot()).(comments := comments)
      ensures nextGroup == old(nextGroup) && nextPost == old(nextPost) && nextFollow == old(nextFollow)
      ensures (req.Get? || ValidateCommentForm(req.body).Failure?) ==>
                resp == Redirect(PostRoute(username, postId)) &&
                comments == old(comments) && clock == old(clock) && nextComment == old(nextComment)
      ensures req.Submit? && ValidateCommentForm(req.body).Success? ==>
                CommentSaved(caller, username, postId, ValidateCommentForm(req.body).value, resp)
    {
      if req.Get? {
        return Redirect(PostRoute(username, postId));
      }
      match ValidateCommentForm(req.body)
      case Failure(_) =>
        resp := Redirect(PostRoute(username, postId));
      case Success(text) =>
        resp := SaveComment(caller, username, postId, text);
    }

    /**
     * add_comment as written: `if form_comment.is_valid:` tests the bound method,
     * which is always true, so an invalid form reaches ModelForm.save(), which raises
     * ValueError for invalid data: the caller gets a server error and nothing is saved.
     */
    method AddCommentAsWritten(caller: UserName, username: UserName, postId: Id, req: Request) returns (resp: Response)
      requires Valid() && caller in users
      modifies this
      ensures Valid() && (old(FollowsWellKept()) ==> FollowsWellKept())
      ensures Snapshot() == old(Snapshot()).(comments := comments)
      ensures nextGroup == old(nextGroup) && nextPost == old(nextPost) && nextFollow == old(nextFollow)
      ensures req.Get? ==>
                resp == Redirect(PostRoute(username, postId)) &&
                comments == old(comments) && clock == old(clock) && nextComment == old(nextComment)
      ensures req.Submit? && ValidateCommentForm(req.body).Failure? ==>
                resp == ServerError &&
                comments == old(comments) && clock == old(clock) && nextComment == old(nextComment)
      ensures req.Submit? && ValidateCommentForm(req.body).Success? ==>
                CommentSaved(caller, username, postId, ValidateCommentForm(req.body).value, resp)
    {
      if req.Get? {
        return Redirect(PostRoute(username, postId));
      }
      match ValidateCommentForm(req.body)
      case Failure(_) =>
        resp := ServerError;
      case Success(text) =>
        resp := SaveComment(caller, username, postId, text);
    }

    /** The outcome of saving a cleaned comment `text`, shared by both versions of add_comment. */
    twostate predicate CommentSaved(caller: UserName, username: UserName, postId: Id, text: string, resp: Response)
      reads this
    {
      if postId in old(posts) then
        && resp == Redirect(PostRoute(username, postId))
        && old(nextComment) !in old(comments)
        && comments == old(comments)[old(nextComment) := Comment(postId, caller, text, old(clock))]
        && clock == old(clock) + 1 && nextComment == old(nextComment) + 1
        && (PostView(users, posts, comments, username, postId).Some? ==>
             old(nextComment) in PostView(users, posts, comments, username, postId).value.comments)
      else
        resp == ServerError && comments == old(comments) && clock == old(clock) && nextComment == old(nextComment)
    }

    /** form.author_id = caller, form.post_id = postId, form.save(). */
    method SaveComment(caller: UserName, username: UserName, postId: Id, text: string) returns (resp: Response)
      requires Valid() && caller in users
      modifies this
      ensures Valid() && (old(FollowsWellKept()) ==> FollowsWellKept())
      ensures Snapshot() == old(Snapshot()).(comments := comments)
      ensures nextGroup == old(nextGroup) && nextPost == old(nextPost) && nextFollow == old(nextFollow)
      ensures CommentSaved(caller, username, postId, text, resp)
    {
      if postId !in posts {
        return ServerError;
      }
      StoreCommentConsistent(Snapshot(), nextComment, Comment(postId, caller, text, clock));
      comments := comments[nextComment := Comment(postId, caller, text, clock)];
      nextComment := nextComment + 1;
      clock := clock + 1;
      resp := Redirect(PostRoute(username, postId));
    }

    /**
     * profile_follow: 404 for an unknown username; otherwise the caller ends on the
     * author's profile.  An edge is created only when none exists and the author is
     * not the caller, so the handler never stores a second edge or a self edge.
     */
    method ProfileFollow(caller: UserName, username: UserName) returns (resp: Response)
      requires Valid() && caller in users
      modifies this
      ensures Valid() && (old(FollowsWellKept()) ==> FollowsWellKept())
      ensures Snapshot() == old(Snapshot()).(follows := follows)
      ensures clock == old(clock) && nextGroup == old(nextGroup) && nextPost == old(nextPost) && nextComment == old(nextComment)
      ensures username !in old(users) ==> resp == NotFound && follows == old(follows) && nextFollow == old(nextFollow)
      ensures username in old(users) ==> resp == Redirect(ProfileRoute(username))
      ensures HasEdge(old(follows), caller, username) || caller == username ==>
                follows == old(follows) && nextFollow == old(nextFollow)
      ensures username in old(users) && !HasEdge(old(follows), caller, username) && caller != username ==>
                && old(nextFollow) !in old(follows)
                && follows == old(follows)[old(nextFollow) := Follow(caller, username)]
                && nextFollow == old(nextFollow) + 1
      ensures HasEdge(follows, caller, username) <==>
                HasEdge(old(follows), caller, username) || (username in old(users) && caller != username)
      ensures username in old(users) && caller != username ==>
                forall id :: id in posts && posts[id].author == username ==> id in Feed(posts, follows, caller)
    {
      if username !in users {
        return NotFound;
      }
      if HasEdge(follows, caller, username) {
        return Redirect(ProfileRoute(username));
      }
      if caller != username {
        StoreFollowsConsistent(Snapshot(), follows[nextFollow := Follow(caller, username)]);
        follows := follows[nextFollow := Follow(caller, username)];
        assert follows[nextFollow] == Follow(caller, username);
        nextFollow := nextFollow + 1;
      }
      resp := Redirect(ProfileRoute(username));
    }

    /**
     * profile_unfollow: 404 for an unknown username; otherwise every edge from the
     * caller to the author is deleted (none, when there was none) and all other edges
     * stay.  Afterwards no post of that author is in the caller's feed.
     */
    method ProfileUnfollow(caller: UserName, username: UserName) returns (resp: Response)
      requires Valid() && caller in users
      modifies this
      ensures Valid() && (old(FollowsWellKept()) ==> FollowsWellKept())
      ensures Snapshot() == old(Snapshot()).(follows := follows)
      ensures clock == old(clock) && nextGroup == old(nextGroup) && nextPost == old(nextPost)
      ensures nextComment == old(nextComment) && nextFollow == old(nextFollow)
      ensures username !in old(users) ==> resp == NotFound && follows == old(follows)
      ensures username in old(users) ==>
                resp == Redirect(ProfileRoute(username)) && follows == WithoutEdge(old(follows), Follow(caller, username))
      ensures username in old(users) ==> !HasEdge(follows, caller, username)
      ensures !HasEdge(old(follows), caller, username) ==> follows == old(follows)
      ensures username in old(users) ==> forall id :: id in Feed(posts, follows, caller) ==> posts[id].author != username
    {
      if username !in users {
        return NotFound;
      }
      if HasEdge(follows, caller, username) {
        StoreFollowsConsistent(Snapshot(), WithoutEdge(follows, Follow(caller, username)));
        follows := WithoutEdge(follows, Follow(caller, username));
      }
      resp := Redirect(ProfileRoute(username));
    }

    /** Deleting a post, with the comments on it. */
    method DeletePost(post: Id)
      requires Valid()
      modifies this
      ensures Valid() && (old(FollowsWellKept()) ==> FollowsWellKept())
      ensures Snapshot() == Models.DeletePost(old(Snapshot()), post)
      ensures clock == old(clock) && nextGroup == old(nextGroup) && nextPost == old(nextPost)
      ensures nextComment == old(nextComment) && nextFollow == old(nextFollow)
    {
      var t := Models.DeletePost(Snapshot(), post);
      posts, comments := t.posts, t.comments;
    }

    /** Deleting a group, with every post in it and their comments. */
    method DeleteGroup(group: Id)
      requires Valid()
      modifies this
      ensures Valid() && (old(FollowsWellKept()) ==> FollowsWellKept())
      ensures Snapshot() == Models.DeleteGroup(old(Snapshot()), group)
      ensures clock == old(clock) && nextGroup == old(nextGroup) && nextPost == old(nextPost)
      ensures nextComment == old(nextComment) && nextFollow == old(nextFollow)
    {
      var t := Models.DeleteGroup(Snapshot(), group);
      groups, posts, comments := t.groups, t.posts, t.comments;
    }

    /** Deleting a user, with their posts, their comments and every edge they are part of. */
    method DeleteUser(u: UserName)
      requires Valid()
      modifies this
      ensures Valid() && (old(FollowsWellKept()) ==> FollowsWellKept())
      ensures Snapshot() == Models.DeleteUser(old(Snapshot()), u)
      ensures clock == old(clock) && nextGroup == old(nextGroup) && nextPost == old(nextPost)
      ensures nextComment == old(nextComment) && nextFollow == old(nextFollow)
    {
      var t := Models.DeleteUser(Snapshot(), u);
      users, posts, comments, follows := t.users, t.posts, t.comments, t.follows;
    }
  }
}
