/**
 * The handlers applied to a small concrete store: an author posts and edits,
 * another user's edit changes nothing, and a blank comment shows how the
 * add_comment handler as written differs from the one the code intends.
 */
module Scenarios {
  import opened Wrappers
  import opened Models
  import opened Forms
  import opened Queries
  import opened Handlers

  function TextOnly(text: string): Submission {
    Submission(map[TextKey := text], map[])
  }

  /** A text with no whitespace at either end and no NUL is accepted as it is, with no group and no image. */
  lemma WordIsValidPost(word: string, groups: set<Id>, isImage: Upload -> bool)
    requires word != [] && !IsSpace(word[0]) && !IsSpace(word[|word| - 1]) && '\0' !in word
    ensures ValidatePostForm(TextOnly(word), groups, isImage) == Success(PostPayload(word, None, None))
  {
    StripWord(word);
  }

  /** A blank comment is refused by CommentForm. */
  lemma BlankCommentIsInvalid()
    ensures ValidateCommentForm(TextOnly(" ")) == Failure({TextKey})
  {
    assert Blank(" ") by { assert IsSpace(" "[0]); }
  }

  /** A text with no whitespace at either end strips to itself. */
  lemma StripWord(s: string)
    requires s != [] && !IsSpace(s[0]) && !IsSpace(s[|s| - 1])
    ensures Strip(s) == s
  {
    var r := Strip(s);
    assert LeadingSpaces(s) == 0;
  }

  /** A store with the users alice and bob, where alice has posted "hello" as post 1. */
  method AlicePosted(isImage: Upload -> bool) returns (store: Store, created: Response)
    ensures fresh(store) && store.Valid() && store.isImage == isImage
    ensures created == Redirect(IndexRoute)
    ensures store.users == {"alice", "bob"} && store.groups == map[] && store.comments == map[]
    ensures store.posts == map[1 := Post("hello", 1, "alice", None, None)]
  {
    store := new Store({"alice", "bob"}, isImage);
    WordIsValidPost("hello", {}, isImage);
    assert store.groups.Keys == {} && store.posts == map[];
    created := store.NewPost("alice", Submit(TextOnly("hello")));
  }

  /** alice edits her post to "hello v2": the text changes, the author and the pub_date stay. */
  method AuthorEdits(isImage: Upload -> bool) returns (created: Response, edited: Response, after: Option<Post>)
    ensures created == Redirect(IndexRoute)
    ensures edited == Redirect(PostRoute("alice", 1))
    ensures after == Some(Post("hello v2", 1, "alice", None, None))
  {
    WordIsValidPost("hello v2", {}, isImage);
    var store;
    store, created := AlicePosted(isImage);
    assert store.groups.Keys == {};
    edited := store.PostEdit("alice", "alice", 1, Submit(TextOnly("hello v2")));
    assert store.posts.Keys == {1};
    assert store.posts[1].text == "hello v2" && store.posts[1].image == None;
    after := Some(store.posts[1]);
  }

  /** bob's edit of alice's post only redirects him to it; the post is as it was. */
  method OthersCannotEdit(isImage: Upload -> bool) returns (refused: Response, after: Option<Post>)
    ensures refused == Redirect(PostRoute("alice", 1))
    ensures after == Some(Post("hello", 1, "alice", None, None))
  {
    var store, _ := AlicePosted(isImage);
    refused := store.PostEdit("bob", "alice", 1, Submit(TextOnly("hello v2")));
    after := Some(store.posts[1]);
  }

  /**
   * A blank comment on an existing post: as written, the handler fails with a
   * server error; with the validity check called, it redirects to the post.
   * Neither saves a comment.
   */
  method BlankComment(isImage: Upload -> bool)
    returns (asWritten: Response, corrected: Response, saved: nat)
    ensures asWritten == ServerError
    ensures corrected == Redirect(PostRoute("alice", 1))
    ensures saved == 0
  {
    var store, _ := AlicePosted(isImage);
    BlankCommentIsInvalid();
    asWritten := store.AddCommentAsWritten("alice", "alice", 1, Submit(TextOnly(" ")));
    corrected := store.AddComment("alice", "alice", 1, Submit(TextOnly(" ")));
    saved := |store.comments|;
  }
}
