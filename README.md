# A verified model of the posts app of a small blog

The `posts` app of this Django blog lets users write posts. A post can belong to a
group and can carry an image. Users comment on posts, and they follow other authors
to get a feed. This project models the app's three core files in Dafny:

- `posts/models.py`: the tables and their constraints.
- `posts/forms.py`: the two forms.
- `posts/views.py`: the request handlers.

It proves what each handler does to the stored data and what it shows.

Files and modules:

- `wrappers.dfy` (`Wrappers`): `Option` and `Result`.
- `models.dfy` (`Models`): the models as datatypes. Includes:
  - the storage constraints as the predicate `Consistent`: column widths, the unique slug, and foreign keys that resolve;
  - the CASCADE deletes as functions on the tables.
- `forms.dfy` (`Forms`): `PostForm` and `CommentForm` as validators. Each maps a request body to a cleaned payload or to the set of field names that failed. The field cleaning is the one the framework derives from the model fields:
  - the text is stripped with Python's whitespace set; it is required and may not contain NUL;
  - the group is empty or the decimal key of an existing group;
  - the image is optional, and an upload must be a recognised image.
- `queries.dfy` (`Queries`): the read-only views `index`, `group_posts`, `profile`, `post_view` and `follow_index`. Each is a filter over the posts, ordered newest first and cut into pages of ten. Paging follows the framework's `get_page`:
  - a missing or non-integer page number gives page 1;
  - a number out of range gives the last page.
- `store.dfy` (`Handlers`): the views that change the store, as methods of the class `Store`. The class holds the tables and the key counters. `new_post`, `post_edit`, `add_comment`, `profile_follow` and `profile_unfollow` are methods, and so are the model-level deletes and group creation.
- `scenarios.dfy` (`Scenarios`): the handlers applied to a small concrete store.

How the model maps the program:

- **Caller**: the authenticated caller (`request.user`) is a parameter of each handler. `login_required` guarantees the caller is an existing user.
- **Responses**: these are tagged values: `Redirect(route)`, `Rendered(errors)`, `NotFound` (404) and `ServerError` (500).
- **Timestamps**: `auto_now_add` timestamps come from a counter that only increases.
- **Ties**: posts with equal `pub_date` come out in an order the model leaves unspecified.
- **Slugs**: `Queries.GroupPosts` requires unique slugs, which the storage guarantees (`SlugsUnique` is part of `Consistent`). `get_object_or_404` depends on that.
- **Follow edges**: the storage does not forbid repeated or self edges. The handlers keep both out, and `FollowsWellKept` states this.
- **Where the code and its description differ**:
  - `add_comment` does not save an invalid comment. Its `is_valid` check never runs, so `save()` raises and the request ends with a server error (see Findings).
  - `post_view` lists a post's comments without any order, so the model gives them as a set.

## Model

| member | source | states |
|---|---|---|
| Models.StorageAllowsRepeatedAndSelfEdges | posts/models.py:37-41 | Follow has no uniqueness or check constraint. Consistent tables can hold the same edge twice, and an edge from a user to themself. |
| Models.StoreGroupConsistent | posts/models.py:8-11 | Storing a group with an unused slug, a title of at most 200 characters and a slug of at most 40 keeps the tables consistent. |
| Models.StorePostConsistent | posts/models.py:17-25 | Storing a post whose author exists, with no group or an existing one, keeps the tables consistent. |
| Models.StoreCommentConsistent | posts/models.py:28-34 | Storing a comment whose post and author exist keeps the tables consistent. |
| Models.StoreFollowsConsistent | posts/models.py:37-41 | Replacing the follow table by one whose followers and authors all exist keeps the tables consistent. |
| Models.WithoutEdge | posts/views.py:151 | Deleting the (user, author) edges leaves none of them. Every other edge keeps its key and value, no key is added, and every remaining key keeps its value. The table is unchanged when there was no such edge. |
| Models.DropPosts | posts/models.py:29-30 | Deleting posts also deletes exactly the comments on them. Everything else is unchanged, and consistency is preserved. |
| Models.DeletePost | posts/models.py:29-30 | Deleting a post removes it and its comments. Every other post and comment survives unchanged, no row is added, every remaining row keeps its value, and consistency is preserved. |
| Models.DeleteGroup | posts/models.py:22-24 | Deleting a group removes every post in it (CASCADE, not SET_NULL) and the comments on those posts. Every other group and post survives unchanged, no group or post is added, every remaining group and post keeps its value (so no post survives with its group cleared), and consistency is preserved. |
| Models.DeleteUser | posts/models.py:17-41 | Deleting a user removes the posts and comments they wrote, the comments on their posts, and every edge where they are follower or author. Everything else survives unchanged, no post is added, every remaining post and edge keeps its value (so no post is handed to another author), and consistency is preserved. |
| Forms.LeadingSpaces | posts/models.py:18 | Counts the whitespace characters at the start of the text, up to the first other character. |
| Forms.TrailingSpaces | posts/models.py:18 | Counts the whitespace characters at the end of the text, back to the last other character. |
| Forms.Strip | posts/models.py:18 | The stripped text is the slice between the leading and the trailing whitespace. It is empty exactly when the text is blank, and otherwise starts and ends with a non-space character. |
| Forms.StripKeeps | posts/models.py:18 | Stripping keeps every character that is not whitespace. |
| Forms.Decimal | posts/models.py:22-24 | str(pk): a non-empty string of decimal digits with no leading zero; with DecimalValue it reads back as the key. |
| Forms.ParseId | posts/models.py:22-24 | int() of the submitted key: a number exactly when the stripped text is digits, optionally after one '+'; the number is the digits' value; a blank text is never a number. |
| Forms.ParseDecimal | posts/models.py:22-24 | Parsing a primary key written in decimal gives that key back. |
| Forms.DecimalValue | posts/models.py:22-24 | The decimal digits of a key read back as that key. |
| Forms.CleanText | posts/models.py:18 | The text field fails exactly when it is missing, blank or contains NUL. Otherwise it gives the non-empty stripped text. |
| Forms.CleanGroup | posts/models.py:22-24 | No group exactly when the field is absent or empty. The field fails exactly when it is non-empty and does not parse as a key or names no existing group. A chosen group is an existing one, and it is the one whose key was submitted. |
| Forms.GroupChoiceSelects | posts/models.py:22-24 | Submitting an existing group's key in decimal selects exactly that group. |
| Forms.CleanImage | posts/models.py:25 | The image field fails exactly when the upload is not a recognised image. No upload means no image, and an accepted upload is kept as it was. |
| Forms.ValidatePostForm | posts/forms.py:5-13 | Errors are non-empty and name only text, group and image. Each field is in the errors exactly when it fails on its own. A valid payload carries the stripped non-empty text, exactly the group the group field selects (an existing one, or none), and the upload if any. |
| Forms.ValidateCommentForm | posts/forms.py:16-25 | The form fails, with an error on text only, exactly when the text is missing, blank or contains NUL. Otherwise it yields the stripped text. |
| Forms.OnlyFields | posts/forms.py:8 | Restricting a submission to a set of fields keeps exactly the submitted keys in that set (none that was not submitted), each with its submitted value. |
| Forms.PostFormReadsOnlyItsFields | posts/forms.py:8 | The outcome of PostForm depends on the text, group and image fields alone, so author or pub_date can never come from input. |
| Forms.CommentFormReadsOnlyText | posts/forms.py:19 | The outcome of CommentForm depends on the text field alone. |
| Forms.PostFormOptionalFields | posts/forms.py:8 | A valid text with no group and no image is a valid PostForm: group and image are optional. |
| Queries.LatestExists | posts/views.py:12 | A non-empty table has a post with the latest pub_date. |
| Queries.ByPubDateDesc | posts/views.py:12 | order_by('-pub_date') lists every post exactly once, with pub_date non-increasing. |
| Queries.PrependLatest | posts/views.py:12 | Putting a latest post in front of the ordered rest keeps the list ordered and free of repeats. |
| Queries.NumPages | posts/views.py:13 | Ten per page: the pages hold every item and the last page is not empty; an empty list has exactly one page. |
| Queries.PageNumber | posts/views.py:15-16 | The page shown is a real page. A missing or non-integer number gives page 1, a number in range is kept, and a number below 1 or past the end gives the last page. |
| Queries.Page | posts/views.py:13-16 | At most ten items, none when there are none. They are consecutive items from the start of the chosen page. With no page number they are the first ten. |
| Queries.PagePosition | posts/views.py:13-16 | Item i is entry i mod 10 of page i div 10 + 1. |
| Queries.NewestPage | posts/views.py:12-16 | A page holds at most ten posts of the selection, newest first and without repeats. It is non-empty exactly when the selection is. A short first page holds the whole selection, and the first page holds posts at least as new as every selected post left off it. |
| Queries.FirstPageNewest | posts/views.py:12-16 | A prefix of the ordered listing holds posts no older than any selected post it leaves out. |
| Queries.PageSlice | posts/views.py:13-16 | An existing page k is the slice of items from (k - 1) * 10 up to k * 10. |
| Queries.SlicesInOrder | posts/views.py:12 | In the ordered listing, an earlier slice shares no post with a later one and holds no older post. |
| Queries.PagesInOrder | posts/views.py:12-16 | Consecutive pages share no post, and every post on a page is at least as new as every post on the next page. |
| Queries.NewestComesFirst | posts/views.py:12-16 | A post newer than all others comes first on page 1. |
| Queries.ListedOnSomePage | posts/views.py:12-16 | Every selected post is on some page. |
| Queries.InGroup | posts/views.py:23 | Exactly the posts of the group, unchanged. |
| Queries.ByAuthor | posts/views.py:49 | Exactly the posts of the author, unchanged. |
| Queries.Followed | posts/views.py:122-123 | An author is in the list exactly when the user has an edge to that author. |
| Queries.ByAuthors | posts/views.py:124-125 | Exactly the posts whose author is in the list, unchanged. |
| Queries.NewestFirstInTable | posts/views.py:23 | A listing ordered within a sub-table is ordered within the whole table. |
| Queries.Index | posts/views.py:11-18 | At most ten posts, newest first, without repeats. Empty exactly when there are no posts. A short first page holds every post, and no post left off page 1 is newer than one on it. |
| Queries.GroupPosts | posts/views.py:21-29 | 404 exactly when no group has the slug. Otherwise at most ten posts, newest first and without repeats, each in the group with that slug. A short first page holds every post of the group, and no post of the group left off page 1 is newer than one on it. |
| Queries.GroupWithSlug | posts/views.py:22 | The group with the slug exists and is the only one with it. |
| Queries.GroupListsEveryPost | posts/views.py:21-29 | Every post of the group is on some page of group_posts. |
| Queries.Profile | posts/views.py:46-62 | 404 exactly when the user is unknown. Otherwise the count of that author's posts and at most ten of them, newest first and without repeats. The page is empty exactly when the count is 0. A short first page holds every post of the author, and none of their posts left off page 1 is newer than one on it. |
| Queries.ProfileListsEveryPost | posts/views.py:46-62 | Every post of an existing user is on some page of their profile. |
| Queries.PostView | posts/views.py:65-80 | 404 exactly when the username or the post is unknown. Otherwise the post, the URL user's post count, and exactly the comments on that post. |
| Queries.Feed | posts/views.py:121-125 | The feed holds exactly the posts by authors the user follows, newest first and without repeats. |
| Queries.FollowIndex | posts/views.py:121-131 | At most ten posts, newest first, each by a followed author. Empty when the user follows nobody. A short first page holds the whole feed, and no followed post left off page 1 is newer than one on it. |
| Queries.NewestHeadsIndex | posts/views.py:11-18 | A post newer than every other one heads page 1 of the index. |
| Queries.NewestHeadsProfile | posts/views.py:46-62 | A post newer than every other one heads page 1 of its author's profile. |
| Queries.FeedListsEveryFollowedPost | posts/views.py:122-128 | Every post of a followed author is on some page of follow_index. |
| Handlers.Store.CreateGroup | posts/models.py:8-11 | A taken slug or an over-long title or slug is refused, and nothing changes. Otherwise the group is stored under a fresh key. |
| Handlers.Store.NewPost | posts/views.py:32-43 | A GET renders the empty form. An invalid POST re-renders with the form's errors and saves nothing. A valid POST stores exactly one post: the caller as author, the cleaned fields, and the current time, under a fresh key. It then redirects to the index, where the new post comes first, as it does on the caller's profile. Consistency and well-kept edges are preserved. |
| Handlers.Store.PostEdit | posts/views.py:83-96 | An unknown post gives 404. A caller who is not the author is redirected to the post, and nothing changes. For the author, a GET renders the form. An invalid POST re-renders with errors. A valid POST replaces only that post's text, group and image (no upload keeps the image) and shows the new text on the post page. Author, pub_date and every other row stay. |
| Handlers.Store.AddComment | posts/views.py:108-117 | Corrected add_comment. A GET or an invalid form redirects to the post and saves nothing. A valid form on an existing post stores one comment (author the caller, the post, the stripped text, the current time), which then appears on the post page. A missing post gives a server error. |
| Handlers.Store.AddCommentAsWritten | posts/views.py:108-117 | add_comment as written: the same, except that an invalid form ends with a server error (save() on an invalid form) and saves nothing. |
| Handlers.Store.SaveComment | posts/views.py:113-116 | Saving a comment on an existing post inserts it under a fresh key and redirects. On a missing post, the foreign key fails: server error, nothing saved. |
| Handlers.Store.ProfileFollow | posts/views.py:134-143 | An unknown author gives 404. Otherwise a redirect to the profile. An edge is added only when none exists and the author is not the caller, so no duplicate or self edge is created. Afterwards the caller follows the author exactly when an edge existed or one was allowed, and the author's posts are in the caller's feed. |
| Handlers.Store.ProfileUnfollow | posts/views.py:146-152 | An unknown author gives 404. Otherwise every (caller, author) edge is deleted and all other edges stay. Nothing changes when there was no edge. None of the author's posts remain in the caller's feed. |
| Handlers.Store.DeletePost | posts/models.py:29-30 | The store becomes the cascading delete of the post. |
| Handlers.Store.DeleteGroup | posts/models.py:22-24 | The store becomes the cascading delete of the group. |
| Handlers.Store.DeleteUser | posts/models.py:17-41 | The store becomes the cascading delete of the user. |
| Scenarios.WordIsValidPost | posts/forms.py:5-13 | A text with no surrounding whitespace and no NUL, and nothing else, is a valid post with that text, no group and no image. |
| Scenarios.StripWord | posts/models.py:18 | A text with no whitespace at either end strips to itself. |
| Scenarios.BlankCommentIsInvalid | posts/forms.py:16-25 | A comment of a single space is invalid, with an error on text. |
| Scenarios.AuthorEdits | posts/views.py:83-96 | alice posts "hello" and is redirected to the index. She edits it to "hello v2" and is redirected to the post. The post is then ("hello v2", her, its original pub_date). |
| Scenarios.OthersCannotEdit | posts/views.py:86-96 | bob's edit of alice's post only redirects him to it. The post is still "hello". |
| Scenarios.BlankComment | posts/views.py:110-117 | A blank comment gives a server error as written and a redirect when corrected. No comment is saved in either case. |

## Left out

- Authentication: `login_required`, sessions and the login redirect for anonymous callers are framework behaviour. The caller is a parameter and is assumed to be an existing user.
- Templates, `render` and `redirect`: each response is a tagged value. The rendered form keeps only its error field names, not the messages or labels.
- The index page cache and its staleness are framework-provided and not modelled.
- The `page_not_found` and `server_error` handlers (posts/views.py:99-105) only render a page and are not modelled.
- The page number in the query string: the model takes it already parsed, as `None` (absent or not an integer) or an integer.
- Image decoding: whether an upload is an image is the abstract function `isImage`. Media storage and `upload_to='posts/'` are not modelled.
- Wall-clock time: `auto_now_add` is a counter, so two rows never share a timestamp within the model. The ordering lemmas claim only non-increasing order, which covers ties.
- Forms.ParseId: Python's `int()` also accepts `_` between digits and non-ASCII decimal digits. The model accepts only surrounding whitespace, an optional `+` and ASCII digits.
- Forms.CleanImage: the ImageField "clear" checkbox is not modelled; an edit can replace the image but not remove it.
- Models.GroupFits: the characters SlugField accepts are not checked; only the lengths are.
- Handlers.Store.CreateGroup: groups are created through the admin (posts/admin.py), which is not part of this model. Only the storage constraints on a new group are modelled.
- Models.DeleteUser, Models.DeleteGroup, Models.DeletePost: no handler deletes a user, group, post or comment. These model the cascade rules the models declare, as they would apply to a delete made through the admin.
- Validation-error messages, the field labels and the Textarea widget of CommentForm carry no logic and are not modelled.
- profile_follow and profile_unfollow act on any request method, as in the code; the model has no method parameter for them.
- post_edit does not check that the username in the URL is the post's author, and neither does the model. The redirect uses the URL's username as given.
- Concurrency: each handler is one atomic step on the store.
- posts/admin.py and posts/test.py are not part of this model.

## Findings

| source | as written | input that shows it | evidently intended | confidence | as-written member | corrected member |
|---|---|---|---|---|---|---|
| posts/views.py:112 | `if form_comment.is_valid:` tests the bound method, which is always true, so an invalid comment reaches `form_comment.save(commit=False)`, which raises ValueError: HTTP 500 | a POST to an existing post's comment URL with `text=" "` | call `is_valid()`; an invalid comment is not saved and the caller is sent back to the post | high, not executed | Handlers.Store.AddCommentAsWritten | Handlers.Store.AddComment |
