# Blogicum post-selection, visibility and forbidden-word rules in Dafny

This project models the rule engines inside the Blogicum Django blog and proves
properties about them.

- **Data model** (`Models.dfy`). The records are users, categories, locations, posts and comments. The model covers:
  - their defaults, `created_at` stamping, default orderings and length bounds;
  - unique primary keys, usernames and category slugs, with no post or comment row stored twice;
  - the cascade and set-null rules when a row is deleted;
  - the 30-character string forms.
- **Post selection** (`Queries.dfy`). This is `get_posts`: every post annotated with its comment count, ordered newest first, then at most one of the "published", "category" and "author" filters, chosen by if/elif precedence.
- **Request handling** (`Views.dfy`):
  - the index;
  - the single-post page and its per-viewer visibility rule;
  - the category and profile pages;
  - the ownership guard of the edit and delete views, including its redirect on denial;
  - the `form_valid` steps that bind a post or comment to the requesting user before saving;
  - the fields `CommentUpdateView.dispatch` records.
- **Forbidden-word filter** (`Validators.dfy`). This is `forbidden_words`: the text's lower-cased whitespace tokens, the lower-cased blocklist, a top-1 fuzzy match at cutoff 0.6, and the rejection message.

The clock (`now`), the requesting user (`viewer`) and the blocklist are parameters.

The persistent store is a `Db` value holding one sequence per table. Requests that change it work on a `Store` object. A form's instance is a `PostDraft` or `CommentDraft` object whose fields the view methods assign in place.

difflib's matcher is an abstract function `m(a, b)`, the number of matched characters. The ratio `2*M/(|a|+|b|)` is computed exactly. The hypothesis `ValidMatcher` states the two facts about the matcher that the proofs use:
- `M` is at most the size of the multiset intersection;
- a string shorter than 200 characters matches itself fully.

## Model

| member | source | states |
|---|---|---|
| Models.FindCategory | blogicum/blog/models.py:55-61 | the category found has the requested key; `None` only when no stored category has it |
| Models.FindPost | blogicum/blog/views.py:204-206 | the post found has the requested key; `None` (a 404) only when no stored post has it |
| Models.FindComment | blogicum/blog/views.py:303-305 | the comment found has the requested key; `None` (a 404) only when no stored comment has it |
| Models.FindUserByName | blogicum/blog/views.py:124-127 | the user found has the requested username; `None` (a 404) only when no stored user has it |
| Models.CreateCategory | blogicum/blog/models.py:19-27 | the insert fails exactly when the slug is already used (`unique=True`, models.py:84-89); otherwise the categories are the old ones plus exactly the new row with the given key, title, description and slug, published by default and stamped with the creation time; every other table is unchanged and the store stays valid |
| Models.AddCategoryKeepsValid | blogicum/blog/models.py:84-89 | appending a category with a new key and an unused slug keeps the store valid |
| Models.CreateLocation | blogicum/blog/models.py:101-107 | the locations are the old ones plus exactly the new row with the given key and name, published by default and stamped with the creation time; every other table is unchanged and the store stays valid |
| Models.AddLocationKeepsValid | blogicum/blog/models.py:101-107 | appending a location with a new key keeps the store valid |
| Models.DeletePost | blogicum/blog/models.py:119-125 | deleting a post removes exactly that post and exactly the comments on it, keeping the order of the surviving rows; users, categories and locations are untouched; a valid store stays valid |
| Models.DeletePostKeepsValid | blogicum/blog/models.py:119-125 | a store holding exactly the surviving posts and comments, as subsequences of the old tables, is valid when the original was |
| Models.DeleteUser | blogicum/blog/models.py:43-47 | deleting a user removes exactly their posts, their comments and every comment on their posts; a valid store stays valid |
| Models.DeleteCategory | blogicum/blog/models.py:55-61 | deleting a category keeps every post in place and nulls the `category` of exactly the posts that pointed at it |
| Models.DeleteCategoryOrigin | blogicum/blog/models.py:55-61 | every post after the deletion is the detached copy of a post before it |
| Models.DeleteCategoryKeepsValid | blogicum/blog/models.py:55-61 | the set-null deletion of a category keeps the store valid: unique keys, bounded lengths, resolving references |
| Models.DeleteCategoryKeepsKeys | blogicum/blog/models.py:55-61 | the deletion keeps every key unique and stores no post twice |
| Models.DeleteCategoryKeepsBounds | blogicum/blog/models.py:55-61 | the deletion keeps every length bound |
| Models.DeleteCategoryCommentRefs | blogicum/blog/models.py:55-61 | every comment still points at a stored post and user after the deletion |
| Models.DeleteCategoryKeepsRefs | blogicum/blog/models.py:55-61 | after the deletion every post and comment reference still resolves |
| Models.DeleteCategoryPostRefs | blogicum/blog/models.py:55-61 | one post's references still resolve after the deletion |
| Models.DeleteLocation | blogicum/blog/models.py:48-54 | deleting a location keeps every post in place and nulls the `location` of exactly the posts that pointed at it |
| Models.DeleteLocationOrigin | blogicum/blog/models.py:48-54 | every post after the deletion is the detached copy of a post before it |
| Models.DeleteLocationKeepsValid | blogicum/blog/models.py:48-54 | the set-null deletion of a location keeps the store valid |
| Models.DeleteLocationKeepsKeys | blogicum/blog/models.py:48-54 | the deletion keeps every key unique and stores no post twice |
| Models.DeleteLocationKeepsBounds | blogicum/blog/models.py:48-54 | the deletion keeps every length bound |
| Models.DeleteLocationCommentRefs | blogicum/blog/models.py:48-54 | every comment still points at a stored post and user after the deletion |
| Models.DeleteLocationKeepsRefs | blogicum/blog/models.py:48-54 | after the deletion every post and comment reference still resolves |
| Models.DeleteLocationPostRefs | blogicum/blog/models.py:48-54 | one post's references still resolve after the deletion |
| Models.AllPosts | blogicum/blog/models.py:73 | the default post order is a permutation of the stored posts with non-increasing `pub_date` |
| Models.CommentsOf | blogicum/blog/models.py:132 | a post's comments are exactly the comments referencing it, each listed as many times as it is stored (so once in a valid store), with non-decreasing `created_at` |
| Models.TruncateChars | blogicum/blog/models.py:76 | a string of at most `n` characters is unchanged; a longer one becomes its first `n-1` characters plus an ellipsis, exactly `n` long |
| Models.PostStr | blogicum/blog/models.py:75-76 | a post's string form is at most 30 characters and is the title itself when that fits |
| Models.CategoryStr | blogicum/blog/models.py:97-98 | a category's string form is at most 30 characters and is the title itself when that fits |
| Models.LocationStr | blogicum/blog/models.py:115-116 | a location's string form is at most 30 characters and is the name itself when that fits |
| Models.CommentStr | blogicum/blog/models.py:134-135 | a comment's string form is at most 30 characters and is the text itself when that fits |
| Queries.CommentCount | blogicum/blog/utils.py:25-26 | `comment_count` is the number of comment rows that reference the post |
| Queries.Annotate | blogicum/blog/utils.py:25-26 | every post, in stored order, carries its own comment count |
| Queries.Ordered | blogicum/blog/utils.py:27 | the base queryset is a permutation of the annotated posts, sorted by descending `pub_date` |
| Queries.GetPosts | blogicum/blog/utils.py:14-42 | every result is a subsequence of the ordered, annotated queryset |
| Queries.OrderedRows | blogicum/blog/utils.py:17-27 | the ordered queryset contains exactly the stored posts, each with its true comment count |
| Queries.GetPostsNewestFirst | blogicum/blog/utils.py:27 | every result has non-increasing `pub_date` |
| Queries.GetPostsCounts | blogicum/blog/utils.py:25-26 | every listed post is a stored post whose `comment_count` is the number of comments on it |
| Queries.PublishedFilter | blogicum/blog/utils.py:28-33 | with `published` given (even `False`), the listing is exactly the posts that are due, published and in a published category, whatever the other arguments |
| Queries.CategoryFilter | blogicum/blog/utils.py:34-39 | with `category` given and `published` absent, the listing is exactly that category's due, published posts; the category's own flag is not consulted |
| Queries.AuthorFilter | blogicum/blog/utils.py:40-41 | with only `author` given, the listing is exactly that author's posts, with no date or publication filter |
| Queries.NoFilter | blogicum/blog/utils.py:42 | with no argument, every stored post is listed, and the listing has as many rows as there are posts |
| Queries.FilterOnlyRemoves | blogicum/blog/utils.py:28-42 | a listing is never longer than the post table, and each row holds a stored post unchanged |
| Queries.GetPostsNoDuplicates | blogicum/blog/utils.py:14-42 | when no post is stored twice, no listing shows a row twice |
| Queries.SubseqLength | blogicum/blog/utils.py:28-42 | removing rows from a queryset never makes it longer |
| Validators.Split | blogicum/blog/validators.py:27 | `str.split()` yields non-empty tokens containing no whitespace |
| Validators.SplitFromRun | blogicum/blog/validators.py:27 | a run of non-whitespace characters is read as one token |
| Validators.SplitWord | blogicum/blog/validators.py:27 | a non-empty string without whitespace splits into exactly itself |
| Validators.SplitFromNonEmpty | blogicum/blog/validators.py:27 | any non-whitespace character yields at least one token |
| Validators.SplitFromBlank | blogicum/blog/validators.py:27 | whitespace alone yields no token |
| Validators.SplitEmptyIff | blogicum/blog/validators.py:27 | `str.split()` returns no token exactly when the text is empty or all whitespace |
| Validators.Tokens | blogicum/blog/validators.py:27 | the token set holds exactly the lower-cased whitespace-separated words, each once |
| Validators.CloseMatches | blogicum/blog/validators.py:34-37 | `get_close_matches(n=1, cutoff=0.6)` returns at most one token; it is non-empty exactly when some token passes the cutoff, and then it returns a passing token that no other passing token outranks |
| Validators.ForbiddenWords | blogicum/blog/validators.py:25-41 | rejection happens exactly when some lower-cased blocklist word has a token passing the cutoff; the reported words are exactly those blocklist words, each once; the message is the words joined by ", " followed by the fixed suffix |
| Validators.Join | blogicum/blog/validators.py:39-41 | `", ".join` of no words is empty; otherwise its length is the words' total length plus one separator between each pair of neighbours |
| Validators.JoinContains | blogicum/blog/validators.py:39-41 | every joined word occurs in the joined string |
| Validators.JoinedWordBeforeSuffix | blogicum/blog/validators.py:39-41 | every joined word still occurs once the fixed suffix is appended |
| Validators.MessageNamesWord | blogicum/blog/validators.py:38-41 | the rejection message contains every reported blocklist word |
| Validators.ClosestIffFlagged | blogicum/blog/validators.py:34-37 | the top-1 match for a blocklist word is non-empty exactly when some token of the text passes the cutoff for it |
| Validators.ForbiddenMembers | blogicum/blog/validators.py:28-33 | the de-duplicated lower-cased blocklist holds exactly the lower-cased blocklist words |
| Validators.StrLessIrreflexive | blogicum/blog/validators.py:34-37 | no string is lexicographically below itself, so the top-1 pick is well defined |
| Validators.StrLessTransitive | blogicum/blog/validators.py:34-37 | lexicographic order on strings is transitive, so the top-1 pick beats every other candidate |
| Validators.FilterNoDuplicates | blogicum/blog/validators.py:34-37 | filtering a duplicate-free sequence leaves it duplicate-free, so no word is reported twice |
| Validators.SplitFromAround | blogicum/blog/validators.py:27 | splitting at a whitespace character gives the tokens of both sides |
| Validators.SplitAround | blogicum/blog/validators.py:27 | the tokens of `a + c + b`, for whitespace `c`, are the tokens of `a` followed by those of `b` |
| Validators.TokenSetAround | blogicum/blog/validators.py:27 | the token set of `a + c + b`, for whitespace `c`, is the union of the two sides' token sets |
| Validators.TokenOrderAndRepetition | blogicum/blog/validators.py:27 | swapping or repeating words does not change the token set |
| Validators.SameTokensSameVerdict | blogicum/blog/validators.py:27-41 | two texts with the same token set get the same verdict and the same message |
| Validators.LowerCharFacts | blogicum/blog/validators.py:27 | lower-casing a character is idempotent and keeps whitespace as whitespace |
| Validators.LowerSplitFrom | blogicum/blog/validators.py:27 | lower-casing commutes with splitting |
| Validators.Lower | blogicum/blog/validators.py:27 | `str.lower` keeps the length and lower-cases each character by the per-character rule `LowerChar`; with `LowerIdempotent` and `LowerSplitFrom` it is idempotent and commutes with `split()` |
| Validators.LowerIdempotent | blogicum/blog/validators.py:27 | lower-casing twice equals lower-casing once |
| Validators.TokenSetIgnoresCase | blogicum/blog/validators.py:27 | the token set of the lower-cased text equals the text's token set |
| Validators.CaseInsensitive | blogicum/blog/validators.py:27-33 | texts equal up to case, checked against blocklists equal up to case, get the same verdict |
| Validators.NothingToMatchPasses | blogicum/blog/validators.py:27-41 | a text made only of whitespace (the empty text included), or an empty blocklist, is accepted |
| Validators.MultisetSelfIntersection | blogicum/blog/validators.py:34-37 | a string's character multiset intersected with itself has the string's length |
| Validators.SelfMatchPasses | blogicum/blog/validators.py:34-37 | a word shorter than 200 characters passes the cutoff against itself (ratio 1.0) |
| Validators.ExactTokenRejected | blogicum/blog/validators.py:34-41 | a text containing a blocklist word shorter than 200 characters, in any letter case, is rejected, and that word is reported |
| Validators.BlocklistMonotone | blogicum/blog/validators.py:28-37 | adding words to the blocklist can only grow the reported set |
| Validators.IntersectionBound | blogicum/blog/validators.py:34-37 | the multiset intersection of two strings is no larger than its first argument; with the arguments swapped it bounds the second |
| Validators.CutoffIsRatioTest | blogicum/blog/validators.py:34-37 | all three cutoff checks together hold exactly when `10*M >= 3*(|a|+|b|)` |
| Validators.RatioThreshold | blogicum/blog/validators.py:34-37 | `2*M/T >= 0.6` exactly when `10*M >= 3*T` |
| Views.Index | blogicum/blog/views.py:62-68 | the index lists exactly the posts publicly listed at request time, newest first, as a subsequence of the ordered queryset, and each at most once in a valid store |
| Views.IndexAsWritten | blogicum/blog/views.py:68 | the index as written lists the posts that were due when the module was loaded, not when the request arrives |
| Views.FrozenIndexHidesDuePost | blogicum/blog/views.py:68 | any publicly listable post scheduled after load time is on the corrected index and missing from the index as written |
| Views.FindRow | blogicum/blog/views.py:77-81 | the looked-up row is in the queryset and has the requested key; `None` only when none has it |
| Views.PostDetailAsWritten | blogicum/blog/views.py:79-89 | the page as written: a shown post is a stored row with the requested key that the viewer may see; it raises only for a published post with that key whose category is null or missing; `DetailAsWrittenAgrees` and `NullCategoryCrashesDetail` say exactly when it differs from the corrected page |
| Views.PostDetail | blogicum/blog/views.py:79-89 | the detail page never raises; a shown post is a stored row with the requested key that the viewer may see |
| Views.DetailShownIff | blogicum/blog/views.py:82-89 | with unique keys, the page is shown exactly when the stored post with that key is due, published and in a published category, or the viewer is its author |
| Views.DetailAsWrittenAgrees | blogicum/blog/views.py:82-89 | when every published post with that key has a category, the page as written behaves like the corrected one |
| Views.NullCategoryCrashesDetail | blogicum/blog/views.py:84 | any published post with a null category makes the page as written raise for every viewer, its author included; the corrected page shows it exactly to its author |
| Views.AuthorAlwaysSees | blogicum/blog/views.py:86 | the author sees their own post whether it is unpublished, future-dated or in an unpublished category |
| Views.AnonymousSeesWhatIsListed | blogicum/blog/views.py:82-89 | an anonymous visitor sees a post's page exactly when the post is on the index |
| Views.FindPublishedCategory | blogicum/blog/views.py:104 | the category found is published and has the slug; `None` only when no published category has it |
| Views.CategoryPage | blogicum/blog/views.py:99-114 | the page is a 404 exactly when no published category has the slug; otherwise it lists exactly that category's due, published posts, as a subsequence of the ordered queryset, each at most once in a valid store |
| Views.CategoryPageIsPublic | blogicum/blog/views.py:104-111 | every post on a category page is also on the index |
| Views.ProfilePosts | blogicum/blog/views.py:124-138 | the page is a 404 exactly for an unknown username; otherwise it lists exactly that user's posts, as a subsequence of the ordered queryset, each at most once in a valid store |
| Views.ProfileShowsDrafts | blogicum/blog/views.py:131-132 | any visitor of a profile sees each of that author's posts, drafts and scheduled posts included |
| Views.GuardedDispatch | blogicum/blog/views.py:50-59 | the request proceeds exactly when the object exists and the viewer is its author; it is a 404 exactly when a logged-in viewer asks for a missing object; every other request is redirected to the post page |
| Views.PostEditDispatch | blogicum/blog/views.py:53-55 | `test_func` on a post view: an edit or delete proceeds only when the stored post's author is the requesting user, and, with unique keys, always for that author |
| Views.CommentDeleteDispatch | blogicum/blog/views.py:57-59 | a comment deletion proceeds only for the stored comment's author, and, with unique keys, always for them; a denial redirects to the post named in the URL, not to the comment's own post |
| Views.DeletePostRequest | blogicum/blog/views.py:219-237 | only the author's request deletes the post, with its comments; any other request leaves the store unchanged; the store stays valid |
| Views.NextPostId | blogicum/blog/models.py:33-37 | a new post key differs from every stored one |
| Views.NextCommentId | blogicum/blog/models.py:119-120 | a new comment key differs from every stored one |
| Views.ReplacePost | blogicum/blog/views.py:208-211 | an UPDATE replaces exactly the rows with the saved key and leaves all others in place |
| Views.ReplacePostRows | blogicum/blog/views.py:208-211 | after an UPDATE, each row is the new row or an untouched row under another key |
| Views.InsertPostKeepsValid | blogicum/blog/views.py:184-189 | inserting a post with a new key and resolving references keeps the store valid |
| Views.NewPostTableKeepsValid | blogicum/blog/models.py:33-61 | a new post table with unique keys, no row stored twice, bounded titles, resolving references and every commented post keeps the store valid |
| Views.ReplacePostKeepsValid | blogicum/blog/views.py:208-211 | rewriting a post under its own key keeps the store valid |
| Views.InsertCommentKeepsValid | blogicum/blog/views.py:246-250 | inserting a comment with a new key on a stored post keeps the store valid |
| Views.PostDraft.Blank | blogicum/blog/models.py:22-27 | a new post instance has no key, author or creation time yet, and is published by default |
| Views.PostDraft.Bound | blogicum/blog/views.py:204-206 | an edit form's instance keeps the stored key, author, creation time and published flag, with the form's fields written over it |
| Views.PostDraft.Save | blogicum/blog/models.py:22 | saving updates an existing row in place, keeping its creation time; otherwise it inserts under the instance's key, or a new key when it has none, and every insert stamps the current time; no field of the instance except key and creation time changes |
| Views.CreatePostFormValid | blogicum/blog/views.py:184-189 | the new post's author is the requesting user; every submitted field (title, text, date, category, location, image, published flag) is stored as submitted, the required category is a stored one, inserted under a new key with the current time; the store stays valid, and the user goes to their profile; the anonymous branch raises |
| Views.UpdatePostFormValid | blogicum/blog/views.py:208-211 | the edited post's author is reset to the requesting user; every submitted field and the published flag are stored as they stand on the form, the required category is a stored one, under the same key and creation time; the store stays valid, and the user goes to their profile |
| Views.CommentDraft.Blank | blogicum/blog/models.py:119-127 | a new comment instance holds only its text |
| Views.CreateCommentFormValid | blogicum/blog/views.py:246-250 | the comment's author is the requesting user; a missing post is a 404 with nothing stored and no key, post or creation time put on the form; otherwise the comment is bound to that post, inserted under a new key with the current time, and the user goes back to the post |
| Views.CommentUpdateView.constructor | blogicum/blog/views.py:267-269 | the view's post key, comment key and comment start unset |
| Views.CommentUpdateView.Dispatch | blogicum/blog/views.py:271-276 | dispatch records both URL keys; a missing comment is a 404 before any login check; otherwise the login and author guard decides |

## Left out

- Query mechanics. `prefetch_related` and `select_related` only affect performance. Querysets are sequences, and pagination (`paginate_by = 10`) is not modelled.
- The `get_posts` copy at blogicum/blog/views.py:19-47 has the same branches, filters and ordering as blogicum/blog/utils.py:14-42. Both are modelled by the single function `Queries.GetPosts`.
- Templates, context dictionaries and URL building. Redirect targets are the values of `Target`.
- Registration, login and `UserProfileUpdateView`. Its `test_func` (views.py:159-161) is not used by any mixin of that view.
- The debug `print` at views.py:106.
- The routing files and blogicum/pages/views.py. Admin, app and form configuration is declarative. blogicum/blog/forms.py is not part of this model. The checks PostForm performs before `form_valid` are stated as the `requires` of the post form methods (`PostDraft.Checked`): a non-empty title within its length limit, a non-empty text, a category that is set and stored, and a stored location when one is chosen. The whitespace stripping of the form fields is not modelled.
- Views.CreateCommentFormValid: CommentsForm's required, non-empty `text` is not a precondition, so the method also accepts an empty comment.
- `CommentUpdateView.form_valid` saves twice. The second save stores the same row again, so it is not modelled separately.
- Image upload and media storage. `image` is a plain string.
- Validators.CloseMatches: the similarity is the abstract matcher `m`. SequenceMatcher's matching-block algorithm and its junk heuristic are not modelled. `ValidMatcher` assumes only an upper bound and self-matching for strings shorter than 200 characters.
- Validators.Ratio: ratios are exact rationals, not floating point. Differences in the last bit at the 0.6 boundary are not modelled.
- Validators.LowerChar: lower-casing covers ASCII, Latin-1 and basic Cyrillic letters. It does not cover the rest of Unicode or `str.lower`'s multi-character expansions.
- Validators.ForbiddenWords: Python set iteration order depends on string hashing. Both sets are modelled in first-occurrence order, so the order of words in the message is one possible order.
- Where the blocklist comes from: the `ForbiddenWord` table is read through the ORM, and here it is a parameter. Nothing in the shown source attaches `forbidden_words` to a form or model field.
- Models.TruncateChars counts code points. `truncatechars`' handling of combining characters is not modelled.
- The clock, the requesting user and primary-key allocation are parameters or functions of the stored keys. Concurrency and transactions are not modelled.

## Findings

| source | as written | input that shows it | evidently intended | confidence | as-written member | corrected member |
|---|---|---|---|---|---|---|
| blogicum/blog/views.py:82-86 | `post.category.is_published` is read for every published post, but `Post.category` is nullable (models.py:55-61, `SET_NULL`), so a null category raises before the author test runs | a published post whose category was deleted or never set: the page raises for every viewer, its author included | a null category counts as unpublished; the author still sees the post | high (not executed) | Views.NullCategoryCrashesDetail | Views.PostDetail |
| blogicum/blog/views.py:68 | `queryset = get_posts(published=True)` is a class attribute, so the `pub_date__lte=timezone.now()` cut-off is fixed when the module is imported | a post with `pub_date` between server start and the request is missing from the index until restart | the cut-off is the time of each request | high (not executed) | Views.FrozenIndexHidesDuePost | Views.Index |
