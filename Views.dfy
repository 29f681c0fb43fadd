/**
 * The request handlers of blogicum/blog/views.py that decide what a viewer
 * gets: the index, the single-post page with its per-viewer visibility rule,
 * the category and profile pages, the ownership guard shared by the edit and
 * delete views, and the `form_valid` / `dispatch` steps that bind a post or
 * comment to its author before saving.  The clock (`now`) and the requesting
 * user (`viewer`) are parameters.
 */
module Views {
  import opened Seqs
  import opened Models
  import opened Queries

  /** `request.user`: anonymous, or a logged-in user. */
  datatype Viewer = Anonymous | Authenticated(user: User)

  /** `request.user == author`: model instances compare by primary key; an anonymous user equals nobody. */
  predicate IsUser(viewer: Viewer, id: UserId)
  {
    viewer.Authenticated? && viewer.user.id == id
  }

  /** Where a redirect leads. */
  datatype Target = PostDetailPage(postId: nat) | ProfilePage(username: string)

  /**
   * What a handler answers: carry on to the view's own work, redirect, a
   * 404, or an uncaught exception (a 500).
   */
  datatype Response = Proceed | Redirect(target: Target) | NotFoundPage | ServerError

  // ------------------------------------------------------------ the index

  /** The corrected index: the published listing evaluated at request time. */
  function Index(db: Db, now: Timestamp): (r: seq<AnnotatedPost>)
    ensures forall a :: a in r <==> IsRow(db, a) && PubliclyListed(db, now, a.post)
    ensures forall i, j :: 0 <= i < j < |r| ==> r[i].post.pubDate >= r[j].post.pubDate
    ensures IsSubseq(r, Ordered(db))
    ensures NoDuplicates(db.posts) ==> NoDuplicates(r)
  {
    PublishedFilter(db, now, Some(true), None, None);
    GetPostsNoDuplicates(db, now, Some(true), None, None);
    GetPostsNewestFirst(db, now, Some(true), None, None);
    GetPosts(db, now, Some(true), None, None)
  }

  /**
   * `PostListView.queryset = get_posts(published=True)` as written: the
   * class attribute is built when the module is imported, so the cut-off
   * time is the load time `loadTime`, not the request time `now`.
   */
  function IndexAsWritten(db: Db, loadTime: Timestamp, now: Timestamp): (r: seq<AnnotatedPost>)
    ensures forall a :: a in r <==> IsRow(db, a) && PubliclyListed(db, loadTime, a.post)
  {
    PublishedFilter(db, loadTime, Some(true), None, None);
    GetPosts(db, loadTime, Some(true), None, None)
  }

  /**
   * A post that is due at request time but was scheduled after the module
   * was loaded is on the corrected index and missing from the index as written.
   */
  lemma FrozenIndexHidesDuePost(db: Db, loadTime: Timestamp, now: Timestamp, p: Post)
    requires p in db.posts && PubliclyListed(db, now, p) && loadTime < p.pubDate
    ensures Annotated(db, p) in Index(db, now)
    ensures forall a :: a in IndexAsWritten(db, loadTime, now) ==> a.post != p
  {
    assert IsRow(db, Annotated(db, p));
  }

  // ------------------------------------------------------ the detail page

  /** `queryset.get(pk=id)` over the unfiltered listing `get_posts()`. */
  function FindRow(rows: seq<AnnotatedPost>, id: nat): (r: Option<AnnotatedPost>)
    ensures r.Some? ==> r.value in rows && r.value.post.id == id
    ensures r.None? ==> forall a :: a in rows ==> a.post.id != id
  {
    First(rows, (a: AnnotatedPost) => a.post.id == id)
  }

  datatype Detail = Shown(row: AnnotatedPost) | Hidden | Crashed

  /**
   * `PostDetailView.get_object` as written: Python's `and` stops at an
   * unpublished post, but for a published one it reads
   * `post.category.is_published`, which raises when the category is null,
   * before the author test is reached.
   */
  function PostDetailAsWritten(db: Db, now: Timestamp, viewer: Viewer, id: nat): (r: Detail)
    ensures r.Shown? ==> IsRow(db, r.row) && r.row.post.id == id && VisibleTo(db, now, viewer, r.row.post)
    ensures r == Crashed ==> exists p :: p in db.posts && p.id == id && p.isPublished && (p.category.None? || !HasCategory(db, p.category.value))
  {
    OrderedRows(db);
    match FindRow(Ordered(db), id)
    case None => Hidden
    case Some(a) =>
      if !a.post.isPublished then
        (if IsUser(viewer, a.post.author) then Shown(a) else Hidden)
      else if a.post.category.None? then
        Crashed
      else
        match FindCategory(db.categories, a.post.category.value)
        case None => Crashed
        case Some(c) =>
          if (c.isPublished && a.post.pubDate <= now) || IsUser(viewer, a.post.author) then Shown(a) else Hidden
  }

  /** Whether `viewer` may see post `p`: public visibility, or authorship. */
  predicate VisibleTo(db: Db, now: Timestamp, viewer: Viewer, p: Post)
  {
    (p.isPublished && CategoryPublished(db, p) && p.pubDate <= now) || IsUser(viewer, p.author)
  }

  /** The corrected detail page: a null category counts as unpublished, so it never raises. */
  function PostDetail(db: Db, now: Timestamp, viewer: Viewer, id: nat): (r: Detail)
    ensures r != Crashed
    ensures r.Shown? ==> IsRow(db, r.row) && r.row.post.id == id && VisibleTo(db, now, viewer, r.row.post)
  {
    OrderedRows(db);
    match FindRow(Ordered(db), id)
    case None => Hidden
    case Some(a) => if VisibleTo(db, now, viewer, a.post) then Shown(a) else Hidden
  }

  /** With unique keys, the page is shown exactly when a stored post with that key is visible to the viewer. */
  lemma DetailShownIff(db: Db, now: Timestamp, viewer: Viewer, id: nat)
    requires KeysUnique(db)
    ensures PostDetail(db, now, viewer, id).Shown? <==> exists p :: p in db.posts && p.id == id && VisibleTo(db, now, viewer, p)
  {
    OrderedRows(db);
    if p :| p in db.posts && p.id == id && VisibleTo(db, now, viewer, p) {
      assert IsRow(db, Annotated(db, p));
    }
  }

  /** The two versions differ only on a published post whose category is null. */
  lemma DetailAsWrittenAgrees(db: Db, now: Timestamp, viewer: Viewer, id: nat)
    requires ReferencesResolve(db)
    requires forall p :: p in db.posts && p.id == id && p.isPublished ==> p.category.Some?
    ensures PostDetailAsWritten(db, now, viewer, id) == PostDetail(db, now, viewer, id)
  {
    OrderedRows(db);
    match FindRow(Ordered(db), id)
    case None =>
    case Some(a) =>
      if a.post.isPublished {
        var c :| c in db.categories && c.id == a.post.category.value;
      }
  }

  /**
   * A published post with a null category makes the page as written raise
   * for every viewer, its author included; the corrected page shows it to
   * its author and hides it from everyone else.
   */
  lemma NullCategoryCrashesDetail(db: Db, now: Timestamp, viewer: Viewer, p: Post)
    requires KeysUnique(db)
    requires p in db.posts && p.isPublished && p.category.None?
    ensures PostDetailAsWritten(db, now, viewer, p.id) == Crashed
    ensures PostDetail(db, now, viewer, p.id).Shown? <==> IsUser(viewer, p.author)
  {
    OrderedRows(db);
    assert IsRow(db, Annotated(db, p));
    var found := FindRow(Ordered(db), p.id);
    assert found.Some? && found.value.post == p;
  }

  /** The author of a stored post always sees it, whatever its flags, date or category. */
  lemma AuthorAlwaysSees(db: Db, now: Timestamp, author: User, id: nat)
    requires HasPost(db, id)
    requires forall p :: p in db.posts && p.id == id ==> p.author == author.id
    ensures PostDetail(db, now, Authenticated(author), id).Shown?
  {
    OrderedRows(db);
    var p :| p in db.posts && p.id == id;
    assert IsRow(db, Annotated(db, p));
  }

  /** An anonymous visitor sees a post's page exactly when the post is on the index. */
  lemma AnonymousSeesWhatIsListed(db: Db, now: Timestamp, id: nat)
    requires KeysUnique(db)
    ensures PostDetail(db, now, Anonymous, id).Shown? <==> exists a :: a in Index(db, now) && a.post.id == id
  {
    OrderedRows(db);
    var r := PostDetail(db, now, Anonymous, id);
    if a :| a in Index(db, now) && a.post.id == id {
      var b := FindRow(Ordered(db), id);
      assert a in Ordered(db);
      assert b.Some?;
      assert b.value.post == a.post;
    }
  }

  // ---------------------------------------------------- the category page

  /** `Category.objects.filter(is_published=True).get(slug=slug)`. */
  function FindPublishedCategory(cats: seq<Category>, slug: string): (r: Option<Category>)
    ensures r.Some? ==> r.value in cats && r.value.slug == slug && r.value.isPublished
    ensures r.None? ==> forall c :: c in cats && c.slug == slug ==> !c.isPublished
  {
    First(cats, (c: Category) => c.slug == slug && c.isPublished)
  }

  datatype CategoryListing = CategoryListing(category: Category, posts: seq<AnnotatedPost>)

  /** `CategoryDetailView`: a 404 unless the slug names a published category, else its posts through the category filter. */
  function CategoryPage(db: Db, slug: string, now: Timestamp): (r: Option<CategoryListing>)
    ensures r.None? <==> forall c :: c in db.categories && c.slug == slug ==> !c.isPublished
    ensures r.Some? ==> r.value.category in db.categories && r.value.category.slug == slug && r.value.category.isPublished
    ensures r.Some? ==> forall a :: a in r.value.posts <==> IsRow(db, a) && ListedInCategory(now, r.value.category.id, a.post)
    ensures r.Some? ==> IsSubseq(r.value.posts, Ordered(db))
    ensures r.Some? && NoDuplicates(db.posts) ==> NoDuplicates(r.value.posts)
  {
    match FindPublishedCategory(db.categories, slug)
    case None => None
    case Some(c) =>
      CategoryFilter(db, now, Some(c.id), None);
      GetPostsNoDuplicates(db, now, None, Some(c.id), None);
      Some(CategoryListing(c, GetPosts(db, now, None, Some(c.id), None)))
  }

  /** Because the page is gated on the category, every post it lists is also on the index. */
  lemma CategoryPageIsPublic(db: Db, slug: string, now: Timestamp)
    requires KeysUnique(db)
    ensures var r := CategoryPage(db, slug, now);
            r.Some? ==> forall a :: a in r.value.posts ==> a in Index(db, now)
  {
    var r := CategoryPage(db, slug, now);
    if r.Some? {
      var c := r.value.category;
      forall a | a in r.value.posts ensures a in Index(db, now) {
        var f := FindCategory(db.categories, c.id);
        assert f.Some? && f.value == c;
      }
    }
  }

  // ----------------------------------------------------- the profile page

  /** `UserProfileDetailView`: a 404 for an unknown username, else that user's posts through the author filter. */
  function ProfilePosts(db: Db, username: string, now: Timestamp): (r: Option<seq<AnnotatedPost>>)
    ensures r.None? <==> forall u :: u in db.users ==> u.username != username
    ensures r.Some? ==> exists u :: u in db.users && u.username == username &&
                          forall a :: a in r.value <==> IsRow(db, a) && a.post.author == u.id
    ensures r.Some? ==> IsSubseq(r.value, Ordered(db))
    ensures r.Some? && NoDuplicates(db.posts) ==> NoDuplicates(r.value)
  {
    match FindUserByName(db.users, username)
    case None => None
    case Some(u) =>
      AuthorFilter(db, now, u.id);
      GetPostsNoDuplicates(db, now, None, None, Some(u.id));
      Some(GetPosts(db, now, None, None, Some(u.id)))
  }

  /** Any visitor of a profile sees every post of that author, drafts and scheduled posts included. */
  lemma ProfileShowsDrafts(db: Db, now: Timestamp, u: User, p: Post)
    requires KeysUnique(db)
    requires u in db.users && p in db.posts && p.author == u.id
    ensures ProfilePosts(db, u.username, now).Some?
    ensures Annotated(db, p) in ProfilePosts(db, u.username, now).value
  {
    var r := ProfilePosts(db, u.username, now);
    var v :| v in db.users && v.username == u.username &&
             forall a :: a in r.value <==> IsRow(db, a) && a.post.author == v.id;
    assert v == u;
    assert IsRow(db, Annotated(db, p));
  }

  // --------------------------------------------------- the ownership guard

  /**
   * The `dispatch` chain of a view declared `(LoginRequiredMixin,
   * IsAuthorMixin, ...)`: the login check runs first, and since
   * `IsAuthorMixin.handle_no_permission` comes before `AccessMixin`'s in the
   * method resolution order, an anonymous request is redirected to the post
   * page too; then `get_object` (404 when missing), then `test_func`, which
   * asks whether the object's author is the requesting user, and on a denial
   * `handle_no_permission` again, back to the post's page named in the URL.
   * `author` is the author of the looked-up object, `None` when it does not exist.
   */
  function GuardedDispatch(viewer: Viewer, author: Option<UserId>, postId: nat): (r: Response)
    ensures r == Proceed <==> author.Some? && viewer.Authenticated? && viewer.user.id == author.value
    ensures r == NotFoundPage <==> viewer.Authenticated? && author.None?
    ensures r != Proceed && r != NotFoundPage ==> r == Redirect(PostDetailPage(postId))
  {
    if viewer.Anonymous? then Redirect(PostDetailPage(postId))
    else if author.None? then NotFoundPage
    else if IsUser(viewer, author.value) then Proceed
    else Redirect(PostDetailPage(postId))
  }

  function PostAuthor(db: Db, postId: nat): Option<UserId>
  {
    match FindPost(db.posts, postId)
    case None => None
    case Some(p) => Some(p.author)
  }

  function CommentAuthor(db: Db, commentId: nat): Option<UserId>
  {
    match FindComment(db.comments, commentId)
    case None => None
    case Some(c) => Some(c.author)
  }

  /** `PostUpdateView` / `PostDeleteView` dispatch: only the post's author gets through. */
  function PostEditDispatch(db: Db, viewer: Viewer, postId: nat): (r: Response)
    ensures r == Proceed ==> exists p :: p in db.posts && p.id == postId && IsUser(viewer, p.author)
    ensures r == Proceed <== KeysUnique(db) && exists p :: p in db.posts && p.id == postId && IsUser(viewer, p.author)
  {
    GuardedDispatch(viewer, PostAuthor(db, postId), postId)
  }

  /** `CommentDeleteView` dispatch: only the comment's author gets through; denial returns to the post named in the URL. */
  function CommentDeleteDispatch(db: Db, viewer: Viewer, postId: nat, commentId: nat): (r: Response)
    ensures r == Proceed ==> exists c :: c in db.comments && c.id == commentId && IsUser(viewer, c.author)
    ensures r == Proceed <== KeysUnique(db) && exists c :: c in db.comments && c.id == commentId && IsUser(viewer, c.author)
    ensures r.Redirect? ==> r.target == PostDetailPage(postId)
  {
    GuardedDispatch(viewer, CommentAuthor(db, commentId), postId)
  }

  /** `PostDeleteView`: the author's request deletes the post and its comments; any other request changes nothing. */
  function DeletePostRequest(db: Db, viewer: Viewer, postId: nat): (r: (Response, Db))
    ensures r.0 == PostEditDispatch(db, viewer, postId)
    ensures r.0 != Proceed ==> r.1 == db
    ensures r.0 == Proceed ==> r.1 == DeletePost(db, postId) && !HasPost(r.1, postId)
    ensures Valid(db) ==> Valid(r.1)
  {
    var d := PostEditDispatch(db, viewer, postId);
    if d == Proceed then (d, DeletePost(db, postId)) else (d, db)
  }

  // ------------------------------------------- saving, and the form steps

  /** A primary key larger than every one in use. */
  function NextPostId(posts: seq<Post>): (n: nat)
    ensures forall p :: p in posts ==> p.id < n
  {
    if posts == [] then 1
    else
      var rest := NextPostId(posts[1..]);
      assert forall p :: p in posts ==> p == posts[0] || p in posts[1..];
      if posts[0].id < rest then rest else posts[0].id + 1
  }

  function NextCommentId(comments: seq<Comment>): (n: nat)
    ensures forall c :: c in comments ==> c.id < n
  {
    if comments == [] then 1
    else
      var rest := NextCommentId(comments[1..]);
      assert forall c :: c in comments ==> c == comments[0] || c in comments[1..];
      if comments[0].id < rest then rest else comments[0].id + 1
  }

  /** Replaces the row with the same primary key (an SQL UPDATE). */
  function ReplacePost(posts: seq<Post>, row: Post): (r: seq<Post>)
    ensures |r| == |posts|
    ensures forall i :: 0 <= i < |posts| ==> r[i] == if posts[i].id == row.id then row else posts[i]
  {
    Map(posts, (p: Post) => if p.id == row.id then row else p)
  }

  /** The persistent store. */
  class Store {
    var db: Db

    constructor (db0: Db)
      ensures db == db0
    {
      db := db0;
    }
  }

  /** `form.instance` of a `PostForm`: the post being created or edited. */
  class PostDraft {
    var id: Option<nat>
    var title: string
    var text: string
    var pubDate: Timestamp
    var author: Option<UserId>
    var location: Option<nat>
    var category: Option<nat>
    var image: string
    var isPublished: bool
    var createdAt: Option<Timestamp>

    /** `PostForm(data)`: a fresh `Post()` with the model defaults, then the form's fields. */
    constructor Blank(title: string, text: string, category: Option<nat>, location: Option<nat>, pubDate: Timestamp, image: string)
      ensures this.id.None? && this.author.None? && this.createdAt.None?
      ensures this.isPublished
      ensures this.title == title && this.text == text && this.category == category
      ensures this.location == location && this.pubDate == pubDate && this.image == image
    {
      this.id := None;
      this.title := title;
      this.text := text;
      this.pubDate := pubDate;
      this.author := None;
      this.location := location;
      this.category := category;
      this.image := image;
      this.isPublished := true;
      this.createdAt := None;
    }

    /** `PostForm(data, instance=post)`: the stored post with the form's fields written over it. */
    constructor Bound(p: Post, title: string, text: string, category: Option<nat>, location: Option<nat>, pubDate: Timestamp, image: string)
      ensures this.id == Some(p.id) && this.author == Some(p.author) && this.createdAt == Some(p.createdAt)
      ensures this.isPublished == p.isPublished
      ensures this.title == title && this.text == text && this.category == category
      ensures this.location == location && this.pubDate == pubDate && this.image == image
    {
      this.id := Some(p.id);
      this.title := title;
      this.text := text;
      this.pubDate := pubDate;
      this.author := Some(p.author);
      this.location := location;
      this.category := category;
      this.image := image;
      this.isPublished := p.isPublished;
      this.createdAt := Some(p.createdAt);
    }

    predicate Saved()
      reads this
    {
      id.Some? && author.Some? && createdAt.Some?
    }

    /** The row this instance stands for once saved. */
    function Row(): Post
      reads this
      requires Saved()
    {
      Post(id.value, title, text, pubDate, author.value, location, category, image, isPublished, createdAt.value)
    }

    /**
     * What the form's validation has already checked before `form_valid`
     * runs: `title`, `text` and `category` are required fields (none of them
     * is `blank=True`), the title fits its `max_length`, and the chosen
     * category and location are stored rows.
     */
    predicate Checked(db: Db)
      reads this
    {
      && 0 < |title| <= MaxTitleLength
      && |text| > 0
      && category.Some?
      && HasCategory(db, category.value)
      && (location.Some? ==> HasLocation(db, location.value))
    }

    /**
     * `instance.save()`: an UPDATE when a row with this primary key exists,
     * otherwise an INSERT under the instance's key, or a new one when it has
     * none; every INSERT stamps `created_at` (`auto_now_add`) with the current time.
     */
    method Save(store: Store, now: Timestamp)
      requires author.Some? && (id.Some? ==> createdAt.Some?)
      modifies this, store
      ensures Saved()
      ensures title == old(title) && text == old(text) && pubDate == old(pubDate) && author == old(author)
      ensures location == old(location) && category == old(category) && image == old(image) && isPublished == old(isPublished)
      ensures old(id).Some? && HasPost(old(store.db), old(id).value) ==>
                id == old(id) && createdAt == old(createdAt) &&
                store.db == old(store.db).(posts := ReplacePost(old(store.db).posts, Row()))
      ensures !(old(id).Some? && HasPost(old(store.db), old(id).value)) ==>
                (old(id).Some? ==> id == old(id)) &&
                !HasPost(old(store.db), id.value) &&
                createdAt == Some(now) &&
                store.db == old(store.db).(posts := old(store.db).posts + [Row()])
    {
      if id.Some? && HasPost(store.db, id.value) {
        store.db := store.db.(posts := ReplacePost(store.db.posts, Row()));
      } else {
        if id.None? {
          id := Some(NextPostId(store.db.posts));
        }
        createdAt := Some(now);
        store.db := store.db.(posts := store.db.posts + [Row()]);
      }
    }
  }

  /** Appending a post whose key is new and whose references resolve keeps the store valid. */
  lemma InsertPostKeepsValid(db: Db, p: Post)
    requires Valid(db)
    requires !HasPost(db, p.id) && HasUser(db, p.author) && |p.title| <= MaxTitleLength
    requires p.category.Some? ==> HasCategory(db, p.category.value)
    requires p.location.Some? ==> HasLocation(db, p.location.value)
    ensures Valid(db.(posts := db.posts + [p]))
  {
    var ps := db.posts + [p];
    assert forall q :: q in ps ==> q == p || q in db.posts;
    AppendNoDuplicates(db.posts, p);
    forall c | c in db.comments ensures exists q :: q in ps && q.id == c.post {
      var q :| q in db.posts && q.id == c.post;
      assert q in ps;
    }
    NewPostTableKeepsValid(db, ps);
  }

  /**
   * Replacing the post table keeps a valid store valid when the new table
   * has unique keys, bounded titles and resolving references, and still
   * holds every post a comment points at.
   */
  lemma NewPostTableKeepsValid(db: Db, ps: seq<Post>)
    requires Valid(db)
    requires forall q, q' :: q in ps && q' in ps && q.id == q'.id ==> q == q'
    requires NoDuplicates(ps)
    requires forall q :: q in ps ==> |q.title| <= MaxTitleLength && HasUser(db, q.author)
    requires forall q :: q in ps ==> (q.category.Some? ==> HasCategory(db, q.category.value))
    requires forall q :: q in ps ==> (q.location.Some? ==> HasLocation(db, q.location.value))
    requires forall c :: c in db.comments ==> exists q :: q in ps && q.id == c.post
    ensures Valid(db.(posts := ps))
  {
    var r := db.(posts := ps);
    assert KeysUnique(r);
    assert LengthsBounded(r);
    assert ReferencesResolve(r);
  }

  /** Which rows an UPDATE leaves: the new row, and the untouched rows under other keys. */
  lemma {:induction false} ReplacePostRows(posts: seq<Post>, p: Post)
    ensures forall q :: q in ReplacePost(posts, p) ==> q == p || (q in posts && q.id != p.id)
    ensures forall q :: q in posts ==> (if q.id == p.id then p else q) in ReplacePost(posts, p)
  {
    var r := ReplacePost(posts, p);
    forall q | q in r ensures q == p || (q in posts && q.id != p.id) {
      var i :| 0 <= i < |r| && r[i] == q;
    }
    forall q | q in posts ensures (if q.id == p.id then p else q) in r {
      var i :| 0 <= i < |posts| && posts[i] == q;
      assert r[i] == (if q.id == p.id then p else q);
    }
  }

  /** Rewriting a stored post under its own key, with resolving references, keeps the store valid. */
  lemma ReplacePostKeepsValid(db: Db, p: Post)
    requires Valid(db)
    requires HasUser(db, p.author) && |p.title| <= MaxTitleLength
    requires p.category.Some? ==> HasCategory(db, p.category.value)
    requires p.location.Some? ==> HasLocation(db, p.location.value)
    ensures Valid(db.(posts := ReplacePost(db.posts, p)))
  {
    var ps := ReplacePost(db.posts, p);
    ReplacePostRows(db.posts, p);
    forall i, j | 0 <= i < j < |ps| ensures ps[i] != ps[j] {
      assert db.posts[i] in db.posts && db.posts[j] in db.posts && db.posts[i] != db.posts[j];
    }
    forall c | c in db.comments ensures exists q :: q in ps && q.id == c.post {
      var q :| q in db.posts && q.id == c.post;
      assert (if q.id == p.id then p else q) in ps;
    }
    NewPostTableKeepsValid(db, ps);
  }

  /** Appending a comment under a new key, on a stored post by a stored user, keeps the store valid. */
  lemma InsertCommentKeepsValid(db: Db, c: Comment)
    requires Valid(db)
    requires forall d :: d in db.comments ==> d.id != c.id
    requires HasPost(db, c.post) && HasUser(db, c.author)
    ensures Valid(db.(comments := db.comments + [c]))
  {
    var r := db.(comments := db.comments + [c]);
    assert forall d :: d in r.comments ==> d == c || d in db.comments;
    AppendNoDuplicates(db.comments, c);
  }

  /**
   * `PostCreateView.form_valid`: the author becomes the requesting user,
   * then the post is saved and the user is sent to their profile.  The
   * anonymous branch reads a `post_id` URL argument the create route does
   * not have, so it raises; the login check in front of the view keeps it
   * from running.
   */
  method CreatePostFormValid(form: PostDraft, viewer: Viewer, store: Store, now: Timestamp) returns (resp: Response)
    requires form.id.None?
    requires Valid(store.db) && form.Checked(store.db)
    requires viewer.Authenticated? ==> HasUser(store.db, viewer.user.id)
    modifies form, store
    ensures Valid(store.db)
    ensures viewer.Anonymous? ==> resp == ServerError && unchanged(form) && unchanged(store)
    ensures viewer.Authenticated? ==>
              && form.Saved() && form.author == Some(viewer.user.id)
              && form.isPublished == old(form.isPublished) && form.createdAt == Some(now)
              && form.title == old(form.title) && form.text == old(form.text) && form.pubDate == old(form.pubDate)
              && form.category == old(form.category) && form.location == old(form.location) && form.image == old(form.image)
              && form.category.Some? && HasCategory(store.db, form.category.value)
              && !HasPost(old(store.db), form.id.value)
              && store.db == old(store.db).(posts := old(store.db).posts + [form.Row()])
              && resp == Redirect(ProfilePage(viewer.user.username))
  {
    if viewer.Anonymous? {
      return ServerError;
    }
    form.author := Some(viewer.user.id);
    form.Save(store, now);
    InsertPostKeepsValid(old(store.db), form.Row());
    resp := Redirect(ProfilePage(viewer.user.username));
  }

  /**
   * `PostUpdateView.form_valid`: the author is set to the requesting user
   * again, then the row is rewritten.  Assigning an anonymous user to the
   * foreign key raises.
   */
  method UpdatePostFormValid(form: PostDraft, viewer: Viewer, store: Store, now: Timestamp) returns (resp: Response)
    requires form.id.Some? && form.createdAt.Some? && HasPost(store.db, form.id.value)
    requires Valid(store.db) && form.Checked(store.db)
    requires viewer.Authenticated? ==> HasUser(store.db, viewer.user.id)
    modifies form, store
    ensures Valid(store.db)
    ensures viewer.Anonymous? ==> resp == ServerError && unchanged(form) && unchanged(store)
    ensures viewer.Authenticated? ==>
              && form.Saved() && form.author == Some(viewer.user.id)
              && form.id == old(form.id) && form.createdAt == old(form.createdAt)
              && form.title == old(form.title) && form.text == old(form.text) && form.pubDate == old(form.pubDate)
              && form.category == old(form.category) && form.location == old(form.location) && form.image == old(form.image)
              && form.isPublished == old(form.isPublished)
              && form.category.Some? && HasCategory(store.db, form.category.value)
              && store.db == old(store.db).(posts := ReplacePost(old(store.db).posts, form.Row()))
              && resp == Redirect(ProfilePage(viewer.user.username))
  {
    if viewer.Anonymous? {
      return ServerError;
    }
    form.author := Some(viewer.user.id);
    form.Save(store, now);
    ReplacePostKeepsValid(old(store.db), form.Row());
    resp := Redirect(ProfilePage(viewer.user.username));
  }

  /** `form.instance` of a `CommentsForm`. */
  class CommentDraft {
    var id: Option<nat>
    var text: string
    var post: Option<nat>
    var author: Option<UserId>
    var createdAt: Option<Timestamp>

    /** `CommentsForm(data)`: a fresh `Comment()` holding only the text. */
    constructor Blank(text: string)
      ensures this.id.None? && this.post.None? && this.author.None? && this.createdAt.None?
      ensures this.text == text
    {
      this.id := None;
      this.text := text;
      this.post := None;
      this.author := None;
      this.createdAt := None;
    }

    function Row(): Comment
      reads this
      requires id.Some? && post.Some? && author.Some? && createdAt.Some?
    {
      Comment(id.value, text, post.value, createdAt.value, author.value)
    }
  }

  /**
   * `CommentCreateView.form_valid`: the author becomes the requesting user;
   * then the post named in the URL is looked up (404 if missing, with the
   * author already assigned); the comment is inserted under a new key with
   * the current time, and the user is sent back to the post.  The post's
   * visibility is not checked.
   */
  method CreateCommentFormValid(form: CommentDraft, viewer: Viewer, postId: nat, store: Store, now: Timestamp) returns (resp: Response)
    requires form.id.None?
    requires Valid(store.db)
    requires viewer.Authenticated? ==> HasUser(store.db, viewer.user.id)
    modifies form, store
    ensures Valid(store.db)
    ensures viewer.Anonymous? ==> resp == ServerError && unchanged(form) && unchanged(store)
    ensures viewer.Authenticated? ==> form.author == Some(viewer.user.id) && form.text == old(form.text)
    ensures viewer.Authenticated? && !HasPost(store.db, postId) ==>
              && resp == NotFoundPage && unchanged(store)
              && form.id == old(form.id) && form.post == old(form.post) && form.createdAt == old(form.createdAt)
    ensures viewer.Authenticated? && HasPost(old(store.db), postId) ==>
              && form.id.Some? && form.post == Some(postId) && form.createdAt == Some(now)
              && !(exists c :: c in old(store.db).comments && c.id == form.id.value)
              && store.db == old(store.db).(comments := old(store.db).comments + [form.Row()])
              && resp == Redirect(PostDetailPage(postId))
  {
    if viewer.Anonymous? {
      return ServerError;
    }
    form.author := Some(viewer.user.id);
    var found := FindPost(store.db.posts, postId);
    if found.None? {
      return NotFoundPage;
    }
    form.post := Some(found.value.id);
    form.id := Some(NextCommentId(store.db.comments));
    form.createdAt := Some(now);
    InsertCommentKeepsValid(store.db, form.Row());
    store.db := store.db.(comments := store.db.comments + [form.Row()]);
    resp := Redirect(PostDetailPage(postId));
  }

  /** `CommentUpdateView`: `dispatch` records the URL arguments and the comment on the view object. */
  class CommentUpdateView {
    var postId: Option<nat>
    var commentId: Option<nat>
    var comment: Option<Comment>

    /** The class attributes all start as `None`. */
    constructor ()
      ensures postId.None? && commentId.None? && comment.None?
    {
      postId := None;
      commentId := None;
      comment := None;
    }

    /**
     * Stores both URL arguments, then looks the comment up: a missing
     * comment is a 404 before the login check runs; otherwise the usual
     * login, lookup and author chain decides.
     */
    method Dispatch(db: Db, viewer: Viewer, urlPostId: nat, urlCommentId: nat) returns (resp: Response)
      modifies this
      ensures postId == Some(urlPostId) && commentId == Some(urlCommentId)
      ensures FindComment(db.comments, urlCommentId).None? ==> resp == NotFoundPage && comment == old(comment)
      ensures FindComment(db.comments, urlCommentId).Some? ==>
                comment == FindComment(db.comments, urlCommentId) &&
                resp == GuardedDispatch(viewer, Some(comment.value.author), urlPostId)
    {
      postId := Some(urlPostId);
      commentId := Some(urlCommentId);
      var found := FindComment(db.comments, urlCommentId);
      if found.None? {
        return NotFoundPage;
      }
      comment := found;
      resp := GuardedDispatch(viewer, Some(found.value.author), urlPostId);
    }
  }
}
