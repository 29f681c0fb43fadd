/**
 * The blog's data model (blogicum/blog/models.py): users, categories,
 * locations, posts and comments as rows of an in-memory database, the
 * field-length and uniqueness constraints, the creation defaults, the
 * cascade rules of the foreign keys, the default orderings and the
 * truncated string form.
 */
module Models {
  import opened Seqs

  type UserId = nat
  /** Timestamps are whole seconds; only their order matters. */
  type Timestamp = int

  /** `max_length` of every title and name field. */
  const MaxTitleLength: nat := 256
  /** `SlugField` without an explicit `max_length` defaults to 50. */
  const MaxSlugLength: nat := 50
  /** Length of the string form of a category, location, post or comment. */
  const TruncationLength: nat := 30

  datatype User = User(id: UserId, username: string)

  datatype Category = Category(
    id: nat, title: string, description: string, slug: string,
    isPublished: bool, createdAt: Timestamp)

  datatype Location = Location(id: nat, name: string, isPublished: bool, createdAt: Timestamp)

  /** `category` and `location` are nullable foreign keys (`SET_NULL`); `author` cascades. */
  datatype Post = Post(
    id: nat, title: string, text: string, pubDate: Timestamp, author: UserId,
    location: Option<nat>, category: Option<nat>, image: string,
    isPublished: bool, createdAt: Timestamp)

  /** A comment has no publication flag: it does not derive from the published base model. */
  datatype Comment = Comment(id: nat, text: string, post: nat, createdAt: Timestamp, author: UserId)

  datatype Db = Db(
    users: seq<User>, categories: seq<Category>, locations: seq<Location>,
    posts: seq<Post>, comments: seq<Comment>)

  // ---------------------------------------------------------------- lookups

  predicate HasUser(db: Db, id: UserId) { exists u :: u in db.users && u.id == id }
  predicate HasCategory(db: Db, id: nat) { exists c :: c in db.categories && c.id == id }
  predicate HasLocation(db: Db, id: nat) { exists l :: l in db.locations && l.id == id }
  predicate HasPost(db: Db, id: nat) { exists p :: p in db.posts && p.id == id }

  /** The first category row with primary key `id`. */
  function FindCategory(cats: seq<Category>, id: nat): (r: Option<Category>)
    ensures r.Some? ==> r.value in cats && r.value.id == id
    ensures r.None? ==> forall c :: c in cats ==> c.id != id
  {
    First(cats, (x: Category) => x.id == id)
  }

  /** The first post row with primary key `id`. */
  function FindPost(posts: seq<Post>, id: nat): (r: Option<Post>)
    ensures r.Some? ==> r.value in posts && r.value.id == id
    ensures r.None? ==> forall p :: p in posts ==> p.id != id
  {
    First(posts, (x: Post) => x.id == id)
  }

  /** The first comment row with primary key `id`. */
  function FindComment(comments: seq<Comment>, id: nat): (r: Option<Comment>)
    ensures r.Some? ==> r.value in comments && r.value.id == id
    ensures r.None? ==> forall c :: c in comments ==> c.id != id
  {
    First(comments, (x: Comment) => x.id == id)
  }

  /** The first user row with the given (unique) username. */
  function FindUserByName(users: seq<User>, username: string): (r: Option<User>)
    ensures r.Some? ==> r.value in users && r.value.username == username
    ensures r.None? ==> forall u :: u in users ==> u.username != username
  {
    First(users, (x: User) => x.username == username)
  }

  // ------------------------------------------------------- well-formedness

  /**
   * Primary keys identify rows, and usernames and category slugs are unique;
   * a row is stored once, so the post and comment tables hold no duplicates.
   */
  ghost predicate KeysUnique(db: Db)
  {
    && (forall u, v :: u in db.users && v in db.users && u.id == v.id ==> u == v)
    && (forall u, v :: u in db.users && v in db.users && u.username == v.username ==> u == v)
    && (forall c, d :: c in db.categories && d in db.categories && c.id == d.id ==> c == d)
    && (forall c, d :: c in db.categories && d in db.categories && c.slug == d.slug ==> c == d)
    && (forall l, m :: l in db.locations && m in db.locations && l.id == m.id ==> l == m)
    && (forall p, q :: p in db.posts && q in db.posts && p.id == q.id ==> p == q)
    && (forall c, d :: c in db.comments && d in db.comments && c.id == d.id ==> c == d)
    && NoDuplicates(db.posts)
    && NoDuplicates(db.comments)
  }

  /** The `max_length` limits of the character fields. */
  ghost predicate LengthsBounded(db: Db)
  {
    && (forall p :: p in db.posts ==> |p.title| <= MaxTitleLength)
    && (forall c :: c in db.categories ==> |c.title| <= MaxTitleLength && |c.slug| <= MaxSlugLength)
    && (forall l :: l in db.locations ==> |l.name| <= MaxTitleLength)
  }

  /** Every foreign key points at an existing row (nullable ones may be null). */
  ghost predicate ReferencesResolve(db: Db)
  {
    && (forall p :: p in db.posts ==>
          && HasUser(db, p.author)
          && (p.category.Some? ==> HasCategory(db, p.category.value))
          && (p.location.Some? ==> HasLocation(db, p.location.value)))
    && (forall c :: c in db.comments ==> HasPost(db, c.post) && HasUser(db, c.author))
  }

  ghost predicate Valid(db: Db)
  {
    KeysUnique(db) && LengthsBounded(db) && ReferencesResolve(db)
  }

  // ------------------------------------------------------ creation defaults

  /**
   * Inserting a category through the ORM: `is_published` takes its default
   * (true) and `created_at` the current time; the unique slug constraint
   * rejects a slug already in use.
   */
  function CreateCategory(db: Db, id: nat, title: string, description: string, slug: string, now: Timestamp): (r: Option<Db>)
    requires Valid(db)
    requires |title| <= MaxTitleLength && |slug| <= MaxSlugLength
    requires forall c :: c in db.categories ==> c.id != id
    ensures r.None? <==> exists c :: c in db.categories && c.slug == slug
    ensures r.Some? ==> Valid(r.value)
    ensures r.Some? ==> forall c :: c in r.value.categories <==> c in db.categories || c == Category(id, title, description, slug, true, now)
    ensures r.Some? ==> r.value.users == db.users && r.value.locations == db.locations
    ensures r.Some? ==> r.value.posts == db.posts && r.value.comments == db.comments
  {
    if exists c :: c in db.categories && c.slug == slug then None
    else
      var c := Category(id, title, description, slug, true, now);
      AddCategoryKeepsValid(db, c);
      assert c in db.categories + [c];
      Some(db.(categories := db.categories + [c]))
  }

  /** Appending a category with a new key and a new slug keeps the store valid. */
  lemma AddCategoryKeepsValid(db: Db, c: Category)
    requires Valid(db)
    requires |c.title| <= MaxTitleLength && |c.slug| <= MaxSlugLength
    requires forall d :: d in db.categories ==> d.id != c.id && d.slug != c.slug
    ensures Valid(db.(categories := db.categories + [c]))
  {
    var r := db.(categories := db.categories + [c]);
    assert forall d :: d in r.categories ==> d == c || d in db.categories;
    assert KeysUnique(r);
    assert LengthsBounded(r);
    forall p | p in r.posts && p.category.Some? ensures HasCategory(r, p.category.value) {
      var d :| d in db.categories && d.id == p.category.value;
      assert d in r.categories;
    }
  }

  /** Inserting a location: published by default, stamped with the current time. */
  function CreateLocation(db: Db, id: nat, name: string, now: Timestamp): (r: Db)
    requires Valid(db)
    requires |name| <= MaxTitleLength
    requires forall l :: l in db.locations ==> l.id != id
    ensures Valid(r)
    ensures forall l :: l in r.locations <==> l in db.locations || l == Location(id, name, true, now)
    ensures r.users == db.users && r.posts == db.posts && r.categories == db.categories && r.comments == db.comments
  {
    var l := Location(id, name, true, now);
    AddLocationKeepsValid(db, l);
    db.(locations := db.locations + [l])
  }

  /** Appending a location with a new key keeps the store valid. */
  lemma AddLocationKeepsValid(db: Db, l: Location)
    requires Valid(db)
    requires |l.name| <= MaxTitleLength
    requires forall m :: m in db.locations ==> m.id != l.id
    ensures Valid(db.(locations := db.locations + [l]))
  {
    var r := db.(locations := db.locations + [l]);
    assert forall m :: m in r.locations ==> m == l || m in db.locations;
    assert KeysUnique(r);
    assert LengthsBounded(r);
    forall p | p in r.posts && p.location.Some? ensures HasLocation(r, p.location.value) {
      var m :| m in db.locations && m.id == p.location.value;
      assert m in r.locations;
    }
  }

  // --------------------------------------------------------------- cascades

  /** Deleting a post deletes its comments (`on_delete=CASCADE` on `Comment.post`). */
  function DeletePost(db: Db, id: nat): (r: Db)
    ensures forall p :: p in r.posts <==> p in db.posts && p.id != id
    ensures forall c :: c in r.comments <==> c in db.comments && c.post != id
    ensures IsSubseq(r.posts, db.posts) && IsSubseq(r.comments, db.comments)
    ensures r.users == db.users && r.categories == db.categories && r.locations == db.locations
    ensures Valid(db) ==> Valid(r)
  {
    var r := db.(posts := Filter(db.posts, (p: Post) => p.id != id),
                 comments := Filter(db.comments, (c: Comment) => c.post != id));
    DeletePostKeepsValid(db, id, r);
    r
  }

  /** Any store holding exactly the surviving posts and comments is valid when the original was. */
  lemma DeletePostKeepsValid(db: Db, id: nat, r: Db)
    requires forall p :: p in r.posts <==> p in db.posts && p.id != id
    requires forall c :: c in r.comments <==> c in db.comments && c.post != id
    requires IsSubseq(r.posts, db.posts) && IsSubseq(r.comments, db.comments)
    requires r.users == db.users && r.categories == db.categories && r.locations == db.locations
    ensures Valid(db) ==> Valid(r)
  {
    if Valid(db) {
      SubseqNoDuplicates(r.posts, db.posts);
      SubseqNoDuplicates(r.comments, db.comments);
      assert KeysUnique(r);
      assert LengthsBounded(r);
      forall c | c in r.comments ensures HasPost(r, c.post) {
        var p :| p in db.posts && p.id == c.post;
        assert p in r.posts;
      }
    }
  }

  /** True when post `pid` exists and was written by `uid`. */
  predicate WrittenBy(posts: seq<Post>, pid: nat, uid: UserId)
  {
    exists p :: p in posts && p.id == pid && p.author == uid
  }

  /**
   * Deleting a user deletes their posts and their comments
   * (`on_delete=CASCADE` on both `author` keys), and, through the post
   * cascade, every comment left on one of their posts by anyone.
   */
  function DeleteUser(db: Db, uid: UserId): (r: Db)
    ensures forall u :: u in r.users <==> u in db.users && u.id != uid
    ensures forall p :: p in r.posts <==> p in db.posts && p.author != uid
    ensures forall c :: c in r.comments <==> c in db.comments && c.author != uid && !WrittenBy(db.posts, c.post, uid)
    ensures r.categories == db.categories && r.locations == db.locations
    ensures Valid(db) ==> Valid(r)
  {
    var r := db.(users := Filter(db.users, (u: User) => u.id != uid),
                 posts := Filter(db.posts, (p: Post) => p.author != uid),
                 comments := Filter(db.comments, (c: Comment) => c.author != uid && !WrittenBy(db.posts, c.post, uid)));
    assert Valid(db) ==> NoDuplicates(r.posts) && NoDuplicates(r.comments) by {
      if Valid(db) {
        SubseqNoDuplicates(r.posts, db.posts);
        SubseqNoDuplicates(r.comments, db.comments);
      }
    }
    assert Valid(db) ==> ReferencesResolve(r) by {
      if Valid(db) {
        forall p | p in r.posts ensures HasUser(r, p.author) {
          var u :| u in db.users && u.id == p.author;
          assert u in r.users;
        }
        forall c | c in r.comments ensures HasPost(r, c.post) && HasUser(r, c.author) {
          var p :| p in db.posts && p.id == c.post;
          assert p in r.posts;
          var u :| u in db.users && u.id == c.author;
          assert u in r.users;
        }
      }
    }
    r
  }

  /** `p` with its `category` nulled when it pointed at `id`. */
  function DetachCategory(p: Post, id: nat): Post
  {
    if p.category == Some(id) then p.(category := None) else p
  }

  /** Deleting a category keeps its posts and nulls their `category` (`on_delete=SET_NULL`). */
  function DeleteCategory(db: Db, id: nat): (r: Db)
    ensures forall c :: c in r.categories <==> c in db.categories && c.id != id
    ensures |r.posts| == |db.posts|
    ensures forall i :: 0 <= i < |db.posts| ==>
              r.posts[i] == if db.posts[i].category == Some(id) then db.posts[i].(category := None) else db.posts[i]
    ensures r.users == db.users && r.locations == db.locations && r.comments == db.comments
  {
    db.(categories := Filter(db.categories, (c: Category) => c.id != id),
       posts := Map(db.posts, (p: Post) => DetachCategory(p, id)))
  }

  /** Every post after the deletion is the detached copy of a post before it. */
  lemma DeleteCategoryOrigin(db: Db, id: nat, p: Post) returns (q: Post)
    requires p in DeleteCategory(db, id).posts
    ensures q in db.posts && p == DetachCategory(q, id)
  {
    var r := DeleteCategory(db, id);
    var i :| 0 <= i < |r.posts| && r.posts[i] == p;
    q := db.posts[i];
  }

  lemma DeleteCategoryKeepsValid(db: Db, id: nat)
    requires Valid(db)
    ensures Valid(DeleteCategory(db, id))
  {
    DeleteCategoryKeepsRefs(db, id);
    DeleteCategoryKeepsKeys(db, id);
    DeleteCategoryKeepsBounds(db, id);
  }

  lemma DeleteCategoryKeepsKeys(db: Db, id: nat)
    requires KeysUnique(db)
    ensures KeysUnique(DeleteCategory(db, id))
  {
    var r := DeleteCategory(db, id);
    forall p, q | p in r.posts && q in r.posts && p.id == q.id ensures p == q {
      var p0 := DeleteCategoryOrigin(db, id, p);
      var q0 := DeleteCategoryOrigin(db, id, q);
    }
    forall i, j | 0 <= i < j < |r.posts| ensures r.posts[i] != r.posts[j] {
      assert db.posts[i] in db.posts && db.posts[j] in db.posts && db.posts[i] != db.posts[j];
    }
  }

  lemma DeleteCategoryKeepsBounds(db: Db, id: nat)
    requires LengthsBounded(db)
    ensures LengthsBounded(DeleteCategory(db, id))
  {
    var r := DeleteCategory(db, id);
    forall p | p in r.posts ensures |p.title| <= MaxTitleLength {
      var q := DeleteCategoryOrigin(db, id, p);
    }
  }

  lemma DeleteCategoryKeepsRefs(db: Db, id: nat)
    requires Valid(db)
    ensures ReferencesResolve(DeleteCategory(db, id))
  {
    var r := DeleteCategory(db, id);
    DeleteCategoryCommentRefs(db, id);
    forall p | p in r.posts
      ensures HasUser(r, p.author)
      ensures p.category.Some? ==> HasCategory(r, p.category.value)
      ensures p.location.Some? ==> HasLocation(r, p.location.value)
    {
      DeleteCategoryPostRefs(db, id, p);
    }
  }

  /** Comments keep their post and author: the deletion keeps every post row and every user. */
  lemma DeleteCategoryCommentRefs(db: Db, id: nat)
    requires ReferencesResolve(db)
    ensures forall c :: c in DeleteCategory(db, id).comments ==>
              HasPost(DeleteCategory(db, id), c.post) && HasUser(DeleteCategory(db, id), c.author)
  {
    var r := DeleteCategory(db, id);
    forall c | c in r.comments ensures HasPost(r, c.post) && HasUser(r, c.author) {
      var q :| q in db.posts && q.id == c.post;
      var i :| 0 <= i < |db.posts| && db.posts[i] == q;
      assert r.posts[i] in r.posts;
    }
  }

  lemma DeleteCategoryPostRefs(db: Db, id: nat, p: Post)
    requires Valid(db)
    requires p in DeleteCategory(db, id).posts
    ensures HasUser(DeleteCategory(db, id), p.author)
    ensures p.category.Some? ==> HasCategory(DeleteCategory(db, id), p.category.value)
    ensures p.location.Some? ==> HasLocation(DeleteCategory(db, id), p.location.value)
  {
    var r := DeleteCategory(db, id);
    var q := DeleteCategoryOrigin(db, id, p);
    if p.category.Some? {
      var c :| c in db.categories && c.id == q.category.value;
      assert c in r.categories;
    }
  }

  /** `p` with its `location` nulled when it pointed at `id`. */
  function DetachLocation(p: Post, id: nat): Post
  {
    if p.location == Some(id) then p.(location := None) else p
  }

  /** Deleting a location keeps its posts and nulls their `location` (`on_delete=SET_NULL`). */
  function DeleteLocation(db: Db, id: nat): (r: Db)
    ensures forall l :: l in r.locations <==> l in db.locations && l.id != id
    ensures |r.posts| == |db.posts|
    ensures forall i :: 0 <= i < |db.posts| ==>
              r.posts[i] == if db.posts[i].location == Some(id) then db.posts[i].(location := None) else db.posts[i]
    ensures r.users == db.users && r.categories == db.categories && r.comments == db.comments
  {
    db.(locations := Filter(db.locations, (l: Location) => l.id != id),
       posts := Map(db.posts, (p: Post) => DetachLocation(p, id)))
  }

  /** Every post after the deletion is the detached copy of a post before it. */
  lemma DeleteLocationOrigin(db: Db, id: nat, p: Post) returns (q: Post)
    requires p in DeleteLocation(db, id).posts
    ensures q in db.posts && p == DetachLocation(q, id)
  {
    var r := DeleteLocation(db, id);
    var i :| 0 <= i < |r.posts| && r.posts[i] == p;
    q := db.posts[i];
  }

  lemma DeleteLocationKeepsValid(db: Db, id: nat)
    requires Valid(db)
    ensures Valid(DeleteLocation(db, id))
  {
    DeleteLocationKeepsRefs(db, id);
    DeleteLocationKeepsKeys(db, id);
    DeleteLocationKeepsBounds(db, id);
  }

  lemma DeleteLocationKeepsKeys(db: Db, id: nat)
    requires KeysUnique(db)
    ensures KeysUnique(DeleteLocation(db, id))
  {
    var r := DeleteLocation(db, id);
    forall p, q | p in r.posts && q in r.posts && p.id == q.id ensures p == q {
      var p0 := DeleteLocationOrigin(db, id, p);
      var q0 := DeleteLocationOrigin(db, id, q);
    }
    forall i, j | 0 <= i < j < |r.posts| ensures r.posts[i] != r.posts[j] {
      assert db.posts[i] in db.posts && db.posts[j] in db.posts && db.posts[i] != db.posts[j];
    }
  }

  lemma DeleteLocationKeepsBounds(db: Db, id: nat)
    requires LengthsBounded(db)
    ensures LengthsBounded(DeleteLocation(db, id))
  {
    var r := DeleteLocation(db, id);
    forall p | p in r.posts ensures |p.title| <= MaxTitleLength {
      var q := DeleteLocationOrigin(db, id, p);
    }
  }

  lemma DeleteLocationKeepsRefs(db: Db, id: nat)
    requires Valid(db)
    ensures ReferencesResolve(DeleteLocation(db, id))
  {
    var r := DeleteLocation(db, id);
    DeleteLocationCommentRefs(db, id);
    forall p | p in r.posts
      ensures HasUser(r, p.author)
      ensures p.location.Some? ==> HasLocation(r, p.location.value)
      ensures p.category.Some? ==> HasCategory(r, p.category.value)
    {
      DeleteLocationPostRefs(db, id, p);
    }
  }

  /** Comments keep their post and author: the deletion keeps every post row and every user. */
  lemma DeleteLocationCommentRefs(db: Db, id: nat)
    requires ReferencesResolve(db)
    ensures forall c :: c in DeleteLocation(db, id).comments ==>
              HasPost(DeleteLocation(db, id), c.post) && HasUser(DeleteLocation(db, id), c.author)
  {
    var r := DeleteLocation(db, id);
    forall c | c in r.comments ensures HasPost(r, c.post) && HasUser(r, c.author) {
      var q :| q in db.posts && q.id == c.post;
      var i :| 0 <= i < |db.posts| && db.posts[i] == q;
      assert r.posts[i] in r.posts;
    }
  }

  lemma DeleteLocationPostRefs(db: Db, id: nat, p: Post)
    requires Valid(db)
    requires p in DeleteLocation(db, id).posts
    ensures HasUser(DeleteLocation(db, id), p.author)
    ensures p.location.Some? ==> HasLocation(DeleteLocation(db, id), p.location.value)
    ensures p.category.Some? ==> HasCategory(DeleteLocation(db, id), p.category.value)
  {
    var r := DeleteLocation(db, id);
    var q := DeleteLocationOrigin(db, id, p);
    if p.location.Some? {
      var l :| l in db.locations && l.id == q.location.value;
      assert l in r.locations;
    }
  }

  // --------------------------------------------------------------- ordering

  /** Sort key of the default post ordering `-pub_date`: newest first. */
  function NewestFirst(p: Post): int { -p.pubDate }

  /** Sort key of the default comment ordering `created_at`: oldest first. */
  function OldestFirst(c: Comment): int { c.createdAt }

  /** `Post.objects.all()`: every post, in the model's default order. */
  function AllPosts(db: Db): (r: seq<Post>)
    ensures multiset(r) == multiset(db.posts)
    ensures forall i, j :: 0 <= i < j < |r| ==> r[i].pubDate >= r[j].pubDate
  {
    var r := SortBy(db.posts, NewestFirst);
    assert forall i, j :: 0 <= i < j < |r| ==> NewestFirst(r[i]) <= NewestFirst(r[j]);
    r
  }

  /** `post.comments.all()`: the comments of one post, oldest first. */
  function CommentsOf(db: Db, pid: nat): (r: seq<Comment>)
    ensures forall c :: c in r <==> c in db.comments && c.post == pid
    ensures forall c: Comment :: c.post == pid ==> multiset(r)[c] == multiset(db.comments)[c]
    ensures forall i, j :: 0 <= i < j < |r| ==> r[i].createdAt <= r[j].createdAt
  {
    var f := (c: Comment) => c.post == pid;
    var own := Filter(db.comments, f);
    var r := SortBy(own, OldestFirst);
    SameMultisetSameMembers(r, own);
    forall c: Comment | c.post == pid ensures multiset(r)[c] == multiset(db.comments)[c] {
      FilterMultiset(db.comments, f, c);
    }
    assert forall i, j :: 0 <= i < j < |r| ==> OldestFirst(r[i]) <= OldestFirst(r[j]);
    r
  }

  // ------------------------------------------------------------ string form

  /**
   * `truncatechars(s, n)`: strings longer than `n` are cut to `n - 1`
   * characters followed by an ellipsis, so the result is exactly `n` long.
   */
  function TruncateChars(s: string, n: nat): (r: string)
    requires n >= 1
    ensures |r| <= n
    ensures |s| <= n ==> r == s
    ensures |s| > n ==> |r| == n && r[..n - 1] == s[..n - 1] && r[n - 1] == '…'
  {
    if |s| <= n then s else s[..n - 1] + "…"
  }

  function PostStr(p: Post): (r: string)
    ensures |r| <= TruncationLength && (|p.title| <= TruncationLength ==> r == p.title)
  {
    TruncateChars(p.title, TruncationLength)
  }

  function CategoryStr(c: Category): (r: string)
    ensures |r| <= TruncationLength && (|c.title| <= TruncationLength ==> r == c.title)
  {
    TruncateChars(c.title, TruncationLength)
  }

  function LocationStr(l: Location): (r: string)
    ensures |r| <= TruncationLength && (|l.name| <= TruncationLength ==> r == l.name)
  {
    TruncateChars(l.name, TruncationLength)
  }

  function CommentStr(c: Comment): (r: string)
    ensures |r| <= TruncationLength && (|c.text| <= TruncationLength ==> r == c.text)
  {
    TruncateChars(c.text, TruncationLength)
  }
}
