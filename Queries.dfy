/**
 * The post selection rules of blogicum/blog/utils.py: `get_posts` annotates
 * every post with its comment count, orders newest first and then applies
 * at most one of three filters, chosen by if/elif precedence: "published",
 * "category", "author".  The clock is a parameter (`now`) instead of a call
 * to `timezone.now()`.
 */
module Queries {
  import opened Seqs
  import opened Models

  /** A post row together with its `comment_count` annotation. */
  datatype AnnotatedPost = AnnotatedPost(post: Post, commentCount: nat)

  /** Indices of the comment rows that reference post `pid`. */
  ghost function CommentRows(comments: seq<Comment>, pid: nat): set<nat>
  {
    set i: nat | i < |comments| && comments[i].post == pid
  }

  /** `Count('comments')` for one post. */
  function CommentCount(comments: seq<Comment>, pid: nat): (n: nat)
    ensures n == |CommentRows(comments, pid)|
    ensures n <= |comments|
  {
    if comments == [] then 0
    else
      var k := |comments| - 1;
      var before := comments[..k];
      var rest := CommentCount(before, pid);
      assert CommentRows(comments, pid) ==
        CommentRows(before, pid) + (if comments[k].post == pid then {k} else {});
      assert k !in CommentRows(before, pid);
      rest + (if comments[k].post == pid then 1 else 0)
  }

  function Annotated(db: Db, p: Post): AnnotatedPost
  {
    AnnotatedPost(p, CommentCount(db.comments, p.id))
  }

  /** `.annotate(comment_count=Count('comments'))` over every post row. */
  function Annotate(db: Db): (r: seq<AnnotatedPost>)
    ensures |r| == |db.posts|
    ensures forall i :: 0 <= i < |r| ==> r[i] == Annotated(db, db.posts[i])
  {
    Map(db.posts, (p: Post) => Annotated(db, p))
  }

  /** Sort key of `order_by('-pub_date')`. */
  function PubDateDesc(a: AnnotatedPost): int { -a.post.pubDate }

  /** The base queryset of `get_posts`: every post, annotated, newest first. */
  function Ordered(db: Db): (r: seq<AnnotatedPost>)
    ensures multiset(r) == multiset(Annotate(db))
    ensures SortedBy(r, PubDateDesc)
  {
    SortBy(Annotate(db), PubDateDesc)
  }

  /** The join condition `category__is_published=True`: a null category never qualifies. */
  predicate CategoryPublished(db: Db, p: Post)
  {
    match p.category
    case None => false
    case Some(id) =>
      match FindCategory(db.categories, id)
      case None => false
      case Some(c) => c.isPublished
  }

  /** The "published" filter: live, published, in a published category. */
  predicate PubliclyListed(db: Db, now: Timestamp, p: Post)
  {
    p.pubDate <= now && p.isPublished && CategoryPublished(db, p)
  }

  /** The "category" filter: live and published, in category `id` (the category flag is not rechecked). */
  predicate ListedInCategory(now: Timestamp, id: nat, p: Post)
  {
    p.category == Some(id) && p.pubDate <= now && p.isPublished
  }

  /**
   * `get_posts(published, category, author)`.  `published` is tested with
   * `is not None`, so any value given for it, `False` included, selects the
   * "published" filter.
   */
  function GetPosts(db: Db, now: Timestamp, published: Option<bool>, category: Option<nat>, author: Option<UserId>): (r: seq<AnnotatedPost>)
    ensures IsSubseq(r, Ordered(db))
  {
    var queryset := Ordered(db);
    if published.Some? then
      Filter(queryset, (a: AnnotatedPost) => PubliclyListed(db, now, a.post))
    else if category.Some? then
      Filter(queryset, (a: AnnotatedPost) => ListedInCategory(now, category.value, a.post))
    else if author.Some? then
      Filter(queryset, (a: AnnotatedPost) => a.post.author == author.value)
    else
      SubseqRefl(queryset);
      queryset
  }

  // --------------------------------------------------------------- properties

  /** `a` is a row of the annotated queryset: a stored post with its true comment count. */
  ghost predicate IsRow(db: Db, a: AnnotatedPost)
  {
    a.post in db.posts && a.commentCount == |CommentRows(db.comments, a.post.id)|
  }

  lemma OrderedRows(db: Db)
    ensures forall a :: a in Ordered(db) <==> IsRow(db, a)
  {
    var o := Ordered(db);
    var ann := Annotate(db);
    forall a ensures a in o <==> IsRow(db, a) {
      calc {
        a in o;
      ==  { assert a in o <==> a in multiset(o); }
        a in multiset(ann);
      ==
        a in ann;
      }
      if a in ann {
        var i :| 0 <= i < |ann| && ann[i] == a;
        assert a.post == db.posts[i];
      }
      if IsRow(db, a) {
        var i :| 0 <= i < |db.posts| && db.posts[i] == a.post;
        assert ann[i] == a;
      }
    }
  }

  /** Every listing is ordered by non-increasing publication date. */
  lemma GetPostsNewestFirst(db: Db, now: Timestamp, published: Option<bool>, category: Option<nat>, author: Option<UserId>)
    ensures var r := GetPosts(db, now, published, category, author);
            forall i, j :: 0 <= i < j < |r| ==> r[i].post.pubDate >= r[j].post.pubDate
  {
    var r := GetPosts(db, now, published, category, author);
    SubseqKeepsSorted(r, Ordered(db), PubDateDesc);
    assert forall i, j :: 0 <= i < j < |r| ==> PubDateDesc(r[i]) <= PubDateDesc(r[j]);
  }

  /** Every listed post is a stored post whose `comment_count` is the number of comments referencing it. */
  lemma GetPostsCounts(db: Db, now: Timestamp, published: Option<bool>, category: Option<nat>, author: Option<UserId>)
    ensures forall a :: a in GetPosts(db, now, published, category, author) ==>
              a.post in db.posts && a.commentCount == |CommentRows(db.comments, a.post.id)|
  {
    var r := GetPosts(db, now, published, category, author);
    SubseqMembers(r, Ordered(db));
    OrderedRows(db);
  }

  /** With `published` given, exactly the publicly visible posts are listed, whatever the other arguments. */
  lemma PublishedFilter(db: Db, now: Timestamp, published: Option<bool>, category: Option<nat>, author: Option<UserId>)
    requires published.Some?
    ensures forall a :: a in GetPosts(db, now, published, category, author) <==>
              IsRow(db, a) && a.post.pubDate <= now && a.post.isPublished && CategoryPublished(db, a.post)
  {
    OrderedRows(db);
  }

  /** With `category` but not `published`: that category's live, published posts; the category's own flag is not consulted. */
  lemma CategoryFilter(db: Db, now: Timestamp, category: Option<nat>, author: Option<UserId>)
    requires category.Some?
    ensures forall a :: a in GetPosts(db, now, None, category, author) <==>
              IsRow(db, a) && a.post.category == category && a.post.pubDate <= now && a.post.isPublished
  {
    OrderedRows(db);
  }

  /** With only `author`: every post of that author, drafts and scheduled posts included. */
  lemma AuthorFilter(db: Db, now: Timestamp, author: UserId)
    ensures forall a :: a in GetPosts(db, now, None, None, Some(author)) <==>
              IsRow(db, a) && a.post.author == author
  {
    OrderedRows(db);
  }

  /** With no argument: every post, and as many rows as there are stored posts. */
  lemma NoFilter(db: Db, now: Timestamp)
    ensures forall a :: a in GetPosts(db, now, None, None, None) <==> IsRow(db, a)
    ensures |GetPosts(db, now, None, None, None)| == |db.posts|
  {
    OrderedRows(db);
    var r := GetPosts(db, now, None, None, None);
    assert |r| == |multiset(r)| == |multiset(Annotate(db))|;
  }

  /** With no post stored twice, no listing shows a row twice. */
  lemma GetPostsNoDuplicates(db: Db, now: Timestamp, published: Option<bool>, category: Option<nat>, author: Option<UserId>)
    ensures NoDuplicates(db.posts) ==> NoDuplicates(GetPosts(db, now, published, category, author))
  {
    if NoDuplicates(db.posts) {
      var a := Annotate(db);
      forall i, j | 0 <= i < j < |a| ensures a[i] != a[j] {
        assert a[i].post == db.posts[i] && a[j].post == db.posts[j];
      }
      PermutationNoDuplicates(Ordered(db), a);
      SubseqNoDuplicates(GetPosts(db, now, published, category, author), Ordered(db));
    }
  }

  /** Filtering never touches a field: each listed post is a stored row, unchanged. */
  lemma FilterOnlyRemoves(db: Db, now: Timestamp, published: Option<bool>, category: Option<nat>, author: Option<UserId>)
    ensures |GetPosts(db, now, published, category, author)| <= |db.posts|
    ensures forall a :: a in GetPosts(db, now, published, category, author) ==> a.post in db.posts
  {
    GetPostsCounts(db, now, published, category, author);
    var r := GetPosts(db, now, published, category, author);
    var o := Ordered(db);
    assert |o| == |multiset(o)| == |multiset(Annotate(db))|;
    SubseqLength(r, o);
  }

  lemma {:induction false} SubseqLength<T>(r: seq<T>, s: seq<T>)
    requires IsSubseq(r, s)
    ensures |r| <= |s|
    decreases |s|
  {
    if r != [] {
      if r[0] == s[0] && IsSubseq(r[1..], s[1..]) {
        SubseqLength(r[1..], s[1..]);
      } else {
        SubseqLength(r, s[1..]);
      }
    }
  }
}
