/**
 * The ORDER BY of each traversal mode, as a strict order on the posts of one
 * thread. Tree modes compare the materialised paths.
 */
module Ordering {
  import opened Threads
  import opened Lex
  import opened Queries
  import opened PathIndex
  import opened Rows

  /** A mode, a direction and the thread's paths: everything an ORDER BY looks at. */
  datatype Order = Order(mode: Mode, desc: bool, paths: Paths)

  function PathOfId(paths: Paths, id: int): seq<int>
  {
    if id in paths then paths[id] else []
  }

  /** The root id of a post's path (`path[1]` in the database's one-based arrays). */
  function RootOfId(paths: Paths, id: int): int
  {
    var path := PathOfId(paths, id);
    if path == [] then 0 else path[0]
  }

  function PathOf(o: Order, p: Post): seq<int>
  {
    PathOfId(o.paths, p.id)
  }

  function Root(o: Order, p: Post): int
  {
    RootOfId(o.paths, p.id)
  }

  /**
   * `a` is listed before `b`.
   * flat: by id, descending when `desc` (posts of one batch share a creation
   * time and ids follow creation, so `created DESC, id DESC` is id order);
   * tree: by path, the whole order reversed when `desc` (the leading
   * `path[0]` key is NULL for every row);
   * parent_tree: by root id, descending when `desc`, then by path ascending.
   */
  predicate Before(o: Order, a: Post, b: Post)
  {
    match o.mode
    case Flat => if o.desc then a.id > b.id else a.id < b.id
    case Tree => if o.desc then LexLess(PathOf(o, b), PathOf(o, a)) else LexLess(PathOf(o, a), PathOf(o, b))
    case ParentTree =>
      if Root(o, a) != Root(o, b) then (if o.desc then Root(o, a) > Root(o, b) else Root(o, a) < Root(o, b))
      else LexLess(PathOf(o, a), PathOf(o, b))
  }

  lemma BeforeIrreflexive(o: Order, a: Post)
    ensures !Before(o, a, a)
  {
    LexIrreflexive(PathOf(o, a));
  }

  lemma BeforeTransitive(o: Order, a: Post, b: Post, c: Post)
    requires Before(o, a, b) && Before(o, b, c)
    ensures Before(o, a, c)
  {
    var pa, pb, pc := PathOf(o, a), PathOf(o, b), PathOf(o, c);
    match o.mode
    case Flat =>
    case Tree =>
      if o.desc { LexTransitive(pc, pb, pa); } else { LexTransitive(pa, pb, pc); }
    case ParentTree =>
      if Root(o, a) == Root(o, b) == Root(o, c) { LexTransitive(pa, pb, pc); }
  }

  lemma BeforeAsymmetric(o: Order, a: Post, b: Post)
    requires Before(o, a, b)
    ensures !Before(o, b, a)
  {
    if Before(o, b, a) {
      BeforeTransitive(o, a, b, a);
      BeforeIrreflexive(o, a);
    }
  }

  /** Every post has a path in the tree modes, ending at its own id. */
  predicate HasOwnPath(o: Order, p: Post)
  {
    o.mode != Flat ==> p.id in o.paths && |o.paths[p.id]| > 0 && o.paths[p.id][|o.paths[p.id]| - 1] == p.id
  }

  /** The posts are distinct and, in the tree modes, indexed. */
  predicate WellIndexed(o: Order, posts: seq<Post>)
  {
    DistinctIds(posts) && forall i :: 0 <= i < |posts| ==> HasOwnPath(o, posts[i])
  }

  /** Two posts with different ids are always ordered one way or the other. */
  lemma BeforeTotal(o: Order, a: Post, b: Post)
    requires a.id != b.id && HasOwnPath(o, a) && HasOwnPath(o, b)
    ensures Before(o, a, b) || Before(o, b, a)
  {
    if o.mode != Flat {
      var pa, pb := PathOf(o, a), PathOf(o, b);
      assert pa[|pa| - 1] != pb[|pb| - 1];
      LexTotal(pa, pb);
    }
  }

  /** The order as a comparison of rows. */
  function Less(o: Order): (Post, Post) -> bool
  {
    (a, b) => Before(o, a, b)
  }

  lemma LessIsStrict(o: Order)
    ensures StrictOrder(Less(o))
  {
    forall a ensures !Less(o)(a, a) {
      BeforeIrreflexive(o, a);
    }
    forall a, b, c | Less(o)(a, b) && Less(o)(b, c) ensures Less(o)(a, c) {
      BeforeTransitive(o, a, b, c);
    }
  }

  /** Well-indexed posts are pairwise ordered. */
  lemma WellIndexedComparable(o: Order, posts: seq<Post>)
    requires WellIndexed(o, posts)
    ensures Comparable(Less(o), posts)
  {
    forall i, j | 0 <= i < j < |posts| ensures Before(o, posts[i], posts[j]) || Before(o, posts[j], posts[i]) {
      BeforeTotal(o, posts[i], posts[j]);
    }
  }

  /** The paths computed for a thread index every post of it, in every mode. */
  lemma IndexWellIndexed(posts: seq<Post>, mode: Mode, desc: bool)
    requires Snapshot(posts) && Index(posts).Ok?
    ensures WellIndexed(Order(mode, desc, Index(posts).value), posts)
  {
    var m := Index(posts).value;
    IndexPathsAreRows(posts);
    SnapshotDistinct(posts);
    forall i | 0 <= i < |posts| ensures HasOwnPath(Order(mode, desc, m), posts[i]) {
      assert posts[i].id in Ids(posts);
      assert IsPath(ParentMap(posts), m[posts[i].id]);
    }
  }
}
