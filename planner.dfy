/**
 * The page a thread-posts query returns, as the database evaluates each of
 * the statements the handler builds: the cursor's WHERE, the parent_tree
 * rank bound, the ORDER BY and the LIMIT.
 */
module Planner {
  import opened Wrappers
  import opened Threads
  import opened Lex
  import opened Queries
  import opened PathIndex
  import opened Rows
  import opened Ordering

  /**
   * The cursor condition on a row, `since` being a post id.
   * flat: `id > since`, or `id < since` when descending;
   * tree: the row's path after (before, when descending) the cursor post's path;
   * parent_tree: the row's root after (before) the cursor post's root.
   * In the tree modes the cursor's path comes from a subquery that yields
   * NULL for an id outside the thread, and a comparison with NULL holds for
   * no row.
   */
  predicate PassesCursor(o: Order, since: int, p: Post)
  {
    match o.mode
    case Flat => if o.desc then p.id < since else p.id > since
    case Tree =>
      since in o.paths &&
      if o.desc then LexLess(PathOf(o, p), o.paths[since]) else LexLess(o.paths[since], PathOf(o, p))
    case ParentTree =>
      since in o.paths &&
      if o.desc then Root(o, p) < RootOfId(o.paths, since) else Root(o, p) > RootOfId(o.paths, since)
  }

  /** A row passes the cursor, if any. */
  predicate Admits(o: Order, since: Option<int>, p: Post)
  {
    since.None? || PassesCursor(o, since.value, p)
  }

  /** The WHERE clause a cursor adds; no cursor keeps every row. */
  function Cursor(o: Order, since: Option<int>): Post -> bool
  {
    p => Admits(o, since, p)
  }

  /** `a` is not after `b` in the direction of the root ordering. */
  predicate NotAfter(desc: bool, a: int, b: int)
  {
    if desc then a >= b else a <= b
  }

  /** The distinct roots of `xs` that are not after root `r`. */
  function RootsUpTo(o: Order, xs: seq<Post>, r: int): set<int>
  {
    set q | q in xs && NotAfter(o.desc, Root(o, q), r) :: Root(o, q)
  }

  /** `dense_rank() over (order by path[1])`: the position of a row's root among the distinct roots. */
  function Rank(o: Order, xs: seq<Post>, p: Post): nat
  {
    |RootsUpTo(o, xs, Root(o, p))|
  }

  /** The parent_tree LIMIT: `where r <= limit` over the ranked rows. */
  function WithinRank(o: Order, xs: seq<Post>, n: nat): Post -> bool
  {
    p => Rank(o, xs, p) <= n
  }

  /**
   * The rows a query returns: the cursor's WHERE first; then, for
   * parent_tree, the rank bound on the remaining rows (the rank is computed
   * after the WHERE); the ORDER BY; and, for flat and tree, the LIMIT.
   */
  function Page(o: Order, posts: seq<Post>, since: Option<int>, limit: Option<nat>): seq<Post>
  {
    var eligible := Eligible(o, posts, since);
    match limit
    case None => Sort(Less(o), eligible)
    case Some(n) =>
      if o.mode == ParentTree then Sort(Less(o), Filter(eligible, WithinRank(o, eligible, n)))
      else Take(Sort(Less(o), eligible), n)
  }

  /** The distinct roots of some rows. */
  function Roots(o: Order, xs: seq<Post>): set<int>
  {
    set q | q in xs :: Root(o, q)
  }

  /** The rows that pass the cursor. */
  function Eligible(o: Order, posts: seq<Post>, since: Option<int>): seq<Post>
  {
    Filter(posts, Cursor(o, since))
  }

  /** A row is eligible exactly when it is one of the posts and passes the cursor. */
  lemma EligibleMembers(o: Order, posts: seq<Post>, since: Option<int>)
    ensures forall p :: p in Eligible(o, posts, since) <==> p in posts && Admits(o, since, p)
  {
    FilterMembers(posts, Cursor(o, since));
  }

  /** Every page is listed in the mode's order, strictly. */
  lemma PageSorted(o: Order, posts: seq<Post>, since: Option<int>, limit: Option<nat>)
    requires WellIndexed(o, posts)
    ensures Sorted(Less(o), Page(o, posts, since, limit))
  {
    LessIsStrict(o);
    WellIndexedComparable(o, posts);
    var eligible := Eligible(o, posts, since);
    FilterComparable(Less(o), posts, Cursor(o, since));
    SortSorted(Less(o), eligible);
    match limit
    case None =>
    case Some(n) =>
      if o.mode == ParentTree {
        FilterComparable(Less(o), eligible, WithinRank(o, eligible, n));
        SortSorted(Less(o), Filter(eligible, WithinRank(o, eligible, n)));
      } else {
        TakeSorted(Less(o), Sort(Less(o), eligible), n);
      }
  }

  /**
   * Without a limit a page holds exactly the rows that pass the cursor, each
   * once; with one, a subset of them.
   */
  lemma PageMembers(o: Order, posts: seq<Post>, since: Option<int>, limit: Option<nat>)
    ensures forall p :: p in Page(o, posts, since, limit) ==> p in posts && Admits(o, since, p)
    ensures limit.None? ==> multiset(Page(o, posts, since, limit)) == multiset(Eligible(o, posts, since))
    ensures limit.Some? && o.mode == ParentTree ==>
      forall p :: p in Page(o, posts, since, limit) <==>
        p in posts && Admits(o, since, p) && Rank(o, Eligible(o, posts, since), p) <= limit.value
  {
    var eligible := Eligible(o, posts, since);
    EligibleMembers(o, posts, since);
    SortMembers(Less(o), eligible);
    match limit
    case None =>
    case Some(n) =>
      if o.mode == ParentTree {
        var kept := Filter(eligible, WithinRank(o, eligible, n));
        FilterMembers(eligible, WithinRank(o, eligible, n));
        SortMembers(Less(o), kept);
      } else {
        forall p | p in Take(Sort(Less(o), eligible), n) ensures p in eligible {
          var k :| 0 <= k < |Take(Sort(Less(o), eligible), n)| && Take(Sort(Less(o), eligible), n)[k] == p;
          assert Sort(Less(o), eligible)[k] == p;
        }
      }
  }

  /** Every row of a page over well-indexed posts carries its own path. */
  lemma PageOwnPaths(o: Order, posts: seq<Post>, since: Option<int>, limit: Option<nat>)
    requires WellIndexed(o, posts)
    ensures var page := Page(o, posts, since, limit);
      forall i :: 0 <= i < |page| ==> HasOwnPath(o, page[i])
  {
    var page := Page(o, posts, since, limit);
    PageMembers(o, posts, since, limit);
    forall i | 0 <= i < |page| ensures HasOwnPath(o, page[i]) {
      assert page[i] in posts;
    }
  }

  /** flat and tree: a bounded page is the first `n` rows of the unbounded listing. */
  lemma FirstRows(o: Order, posts: seq<Post>, since: Option<int>, n: nat)
    requires o.mode != ParentTree
    ensures Page(o, posts, since, Some(n)) <= Page(o, posts, since, None)
    ensures |Page(o, posts, since, Some(n))| == if n < |Eligible(o, posts, since)| then n else |Eligible(o, posts, since)|
  {
    var sorted := Sort(Less(o), Eligible(o, posts, since));
    assert |sorted| == |multiset(sorted)|;
  }

  /** A cursor outside the thread matches nothing in the tree modes, so the page is empty. */
  lemma UnknownCursor(o: Order, posts: seq<Post>, since: int, limit: Option<nat>)
    requires o.mode != Flat && since !in o.paths
    ensures Page(o, posts, Some(since), limit) == []
  {
    var eligible := Eligible(o, posts, Some(since));
    FilterNothing(posts, Cursor(o, Some(since)));
    assert eligible == [];
  }

  /** A row's rank is at least one: its own root is counted. */
  lemma RankPositive(o: Order, xs: seq<Post>, p: Post)
    requires p in xs
    ensures Rank(o, xs, p) >= 1
  {
    assert Root(o, p) in RootsUpTo(o, xs, Root(o, p));
  }

  /** A subset is no larger. */
  lemma SubsetSize(a: set<int>, b: set<int>)
    requires a <= b
    ensures |a| <= |b|
  {
    assert b == a + (b - a);
    assert a * (b - a) == {};
  }

  /** A row whose root is not after another's ranks no higher. */
  lemma RankMonotone(o: Order, xs: seq<Post>, p: Post, q: Post)
    requires NotAfter(o.desc, Root(o, q), Root(o, p))
    ensures Rank(o, xs, q) <= Rank(o, xs, p)
  {
    SubsetSize(RootsUpTo(o, xs, Root(o, q)), RootsUpTo(o, xs, Root(o, p)));
  }

  /** A limit of zero returns no rows, in every mode. */
  lemma ZeroLimit(o: Order, posts: seq<Post>, since: Option<int>)
    ensures Page(o, posts, since, Some(0)) == []
  {
    if o.mode == ParentTree {
      var eligible := Eligible(o, posts, since);
      forall p | p in eligible ensures !WithinRank(o, eligible, 0)(p) {
        RankPositive(o, eligible, p);
      }
      FilterNothing(eligible, WithinRank(o, eligible, 0));
    }
  }

  /** flat: ids strictly ascending, or strictly descending when `desc`. */
  lemma FlatLayout(o: Order, posts: seq<Post>, since: Option<int>, limit: Option<nat>)
    requires o.mode == Flat && WellIndexed(o, posts)
    ensures var page := Page(o, posts, since, limit);
      forall i, j :: 0 <= i < j < |page| ==> if o.desc then page[i].id > page[j].id else page[i].id < page[j].id
  {
    var page := Page(o, posts, since, limit);
    PageSorted(o, posts, since, limit);
    forall i, j | 0 <= i < j < |page| ensures if o.desc then page[i].id > page[j].id else page[i].id < page[j].id {
      assert Less(o)(page[i], page[j]);
    }
  }

  /** tree: along a sorted sequence, paths ascend, or descend when `desc`. */
  lemma TreeSortedPaths(o: Order, s: seq<Post>)
    requires o.mode == Tree && Sorted(Less(o), s)
    ensures forall i, j :: 0 <= i < j < |s| ==>
      if o.desc then LexLess(PathOf(o, s[j]), PathOf(o, s[i])) else LexLess(PathOf(o, s[i]), PathOf(o, s[j]))
  {
    forall i, j | 0 <= i < j < |s|
      ensures if o.desc then LexLess(PathOf(o, s[j]), PathOf(o, s[i])) else LexLess(PathOf(o, s[i]), PathOf(o, s[j]))
    {
      assert Less(o)(s[i], s[j]);
    }
  }

  /** tree: along a sorted sequence, an ancestor's path comes first (last when `desc`). */
  lemma TreeAncestorFirst(o: Order, s: seq<Post>)
    requires o.mode == Tree && Sorted(Less(o), s)
    ensures forall i, j :: 0 <= i < |s| && 0 <= j < |s| && IsStrictPrefix(PathOf(o, s[i]), PathOf(o, s[j])) ==>
      if o.desc then j < i else i < j
  {
    TreeSortedPaths(o, s);
    forall i, j | 0 <= i < |s| && 0 <= j < |s| && IsStrictPrefix(PathOf(o, s[i]), PathOf(o, s[j]))
      ensures if o.desc then j < i else i < j
    {
      var pi, pj := PathOf(o, s[i]), PathOf(o, s[j]);
      PrefixIsLess(pi, pj);
      LexIrreflexive(pi);
      LexAsymmetric(pi, pj);
    }
  }

  /** tree: along a sorted sequence, what lies between a path and an extension of it extends it too. */
  lemma TreeSubtreeContiguous(o: Order, s: seq<Post>)
    requires o.mode == Tree && Sorted(Less(o), s)
    ensures forall i, j, k :: 0 <= i < j < k < |s| ==>
      (!o.desc && IsStrictPrefix(PathOf(o, s[i]), PathOf(o, s[k])) ==> IsStrictPrefix(PathOf(o, s[i]), PathOf(o, s[j]))) &&
      (o.desc && IsStrictPrefix(PathOf(o, s[k]), PathOf(o, s[i])) ==> IsStrictPrefix(PathOf(o, s[k]), PathOf(o, s[j])))
  {
    TreeSortedPaths(o, s);
    forall i, j, k | 0 <= i < j < k < |s|
      ensures !o.desc && IsStrictPrefix(PathOf(o, s[i]), PathOf(o, s[k])) ==> IsStrictPrefix(PathOf(o, s[i]), PathOf(o, s[j]))
      ensures o.desc && IsStrictPrefix(PathOf(o, s[k]), PathOf(o, s[i])) ==> IsStrictPrefix(PathOf(o, s[k]), PathOf(o, s[j]))
    {
      var pi, pj, pk := PathOf(o, s[i]), PathOf(o, s[j]), PathOf(o, s[k]);
      if !o.desc && IsStrictPrefix(pi, pk) {
        BetweenExtends(pi, pj, pk);
      }
      if o.desc && IsStrictPrefix(pk, pi) {
        BetweenExtends(pk, pj, pi);
      }
    }
  }

  /**
   * tree: paths strictly ascending, or strictly descending when `desc`;
   * an ancestor comes before its descendants (after them when `desc`), and
   * the rows between an ancestor and a descendant of it descend from it too,
   * so every subtree in a page is contiguous.
   */
  lemma TreeLayout(o: Order, posts: seq<Post>, since: Option<int>, limit: Option<nat>)
    requires o.mode == Tree && WellIndexed(o, posts)
    ensures var page := Page(o, posts, since, limit);
      forall i, j :: 0 <= i < j < |page| ==>
        if o.desc then LexLess(PathOf(o, page[j]), PathOf(o, page[i])) else LexLess(PathOf(o, page[i]), PathOf(o, page[j]))
    ensures var page := Page(o, posts, since, limit);
      forall i, j :: 0 <= i < |page| && 0 <= j < |page| && IsStrictPrefix(PathOf(o, page[i]), PathOf(o, page[j])) ==>
        if o.desc then j < i else i < j
    ensures var page := Page(o, posts, since, limit);
      forall i, j, k :: 0 <= i < j < k < |page| ==>
        (!o.desc && IsStrictPrefix(PathOf(o, page[i]), PathOf(o, page[k])) ==> IsStrictPrefix(PathOf(o, page[i]), PathOf(o, page[j]))) &&
        (o.desc && IsStrictPrefix(PathOf(o, page[k]), PathOf(o, page[i])) ==> IsStrictPrefix(PathOf(o, page[k]), PathOf(o, page[j])))
  {
    var page := Page(o, posts, since, limit);
    PageSorted(o, posts, since, limit);
    TreeSortedPaths(o, page);
    TreeAncestorFirst(o, page);
    TreeSubtreeContiguous(o, page);
  }

  /**
   * parent_tree: roots ascending (descending when `desc`), so each root's
   * group is contiguous; within a group, paths ascend whatever the direction.
   */
  lemma ParentTreeLayout(o: Order, posts: seq<Post>, since: Option<int>, limit: Option<nat>)
    requires o.mode == ParentTree && WellIndexed(o, posts)
    ensures var page := Page(o, posts, since, limit);
      forall i, j :: 0 <= i < j < |page| ==> NotAfter(o.desc, Root(o, page[i]), Root(o, page[j]))
    ensures var page := Page(o, posts, since, limit);
      forall i, j :: 0 <= i < j < |page| && Root(o, page[i]) == Root(o, page[j]) ==> LexLess(PathOf(o, page[i]), PathOf(o, page[j]))
    ensures var page := Page(o, posts, since, limit);
      forall i, j, k :: 0 <= i < j < k < |page| && Root(o, page[i]) == Root(o, page[k]) ==> Root(o, page[j]) == Root(o, page[i])
  {
    var page := Page(o, posts, since, limit);
    PageSorted(o, posts, since, limit);
    forall i, j | 0 <= i < j < |page|
      ensures NotAfter(o.desc, Root(o, page[i]), Root(o, page[j]))
      ensures Root(o, page[i]) == Root(o, page[j]) ==> LexLess(PathOf(o, page[i]), PathOf(o, page[j]))
    {
      assert Less(o)(page[i], page[j]);
    }
  }

  /**
   * parent_tree: with any row, a bounded page holds every row that passes the
   * cursor and whose root is not after that row's root; in particular whole
   * root groups.
   */
  lemma ParentTreeClosed(o: Order, posts: seq<Post>, since: Option<int>, n: nat)
    requires o.mode == ParentTree
    ensures var page := Page(o, posts, since, Some(n));
      forall p, q :: p in page && q in posts && Admits(o, since, q) && NotAfter(o.desc, Root(o, q), Root(o, p)) ==> q in page
  {
    var page := Page(o, posts, since, Some(n));
    var eligible := Eligible(o, posts, since);
    PageMembers(o, posts, since, Some(n));
    forall p, q | p in page && q in posts && Admits(o, since, q) && NotAfter(o.desc, Root(o, q), Root(o, p)) ensures q in page {
      RankMonotone(o, eligible, p, q);
    }
  }

  /** parent_tree: the roots of a sorted subsequence of some rows are those up to its last root. */
  lemma RootsUpToLast(o: Order, s: seq<Post>, xs: seq<Post>)
    requires o.mode == ParentTree && s != [] && Sorted(Less(o), s)
    requires forall p :: p in s ==> p in xs
    ensures Roots(o, s) <= RootsUpTo(o, xs, Root(o, s[|s| - 1]))
  {
    var last := s[|s| - 1];
    forall r | r in Roots(o, s) ensures r in RootsUpTo(o, xs, Root(o, last)) {
      var q :| q in s && Root(o, q) == r;
      var i :| 0 <= i < |s| && s[i] == q;
      assert i < |s| - 1 ==> Less(o)(s[i], last);
    }
  }

  /** parent_tree: a page bounded by `n` spans at most `n` roots. */
  lemma ParentTreeRootBound(o: Order, posts: seq<Post>, since: Option<int>, n: nat)
    requires o.mode == ParentTree && WellIndexed(o, posts)
    ensures |Roots(o, Page(o, posts, since, Some(n)))| <= n
  {
    var page := Page(o, posts, since, Some(n));
    if page != [] {
      var eligible := Eligible(o, posts, since);
      PageSorted(o, posts, since, Some(n));
      PageMembers(o, posts, since, Some(n));
      EligibleMembers(o, posts, since);
      RootsUpToLast(o, page, eligible);
      SubsetSize(Roots(o, page), RootsUpTo(o, eligible, Root(o, page[|page| - 1])));
    }
  }

  /** parent_tree: the first row of a sorted arrangement of some rows has rank one. */
  lemma FirstRankOne(o: Order, sorted: seq<Post>, xs: seq<Post>)
    requires o.mode == ParentTree && sorted != [] && Sorted(Less(o), sorted)
    requires forall p :: p in xs ==> p in sorted
    ensures Rank(o, xs, sorted[0]) <= 1
  {
    var first := sorted[0];
    forall r | r in RootsUpTo(o, xs, Root(o, first)) ensures r == Root(o, first) {
      var q :| q in xs && NotAfter(o.desc, Root(o, q), Root(o, first)) && Root(o, q) == r;
      var k :| 0 <= k < |sorted| && sorted[k] == q;
      assert k > 0 ==> Less(o)(first, sorted[k]);
    }
    SubsetSize(RootsUpTo(o, xs, Root(o, first)), {Root(o, first)});
  }

  /** parent_tree: with a positive bound, some row of a non-empty set keeps its rank within it. */
  lemma RankBoundKeepsSome(o: Order, xs: seq<Post>, n: nat)
    requires o.mode == ParentTree && n > 0 && xs != [] && Sorted(Less(o), Sort(Less(o), xs))
    ensures Sort(Less(o), Filter(xs, WithinRank(o, xs, n))) != []
  {
    var sorted := Sort(Less(o), xs);
    assert |sorted| == |multiset(sorted)| == |xs|;
    SortMembers(Less(o), xs);
    FirstRankOne(o, sorted, xs);
    var kept := Filter(xs, WithinRank(o, xs, n));
    FilterMembers(xs, WithinRank(o, xs, n));
    assert sorted[0] in kept;
    assert |Sort(Less(o), kept)| == |multiset(kept)| > 0;
  }

  /** With a positive limit, a page is empty only when no row passes the cursor. */
  lemma NonEmptyPage(o: Order, posts: seq<Post>, since: Option<int>, n: nat)
    requires WellIndexed(o, posts) && n > 0
    ensures Page(o, posts, since, Some(n)) == [] <==> Eligible(o, posts, since) == []
  {
    var eligible := Eligible(o, posts, since);
    var sorted := Sort(Less(o), eligible);
    assert |sorted| == |multiset(sorted)| == |eligible|;
    if eligible != [] && o.mode == ParentTree {
      PageSorted(o, posts, since, None);
      RankBoundKeepsSome(o, eligible, n);
    }
  }
}
