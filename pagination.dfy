/**
 * Paging through a thread with the `since` cursor. A bounded page followed
 * by the unbounded listing from its last row's id is the unbounded listing
 * of the page's own cursor; so a client that passes the last id it received
 * as the next `since` lists every post exactly once, in order.
 */
module Pagination {
  import opened Wrappers
  import opened Threads
  import opened Lex
  import opened Queries
  import opened PathIndex
  import opened Rows
  import opened Ordering
  import opened Planner

  /** A row of a well-indexed thread carries its own path. */
  lemma MemberHasOwnPath(o: Order, posts: seq<Post>, p: Post)
    requires WellIndexed(o, posts) && p in posts
    ensures HasOwnPath(o, p)
  {
    var i :| 0 <= i < |posts| && posts[i] == p;
  }

  /** flat and tree: the cursor at a row's id admits exactly the rows ordered after it. */
  lemma CursorIsBefore(o: Order, last: Post, q: Post)
    requires o.mode != ParentTree && HasOwnPath(o, last)
    ensures PassesCursor(o, last.id, q) <==> Before(o, last, q)
  {
  }

  /** parent_tree: the cursor at a row's id admits exactly the rows whose root comes after its root. */
  lemma CursorIsRootAfter(o: Order, last: Post, q: Post)
    requires o.mode == ParentTree && HasOwnPath(o, last)
    ensures PassesCursor(o, last.id, q) <==> !NotAfter(o.desc, Root(o, q), Root(o, last))
  {
  }

  /** A cursor at a row that the current cursor admits admits no row the current one does not. */
  lemma CursorNarrows(o: Order, since: Option<int>, last: Post, q: Post)
    requires HasOwnPath(o, last) && Admits(o, since, last) && PassesCursor(o, last.id, q)
    ensures Admits(o, since, q)
  {
    if since.Some? && o.mode == Tree {
      var ps, pl, pq := o.paths[since.value], PathOf(o, last), PathOf(o, q);
      if o.desc {
        LexTransitive(pq, pl, ps);
      } else {
        LexTransitive(ps, pl, pq);
      }
    }
  }

  /** The rows the next cursor admits are the currently admitted rows after `last`. */
  lemma NextEligible(o: Order, posts: seq<Post>, since: Option<int>, last: Post)
    requires HasOwnPath(o, last) && Admits(o, since, last)
    ensures Eligible(o, posts, Some(last.id)) == Filter(Eligible(o, posts, since), Cursor(o, Some(last.id)))
  {
    forall x | x in posts && Cursor(o, Some(last.id))(x) ensures Cursor(o, since)(x) {
      CursorNarrows(o, since, last, x);
    }
    FilterFilter(posts, Cursor(o, since), Cursor(o, Some(last.id)));
  }

  /** The unbounded listing from the next cursor is what follows `last` in the current listing. */
  lemma RestOfListing(o: Order, posts: seq<Post>, since: Option<int>, last: Post)
    requires WellIndexed(o, posts) && HasOwnPath(o, last) && Admits(o, since, last)
    ensures Page(o, posts, Some(last.id), None) == Filter(Page(o, posts, since, None), Cursor(o, Some(last.id)))
  {
    NextEligible(o, posts, since, last);
    LessIsStrict(o);
    WellIndexedComparable(o, posts);
    FilterComparable(Less(o), posts, Cursor(o, since));
    SortFilter(Less(o), Eligible(o, posts, since), Cursor(o, Some(last.id)));
  }

  /** The last row of a non-empty page passes the page's cursor and carries its own path. */
  lemma LastRow(o: Order, posts: seq<Post>, since: Option<int>, limit: Option<nat>)
    requires WellIndexed(o, posts) && Page(o, posts, since, limit) != []
    ensures var page := Page(o, posts, since, limit);
      var last := page[|page| - 1];
      last in posts && Admits(o, since, last) && HasOwnPath(o, last)
  {
    var page := Page(o, posts, since, limit);
    PageMembers(o, posts, since, limit);
    assert page[|page| - 1] in page;
    MemberHasOwnPath(o, posts, page[|page| - 1]);
  }

  /** flat and tree: a page, then the listing after its last row, is the whole listing. */
  lemma LinearStep(o: Order, posts: seq<Post>, since: Option<int>, n: nat)
    requires o.mode != ParentTree && WellIndexed(o, posts) && Page(o, posts, since, Some(n)) != []
    ensures var page := Page(o, posts, since, Some(n));
      page + Page(o, posts, Some(page[|page| - 1].id), None) == Page(o, posts, since, None)
  {
    var page := Page(o, posts, since, Some(n));
    var s := Page(o, posts, since, None);
    var k := |page|;
    var last := page[k - 1];
    FirstRows(o, posts, since, n);
    assert page == s[..k] && last == s[k - 1];
    LastRow(o, posts, since, Some(n));
    PageSorted(o, posts, since, None);
    var next := Cursor(o, Some(last.id));
    forall i | 0 <= i < |s| ensures next(s[i]) <==> k <= i {
      CursorIsBefore(o, last, s[i]);
      BeforeIrreflexive(o, last);
      if i < k - 1 {
        assert Less(o)(s[i], last);
        BeforeAsymmetric(o, s[i], last);
      } else if i >= k {
        assert Less(o)(last, s[i]);
      }
    }
    RestOfListing(o, posts, since, last);
    FilterSuffix(s, next, k);
    SliceJoin(s, k, page, s[k..]);
  }

  /** The rows whose root is not after the root of `last`, in the direction of the order. */
  function UpToGroup(o: Order, last: Post): Post -> bool
  {
    q => NotAfter(o.desc, Root(o, q), Root(o, last))
  }

  /**
   * parent_tree: in a page made of the rows ranked within the bound, listed
   * with roots in order, a row is ranked within the bound exactly when its
   * root is not after the last row's root.
   */
  lemma RankIffUpTo(o: Order, e: seq<Post>, page: seq<Post>, n: nat, x: Post)
    requires o.mode == ParentTree && page != [] && x in e
    requires forall p :: p in page <==> p in e && Rank(o, e, p) <= n
    requires forall i, j :: 0 <= i < j < |page| ==> NotAfter(o.desc, Root(o, page[i]), Root(o, page[j]))
    ensures Rank(o, e, x) <= n <==> NotAfter(o.desc, Root(o, x), Root(o, page[|page| - 1]))
  {
    var last := page[|page| - 1];
    assert last in page;
    if NotAfter(o.desc, Root(o, x), Root(o, last)) {
      RankMonotone(o, e, last, x);
    }
    if Rank(o, e, x) <= n {
      var i :| 0 <= i < |page| && page[i] == x;
      assert i < |page| - 1 ==> NotAfter(o.desc, Root(o, page[i]), Root(o, last));
    }
  }

  /** parent_tree: a row passing the cursor has rank within the bound exactly when its root is not after the page's last root. */
  lemma RankWithinIffUpToGroup(o: Order, posts: seq<Post>, since: Option<int>, n: nat, x: Post)
    requires o.mode == ParentTree && WellIndexed(o, posts) && Page(o, posts, since, Some(n)) != []
    requires x in Eligible(o, posts, since)
    ensures var page := Page(o, posts, since, Some(n));
      WithinRank(o, Eligible(o, posts, since), n)(x) <==> UpToGroup(o, page[|page| - 1])(x)
  {
    PageMembers(o, posts, since, Some(n));
    EligibleMembers(o, posts, since);
    ParentTreeLayout(o, posts, since, Some(n));
    RankIffUpTo(o, Eligible(o, posts, since), Page(o, posts, since, Some(n)), n, x);
  }

  /** parent_tree: a bounded page is the listing's rows up to the group of its last row. */
  lemma GroupPage(o: Order, posts: seq<Post>, since: Option<int>, n: nat)
    requires o.mode == ParentTree && WellIndexed(o, posts) && Page(o, posts, since, Some(n)) != []
    ensures var page := Page(o, posts, since, Some(n));
      page == Filter(Page(o, posts, since, None), UpToGroup(o, page[|page| - 1]))
  {
    var page := Page(o, posts, since, Some(n));
    var e := Eligible(o, posts, since);
    var s := Page(o, posts, since, None);
    var within := WithinRank(o, e, n);
    var upTo := UpToGroup(o, page[|page| - 1]);
    LessIsStrict(o);
    WellIndexedComparable(o, posts);
    FilterComparable(Less(o), posts, Cursor(o, since));
    SortFilter(Less(o), e, within);
    SortMembers(Less(o), e);
    forall x | x in s ensures within(x) <==> upTo(x) {
      RankWithinIffUpToGroup(o, posts, since, n, x);
    }
    FilterAgree(s, within, upTo);
  }

  /** parent_tree: along a sorted sequence, being up to a group holds on a prefix. */
  lemma UpToGroupPrefix(o: Order, s: seq<Post>, last: Post)
    requires o.mode == ParentTree && Sorted(Less(o), s)
    ensures forall i, j :: 0 <= i < j < |s| && UpToGroup(o, last)(s[j]) ==> UpToGroup(o, last)(s[i])
  {
    forall i, j | 0 <= i < j < |s| && UpToGroup(o, last)(s[j]) ensures UpToGroup(o, last)(s[i]) {
      assert Less(o)(s[i], s[j]);
    }
  }

  /** parent_tree: the next cursor admits exactly the rows past the last row's group. */
  lemma NextIsPastGroup(o: Order, s: seq<Post>, last: Post)
    requires o.mode == ParentTree && HasOwnPath(o, last)
    ensures forall i :: 0 <= i < |s| ==> (Cursor(o, Some(last.id))(s[i]) <==> !UpToGroup(o, last)(s[i]))
  {
    forall i | 0 <= i < |s| ensures Cursor(o, Some(last.id))(s[i]) <==> !UpToGroup(o, last)(s[i]) {
      CursorIsRootAfter(o, last, s[i]);
    }
  }

  /** parent_tree: a sorted listing splits into the rows up to a group and the rows the cursor at it admits. */
  lemma SplitAtGroup(o: Order, s: seq<Post>, last: Post)
    requires o.mode == ParentTree && Sorted(Less(o), s) && HasOwnPath(o, last)
    ensures Filter(s, UpToGroup(o, last)) + Filter(s, Cursor(o, Some(last.id))) == s
  {
    UpToGroupPrefix(o, s, last);
    NextIsPastGroup(o, s, last);
    FilterSplit(s, UpToGroup(o, last), Cursor(o, Some(last.id)));
  }

  /** parent_tree: a page, then the listing after its last row, is the whole listing. */
  lemma GroupStep(o: Order, posts: seq<Post>, since: Option<int>, n: nat)
    requires o.mode == ParentTree && WellIndexed(o, posts) && Page(o, posts, since, Some(n)) != []
    ensures var page := Page(o, posts, since, Some(n));
      page + Page(o, posts, Some(page[|page| - 1].id), None) == Page(o, posts, since, None)
  {
    var page := Page(o, posts, since, Some(n));
    var last := page[|page| - 1];
    LastRow(o, posts, since, Some(n));
    GroupPage(o, posts, since, n);
    RestOfListing(o, posts, since, last);
    PageSorted(o, posts, since, None);
    SplitAtGroup(o, Page(o, posts, since, None), last);
  }

  /**
   * A non-empty page, followed by the unbounded listing from its last row's
   * id, is the unbounded listing of its own cursor.
   */
  lemma PageThenRest(o: Order, posts: seq<Post>, since: Option<int>, n: nat)
    requires WellIndexed(o, posts) && Page(o, posts, since, Some(n)) != []
    ensures var page := Page(o, posts, since, Some(n));
      page + Page(o, posts, Some(page[|page| - 1].id), None) == Page(o, posts, since, None)
  {
    if o.mode == ParentTree {
      GroupStep(o, posts, since, n);
    } else {
      LinearStep(o, posts, since, n);
    }
  }

  /** Each non-empty page leaves fewer rows for the cursor after it. */
  lemma PageShrinks(o: Order, posts: seq<Post>, since: Option<int>, n: nat)
    requires WellIndexed(o, posts) && Page(o, posts, since, Some(n)) != []
    ensures var page := Page(o, posts, since, Some(n));
      |Page(o, posts, Some(page[|page| - 1].id), None)| < |Page(o, posts, since, None)|
  {
    PageThenRest(o, posts, since, n);
  }

  /** The pages a client collects by passing each page's last id as the next `since`, joined. */
  ghost function Pages(o: Order, posts: seq<Post>, since: Option<int>, n: nat): seq<Post>
    requires WellIndexed(o, posts) && n > 0
    decreases |Page(o, posts, since, None)|
  {
    var page := Page(o, posts, since, Some(n));
    if page == [] then []
    else
      PageShrinks(o, posts, since, n);
      page + Pages(o, posts, Some(page[|page| - 1].id), n)
  }

  /** The collection is the first page followed by the collection from the cursor after it. */
  lemma PagesStep(o: Order, posts: seq<Post>, since: Option<int>, n: nat)
    requires WellIndexed(o, posts) && n > 0 && Page(o, posts, since, Some(n)) != []
    ensures var page := Page(o, posts, since, Some(n));
      Pages(o, posts, since, n) == page + Pages(o, posts, Some(page[|page| - 1].id), n)
  {
  }

  /** Following the cursor page by page yields exactly the unbounded listing, for any positive limit. */
  lemma {:induction false} PagesAreListing(o: Order, posts: seq<Post>, since: Option<int>, n: nat)
    requires WellIndexed(o, posts) && n > 0
    ensures Pages(o, posts, since, n) == Page(o, posts, since, None)
    decreases |Page(o, posts, since, None)|
  {
    var page := Page(o, posts, since, Some(n));
    if page == [] {
      NonEmptyPage(o, posts, since, n);
    } else {
      var next := Some(page[|page| - 1].id);
      PageShrinks(o, posts, since, n);
      assert |Page(o, posts, next, None)| < |Page(o, posts, since, None)|;
      PagesAreListing(o, posts, next, n);
      PagesStep(o, posts, since, n);
      PageThenRest(o, posts, since, n);
    }
  }
}
