/**
 * The relational steps a page is built from: WHERE (Filter), ORDER BY (Sort,
 * an insertion sort under a strict order) and LIMIT (Take), with the facts
 * that connect them.
 */
module Rows {
  import opened Threads

  /** An ORDER BY: irreflexive and transitive. */
  ghost predicate StrictOrder(less: (Post, Post) -> bool)
  {
    (forall a :: !less(a, a)) &&
    (forall a, b, c :: less(a, b) && less(b, c) ==> less(a, c))
  }

  /** Strictly ascending. */
  predicate Sorted(less: (Post, Post) -> bool, s: seq<Post>)
  {
    forall i, j :: 0 <= i < j < |s| ==> less(s[i], s[j])
  }

  /** Any two entries are ordered one way or the other, so sorting is determined. */
  predicate Comparable(less: (Post, Post) -> bool, s: seq<Post>)
  {
    forall i, j :: 0 <= i < j < |s| ==> less(s[i], s[j]) || less(s[j], s[i])
  }

  /** The rows that satisfy a condition, in their original order. */
  function Filter(xs: seq<Post>, keep: Post -> bool): (r: seq<Post>)
    ensures |r| <= |xs|
    decreases |xs|
  {
    if xs == [] then []
    else Filter(xs[..|xs| - 1], keep) + (if keep(xs[|xs| - 1]) then [xs[|xs| - 1]] else [])
  }

  /** A row is kept exactly when it is one of the rows and satisfies the condition. */
  lemma {:induction false} FilterMembers(xs: seq<Post>, keep: Post -> bool)
    ensures forall x :: x in Filter(xs, keep) <==> x in xs && keep(x)
    decreases |xs|
  {
    if xs != [] {
      var init := xs[..|xs| - 1];
      FilterMembers(init, keep);
      assert xs == init + [xs[|xs| - 1]];
    }
  }

  /** The first `n` rows, or all of them when there are fewer. */
  function Take(s: seq<Post>, n: nat): (r: seq<Post>)
    ensures |r| == if n < |s| then n else |s|
    ensures r <= s
  {
    if n < |s| then s[..n] else s
  }

  /** `x` inserted into a sorted sequence before the first entry it precedes. */
  function Insert(less: (Post, Post) -> bool, x: Post, s: seq<Post>): (r: seq<Post>)
    ensures multiset(r) == multiset(s) + multiset{x}
    decreases |s|
  {
    if s == [] then [x]
    else if less(x, s[0]) then [x] + s
    else
      assert s == [s[0]] + s[1..];
      [s[0]] + Insert(less, x, s[1..])
  }

  /** Insertion sort, taking the rows in their original order. */
  function Sort(less: (Post, Post) -> bool, xs: seq<Post>): (r: seq<Post>)
    ensures multiset(r) == multiset(xs)
    decreases |xs|
  {
    if xs == [] then []
    else
      assert xs == xs[..|xs| - 1] + [xs[|xs| - 1]];
      Insert(less, xs[|xs| - 1], Sort(less, xs[..|xs| - 1]))
  }

  /** A row that precedes every entry of a sorted sequence can lead it. */
  lemma ConsSorted(less: (Post, Post) -> bool, h: Post, t: seq<Post>)
    requires Sorted(less, t)
    requires forall y :: y in t ==> less(h, y)
    ensures Sorted(less, [h] + t)
  {
    var r := [h] + t;
    forall i, j | 0 <= i < j < |r| ensures less(r[i], r[j]) {
      assert r[j] == t[j - 1] && r[j] in t;
      if i > 0 {
        assert r[i] == t[i - 1];
      }
    }
  }

  /** Inserting adds `x` and nothing else. */
  lemma InsertMember(less: (Post, Post) -> bool, x: Post, s: seq<Post>, y: Post)
    requires y in Insert(less, x, s)
    ensures y == x || y in s
  {
    assert y in multiset(Insert(less, x, s));
  }

  lemma {:induction false} InsertSorted(less: (Post, Post) -> bool, x: Post, s: seq<Post>)
    requires StrictOrder(less) && Sorted(less, s)
    requires forall y :: y in s ==> less(x, y) || less(y, x)
    ensures Sorted(less, Insert(less, x, s))
    decreases |s|
  {
    if s == [] {
    } else if less(x, s[0]) {
      forall y | y in s ensures less(x, y) {
        var k :| 0 <= k < |s| && s[k] == y;
      }
      ConsSorted(less, x, s);
    } else {
      var h, rest := s[0], s[1..];
      assert s == [h] + rest;
      InsertSorted(less, x, rest);
      var t := Insert(less, x, rest);
      forall y | y in t ensures less(h, y) {
        InsertMember(less, x, rest, y);
        if y != x {
          var k :| 0 <= k < |rest| && rest[k] == y;
          assert s[k + 1] == y;
        }
      }
      ConsSorted(less, h, t);
    }
  }

  /** Sorting rows that are pairwise ordered yields them strictly ascending. */
  lemma {:induction false} SortSorted(less: (Post, Post) -> bool, xs: seq<Post>)
    requires StrictOrder(less) && Comparable(less, xs)
    ensures Sorted(less, Sort(less, xs))
    decreases |xs|
  {
    if xs != [] {
      var init, x := xs[..|xs| - 1], xs[|xs| - 1];
      SortSorted(less, init);
      forall y | y in Sort(less, init) ensures less(x, y) || less(y, x) {
        assert y in multiset(init);
        var k :| 0 <= k < |init| && init[k] == y;
      }
      InsertSorted(less, x, Sort(less, init));
    }
  }

  /** Sorting neither adds nor drops a row. */
  lemma SortMembers(less: (Post, Post) -> bool, xs: seq<Post>)
    ensures forall x :: x in Sort(less, xs) <==> x in xs
  {
    forall x ensures x in Sort(less, xs) <==> x in xs {
      assert x in Sort(less, xs) <==> x in multiset(Sort(less, xs));
    }
  }

  /** The first rows of a sorted sequence are sorted. */
  lemma TakeSorted(less: (Post, Post) -> bool, s: seq<Post>, n: nat)
    requires Sorted(less, s)
    ensures Sorted(less, Take(s, n))
  {
    var r := Take(s, n);
    forall i, j | 0 <= i < j < |r| ensures less(r[i], r[j]) {
      assert r[i] == s[i] && r[j] == s[j];
    }
  }

  /** Removing the head of a sequence removes one occurrence of it. */
  lemma TailMultiset(s: seq<Post>)
    requires s != []
    ensures multiset(s[1..]) == multiset(s) - multiset{s[0]}
  {
    assert s == [s[0]] + s[1..];
  }

  /** Two strictly ascending arrangements of the same rows start with the same row. */
  lemma SortedHead(less: (Post, Post) -> bool, s: seq<Post>, t: seq<Post>)
    requires s != [] && t != []
    requires StrictOrder(less) && Sorted(less, s) && Sorted(less, t) && multiset(s) == multiset(t)
    ensures s[0] == t[0]
  {
    var a, b := s[0], t[0];
    assert a in multiset(t) && b in multiset(s);
    var j :| 0 <= j < |s| && s[j] == b;
    var k :| 0 <= k < |t| && t[k] == a;
    assert j == 0 || less(a, b);
    assert k == 0 || less(b, a);
  }

  /** Two strictly ascending arrangements of the same rows are the same sequence. */
  lemma {:induction false} SortedUnique(less: (Post, Post) -> bool, s: seq<Post>, t: seq<Post>)
    requires StrictOrder(less) && Sorted(less, s) && Sorted(less, t) && multiset(s) == multiset(t)
    ensures s == t
    decreases |s|
  {
    assert |s| == |multiset(s)| == |multiset(t)| == |t|;
    if s != [] {
      SortedHead(less, s, t);
      TailMultiset(s);
      TailMultiset(t);
      SortedUnique(less, s[1..], t[1..]);
      assert s == [s[0]] + s[1..] && t == [t[0]] + t[1..];
    }
  }

  lemma {:induction false} FilterCount(xs: seq<Post>, keep: Post -> bool, x: Post)
    ensures multiset(Filter(xs, keep))[x] == if keep(x) then multiset(xs)[x] else 0
    decreases |xs|
  {
    if xs != [] {
      var init := xs[..|xs| - 1];
      FilterCount(init, keep, x);
      assert xs == init + [xs[|xs| - 1]];
    }
  }

  /** Filtering two arrangements of the same rows keeps the same rows. */
  lemma FilterPermutation(a: seq<Post>, b: seq<Post>, keep: Post -> bool)
    requires multiset(a) == multiset(b)
    ensures multiset(Filter(a, keep)) == multiset(Filter(b, keep))
  {
    forall x ensures multiset(Filter(a, keep))[x] == multiset(Filter(b, keep))[x] {
      FilterCount(a, keep, x);
      FilterCount(b, keep, x);
    }
  }

  /** Filtering keeps the order of what remains. */
  lemma {:induction false} FilterSorted(less: (Post, Post) -> bool, s: seq<Post>, keep: Post -> bool)
    requires Sorted(less, s)
    ensures Sorted(less, Filter(s, keep))
    decreases |s|
  {
    if s != [] {
      var init, x := s[..|s| - 1], s[|s| - 1];
      FilterSorted(less, init, keep);
      FilterMembers(init, keep);
      forall y | y in Filter(init, keep) ensures less(y, x) {
        var k :| 0 <= k < |init| && init[k] == y;
      }
    }
  }

  lemma {:induction false} FilterComparable(less: (Post, Post) -> bool, s: seq<Post>, keep: Post -> bool)
    requires Comparable(less, s)
    ensures Comparable(less, Filter(s, keep))
    decreases |s|
  {
    if s != [] {
      var init, x := s[..|s| - 1], s[|s| - 1];
      FilterComparable(less, init, keep);
      FilterMembers(init, keep);
      forall y | y in Filter(init, keep) ensures less(y, x) || less(x, y) {
        var k :| 0 <= k < |init| && init[k] == y;
      }
    }
  }

  /** Sorting then filtering equals filtering then sorting: WHERE commutes with ORDER BY. */
  lemma SortFilter(less: (Post, Post) -> bool, xs: seq<Post>, keep: Post -> bool)
    requires StrictOrder(less) && Comparable(less, xs)
    ensures Sort(less, Filter(xs, keep)) == Filter(Sort(less, xs), keep)
  {
    FilterComparable(less, xs, keep);
    SortSorted(less, Filter(xs, keep));
    SortSorted(less, xs);
    FilterSorted(less, Sort(less, xs), keep);
    FilterPermutation(Sort(less, xs), xs, keep);
    SortedUnique(less, Sort(less, Filter(xs, keep)), Filter(Sort(less, xs), keep));
  }

  /** A condition implied by a second one adds nothing once the second is applied. */
  lemma {:induction false} FilterFilter(xs: seq<Post>, weak: Post -> bool, strong: Post -> bool)
    requires forall x :: x in xs && strong(x) ==> weak(x)
    ensures Filter(Filter(xs, weak), strong) == Filter(xs, strong)
    decreases |xs|
  {
    if xs != [] {
      var init, x := xs[..|xs| - 1], xs[|xs| - 1];
      FilterFilter(init, weak, strong);
      var w := Filter(init, weak);
      if weak(x) {
        assert Filter(xs, weak) == w + [x];
        assert (w + [x])[..|w|] == w;
      } else {
        assert Filter(xs, weak) == w;
      }
    }
  }

  /** A condition no row satisfies selects nothing. */
  lemma FilterNothing(xs: seq<Post>, keep: Post -> bool)
    requires forall x :: x in xs ==> !keep(x)
    ensures Filter(xs, keep) == []
  {
    FilterMembers(xs, keep);
    if Filter(xs, keep) != [] {
      assert Filter(xs, keep)[0] in Filter(xs, keep);
    }
  }

  /** Conditions that agree on the rows select the same rows. */
  lemma {:induction false} FilterAgree(xs: seq<Post>, f: Post -> bool, g: Post -> bool)
    requires forall x :: x in xs ==> (f(x) <==> g(x))
    ensures Filter(xs, f) == Filter(xs, g)
    decreases |xs|
  {
    if xs != [] {
      FilterAgree(xs[..|xs| - 1], f, g);
    }
  }

  /** On a sequence where the condition holds from position `k` on, filtering drops the first `k`. */
  lemma {:induction false} FilterSuffix(s: seq<Post>, keep: Post -> bool, k: nat)
    requires k <= |s|
    requires forall i :: 0 <= i < |s| ==> (keep(s[i]) <==> k <= i)
    ensures Filter(s, keep) == s[k..]
    decreases |s|
  {
    if s != [] {
      var init := s[..|s| - 1];
      if k < |s| {
        FilterSuffix(init, keep, k);
        assert s[k..] == init[k..] + [s[|s| - 1]];
      } else {
        FilterSuffix(init, keep, |init|);
      }
    }
  }

  /** On a sequence where the condition holds exactly before position `k`, filtering keeps the first `k`. */
  lemma {:induction false} FilterPrefix(s: seq<Post>, keep: Post -> bool, k: nat)
    requires k <= |s|
    requires forall i :: 0 <= i < |s| ==> (keep(s[i]) <==> i < k)
    ensures Filter(s, keep) == s[..k]
    decreases |s|
  {
    if s != [] {
      var init, last := s[..|s| - 1], s[|s| - 1];
      assert Filter(s, keep) == Filter(init, keep) + (if keep(last) then [last] else []);
      var m := if k == |s| then |init| else k;
      forall i | 0 <= i < |init| ensures keep(init[i]) <==> i < m {
        assert init[i] == s[i];
      }
      FilterPrefix(init, keep, m);
      if k == |s| {
        assert s[..k] == init + [last];
      } else {
        assert init[..k] == s[..k];
      }
    }
  }

  /** The two halves of a sequence cut at `k` join back into it. */
  lemma SliceJoin(s: seq<Post>, k: nat, p: seq<Post>, q: seq<Post>)
    requires k <= |s| && p == s[..k] && q == s[k..]
    ensures p + q == s
  {
  }

  /**
   * The position at which a condition that holds on a prefix of the sequence
   * stops holding.
   */
  lemma Boundary(s: seq<Post>, f: Post -> bool) returns (k: nat)
    requires forall i, j :: 0 <= i < j < |s| && f(s[j]) ==> f(s[i])
    ensures k <= |s|
    ensures forall i :: 0 <= i < |s| ==> (f(s[i]) <==> i < k)
  {
    k := 0;
    while k < |s| && f(s[k])
      invariant k <= |s|
      invariant forall i :: 0 <= i < k ==> f(s[i])
    {
      k := k + 1;
    }
    if k < |s| {
      var stop := s[k];
      assert !f(stop);
      forall i | k < i < |s| ensures !f(s[i]) {
      }
    }
  }

  /** Conditions that hold exactly before, and exactly from, position `k` cut the sequence there. */
  lemma FilterCut(s: seq<Post>, f: Post -> bool, g: Post -> bool, k: nat)
    requires k <= |s|
    requires forall i :: 0 <= i < |s| ==> (f(s[i]) <==> i < k)
    requires forall i :: 0 <= i < |s| ==> (g(s[i]) <==> !f(s[i]))
    ensures Filter(s, f) + Filter(s, g) == s
  {
    FilterPrefix(s, f, k);
    FilterSuffix(s, g, k);
    SliceJoin(s, k, Filter(s, f), Filter(s, g));
  }

  /**
   * A condition that, along the sequence, holds up to some point and fails
   * after it, splits the sequence into what it keeps and what it drops.
   */
  lemma FilterSplit(s: seq<Post>, f: Post -> bool, g: Post -> bool)
    requires forall i, j :: 0 <= i < j < |s| && f(s[j]) ==> f(s[i])
    requires forall i :: 0 <= i < |s| ==> (g(s[i]) <==> !f(s[i]))
    ensures Filter(s, f) + Filter(s, g) == s
  {
    var k := Boundary(s, f);
    FilterCut(s, f, g, k);
  }
}
