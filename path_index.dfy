/**
 * The path indexer: the materialised path of every post of one thread, as the
 * recursive query `post_tree` builds it. A root post (parent 0) has the path
 * [id]; a reply has its parent's path with its own id appended.
 */
module PathIndex {
  import opened Wrappers
  import opened Threads
  import opened Lex

  type Paths = map<int, seq<int>>

  /** A reply whose parent is not an earlier post of the same thread. */
  datatype IndexError = MalformedTree(postId: int)

  /** The parent of every post, by id. */
  function ParentMap(posts: seq<Post>): map<int, int>
    decreases |posts|
  {
    if posts == [] then map[]
    else ParentMap(posts[..|posts| - 1])[posts[|posts| - 1].id := posts[|posts| - 1].parent]
  }

  /**
   * A row of the recursive query: the path starts at a root post of the
   * thread and every later entry is a post whose parent is the entry before it.
   */
  predicate IsPath(pm: map<int, int>, path: seq<int>)
  {
    && |path| > 0
    && path[0] in pm && pm[path[0]] == 0
    && forall k :: 0 < k < |path| ==> path[k] in pm && pm[path[k]] == path[k - 1]
  }

  /** Walking `k` parent links up from `id`; 0 once the walk leaves the thread. */
  function Up(pm: map<int, int>, id: int, k: nat): int
    decreases k
  {
    if k == 0 then id
    else if id in pm then Up(pm, pm[id], k - 1)
    else 0
  }

  /** `a` is reached from `b` by one or more parent links. */
  ghost predicate IsAncestor(pm: map<int, int>, a: int, b: int)
  {
    a in pm && exists k: nat :: 1 <= k && Up(pm, b, k) == a
  }

  lemma ParentsPrecedeSnoc(posts: seq<Post>)
    requires posts != []
    ensures var init, p := posts[..|posts| - 1], posts[|posts| - 1];
      ParentsPrecede(posts) <==> ParentsPrecede(init) && (p.parent == 0 || p.parent in Ids(init))
  {
    var init := posts[..|posts| - 1];
    forall i | 0 <= i < |init| ensures init[..i] == posts[..i] {}
  }

  lemma IdsSnoc(posts: seq<Post>)
    requires posts != []
    ensures Ids(posts) == Ids(posts[..|posts| - 1]) + {posts[|posts| - 1].id}
  {
    assert posts == posts[..|posts| - 1] + [posts[|posts| - 1]];
  }

  /**
   * The paths of all posts, computed in one pass in storage order; fails on
   * the first reply whose parent is not an earlier post of the thread.
   */
  function Index(posts: seq<Post>): (r: Result<Paths, IndexError>)
    ensures r.Ok? <==> ParentsPrecede(posts)
    ensures r.Ok? ==> r.value.Keys == Ids(posts)
    ensures r.Err? ==> r.error.postId in Ids(posts)
    decreases |posts|
  {
    if posts == [] then Ok(map[])
    else
      var init, p := posts[..|posts| - 1], posts[|posts| - 1];
      ParentsPrecedeSnoc(posts);
      IdsSnoc(posts);
      match Index(init)
      case Err(e) => Err(e)
      case Ok(m) =>
        if p.parent == 0 then Ok(m[p.id := [p.id]])
        else if p.parent in m then Ok(m[p.id := m[p.parent] + [p.id]])
        else Err(MalformedTree(p.id))
  }

  /** Once a prefix of the snapshot fails, the whole snapshot fails the same way. */
  lemma {:induction false} IndexErrSticky(posts: seq<Post>, j: nat)
    requires j <= |posts| && Index(posts[..j]).Err?
    ensures Index(posts) == Index(posts[..j])
    decreases |posts| - j
  {
    if j < |posts| {
      var init := posts[..|posts| - 1];
      assert init[..j] == posts[..j];
      IndexErrSticky(init, j);
      assert posts[..|posts|] == posts;
    } else {
      assert posts[..j] == posts;
    }
  }

  /**
   * The single ascending pass that fills the id-to-path map; a reply whose
   * parent has no path yet stops the pass with an error.
   */
  method BuildPaths(posts: seq<Post>) returns (r: Result<Paths, IndexError>)
    ensures r == Index(posts)
  {
    var m: Paths := map[];
    var i := 0;
    while i < |posts|
      invariant 0 <= i <= |posts|
      invariant Index(posts[..i]) == Ok(m)
    {
      var p := posts[i];
      assert posts[..i + 1][..i] == posts[..i];
      if p.parent == 0 {
        m := m[p.id := [p.id]];
      } else if p.parent in m {
        m := m[p.id := m[p.parent] + [p.id]];
      } else {
        IndexErrSticky(posts, i + 1);
        return Err(MalformedTree(p.id));
      }
      i := i + 1;
    }
    assert posts[..i] == posts;
    return Ok(m);
  }

  lemma {:induction false} ParentMapOfSnapshot(posts: seq<Post>)
    requires Snapshot(posts)
    ensures ParentMap(posts).Keys == Ids(posts)
    ensures forall i :: 0 <= i < |posts| ==> ParentMap(posts)[posts[i].id] == posts[i].parent
    decreases |posts|
  {
    if posts != [] {
      var init := posts[..|posts| - 1];
      ParentMapOfSnapshot(init);
      IdsSnoc(posts);
    }
  }

  /** One step of the pass: the last post's path extends the map of the earlier ones. */
  lemma IndexSnoc(posts: seq<Post>)
    requires posts != [] && Index(posts).Ok?
    ensures var init, p := posts[..|posts| - 1], posts[|posts| - 1];
      && Index(init).Ok?
      && (p.parent != 0 ==> p.parent in Index(init).value)
      && Index(posts).value == Index(init).value[p.id :=
           if p.parent == 0 then [p.id] else Index(init).value[p.parent] + [p.id]]
  {
  }

  lemma SnapshotSnoc(posts: seq<Post>)
    requires posts != [] && Snapshot(posts)
    ensures Snapshot(posts[..|posts| - 1])
    ensures posts[|posts| - 1].id !in Ids(posts[..|posts| - 1])
    ensures posts[|posts| - 1].id > 0
  {
  }

  /**
   * The shape of every path: a root's path is [id], a reply's path is its
   * parent's path followed by its own id.
   */
  lemma {:induction false} PathShape(posts: seq<Post>)
    requires Snapshot(posts) && Index(posts).Ok?
    ensures var m := Index(posts).value;
      forall i :: 0 <= i < |posts| ==>
        m[posts[i].id] == if posts[i].parent == 0 then [posts[i].id] else m[posts[i].parent] + [posts[i].id]
    decreases |posts|
  {
    if posts != [] {
      var init, p := posts[..|posts| - 1], posts[|posts| - 1];
      IndexSnoc(posts);
      SnapshotSnoc(posts);
      PathShape(init);
      var m0, m := Index(init).value, Index(posts).value;
      forall i | 0 <= i < |posts|
        ensures m[posts[i].id] == if posts[i].parent == 0 then [posts[i].id] else m[posts[i].parent] + [posts[i].id]
      {
        if i < |posts| - 1 {
          assert posts[i] == init[i];
          assert init[i].id in Ids(init);
          if posts[i].parent != 0 {
            ParentsPrecedeSnoc(posts);
            assert ParentsPrecede(init);
            assert init[..i] <= init;
            assert posts[i].parent in Ids(init);
          }
        }
      }
    }
  }

  /** Every computed path is a row of the recursive query ending at its own id. */
  lemma {:induction false} IndexedPathsAreRows(posts: seq<Post>)
    requires Snapshot(posts) && Index(posts).Ok?
    ensures var m, pm := Index(posts).value, ParentMap(posts);
      forall id :: id in m ==> IsPath(pm, m[id]) && m[id][|m[id]| - 1] == id
    decreases |posts|
  {
    if posts != [] {
      var init, p := posts[..|posts| - 1], posts[|posts| - 1];
      IndexSnoc(posts);
      SnapshotSnoc(posts);
      IndexedPathsAreRows(init);
      ParentMapOfSnapshot(init);
      RowsStep(Index(init).value, ParentMap(init), p);
    }
  }

  lemma RowsStep(m0: Paths, pm0: map<int, int>, p: Post)
    requires forall id :: id in m0 ==> IsPath(pm0, m0[id]) && m0[id][|m0[id]| - 1] == id
    requires p.id !in pm0 && (p.parent != 0 ==> p.parent in m0)
    ensures var m := m0[p.id := if p.parent == 0 then [p.id] else m0[p.parent] + [p.id]];
      forall id :: id in m ==> IsPath(pm0[p.id := p.parent], m[id]) && m[id][|m[id]| - 1] == id
  {
    forall id | id in m0 {
      PathGrows(pm0, p.id, p.parent, m0[id]);
    }
  }

  lemma PathGrows(pm: map<int, int>, id: int, parent: int, path: seq<int>)
    requires id !in pm && IsPath(pm, path)
    ensures IsPath(pm[id := parent], path)
    ensures path[|path| - 1] == parent ==> IsPath(pm[id := parent], path + [id])
  {
    forall k | 0 <= k < |path| ensures path[k] != id {
      assert path[k] in pm;
    }
  }

  /** Parent links determine paths: two rows ending at the same post are equal. */
  lemma {:induction false} PathUnique(pm: map<int, int>, a: seq<int>, b: seq<int>)
    requires 0 !in pm && IsPath(pm, a) && IsPath(pm, b) && a[|a| - 1] == b[|b| - 1]
    ensures a == b
    decreases |a|
  {
    if |a| == 1 || |b| == 1 {
      if |a| != |b| {
        ReplyIsNotRoot(pm, if |a| > 1 then a else b);
        assert false;
      }
    } else {
      var a', b' := a[..|a| - 1], b[..|b| - 1];
      PathUnique(pm, a', b');
      assert a == a' + [a[|a| - 1]] && b == b' + [b[|b| - 1]];
    }
  }

  /** A path of two or more entries ends at a reply, never at a root. */
  lemma ReplyIsNotRoot(pm: map<int, int>, c: seq<int>)
    requires 0 !in pm && IsPath(pm, c) && |c| > 1
    ensures pm[c[|c| - 1]] != 0
  {
    assert c[|c| - 2] in pm;
  }

  /**
   * The map is exactly the recursive query's result: every computed path is
   * a row, and every row is the computed path of the post it ends at.
   */
  lemma IndexIsRecursiveQuery(posts: seq<Post>)
    requires Snapshot(posts) && Index(posts).Ok?
    ensures var m, pm := Index(posts).value, ParentMap(posts);
      forall path :: IsPath(pm, path) <==> path != [] && path[|path| - 1] in m && m[path[|path| - 1]] == path
  {
    var m, pm := Index(posts).value, ParentMap(posts);
    IndexedPathsAreRows(posts);
    ParentMapOfSnapshot(posts);
    SnapshotDistinct(posts);
    forall path | IsPath(pm, path)
      ensures path[|path| - 1] in m && m[path[|path| - 1]] == path
    {
      var id := path[|path| - 1];
      assert id in pm;
      PathUnique(pm, m[id], path);
    }
  }

  lemma {:induction false} UpAlongPath(pm: map<int, int>, path: seq<int>, k: nat)
    requires 0 !in pm && IsPath(pm, path)
    ensures Up(pm, path[|path| - 1], k) == if k < |path| then path[|path| - 1 - k] else 0
    decreases k
  {
    if k > 0 {
      var n := |path|;
      if n == 1 {
        assert Up(pm, 0, k - 1) == 0;
      } else {
        var init := path[..n - 1];
        assert IsPath(pm, init);
        UpAlongPath(pm, init, k - 1);
      }
    }
  }

  /** The facts about the paths map that the ancestry lemmas rest on. */
  predicate PathsAreRows(pm: map<int, int>, m: Paths)
  {
    && 0 !in pm
    && forall id :: id in m ==> IsPath(pm, m[id]) && m[id][|m[id]| - 1] == id
  }

  lemma IndexPathsAreRows(posts: seq<Post>)
    requires Snapshot(posts) && Index(posts).Ok?
    ensures PathsAreRows(ParentMap(posts), Index(posts).value)
  {
    IndexedPathsAreRows(posts);
    ParentMapOfSnapshot(posts);
    SnapshotDistinct(posts);
  }

  /** `a` is an ancestor of `b` exactly when `a`'s path is a strict prefix of `b`'s. */
  lemma AncestorIffPrefix(posts: seq<Post>, a: int, b: int)
    requires Snapshot(posts) && Index(posts).Ok?
    requires a in Index(posts).value && b in Index(posts).value
    ensures var m := Index(posts).value;
      IsAncestor(ParentMap(posts), a, b) <==> IsStrictPrefix(m[a], m[b])
  {
    IndexPathsAreRows(posts);
    AncestorIffPrefixOfRows(ParentMap(posts), Index(posts).value, a, b);
  }

  /** The same, for every pair of posts of the thread at once. */
  lemma AncestryIsPrefix(posts: seq<Post>)
    requires Snapshot(posts) && Index(posts).Ok?
    ensures var m := Index(posts).value;
      forall a, b :: a in m && b in m ==> (IsAncestor(ParentMap(posts), a, b) <==> IsStrictPrefix(m[a], m[b]))
  {
    var m := Index(posts).value;
    forall a, b | a in m && b in m ensures IsAncestor(ParentMap(posts), a, b) <==> IsStrictPrefix(m[a], m[b]) {
      AncestorIffPrefix(posts, a, b);
    }
  }

  lemma AncestorIffPrefixOfRows(pm: map<int, int>, m: Paths, a: int, b: int)
    requires PathsAreRows(pm, m) && a in m && b in m
    ensures IsAncestor(pm, a, b) <==> IsStrictPrefix(m[a], m[b])
  {
    var pa, pb := m[a], m[b];
    assert IsPath(pm, pa) && IsPath(pm, pb);
    if IsAncestor(pm, a, b) {
      var k: nat :| 1 <= k && Up(pm, b, k) == a;
      UpAlongPath(pm, pb, k);
      assert a != 0;
      var cut := pb[..|pb| - k];
      assert IsPath(pm, cut);
      PathUnique(pm, cut, pa);
    }
    if IsStrictPrefix(pa, pb) {
      var k: nat := |pb| - |pa|;
      UpAlongPath(pm, pb, k);
      assert Up(pm, b, k) == a;
    }
  }

  /**
   * A path's length minus one is the post's depth: exactly that many parent
   * links lead from the post up to a root post, and the root is the path's head.
   */
  lemma PathDepth(posts: seq<Post>, id: int)
    requires Snapshot(posts) && Index(posts).Ok? && id in Index(posts).value
    ensures var m, pm := Index(posts).value, ParentMap(posts);
      && |m[id]| > 0
      && Up(pm, id, |m[id]| - 1) == m[id][0]
      && forall k: nat :: (Up(pm, id, k) in pm && pm[Up(pm, id, k)] == 0) <==> k == |m[id]| - 1
  {
    IndexPathsAreRows(posts);
    PathDepthOfRows(ParentMap(posts), Index(posts).value, id);
  }

  lemma PathDepthOfRows(pm: map<int, int>, m: Paths, id: int)
    requires PathsAreRows(pm, m) && id in m
    ensures |m[id]| > 0
    ensures Up(pm, id, |m[id]| - 1) == m[id][0]
    ensures forall k: nat :: (Up(pm, id, k) in pm && pm[Up(pm, id, k)] == 0) <==> k == |m[id]| - 1
  {
    var path := m[id];
    assert IsPath(pm, path);
    forall k: nat ensures (Up(pm, id, k) in pm && pm[Up(pm, id, k)] == 0) <==> k == |path| - 1 {
      UpAlongPath(pm, path, k);
      if k < |path| - 1 {
        assert path[|path| - 2 - k] in pm;
      }
    }
    UpAlongPath(pm, path, |path| - 1);
  }

  /** The post at position `i` answers a post that was not created before it. */
  predicate OrphanAt(posts: seq<Post>, i: int)
  {
    0 <= i < |posts| && posts[i].parent != 0 && posts[i].parent !in Ids(posts[..i])
  }

  /** A failure names a reply whose parent is not among the posts created before it. */
  lemma {:induction false} IndexErrorNamesOrphan(posts: seq<Post>)
    requires Index(posts).Err?
    ensures exists i :: OrphanAt(posts, i) && posts[i].id == Index(posts).error.postId
    decreases |posts|
  {
    var n := |posts|;
    var init, p := posts[..n - 1], posts[n - 1];
    if Index(init).Err? {
      assert Index(posts) == Index(init);
      IndexErrorNamesOrphan(init);
      var i :| OrphanAt(init, i) && init[i].id == Index(init).error.postId;
      assert init[..i] == posts[..i];
      assert OrphanAt(posts, i);
    } else {
      var m := Index(init).value;
      assert p.parent != 0 && p.parent !in m;
      assert OrphanAt(posts, n - 1);
    }
  }
}
