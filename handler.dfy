/**
 * The thread-posts request from end to end: the thread lookup, the
 * parameters, the statement for the selected mode, and the copy of the
 * returned rows into the response.
 */
module Handler {
  import opened Wrappers
  import opened Threads
  import opened Lex
  import opened Queries
  import opened PathIndex
  import opened Rows
  import opened Ordering
  import opened Planner
  import opened Pagination

  /** What the handler answers. */
  datatype Response =
    | NotFound                  // no thread with that slug or id: 404
    | InternalError             // the database refused the statement: 500
    | Malformed(postId: int)    // a tree mode over a reply whose parent is not an earlier post
    | Listed(rows: seq<Post>)   // the rows, in order, as the JSON array

  /** The order a query lists rows in; the tree modes read the thread's paths. */
  function OrderFor(posts: seq<Post>, q: Query): (o: Order)
    requires q.mode == Flat || Index(posts).Ok?
    ensures o.mode == q.mode && o.desc == q.desc
    ensures q.mode != Flat ==> o.paths.Keys == Ids(posts)
  {
    Order(q.mode, q.desc, if q.mode == Flat then map[] else Index(posts).value)
  }

  /**
   * The rows one statement returns for a thread once the database accepts
   * it, an absent limit meaning no bound. Flat never reads paths, so it
   * never fails here; the tree modes fail exactly when some reply does not
   * answer an earlier post, and then name such a reply.
   */
  function Listing(posts: seq<Post>, q: Query): (r: Result<seq<Post>, IndexError>)
    ensures q.mode == Flat ==> r.Ok?
    ensures r.Err? <==> q.mode != Flat && !ParentsPrecede(posts)
    ensures r.Err? ==> exists i :: OrphanAt(posts, i) && posts[i].id == r.error.postId
  {
    if q.mode != Flat && Index(posts).Err? then
      IndexErrorNamesOrphan(posts);
      Err(Index(posts).error)
    else
      Ok(Page(OrderFor(posts, q), posts, q.since, q.limit))
  }

  /**
   * A flat request the code refuses: no `limit`, and descending or with a
   * `since`, so the text " ALL" is bound as the integer LIMIT.
   */
  predicate FlatLimitRefused(limitVal: string, sinceVal: string, descVal: string, sortVal: string)
  {
    SortMode(sortVal) == Flat && limitVal == "" && (descVal == "true" || sinceVal != "")
  }

  /**
   * The whole request as the code answers it: `thread` is the lookup's
   * result (None when no thread matches), the four strings are the raw
   * query parameters.
   */
  function Respond(thread: Option<seq<Post>>, limitVal: string, sinceVal: string, descVal: string, sortVal: string): (r: Response)
    ensures thread.None? <==> r == NotFound
    ensures r == InternalError <==>
      thread.Some? &&
      (Parameters(limitVal, sinceVal, descVal, sortVal).Err? || FlatLimitRefused(limitVal, sinceVal, descVal, sortVal))
    ensures r.Malformed? <==>
      thread.Some? && Parameters(limitVal, sinceVal, descVal, sortVal).Ok? &&
      SortMode(sortVal) != Flat && !ParentsPrecede(thread.value)
    ensures r.Listed? <==>
      thread.Some? && Parameters(limitVal, sinceVal, descVal, sortVal).Ok? &&
      (SortMode(sortVal) == Flat || ParentsPrecede(thread.value)) && !FlatLimitRefused(limitVal, sinceVal, descVal, sortVal)
    ensures r.Listed? ==>
      Parameters(limitVal, sinceVal, descVal, sortVal).Ok? &&
      Listing(thread.value, Parameters(limitVal, sinceVal, descVal, sortVal).value) == Ok(r.rows)
  {
    match thread
    case None => NotFound
    case Some(posts) =>
      match Parameters(limitVal, sinceVal, descVal, sortVal)
      case Err(_) => InternalError
      case Ok(q) =>
        if q.mode == Flat && FlatLimitAsWritten(limitVal, q.since.Some?, q.desc).Err? then InternalError
        else
          match Listing(posts, q)
          case Err(e) => Malformed(e.postId)
          case Ok(rows) => Listed(rows)
  }

  /**
   * The request as evidently intended: an absent limit is no bound in every
   * flat query, so only an unreadable parameter is refused.
   */
  function RespondIntended(thread: Option<seq<Post>>, limitVal: string, sinceVal: string, descVal: string, sortVal: string): (r: Response)
    ensures thread.None? <==> r == NotFound
    ensures r == InternalError <==> thread.Some? && Parameters(limitVal, sinceVal, descVal, sortVal).Err?
    ensures r.Malformed? <==>
      thread.Some? && Parameters(limitVal, sinceVal, descVal, sortVal).Ok? &&
      SortMode(sortVal) != Flat && !ParentsPrecede(thread.value)
    ensures r.Listed? ==>
      Parameters(limitVal, sinceVal, descVal, sortVal).Ok? &&
      Listing(thread.value, Parameters(limitVal, sinceVal, descVal, sortVal).value) == Ok(r.rows)
  {
    match thread
    case None => NotFound
    case Some(posts) =>
      match Parameters(limitVal, sinceVal, descVal, sortVal)
      case Err(_) => InternalError
      case Ok(q) =>
        match Listing(posts, q)
        case Err(e) => Malformed(e.postId)
        case Ok(rows) => Listed(rows)
  }

  /**
   * The code and the intended handler answer alike except on a flat
   * request without a limit that is descending or has a cursor: there the
   * code answers 500 and the intended handler lists the rows.
   */
  lemma AsWrittenDiffersOnlyThere(thread: Option<seq<Post>>, limitVal: string, sinceVal: string, descVal: string, sortVal: string)
    ensures var asWritten, intended :=
        Respond(thread, limitVal, sinceVal, descVal, sortVal), RespondIntended(thread, limitVal, sinceVal, descVal, sortVal);
      if thread.Some? && Parameters(limitVal, sinceVal, descVal, sortVal).Ok? && FlatLimitRefused(limitVal, sinceVal, descVal, sortVal)
      then asWritten == InternalError && intended.Listed?
      else asWritten == intended
  {
  }

  /** An empty thread, descending, no limit: the code answers 500 where an empty list is meant. */
  lemma DescendingFlatWithoutLimitFails()
    ensures Respond(Some([]), "", "", "true", "flat") == InternalError
    ensures RespondIntended(Some([]), "", "", "true", "flat") == Listed([])
  {
    AsWrittenDiffersOnlyThere(Some([]), "", "", "true", "flat");
  }

  /**
   * The handler as written: look the thread up, normalise the parameters,
   * check the flat LIMIT the code binds, run the statement for the mode,
   * then append the returned rows one by one to the response.
   */
  method ThreadPosts(thread: Option<seq<Post>>, limitVal: string, sinceVal: string, descVal: string, sortVal: string)
    returns (r: Response)
    ensures r == Respond(thread, limitVal, sinceVal, descVal, sortVal)
  {
    if thread.None? {
      return NotFound;
    }
    var posts := thread.value;
    var parsed := Normalize(limitVal, sinceVal, descVal, sortVal);
    if parsed.Err? {
      return InternalError;
    }
    var q := parsed.value;
    var o: Order;
    if q.mode == Flat {
      var bound := FlatLimitAsWritten(limitVal, q.since.Some?, q.desc);
      if bound.Err? {
        return InternalError;
      }
      o := Order(Flat, q.desc, map[]);
    } else {
      var paths := BuildPaths(posts);
      if paths.Err? {
        IndexErrorNamesOrphan(posts);
        return Malformed(paths.error.postId);
      }
      o := Order(q.mode, q.desc, paths.value);
    }
    assert o == OrderFor(posts, q);
    var rows := Page(o, posts, q.since, q.limit);
    assert Listing(posts, q) == Ok(rows);
    var out := ScanRows(rows);
    return Listed(out);
  }

  /** The scan loop: every row the statement returns is appended to the response, in order. */
  method ScanRows(rows: seq<Post>) returns (out: seq<Post>)
    ensures out == rows
  {
    out := [];
    var i := 0;
    while i < |rows|
      invariant 0 <= i <= |rows|
      invariant out == rows[..i]
    {
      out := out + [rows[i]];
      i := i + 1;
    }
    assert rows[..i] == rows;
  }

  /** The order of a query over a snapshot whose paths were computed ranks every post. */
  lemma SnapshotWellIndexed(posts: seq<Post>, q: Query)
    requires Snapshot(posts) && (q.mode == Flat || Index(posts).Ok?)
    ensures WellIndexed(OrderFor(posts, q), posts)
  {
    if q.mode != Flat {
      IndexWellIndexed(posts, q.mode, q.desc);
    } else {
      SnapshotDistinct(posts);
    }
  }

  /**
   * On a snapshot whose replies all answer earlier posts, every mode lists
   * rows of the thread, each at most once, strictly in the mode's order.
   */
  lemma ListedRows(posts: seq<Post>, q: Query)
    requires Snapshot(posts) && ParentsPrecede(posts)
    ensures Listing(posts, q).Ok?
    ensures var rows := Listing(posts, q).value;
      && Sorted(Less(OrderFor(posts, q)), rows)
      && (forall p :: p in rows ==> p in posts && Admits(OrderFor(posts, q), q.since, p))
  {
    var o := OrderFor(posts, q);
    SnapshotWellIndexed(posts, q);
    PageSorted(o, posts, q.since, q.limit);
    PageMembers(o, posts, q.since, q.limit);
  }

  /** In the tree modes, a cursor that is not a post of the thread lists nothing. */
  lemma UnknownSince(posts: seq<Post>, q: Query)
    requires q.mode != Flat && ParentsPrecede(posts)
    requires q.since.Some? && q.since.value !in Ids(posts)
    ensures Listing(posts, q) == Ok([])
  {
    UnknownCursor(OrderFor(posts, q), posts, q.since.value, q.limit);
  }

  /**
   * tree: a post is listed before every reply below it, and after them when
   * descending, whatever the cursor and the limit.
   */
  lemma RepliesFollowAncestors(posts: seq<Post>, q: Query)
    requires q.mode == Tree && Snapshot(posts) && ParentsPrecede(posts)
    ensures var rows := Listing(posts, q).value;
      forall i, j :: 0 <= i < |rows| && 0 <= j < |rows| && IsAncestor(ParentMap(posts), rows[i].id, rows[j].id) ==>
        if q.desc then j < i else i < j
  {
    var o := OrderFor(posts, q);
    SnapshotWellIndexed(posts, q);
    TreeLayout(o, posts, q.since, q.limit);
    PageOwnPaths(o, posts, q.since, q.limit);
    AncestryIsPrefix(posts);
  }

  /**
   * tree: between a post and a reply below it, every listed row is below
   * that post too, so a subtree is never interleaved with other rows.
   */
  lemma SubtreesContiguous(posts: seq<Post>, q: Query)
    requires q.mode == Tree && Snapshot(posts) && ParentsPrecede(posts)
    ensures var rows := Listing(posts, q).value;
      forall i, j, k :: 0 <= i < j < k < |rows| ==>
        (!q.desc && IsAncestor(ParentMap(posts), rows[i].id, rows[k].id) ==> IsAncestor(ParentMap(posts), rows[i].id, rows[j].id)) &&
        (q.desc && IsAncestor(ParentMap(posts), rows[k].id, rows[i].id) ==> IsAncestor(ParentMap(posts), rows[k].id, rows[j].id))
  {
    var o := OrderFor(posts, q);
    SnapshotWellIndexed(posts, q);
    TreeLayout(o, posts, q.since, q.limit);
    PageOwnPaths(o, posts, q.since, q.limit);
    AncestryIsPrefix(posts);
  }

  /**
   * A client that asks for pages of `n` rows, passing each page's last id
   * as the next `since`, collects exactly the rows of one request without a
   * limit, in the same order.
   */
  lemma FollowingCursorListsAll(posts: seq<Post>, q: Query, n: nat)
    requires Snapshot(posts) && ParentsPrecede(posts) && n > 0
    ensures WellIndexed(OrderFor(posts, q), posts)
    ensures Pages(OrderFor(posts, q), posts, q.since, n) == Listing(posts, q.(limit := None)).value
  {
    SnapshotWellIndexed(posts, q);
    PagesAreListing(OrderFor(posts, q), posts, q.since, n);
  }
}
