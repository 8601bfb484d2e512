# Threaded post retrieval of the forum API, in Dafny

The forum service answers `GET /thread/{slug_or_id}/posts` with one page of a
thread's posts. The request carries four parameters: `limit`, `since`, `desc`
and `sort`. `sort` selects one of three traversals:

- **flat**: posts by id, with `since` as a plain id bound;
- **tree**: posts in depth-first order of their reply paths, with `since`
  naming the post after which the page starts;
- **parent_tree**: whole discussions under one root post at a time. `limit`
  counts root posts rather than rows, and `since` skips the discussion that
  holds the named post and every discussion before it.

The handler writes each traversal as a PostgreSQL statement. The statements
use a recursive query that builds every post's path from its root, array
comparisons, and `dense_rank`. This project states what those statements
compute and proves properties of the result.

Modules, one per file:

- `Wrappers` (wrappers.dfy): `Option` and `Result`.
- `Threads` (threads.dfy): the `Post` row, plus what post creation
  guarantees about one thread's snapshot. Ids are positive and increase in
  creation order (`Snapshot`), and a reply answers an earlier post
  (`ParentsPrecede`).
- `Lex` (lex.dfy): PostgreSQL's ordering of integer arrays (lexicographic,
  with a prefix before its extensions) and its laws.
- `PathIndex` (path_index.dfy):
  - the recursive query that gives every post its path, as a function
    `Index` over the snapshot in creation order;
  - the same computation as the loop `BuildPaths`;
  - proofs that the map is exactly the recursive query's result, and that
    ancestry is strict-prefix order.
- `Queries` (queries.dfy): the request parameters and how the database reads
  them. `Normalize` is the flag-setting code, proved against `Parameters`.
- `Rows` (rows.dfy): `WHERE`, `ORDER BY` and `LIMIT` over rows. These are
  filtering, sorting by a strict order, and taking a prefix. It also proves
  that a strictly sorted arrangement of a multiset is unique.
- `Ordering` (ordering.dfy): the `ORDER BY` of each mode and direction,
  proved to be a strict total order on indexed posts.
- `Planner` (planner.dfy): the page each statement returns. In order, it
  applies the cursor's `WHERE`, the `parent_tree` rank bound (computed after
  the `WHERE`), the `ORDER BY` and the `LIMIT`. It proves the layout each
  mode promises.
- `Pagination` (pagination.dfy): the pagination law. Passing a page's last
  id as the next `since` continues the listing with no gap and no repeat.
- `Handler` (handler.dfy): the whole request. It covers the thread lookup,
  the parameters, the statement for the mode, and the scan loop that copies
  rows into the response. `Respond` and the `ThreadPosts` method follow the
  code as written, including its refusal of a flat request without a limit
  (see "## Findings"). `RespondIntended` is the corrected request, and a
  lemma proves the two differ only there.

## Model

| member | source | states |
|---|---|---|
| `Queries.Normalize` | handlers/handlers.go:436-458 | The flag-setting code yields exactly the query the four raw parameters stand for. |
| `Queries.ParametersMeaning` | handlers/handlers.go:436-458 | A request fails exactly when a present `limit` or `since` is not an integer the database can read; `limit` is reported first. An unknown `sort` is flat: tree iff `"tree"`, parent_tree iff `"parent_tree"`. `desc` holds iff the text is exactly `"true"`. An empty `limit` or `since` is absent; otherwise it carries the value the database reads. |
| `Queries.Parameters` | handlers/handlers.go:436-458 | The query the four raw parameters stand for, as the database reads them; its meaning is stated by `Queries.ParametersMeaning`, and `Queries.Normalize` is proved to compute it. |
| `Queries.ParseNat` | handlers/handlers.go:445-449 | How the database reads a limit: defined exactly for non-empty all-digit text; `Queries.ParseNatDecimal` proves that decimal text reads back as its number. |
| `Queries.ParseInt` | handlers/handlers.go:450-452 | How the database reads a post id: defined exactly for digits or a minus sign followed by digits; `Queries.ParseIntDecimal` proves the round trip. |
| `Queries.ParseNatDecimal` | handlers/handlers.go:445-449 | A limit a client writes in decimal reads back as the same number. |
| `Queries.ParseIntDecimal` | handlers/handlers.go:450-452 | A `since` id a client writes in decimal, negative or not, reads back as the same number. |
| `Queries.FlatLimitAsWritten` | handlers/handlers.go:445-483 | As the code builds the flat `LIMIT`: a present limit works iff it is readable. An absent limit is unbounded only for the ascending query without `since`, and is an error otherwise. |
| `Queries.FlatDefaultLimitRejected` | handlers/handlers.go:462-483 | Flat without a limit fails when descending or when given a cursor; ascending without a cursor is unbounded. |
| `PathIndex.Index` | handlers/handlers.go:507-509 | Path computation succeeds iff every reply answers an earlier post. Its keys are then exactly the thread's ids; a failure names a post of the thread. |
| `PathIndex.BuildPaths` | handlers/handlers.go:507-509 | The single ascending pass computes exactly `Index`, including the error. |
| `PathIndex.PathShape` | handlers/handlers.go:507-509 | A root's path is `[id]`; a reply's path is its parent's path followed by its own id. |
| `PathIndex.IndexIsRecursiveQuery` | handlers/handlers.go:507-509 | A sequence is a row of the recursive query iff it is the computed path of the post it ends at. The map is the query's result and nothing more. |
| `PathIndex.AncestorIffPrefix` | handlers/handlers.go:507-509 | `a` is an ancestor of `b` iff `a`'s path is a strict prefix of `b`'s. |
| `PathIndex.PathDepth` | handlers/handlers.go:507-509 | A path's length minus one is the number of parent links from the post to its root post, and the path starts at that root. |
| `PathIndex.IndexErrorNamesOrphan` | handlers/handlers.go:507-509 | A failure names a reply whose parent is not among the posts created before it. |
| `Lex.LexTotal` | handlers/handlers.go:493-500 | Two different paths are always ordered one way or the other. |
| `Lex.LexTransitive` | handlers/handlers.go:493-500 | Array order is transitive. |
| `Lex.BetweenExtends` | handlers/handlers.go:493-500 | A path between a path and an extension of it also extends it. |
| `Ordering.Before` | handlers/handlers.go:467-526 | Each `ORDER BY`: flat by id (the `created DESC, id DESC` of line 467 read as id order), tree by path with `path DESC` the full reversal, parent_tree by root in the request's direction and then by path ascending. `Ordering.LessIsStrict` and `Ordering.BeforeTotal` prove it a strict total order on indexed posts. |
| `Ordering.LessIsStrict` | handlers/handlers.go:467-526 | Each mode's `ORDER BY` is irreflexive and transitive. |
| `Ordering.BeforeTotal` | handlers/handlers.go:467-526 | Two indexed posts with different ids are always ordered, so `ORDER BY` leaves no tie. |
| `Ordering.IndexWellIndexed` | handlers/handlers.go:507-509 | On a snapshot, every post has its own path, in every mode. |
| `Rows.SortedUnique` | handlers/handlers.go:467-526 | Two strictly sorted arrangements of the same rows are equal, so each statement's order is determined. |
| `Rows.SortFilter` | handlers/handlers.go:532-546 | Filtering rows and then ordering them gives the same as ordering them and then filtering. |
| `Planner.PassesCursor` | handlers/handlers.go:467-528 | The cursor conditions: flat `id > since` / `id < since`; tree path after / before the `since` post's path; parent_tree root after / before its root; in the tree modes a `since` with no path (NULL subquery) admits nothing. `Planner.UnknownCursor` and `Pagination.CursorNarrows` state its properties. |
| `Planner.Rank` | handlers/handlers.go:546 | `dense_rank() over (order by path[1])`: the number of distinct roots, among the rows left by the cursor, not after the row's root. `Planner.RankPositive` and `Planner.RankMonotone` state its properties. |
| `Planner.Page` | handlers/handlers.go:462-549 | The rows each statement returns: cursor `WHERE`, then for parent_tree the rank bound over what is left, then `ORDER BY`, then for flat and tree `LIMIT`. Its properties are the `Planner` lemmas below. |
| `Planner.PageSorted` | handlers/handlers.go:462-549 | Every page is listed strictly in its mode's order, so no row repeats. |
| `Planner.PageMembers` | handlers/handlers.go:462-549 | Every listed row is a thread post that passes the cursor. Without a limit, each such post is listed exactly once. In parent_tree with a limit, a post is listed iff it passes the cursor and its root's rank is within the limit. |
| `Planner.FirstRows` | handlers/handlers.go:462-512 | In flat and tree, a bounded page is the first `min(limit, eligible)` rows of the unbounded listing. |
| `Planner.UnknownCursor` | handlers/handlers.go:495-528 | In the tree modes, a `since` with no path gives an empty page. |
| `Planner.ZeroLimit` | handlers/handlers.go:505-533 | `limit=0` gives an empty page in every mode. |
| `Planner.RankPositive` | handlers/handlers.go:546 | `dense_rank` of a listed row is at least one. |
| `Planner.RankMonotone` | handlers/handlers.go:546 | A row whose root is not after another row's root has a rank no greater. |
| `Planner.FlatLayout` | handlers/handlers.go:462-487 | Flat ids strictly ascend, or strictly descend when `desc`. |
| `Planner.TreeLayout` | handlers/handlers.go:488-512 | Tree paths strictly ascend (descend when `desc`). An ancestor precedes its descendants (follows them when `desc`), and a subtree is contiguous. |
| `Planner.ParentTreeLayout` | handlers/handlers.go:513-549 | In parent_tree, roots ascend (descend when `desc`). Each root's group is contiguous, and within it paths ascend in both directions. |
| `Planner.ParentTreeClosed` | handlers/handlers.go:532-546 | A bounded parent_tree page holds the whole eligible group of every root it lists, and of every root before it. |
| `Planner.ParentTreeRootBound` | handlers/handlers.go:532-546 | A parent_tree page bounded by `n` spans at most `n` roots. |
| `Planner.NonEmptyPage` | handlers/handlers.go:462-549 | With a positive limit, a page is empty iff no post passes the cursor. |
| `Pagination.CursorNarrows` | handlers/handlers.go:467-528 | A cursor at a row the first cursor admits admits only rows the first cursor admits. |
| `Pagination.PageThenRest` | handlers/handlers.go:467-528 | A non-empty page followed by the unbounded listing from its last id is the unbounded listing from the original cursor. |
| `Pagination.PagesAreListing` | handlers/handlers.go:467-528 | With any positive limit, the pages collected by following the cursor join to the unbounded listing, in order. |
| `Handler.Listing` | handlers/handlers.go:462-549 | The rows a statement returns once the database accepts it (an absent limit read as no bound, as intended; the code's refusal of it is in `Handler.Respond`). Flat never reads paths; a tree mode fails iff some reply answers no earlier post, and the failure names such a reply. |
| `Handler.Respond` | handlers/handlers.go:421-555 | The request as the code answers it: 404 iff there is no thread; 500 iff a parameter is unreadable or a flat request has no limit and is descending or has a `since` (the " ALL" bound); the malformed answer iff a tree mode meets an orphan reply; otherwise the listed rows are exactly the statement's rows. |
| `Handler.RespondIntended` | handlers/handlers.go:421-555 | The request with an absent limit as no bound: 500 iff a parameter is unreadable; otherwise the same answers, listing the statement's rows. |
| `Handler.AsWrittenDiffersOnlyThere` | handlers/handlers.go:445-483 | The code and the intended handler agree on every request except a flat one without a limit that is descending or has a `since`, where the code answers 500 and the intended handler lists rows. |
| `Handler.DescendingFlatWithoutLimitFails` | handlers/handlers.go:467-471 | Concretely: `sort=flat&desc=true` without a limit on an empty thread answers 500, where an empty list is meant. |
| `Handler.ThreadPosts` | handlers/handlers.go:421-589 | The handler, step by step (lookup, parameters, path pass, statement, scan loop), answers exactly what `Respond` specifies, including the 500 for the refused flat limit. |
| `Handler.ScanRows` | handlers/handlers.go:558-581 | The scan loop copies every returned row, in order. |
| `Handler.ListedRows` | handlers/handlers.go:462-549 | On a snapshot, every mode's statement returns thread posts that pass the cursor, strictly in the mode's order. |
| `Handler.UnknownSince` | handlers/handlers.go:495-528 | In the tree modes, a `since` that is not a post of the thread lists nothing. |
| `Handler.RepliesFollowAncestors` | handlers/handlers.go:488-512 | In tree mode, a post is listed before every reply below it (after, when `desc`), whatever the cursor and the limit. |
| `Handler.SubtreesContiguous` | handlers/handlers.go:488-512 | In tree mode, every row listed between a post and a reply below it also lies below that post. |
| `Handler.FollowingCursorListsAll` | handlers/handlers.go:467-528 | Paging with any positive limit, each page's last id passed as the next `since`, collects exactly the rows of one unbounded request, in order. |

## Left out

- The thread lookup by slug or id (`getThread`, handlers/handlers.go:429-434) is a parameter. The model takes the thread's posts, or None when there is no such thread.
- HTTP status codes and the JSON body are the `Response` datatype. Logging is omitted.
- The error branches of the row scan (handlers/handlers.go:564-577) are not modelled. Model rows always have the right shape.
- The SQL text itself (the fragments assembled at handlers/handlers.go:489-506 and 516-534) is not modelled; what each statement computes is.
  - `since` is spliced into the tree statements as text. The model reads it as an integer and answers any other value with the 500 response. Injection through that text is not modelled.
- `ParseNat`/`ParseInt` accept only plain decimal digits, with an optional minus sign for `since`. PostgreSQL also accepts surrounding blanks and a plus sign, and rejects values beyond 64 bits. The model answers the first two with 500 and has no 64-bit bound.
- `limit` is also spliced as SQL text: in flat ascending without a cursor (handlers/handlers.go:482), in tree (505) and in parent_tree (533). So some non-numeric texts are accepted there. For example, `sort=tree&limit=ALL` lists every row, and `sort=parent_tree&limit=null` lists nothing (`r <= null`). The model reads every limit as a decimal number and answers any other text with 500.
- A negative `limit` is answered with 500 in every mode. PostgreSQL also rejects a negative `LIMIT` in flat and tree. In parent_tree the spliced `r <= -1` would instead give an empty page.
- Flat descending with a cursor orders by `created DESC, id DESC`. Ids follow creation, so the model uses id order.
- A tree mode over a reply whose parent is not an earlier post of the thread yields `Malformed` (naming such a reply). The recursive query behaves differently in two cases. A reply whose parent is missing from the thread is dropped silently, with its subtree. A reply whose parent is a later post is resolved: the join at handlers/handlers.go:509 does not depend on creation order. The model rejects both. Post creation lets neither happen.
- The recursive step of the query joins on `parent` alone, without the thread. The model takes one thread's snapshot and assumes post creation kept parents within the thread.
- `ORDER BY` is the specification function `Rows.Sort`. The handler has no sort loop of its own; the database sorts.
- Concurrent writes are not modelled. A request sees one snapshot of the thread.
- `Pagination.Pages` describes a client's repeated requests. It is a ghost function, not part of the handler.
- Other handlers, post creation, the database connection and routing are not part of this model.

## Findings

| source | as written | input that shows it | evidently intended | confidence | as-written member | corrected member |
|---|---|---|---|---|---|---|
| handlers/handlers.go:445-479 | An absent `limit` becomes the text `" ALL"`. The flat queries at lines 467, 471 and 479 bind that text as the integer parameter `$2`, which the database cannot read. | `sort=flat&desc=true` without `limit`, or `sort=flat&since=5` without `limit` | No bound, as the ascending query at line 483 gets by splicing the same text into `LIMIT ALL` | high; not executed | `Handler.Respond` | `Handler.RespondIntended` |
