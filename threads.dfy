/**
 * Rows of the posts table, as the retrieval of one thread's posts sees them.
 */
module Threads {

  /** One post. Only `id` and `parent` take part in ordering; the rest is payload. */
  datatype Post = Post(
    id: int,
    parent: int,      // 0 for a root post, otherwise the id of the post it answers
    thread: int,
    author: string,
    forum: string,
    message: string,
    created: int,     // creation timestamp, opaque here
    isEdited: bool)

  /** The ids of a sequence of posts. */
  function Ids(posts: seq<Post>): set<int>
  {
    set p | p in posts :: p.id
  }

  /**
   * A snapshot of one thread's posts in creation order: ids are positive
   * (0 means "no parent") and strictly increasing, since ids follow creation.
   */
  predicate Snapshot(posts: seq<Post>)
  {
    && (forall i :: 0 <= i < |posts| ==> posts[i].id > 0)
    && (forall i, j :: 0 <= i < j < |posts| ==> posts[i].id < posts[j].id)
  }

  /** No two posts share an id. */
  predicate DistinctIds(posts: seq<Post>)
  {
    forall i, j :: 0 <= i < j < |posts| ==> posts[i].id != posts[j].id
  }

  /**
   * What post creation guarantees: every reply answers a post created
   * before it in the same thread.
   */
  predicate ParentsPrecede(posts: seq<Post>)
  {
    forall i :: 0 <= i < |posts| ==> posts[i].parent == 0 || posts[i].parent in Ids(posts[..i])
  }

  lemma SnapshotDistinct(posts: seq<Post>)
    requires Snapshot(posts)
    ensures DistinctIds(posts)
    ensures 0 !in Ids(posts)
  {
  }
}
