/**
 * PostgreSQL's ordering of integer arrays, used for the materialised paths:
 * element by element from the front, and when one array is a prefix of the
 * other, the shorter one comes first.
 */
module Lex {

  predicate LexLess(a: seq<int>, b: seq<int>)
    decreases |a|
  {
    if a == [] then b != []
    else if b == [] then false
    else a[0] < b[0] || (a[0] == b[0] && LexLess(a[1..], b[1..]))
  }

  predicate IsStrictPrefix(a: seq<int>, b: seq<int>)
  {
    |a| < |b| && b[..|a|] == a
  }

  lemma {:induction false} LexIrreflexive(a: seq<int>)
    ensures !LexLess(a, a)
    decreases |a|
  {
    if a != [] {
      LexIrreflexive(a[1..]);
    }
  }

  lemma {:induction false} LexTransitive(a: seq<int>, b: seq<int>, c: seq<int>)
    requires LexLess(a, b) && LexLess(b, c)
    ensures LexLess(a, c)
    decreases |a|
  {
    if a != [] && a[0] == b[0] && b[0] == c[0] {
      LexTransitive(a[1..], b[1..], c[1..]);
    }
  }

  lemma LexAsymmetric(a: seq<int>, b: seq<int>)
    requires LexLess(a, b)
    ensures !LexLess(b, a)
  {
    if LexLess(b, a) {
      LexTransitive(a, b, a);
      LexIrreflexive(a);
    }
  }

  /** Distinct arrays are always ordered one way or the other. */
  lemma {:induction false} LexTotal(a: seq<int>, b: seq<int>)
    requires a != b
    ensures LexLess(a, b) || LexLess(b, a)
    decreases |a|
  {
    if a != [] && b != [] && a[0] == b[0] {
      assert a == [a[0]] + a[1..] && b == [b[0]] + b[1..];
      LexTotal(a[1..], b[1..]);
    }
  }

  /** An ancestor's path comes before its descendants' paths. */
  lemma {:induction false} PrefixIsLess(a: seq<int>, b: seq<int>)
    requires IsStrictPrefix(a, b)
    ensures LexLess(a, b)
    decreases |a|
  {
    if a != [] {
      assert b[1..][..|a| - 1] == a[1..];
      PrefixIsLess(a[1..], b[1..]);
    }
  }

  /**
   * Whatever lies between a path and one of its extensions extends it too:
   * the reason a subtree is contiguous in path order.
   */
  lemma {:induction false} BetweenExtends(a: seq<int>, b: seq<int>, c: seq<int>)
    requires IsStrictPrefix(a, c) && LexLess(a, b) && LexLess(b, c)
    ensures IsStrictPrefix(a, b)
    decreases |a|
  {
    if a != [] {
      assert c[0] == a[0];
      assert c[1..][..|a| - 1] == a[1..];
      BetweenExtends(a[1..], b[1..], c[1..]);
      assert b == [b[0]] + b[1..];
    }
  }
}
