/** Finite directed graphs with ordered, possibly repeated out-references. */
module ReferenceGraph {

  /** A node's references in the order they are written; a target need not be a node. */
  type Graph<T> = map<T, seq<T>>

  predicate Edge<T(==)>(g: Graph<T>, a: T, b: T) {
    a in g && b in g[a]
  }

  ghost predicate IsWalk<T>(g: Graph<T>, p: seq<T>) {
    forall i, j :: 0 <= i && j == i + 1 && j < |p| ==> Edge(g, p[i], p[j])
  }

  ghost predicate IsWalkBetween<T>(g: Graph<T>, p: seq<T>, a: T, b: T) {
    |p| >= 2 && p[0] == a && p[|p| - 1] == b && IsWalk(g, p)
  }

  /** There is a walk of at least one edge from a to b. */
  ghost predicate Reaches<T(!new)>(g: Graph<T>, a: T, b: T) {
    exists p :: IsWalkBetween(g, p, a, b)
  }

  ghost predicate Acyclic<T(!new)>(g: Graph<T>) {
    forall n :: !Reaches(g, n, n)
  }

  lemma EdgeReaches<T(!new)>(g: Graph<T>, a: T, b: T)
    requires Edge(g, a, b)
    ensures Reaches(g, a, b)
  {
    assert IsWalkBetween(g, [a, b], a, b);
  }

  lemma ReachesTransitive<T(!new)>(g: Graph<T>, a: T, b: T, c: T)
    requires Reaches(g, a, b) && Reaches(g, b, c)
    ensures Reaches(g, a, c)
  {
    var p :| IsWalkBetween(g, p, a, b);
    var q :| IsWalkBetween(g, q, b, c);
    var w := p + q[1..];
    forall i, j | 0 <= i && j == i + 1 && j < |w|
      ensures Edge(g, w[i], w[j])
    {
      if i < |p| - 1 {
        assert w[i] == p[i] && w[j] == p[j];
      } else {
        var k := i - (|p| - 1);
        assert w[i] == q[k] && w[j] == q[k + 1];
      }
    }
    assert IsWalkBetween(g, w, a, c);
  }

  /** Reachability, split at its first edge. */
  lemma ReachesStep<T(!new)>(g: Graph<T>, a: T, c: T)
    requires Reaches(g, a, c)
    ensures exists b :: Edge(g, a, b) && (b == c || Reaches(g, b, c))
  {
    var p :| IsWalkBetween(g, p, a, c);
    var b := p[1];
    assert Edge(g, p[0], p[1]);
    if |p| > 2 {
      var q := p[1..];
      forall i, j | 0 <= i && j == i + 1 && j < |q|
        ensures Edge(g, q[i], q[j])
      {
        assert q[i] == p[i + 1] && q[j] == p[j + 1];
      }
      assert IsWalkBetween(g, q, b, c);
    }
  }

  /** A set that contains every target of a and of its own members contains all a reaches. */
  lemma ClosedSetContainsReachable<T(!new)>(g: Graph<T>, a: T, s: set<T>)
    requires forall x, y :: (x == a || x in s) && Edge(g, x, y) ==> y in s
    ensures forall b :: Reaches(g, a, b) ==> b in s
  {
    forall b | Reaches(g, a, b)
      ensures b in s
    {
      var p :| IsWalkBetween(g, p, a, b);
      var i := 1;
      assert Edge(g, p[0], p[1]);
      while i < |p| - 1
        invariant 1 <= i < |p|
        invariant p[i] in s
      {
        assert Edge(g, p[i], p[i + 1]);
        i := i + 1;
      }
    }
  }

  lemma WalkReaches<T(!new)>(g: Graph<T>, p: seq<T>, i: nat, j: nat)
    requires IsWalk(g, p) && i < j < |p|
    ensures Reaches(g, p[i], p[j])
  {
    var q := p[i..j + 1];
    forall k, l | 0 <= k && l == k + 1 && l < |q|
      ensures Edge(g, q[k], q[l])
    {
      assert q[k] == p[i + k] && q[l] == p[i + l];
    }
    assert IsWalkBetween(g, q, p[i], p[j]);
  }

  lemma WalkAvoiding<T(!new)>(g: Graph<T>, h: Graph<T>, a: T, p: seq<T>)
    requires forall x, y :: x != a && Edge(h, x, y) ==> Edge(g, x, y)
    requires IsWalk(h, p) && a !in p
    ensures IsWalk(g, p)
  {
    forall i, j | 0 <= i && j == i + 1 && j < |p|
      ensures Edge(g, p[i], p[j])
    {
      assert p[i] != a && Edge(h, p[i], p[j]);
    }
  }

  /** Any cycle that a change of a's references introduces goes through a. */
  lemma NewCycleThroughChangedNode<T(!new)>(g: Graph<T>, h: Graph<T>, a: T)
    requires Acyclic(g)
    requires forall x, y :: x != a && Edge(h, x, y) ==> Edge(g, x, y)
    requires !Reaches(h, a, a)
    ensures Acyclic(h)
  {
    forall n | Reaches(h, n, n)
      ensures false
    {
      var p :| IsWalkBetween(h, p, n, n);
      if a in p {
        var i :| 0 <= i < |p| && p[i] == a;
        if i > 0 { WalkReaches(h, p, 0, i); }
        if i < |p| - 1 { WalkReaches(h, p, i, |p| - 1); }
        if n != a { ReachesTransitive(h, a, n, a); }
      } else {
        WalkAvoiding(g, h, a, p);
        assert IsWalkBetween(g, p, n, n);
        assert Reaches(g, n, n);
      }
    }
  }

  lemma ReachesMonotone<T(!new)>(g: Graph<T>, h: Graph<T>, a: T, b: T)
    requires forall x, y :: Edge(g, x, y) ==> Edge(h, x, y)
    requires Reaches(g, a, b)
    ensures Reaches(h, a, b)
  {
    var p :| IsWalkBetween(g, p, a, b);
    assert IsWalkBetween(h, p, a, b);
  }

  /** A walk up to its first arrival at c uses no reference written on c. */
  lemma FirstArrival<T(!new)>(g: Graph<T>, h: Graph<T>, a: T, c: T)
    requires forall x, y :: x != c && Edge(h, x, y) ==> Edge(g, x, y)
    requires Reaches(h, a, c) && a != c
    ensures Reaches(g, a, c)
  {
    var p :| IsWalkBetween(h, p, a, c);
    var i := 1;
    while p[i] != c
      invariant 1 <= i < |p|
      invariant c !in p[..i]
      decreases |p| - i
    {
      i := i + 1;
    }
    var q := p[..i + 1];
    assert forall k :: 0 <= k < i ==> p[k] in p[..i];
    forall k, l | 0 <= k && l == k + 1 && l < |q|
      ensures Edge(g, q[k], q[l])
    {
      assert q[k] == p[k] && q[l] == p[l] && Edge(h, p[k], p[l]);
    }
    assert IsWalkBetween(g, q, a, c);
  }

  /** A graph whose references all point to something of lower rank has no cycle. */
  lemma RankedIsAcyclic(g: Graph<int>)
    requires forall x, y :: Edge(g, x, y) ==> y < x
    ensures Acyclic(g)
  {
    forall n | Reaches(g, n, n)
      ensures false
    {
      var p :| IsWalkBetween(g, p, n, n);
      var i := 1;
      assert Edge(g, p[0], p[1]);
      while i < |p| - 1
        invariant 1 <= i < |p| && p[i] < n
      {
        assert Edge(g, p[i], p[i + 1]);
        i := i + 1;
      }
    }
  }
}
