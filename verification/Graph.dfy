/** Directed graphs given by successor lists, and the worklist search that keeps them acyclic. */
module Graph {
  type Node = nat
  type Graph = map<Node, seq<Node>>

  predicate Edge(g: Graph, a: Node, b: Node) {
    a in g && b in g[a]
  }

  ghost predicate IsPath(g: Graph, p: seq<Node>) {
    |p| > 0 && forall i :: 0 <= i < |p| - 1 ==> Edge(g, p[i], p[i + 1])
  }

  ghost predicate Reaches(g: Graph, a: Node, b: Node) {
    exists p :: IsPath(g, p) && p[0] == a && p[|p| - 1] == b
  }

  /** No path of at least one edge comes back to where it started. */
  ghost predicate Acyclic(g: Graph) {
    forall p :: IsPath(g, p) && |p| > 1 ==> p[0] != p[|p| - 1]
  }

  ghost predicate AnyReaches(g: Graph, from: seq<Node>, to: Node) {
    exists d :: d in from && Reaches(g, d, to)
  }

  lemma ReachesItself(g: Graph, a: Node)
    ensures Reaches(g, a, a)
  {
    assert IsPath(g, [a]);
  }

  lemma ReachesOneFurther(g: Graph, a: Node, b: Node, c: Node)
    requires Reaches(g, a, b) && Edge(g, b, c)
    ensures Reaches(g, a, c)
  {
    var p :| IsPath(g, p) && p[0] == a && p[|p| - 1] == b;
    var q := p + [c];
    forall i | 0 <= i < |q| - 1
      ensures Edge(g, q[i], q[i + 1])
    {
      if i < |p| - 1 {
        assert Edge(g, p[i], p[i + 1]);
      }
    }
    assert IsPath(g, q);
  }

  lemma {:induction false} PathsStayInside(g: Graph, s: set<Node>, p: seq<Node>)
    requires forall a, b :: a in s && Edge(g, a, b) ==> b in s
    requires IsPath(g, p) && p[0] in s
    ensures p[|p| - 1] in s
    decreases |p|
  {
    if |p| > 1 {
      var rest := p[1..];
      assert Edge(g, p[0], p[0 + 1]);
      assert forall i :: 0 <= i < |rest| - 1 ==> Edge(g, p[i + 1], p[i + 1 + 1]) && rest[i] == p[i + 1];
      PathsStayInside(g, s, rest);
    }
  }

  ghost function Universe(g: Graph, from: seq<Node>): set<Node> {
    (set d | d in from) + (set a, b | a in g && b in g[a] :: b)
  }

  /** Depth-first search from each of `from` along the existing edges: is `to` reached? */
  method Search(g: Graph, from: seq<Node>, to: Node) returns (found: bool)
    ensures found <==> AnyReaches(g, from, to)
  {
    hide AnyReaches;
    var stack := from;
    var seen: set<Node> := {};
    ghost var universe := Universe(g, from);
    StartsAreReached(g, from);
    while stack != []
      invariant forall n :: n in stack || n in seen ==> n in universe && AnyReaches(g, from, n)
      invariant forall d :: d in from ==> d in stack || d in seen
      invariant to !in seen
      invariant forall a, b :: a in seen && Edge(g, a, b) ==> b in stack || b in seen
      decreases universe - seen, |stack|
    {
      var n := stack[|stack| - 1];
      var rest := stack[..|stack| - 1];
      assert stack == rest + [n];
      stack := rest;
      if n == to {
        return true;
      }
      if n !in seen {
        seen := seen + {n};
        if n in g {
          stack := rest + g[n];
          forall x | x in g[n]
            ensures x in universe && AnyReaches(g, from, x)
          {
            OneFurtherIsReached(g, from, n, x);
          }
        }
      }
    }
    found := false;
    NothingLeft(g, from, seen, to);
  }

  lemma StartsAreReached(g: Graph, from: seq<Node>)
    ensures forall d :: d in from ==> AnyReaches(g, from, d)
  {
    forall d | d in from
      ensures AnyReaches(g, from, d)
    {
      ReachesItself(g, d);
    }
  }

  lemma OneFurtherIsReached(g: Graph, from: seq<Node>, n: Node, x: Node)
    requires AnyReaches(g, from, n) && Edge(g, n, x)
    ensures AnyReaches(g, from, x)
  {
    var d :| d in from && Reaches(g, d, n);
    ReachesOneFurther(g, d, n, x);
  }

  lemma NothingLeft(g: Graph, from: seq<Node>, seen: set<Node>, to: Node)
    requires forall d :: d in from ==> d in seen
    requires forall a, b :: a in seen && Edge(g, a, b) ==> b in seen
    requires to !in seen
    ensures !AnyReaches(g, from, to)
  {
    if AnyReaches(g, from, to) {
      var d :| d in from && Reaches(g, d, to);
      ClosedUnderReach(g, seen, d, to);
    }
  }

  lemma ClosedUnderReach(g: Graph, s: set<Node>, a: Node, b: Node)
    requires forall x, y :: x in s && Edge(g, x, y) ==> y in s
    requires a in s && Reaches(g, a, b)
    ensures b in s
  {
    var p :| IsPath(g, p) && p[0] == a && p[|p| - 1] == b;
    PathsStayInside(g, s, p);
  }

  // ---- New edges and cycles ---------------------------------------------------------------

  /** The part of a path up to its first visit of `x`. */
  lemma {:induction false} FirstVisit(p: seq<Node>, x: Node) returns (k: nat)
    requires x in p
    ensures k < |p| && p[k] == x && forall j :: 0 <= j < k ==> p[j] != x
  {
    k := 0;
    while p[k] != x
      invariant k < |p| && x in p[k..]
      invariant forall j :: 0 <= j < k ==> p[j] != x
      decreases |p| - k
    {
      k := k + 1;
    }
  }

  lemma ReplacingTheEdgesOfTheEnd(g: Graph, g': Graph, id: Node, p: seq<Node>)
    requires IsPath(g, p) && p[|p| - 1] == id
    requires forall a, b :: a != id ==> (Edge(g, a, b) <==> Edge(g', a, b))
    ensures Reaches(g', p[0], id)
  {
    var k := FirstVisit(p, id);
    var q := p[..k + 1];
    forall i | 0 <= i < |q| - 1
      ensures Edge(g', q[i], q[i + 1])
    {
      assert Edge(g, p[i], p[i + 1]);
    }
    assert IsPath(g', q);
  }

  /**
   * Giving `id` new successors in an acyclic graph closes a cycle exactly when `id` is reachable from one of
   * them. It makes no difference that the search still sees the old successors of `id`.
   */
  lemma NewEdgesCloseACycle(g: Graph, id: Node, deps: seq<Node>)
    requires Acyclic(g)
    ensures Acyclic(g[id := deps]) <==> !AnyReaches(g, deps, id)
  {
    var g' := g[id := deps];
    assert forall a, b :: a != id ==> (Edge(g, a, b) <==> Edge(g', a, b));
    if AnyReaches(g, deps, id) {
      ReachableClosesACycle(g, g', id, deps);
    }
    forall p | IsPath(g', p) && |p| > 1 && p[0] == p[|p| - 1]
      ensures AnyReaches(g, deps, id)
    {
      if i :| 0 <= i < |p| - 1 && p[i] == id {
        CycleReachesThroughNewEdge(g, g', id, deps, p, i);
      } else {
        forall j | 0 <= j < |p| - 1
          ensures Edge(g, p[j], p[j + 1])
        {
          assert Edge(g', p[j], p[j + 1]);
        }
        assert IsPath(g, p);
        assert false;
      }
    }
  }

  lemma ReachableClosesACycle(g: Graph, g': Graph, id: Node, deps: seq<Node>)
    requires AnyReaches(g, deps, id) && g' == g[id := deps]
    ensures !Acyclic(g')
  {
    var d :| d in deps && Reaches(g, d, id);
    var p :| IsPath(g, p) && p[0] == d && p[|p| - 1] == id;
    ReplacingTheEdgesOfTheEnd(g, g', id, p);
    var q :| IsPath(g', q) && q[0] == d && q[|q| - 1] == id;
    var cycle := [id] + q;
    forall i | 0 <= i < |cycle| - 1
      ensures Edge(g', cycle[i], cycle[i + 1])
    {
      if i > 0 {
        assert Edge(g', q[i - 1], q[i - 1 + 1]);
      }
    }
    assert IsPath(g', cycle);
  }

  /** Start a cycle just after `id` instead: it leads from a new successor of `id` back to `id`. */
  lemma CycleReachesThroughNewEdge(g: Graph, g': Graph, id: Node, deps: seq<Node>, p: seq<Node>, i: nat)
    requires g' == g[id := deps] && IsPath(g', p) && |p| > 1 && p[0] == p[|p| - 1]
    requires i < |p| - 1 && p[i] == id
    ensures AnyReaches(g, deps, id)
  {
    var rot := p[i + 1..] + p[1..i + 1];
    forall j | 0 <= j < |rot| - 1
      ensures Edge(g', rot[j], rot[j + 1])
    {
      var n := |p| - i - 1;
      if j < n - 1 {
        assert Edge(g', p[i + 1 + j], p[i + 1 + j + 1]);
      } else if j == n - 1 {
        assert rot[j] == p[|p| - 1] == p[0];
        assert Edge(g', p[0], p[0 + 1]);
      } else {
        assert Edge(g', p[j - n + 1], p[j - n + 1 + 1]);
      }
    }
    assert Edge(g', p[i], p[i + 1]);
    assert IsPath(g', rot) && rot[|rot| - 1] == id;
    ReplacingTheEdgesOfTheEnd(g', g, id, rot);
  }

  /** Fewer edges keep a graph acyclic. */
  lemma SubgraphIsAcyclic(g: Graph, g': Graph)
    requires Acyclic(g) && forall a, b :: Edge(g', a, b) ==> Edge(g, a, b)
    ensures Acyclic(g')
  {
    forall p | IsPath(g', p) && |p| > 1
      ensures p[0] != p[|p| - 1]
    {
      assert IsPath(g, p);
    }
  }
}
