/** Finite directed graphs in adjacency-list form and reachability in them. */
module Digraph {

  type Node(==, !new)

  /** A node that is not a key simply has no successors. */
  type Graph = map<Node, seq<Node>>

  predicate Edge(g: Graph, a: Node, b: Node) {
    a in g && b in g[a]
  }

  /** What the search goes through: the entry of the node, or nothing when the lookup fails. */
  function Successors(g: Graph, n: Node): seq<Node> {
    if n in g then g[n] else []
  }

  lemma SuccessorsAreEdges(g: Graph, a: Node, b: Node)
    ensures b in Successors(g, a) <==> Edge(g, a, b)
    ensures a in g ==> Successors(g, a) == g[a]
  {
  }

  ghost predicate IsPath(g: Graph, a: Node, b: Node, p: seq<Node>) {
    && |p| > 0 && p[0] == a && p[|p| - 1] == b
    && forall i :: 0 <= i < |p| - 1 ==> Edge(g, p[i], p[i + 1])
  }

  ghost predicate Reach(g: Graph, a: Node, b: Node) {
    exists p :: IsPath(g, a, b, p)
  }

  lemma ReachSelf(g: Graph, a: Node)
    ensures Reach(g, a, a)
  {
    assert IsPath(g, a, a, [a]);
  }

  lemma ReachEdge(g: Graph, a: Node, b: Node)
    requires Edge(g, a, b)
    ensures Reach(g, a, b)
  {
    assert IsPath(g, a, b, [a, b]);
  }

  lemma ReachTransitive(g: Graph, a: Node, b: Node, c: Node)
    requires Reach(g, a, b) && Reach(g, b, c)
    ensures Reach(g, a, c)
  {
    var p :| IsPath(g, a, b, p);
    var q :| IsPath(g, b, c, q);
    assert IsPath(g, a, c, p + q[1..]);
  }

  /** No edge leaves s. */
  ghost predicate Closed(g: Graph, s: set<Node>) {
    forall x, y :: x in s && Edge(g, x, y) ==> y in s
  }

  lemma {:induction false} ClosedPath(g: Graph, s: set<Node>, a: Node, b: Node, p: seq<Node>)
    requires Closed(g, s) && a in s && IsPath(g, a, b, p)
    ensures b in s
    decreases |p|
  {
    if |p| > 1 {
      assert Edge(g, p[0], p[1]);
      ClosedPath(g, s, p[1], b, p[1..]);
    }
  }

  lemma ClosedReach(g: Graph, s: set<Node>, a: Node, b: Node)
    requires Closed(g, s) && a in s && Reach(g, a, b)
    ensures b in s
  {
    var p :| IsPath(g, a, b, p);
    ClosedPath(g, s, a, b, p);
  }

  /** Every node that occurs anywhere in the graph. */
  function Universe(g: Graph): set<Node> {
    g.Keys + set k, n | k in g && n in g[k] :: n
  }

  ghost predicate ReachableFromKeys(g: Graph, n: Node) {
    exists k :: k in g && Reach(g, k, n)
  }

  lemma UniverseIsReachable(g: Graph, n: Node)
    ensures n in Universe(g) <==> ReachableFromKeys(g, n)
  {
    if n in g {
      ReachSelf(g, n);
    } else if n in Universe(g) {
      var k :| k in g && n in g[k];
      ReachEdge(g, k, n);
    } else if ReachableFromKeys(g, n) {
      var k :| k in g && Reach(g, k, n);
      ClosedReach(g, Universe(g), k, n);
    }
  }
}
