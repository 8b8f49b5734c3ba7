/** Tools/find-includes-cycles.py: Tarjan's strongly connected components. */
module Tarjan {
  import opened Digraph

  /** The search state without the lowlinks: what the depth-first search has numbered, stacked and emitted. */
  datatype Search = Search(counter: nat, index: map<Node, nat>, stack: seq<Node>, result: seq<seq<Node>>)

  ghost function Elements(s: seq<Node>): set<Node> {
    set x | x in s
  }

  ghost predicate Distinct(s: seq<Node>) {
    forall i, j :: 0 <= i < j < |s| ==> s[i] != s[j]
  }

  /** c lists, without repetition, exactly the nodes that lie on a common cycle with each of its members. */
  ghost predicate IsComponent(g: Graph, c: seq<Node>) {
    && |c| > 0 && Distinct(c)
    && forall x, y :: x in c ==> (y in c <==> Reach(g, x, y) && Reach(g, y, x))
  }

  ghost function Emitted(cs: seq<seq<Node>>): set<Node> {
    if cs == [] then {} else Emitted(cs[..|cs| - 1]) + Elements(cs[|cs| - 1])
  }

  /** Every prefix of the result consists of components and is closed under edges. */
  ghost predicate Components(g: Graph, cs: seq<seq<Node>>) {
    cs != [] ==>
      && Components(g, cs[..|cs| - 1])
      && IsComponent(g, cs[|cs| - 1])
      && Elements(cs[|cs| - 1]) !! Emitted(cs[..|cs| - 1])
      && Closed(g, Emitted(cs))
  }

  ghost predicate Numbered(s: Search) {
    && s.index.Keys == Elements(s.stack) + Emitted(s.result)
    && Elements(s.stack) !! Emitted(s.result)
    && (forall i, j :: 0 <= i < j < |s.stack| ==> s.index[s.stack[i]] < s.index[s.stack[j]])
    && (forall x :: x in s.index ==> s.index[x] < s.counter)
  }

  /** A node in progress reaches everything stacked after it. */
  ghost predicate GrayReaches(g: Graph, s: Search, grays: set<Node>)
    requires Numbered(s) && grays <= Elements(s.stack)
  {
    forall r, x :: r in grays && x in s.stack && s.index[r] <= s.index[x] ==> Reach(g, r, x)
  }

  /** The node in progress r is at or below x on the stack and x reaches it. */
  ghost predicate Anchors(g: Graph, s: Search, x: Node, r: Node) {
    x in s.index && r in s.index && s.index[r] <= s.index[x] && Reach(g, x, r)
  }

  ghost predicate Anchored(g: Graph, s: Search, grays: set<Node>, x: Node) {
    exists r :: r in grays && Anchors(g, s, x, r)
  }

  /** Every edge out of a finished node leads to a visited node. */
  ghost predicate BlackClosed(g: Graph, s: Search, grays: set<Node>) {
    forall x, y :: x in s.index && x !in grays && Edge(g, x, y) ==> y in s.index
  }

  /** The invariant of the whole search; grays are the nodes whose call is still running. */
  ghost predicate Inv(g: Graph, s: Search, grays: set<Node>) {
    && Numbered(s)
    && grays <= Elements(s.stack)
    && GrayReaches(g, s, grays)
    && (forall x :: x in s.stack ==> Anchored(g, s, grays, x))
    && BlackClosed(g, s, grays)
    && Components(g, s.result)
  }

  ghost predicate SubMap<K, V>(m: map<K, V>, n: map<K, V>) {
    forall k :: k in m ==> k in n && n[k] == m[k]
  }

  ghost predicate Extends(s0: Search, s: Search) {
    && s0.stack <= s.stack && s0.result <= s.result
    && SubMap(s0.index, s.index)
  }

  /** low numbers a node of `within` that node reaches. */
  ghost predicate LowWitness(g: Graph, s: Search, node: Node, low: nat, within: seq<Node>) {
    exists y :: y in within && y in s.index && s.index[y] == low && Reach(g, node, y)
  }

  /** No edge from x into `below` ends under low. */
  ghost predicate LowBounds(g: Graph, s: Search, x: Node, low: nat, below: seq<Node>) {
    forall y :: y in below && Edge(g, x, y) && y in s.index ==> low <= s.index[y]
  }

  /** The state in which strongconnect(node), entered in s0, has scanned the first i successors. */
  ghost predicate Scanning(g: Graph, s0: Search, s: Search, grays: set<Node>, node: Node, low: nat, i: nat) {
    && Inv(g, s, grays + {node})
    && Extends(s0, s)
    && |s0.stack| < |s.stack| && s.stack[|s0.stack|] == node
    && grays <= Elements(s0.stack)
    && (forall r :: r in grays ==> Reach(g, r, node))
    && low <= s.index[node]
    && LowWitness(g, s, node, low, s0.stack + [node])
    && (forall x :: x in s.stack[|s0.stack| + 1..] ==> LowBounds(g, s, x, low, s0.stack))
    && i <= |Successors(g, node)|
    && (forall j :: 0 <= j < i ==> Scanned(s, s0, Successors(g, node)[j], low))
  }

  ghost predicate Scanned(s: Search, s0: Search, y: Node, low: nat) {
    y in s.index && (y in s0.stack ==> low <= s.index[y])
  }

  /** The state in which strongconnect(node), entered in s0, has returned with the given lowlink. */
  ghost predicate Returned(g: Graph, s0: Search, s: Search, grays: set<Node>, node: Node, low: nat) {
    && Inv(g, s, grays)
    && Extends(s0, s)
    && node in s.index && node !in s0.index
    && (if s.stack == s0.stack then
          low == s.index[node] && s0.counter <= low
        else
          && LowWitness(g, s, node, low, s0.stack)
          && forall x :: x in s.stack[|s0.stack|..] ==> LowBounds(g, s, x, low, s0.stack))
  }

  ghost function Push(s: Search, node: Node): Search {
    Search(s.counter + 1, s.index[node := s.counter], s.stack + [node], s.result)
  }

  lemma EnterNumbered(s: Search, node: Node)
    requires Numbered(s) && node !in s.index
    ensures Numbered(Push(s, node)) && Extends(s, Push(s, node))
    ensures Elements(Push(s, node).stack) == Elements(s.stack) + {node}
  {
    hide Emitted;
    var t := Push(s, node);
    forall x | x in Elements(s.stack) + {node} ensures x in t.stack {
      if x == node { assert t.stack[|s.stack|] == node; }
    }
  }

  lemma EnterKeepsInv(g: Graph, s: Search, grays: set<Node>, node: Node)
    requires Inv(g, s, grays) && node !in s.index
    requires forall r :: r in grays ==> Reach(g, r, node)
    ensures Inv(g, Push(s, node), grays + {node})
  {
    hide Reach, Components;
    var t := Push(s, node);
    ReachSelf(g, node);
    EnterNumbered(s, node);
    forall r, x | r in grays + {node} && x in t.stack && t.index[r] <= t.index[x] ensures Reach(g, r, x) {
    }
    assert GrayReaches(g, t, grays + {node});
    assert BlackClosed(g, t, grays + {node});
    hide Anchored, GrayReaches, BlackClosed, Numbered;
    forall x | x in t.stack ensures Anchored(g, t, grays + {node}, x) {
      EnterAnchored(g, s, grays, node, x);
    }
  }

  lemma EnterAnchored(g: Graph, s: Search, grays: set<Node>, node: Node, x: Node)
    requires Inv(g, s, grays) && node !in s.index
    requires x in s.stack + [node]
    ensures Anchored(g, Push(s, node), grays + {node}, x)
  {
    hide Reach, Components, GrayReaches, BlackClosed, Numbered;
    var t := Push(s, node);
    if x in s.stack {
      var r :| r in grays && Anchors(g, s, x, r);
      assert Anchors(g, t, x, r);
    } else {
      ReachSelf(g, node);
      assert Anchors(g, t, node, node);
    }
  }

  lemma EnterStartsScan(g: Graph, s: Search, grays: set<Node>, node: Node)
    requires Inv(g, s, grays) && node !in s.index
    requires forall r :: r in grays ==> Reach(g, r, node)
    ensures Scanning(g, s, Push(s, node), grays, node, s.counter, 0)
  {
    hide Reach;
    EnterKeepsInv(g, s, grays, node);
    EnterNumbered(s, node);
    ReachSelf(g, node);
    var t := Push(s, node);
    assert t.stack[|s.stack| + 1..] == [];
    assert node in t.stack && t.index[node] == s.counter;
    hide Inv, Numbered;
  }

  function Min(a: nat, b: nat): nat {
    if b < a then b else a
  }

  /** What lies under node on the stack is what was there when node was entered. */
  lemma BelowNode(g: Graph, s0: Search, s: Search, grays: set<Node>, node: Node, low: nat, i: nat, y: Node)
    requires Scanning(g, s0, s, grays, node, low, i) && y in s.stack
    ensures y in s0.stack <==> s.index[y] < s.index[node]
    ensures y in s.stack[|s0.stack|..] <==> s.index[node] <= s.index[y]
  {
    hide Reach, Components, Emitted, GrayReaches, Anchored, BlackClosed, LowBounds, LowWitness, Scanned;
    var k :| 0 <= k < |s.stack| && s.stack[k] == y;
    if k < |s0.stack| {
      assert s0.stack[k] == y;
    } else {
      assert s.stack[|s0.stack|..][k - |s0.stack|] == y;
    }
  }

  /** The successor is on the stack: its index is a candidate for the lowlink. */
  lemma ScanStacked(g: Graph, s0: Search, s: Search, grays: set<Node>, node: Node, low: nat, i: nat)
    requires Scanning(g, s0, s, grays, node, low, i) && i < |Successors(g, node)|
    requires Successors(g, node)[i] in s.stack
    ensures Scanning(g, s0, s, grays, node, Min(low, s.index[Successors(g, node)[i]]), i + 1)
  {
    hide Reach, Components, Emitted, GrayReaches, Anchored, BlackClosed, LowBounds, LowWitness;
    var y := Successors(g, node)[i];
    StackIndexed(s, s.stack);
    BelowNode(g, s0, s, grays, node, low, i, y);
    var m := Min(low, s.index[y]);
    StackedWitness(g, s, node, y, low, m, s0.stack);
    forall x | x in s.stack[|s0.stack| + 1..] ensures LowBounds(g, s, x, m, s0.stack) {
      WeakerBounds(g, s, x, low, m, s0.stack, s0.stack);
    }
    forall j | 0 <= j < i + 1 ensures Scanned(s, s0, Successors(g, node)[j], m) {
      assert j < i ==> Scanned(s, s0, Successors(g, node)[j], low);
    }
  }

  /** The lower one of low and the number of a stacked successor has a witness. */
  lemma StackedWitness(g: Graph, s: Search, node: Node, y: Node, low: nat, m: nat, below: seq<Node>)
    requires Edge(g, node, y) && y in s.index && node in s.index && m == Min(low, s.index[y])
    requires low <= s.index[node] && (s.index[y] < s.index[node] ==> y in below)
    requires LowWitness(g, s, node, low, below + [node])
    ensures LowWitness(g, s, node, m, below + [node])
  {
    hide Reach;
    ReachEdge(g, node, y);
    if m < low { assert y in below + [node] && s.index[y] == m; }
  }

  /** A visited successor that is no longer on the stack changes nothing. */
  lemma ScanEmitted(g: Graph, s0: Search, s: Search, grays: set<Node>, node: Node, low: nat, i: nat)
    requires Scanning(g, s0, s, grays, node, low, i) && i < |Successors(g, node)|
    requires Successors(g, node)[i] in s.index && Successors(g, node)[i] !in s.stack
    ensures Scanning(g, s0, s, grays, node, low, i + 1)
  {
    hide Reach, Components, IsComponent, Emitted;
  }

  /** Every node in progress reaches a successor about to be visited. */
  lemma ScanReaches(g: Graph, s0: Search, s: Search, grays: set<Node>, node: Node, low: nat, i: nat)
    requires Scanning(g, s0, s, grays, node, low, i) && i < |Successors(g, node)|
    ensures forall r :: r in grays + {node} ==> Reach(g, r, Successors(g, node)[i])
  {
    hide Reach, Inv;
    var y := Successors(g, node)[i];
    ReachEdge(g, node, y);
    forall r | r in grays ensures Reach(g, r, y) {
      ReachTransitive(g, r, node, y);
    }
  }

  lemma ChildWitness(g: Graph, s0: Search, s: Search, t: Search, grays: set<Node>, node: Node,
                     low: nat, childLow: nat, i: nat)
    requires Scanning(g, s0, s, grays, node, low, i) && i < |Successors(g, node)|
    requires Returned(g, s, t, grays + {node}, Successors(g, node)[i], childLow)
    ensures LowWitness(g, t, node, Min(low, childLow), s0.stack + [node])
  {
    hide Reach, Components, Emitted, GrayReaches, Anchored, BlackClosed, LowBounds, Scanned;
    var y := Successors(g, node)[i];
    if low <= childLow {
      var z :| z in s0.stack + [node] && z in s.index && s.index[z] == low && Reach(g, node, z);
      assert t.index[z] == low;
    } else {
      assert t.stack != s.stack;
      var z :| z in s.stack && z in t.index && t.index[z] == childLow && Reach(g, y, z);
      BelowNode(g, s0, s, grays, node, low, i, z);
      ReachEdge(g, node, y);
      ReachTransitive(g, node, y, z);
      assert z in s0.stack + [node];
    }
  }

  lemma ChildBounds(g: Graph, s0: Search, s: Search, t: Search, grays: set<Node>, node: Node,
                    low: nat, childLow: nat, i: nat, x: Node)
    requires Scanning(g, s0, s, grays, node, low, i) && i < |Successors(g, node)|
    requires Returned(g, s, t, grays + {node}, Successors(g, node)[i], childLow)
    requires x in t.stack[|s0.stack| + 1..]
    ensures LowBounds(g, t, x, Min(low, childLow), s0.stack)
  {
    hide Reach, Components, Emitted, GrayReaches, Anchored, BlackClosed, LowWitness, Scanned, LowBounds;
    StackIndexed(s, s0.stack);
    TailSplit(s.stack, t.stack, |s0.stack| + 1, x);
    if x in s.stack[|s0.stack| + 1..] {
      KeepsBounds(g, s, t, x, low, Min(low, childLow), s0.stack);
    } else {
      WeakerBounds(g, t, x, childLow, Min(low, childLow), s0.stack, s.stack);
    }
  }

  lemma StackIndexed(s: Search, below: seq<Node>)
    requires Numbered(s) && below <= s.stack
    ensures forall y :: y in below ==> y in s.index
  {
    hide Emitted;
  }

  lemma TailSplit(a: seq<Node>, b: seq<Node>, k: nat, x: Node)
    requires a <= b && k <= |a| && x in b[k..]
    ensures x in a[k..] || x in b[|a|..]
  {
    assert b[k..] == a[k..] + b[|a|..];
  }

  lemma KeepsBounds(g: Graph, s: Search, t: Search, x: Node, low: nat, m: nat, below: seq<Node>)
    requires SubMap(s.index, t.index) && m <= low && LowBounds(g, s, x, low, below)
    requires forall y :: y in below ==> y in s.index
    ensures LowBounds(g, t, x, m, below)
  {
    hide Edge;
  }

  lemma WeakerBounds(g: Graph, s: Search, x: Node, low: nat, m: nat, below: seq<Node>, more: seq<Node>)
    requires m <= low && LowBounds(g, s, x, low, more) && below <= more
    ensures LowBounds(g, s, x, m, below)
  {
    hide Edge;
    forall y | y in below ensures y in more {}
  }

  /** The recursive call on an unvisited successor: its lowlink is a candidate too. */
  lemma ScanVisited(g: Graph, s0: Search, s: Search, t: Search, grays: set<Node>, node: Node,
                    low: nat, childLow: nat, i: nat)
    requires Scanning(g, s0, s, grays, node, low, i) && i < |Successors(g, node)|
    requires Returned(g, s, t, grays + {node}, Successors(g, node)[i], childLow)
    ensures Scanning(g, s0, t, grays, node, Min(low, childLow), i + 1)
  {
    hide Reach, Components, Emitted, GrayReaches, Anchored, BlackClosed, LowBounds, LowWitness;
    var m := Min(low, childLow);
    ChildWitness(g, s0, s, t, grays, node, low, childLow, i);
    forall x | x in t.stack[|s0.stack| + 1..] ensures LowBounds(g, t, x, m, s0.stack) {
      ChildBounds(g, s0, s, t, grays, node, low, childLow, i, x);
    }
    forall j | 0 <= j < i + 1 ensures Scanned(t, s0, Successors(g, node)[j], m) {
      assert j < i ==> Scanned(s, s0, Successors(g, node)[j], low);
    }
  }

  /** node reaches a node in progress below it, so everything anchored at node has a lower anchor. */
  lemma AnchorBelow(g: Graph, s0: Search, s: Search, grays: set<Node>, node: Node, low: nat, i: nat, x: Node)
    requires Scanning(g, s0, s, grays, node, low, i) && low < s.index[node]
    requires x in s.stack
    ensures Anchored(g, s, grays, x)
  {
    hide Reach, Components, Emitted, GrayReaches, BlackClosed, LowBounds, Scanned, Numbered;
    var r :| r in grays + {node} && Anchors(g, s, x, r);
    if r == node {
      var z :| z in s0.stack + [node] && z in s.index && s.index[z] == low && Reach(g, node, z);
      assert z in s.stack;
      var q :| q in grays + {node} && Anchors(g, s, z, q);
      ReachTransitive(g, x, node, z);
      ReachTransitive(g, x, z, q);
      assert Anchors(g, s, x, q) && q != node;
    }
  }

  lemma LeaveKeepsInv(g: Graph, s0: Search, s: Search, grays: set<Node>, node: Node, low: nat)
    requires Scanning(g, s0, s, grays, node, low, |Successors(g, node)|) && low < s.index[node]
    ensures Inv(g, s, grays)
  {
    hide Reach, Components, Emitted, LowBounds, LowWitness, Scanned, Edge, Extends;
    hide Anchored, Numbered;
    forall x | x in s.stack ensures Anchored(g, s, grays, x) {
      AnchorBelow(g, s0, s, grays, node, low, |Successors(g, node)|, x);
    }
    assert GrayReaches(g, s, grays);
    hide GrayReaches;
    NodeScanned(g, s0, s, grays, node, low);
    assert BlackClosed(g, s, grays);
    hide BlackClosed;
  }

  /** All successors scanned and the lowlink below the index: node stays on the stack, finished. */
  lemma LeaveStacked(g: Graph, s0: Search, s: Search, grays: set<Node>, node: Node, low: nat)
    requires Scanning(g, s0, s, grays, node, low, |Successors(g, node)|) && low < s.index[node]
    requires node !in s0.index
    ensures Returned(g, s0, s, grays, node, low)
  {
    hide Reach, Components, Emitted, Anchored, GrayReaches, BlackClosed, LowBounds, Scanned;
    LeaveKeepsInv(g, s0, s, grays, node, low);
    assert LowWitness(g, s, node, low, s0.stack);
    forall x | x in s.stack[|s0.stack|..] ensures LowBounds(g, s, x, low, s0.stack) {
      StackedBounds(g, s0, s, grays, node, low, x);
    }
    hide Inv;
  }

  lemma NodeScanned(g: Graph, s0: Search, s: Search, grays: set<Node>, node: Node, low: nat)
    requires Scanning(g, s0, s, grays, node, low, |Successors(g, node)|)
    ensures forall y :: Edge(g, node, y) ==> y in s.index
    ensures LowBounds(g, s, node, low, s0.stack)
  {
    hide Inv, Extends, Reach, LowWitness;
    forall y | Edge(g, node, y) ensures Scanned(s, s0, y, low) {
      var j :| 0 <= j < |Successors(g, node)| && Successors(g, node)[j] == y;
    }
  }

  lemma StackedBounds(g: Graph, s0: Search, s: Search, grays: set<Node>, node: Node, low: nat, x: Node)
    requires Scanning(g, s0, s, grays, node, low, |Successors(g, node)|)
    requires x in s.stack[|s0.stack|..]
    ensures LowBounds(g, s, x, low, s0.stack)
  {
    hide Inv, Extends, Reach, LowWitness, Scanned;
    var k :| |s0.stack| <= k < |s.stack| && s.stack[k] == x;
    if k == |s0.stack| {
      NodeScanned(g, s0, s, grays, node, low);
    } else {
      assert s.stack[|s0.stack| + 1..][k - |s0.stack| - 1] == x;
    }
  }

  lemma EmittedClosed(g: Graph, cs: seq<seq<Node>>)
    requires Components(g, cs)
    ensures Closed(g, Emitted(cs))
  {
  }

  /** The popped segment and what was emitted before it have no outgoing edge. */
  lemma PoppedClosed(g: Graph, s0: Search, s: Search, grays: set<Node>, node: Node)
    requires node in s.index && Scanning(g, s0, s, grays, node, s.index[node], |Successors(g, node)|)
    ensures Closed(g, Emitted(s.result) + Elements(s.stack[|s0.stack|..]))
  {
    hide Reach, GrayReaches, Anchored, LowWitness, Scanned;
    EmittedClosed(g, s.result);
    hide Components, Emitted;
    NodeScanned(g, s0, s, grays, node, s.index[node]);
    var popped := s.stack[|s0.stack|..];
    forall x, y | x in popped && Edge(g, x, y) ensures y in Emitted(s.result) + Elements(popped) {
      BelowNode(g, s0, s, grays, node, s.index[node], |Successors(g, node)|, x);
      assert y in s.index;
      if y in s.stack {
        BelowNode(g, s0, s, grays, node, s.index[node], |Successors(g, node)|, y);
        StackedBounds(g, s0, s, grays, node, s.index[node], x);
      }
    }
  }

  /** Within the popped segment everything reaches node and is reached by it. */
  lemma PoppedConnected(g: Graph, s0: Search, s: Search, grays: set<Node>, node: Node, x: Node)
    requires node in s.index && Scanning(g, s0, s, grays, node, s.index[node], |Successors(g, node)|)
    requires x in s.stack[|s0.stack|..]
    ensures Reach(g, x, node) && Reach(g, node, x)
  {
    hide Reach, Components, Emitted, BlackClosed, LowBounds, LowWitness, Scanned;
    BelowNode(g, s0, s, grays, node, s.index[node], |Successors(g, node)|, x);
    var r :| r in grays + {node} && Anchors(g, s, x, r);
    if r != node {
      ReachTransitive(g, x, r, node);
    }
  }

  lemma PoppedIsComponent(g: Graph, s0: Search, s: Search, grays: set<Node>, node: Node, c: seq<Node>)
    requires node in s.index && Scanning(g, s0, s, grays, node, s.index[node], |Successors(g, node)|)
    requires Distinct(c) && Elements(c) == Elements(s.stack[|s0.stack|..])
    ensures IsComponent(g, c)
  {
    hide Reach, GrayReaches, Anchored, LowWitness, Scanned, BlackClosed, LowBounds;
    var popped := s.stack[|s0.stack|..];
    PoppedClosed(g, s0, s, grays, node);
    EmittedClosed(g, s.result);
    hide Components, Emitted;
    assert popped[0] == node && node in Elements(c);
    forall x, y | x in c ensures y in c <==> Reach(g, x, y) && Reach(g, y, x) {
      assert x in Elements(c);
      PoppedConnected(g, s0, s, grays, node, x);
      if y in c {
        assert y in Elements(c);
        PoppedConnected(g, s0, s, grays, node, y);
        ReachTransitive(g, x, node, y);
        ReachTransitive(g, y, node, x);
      } else if Reach(g, x, y) && Reach(g, y, x) {
        ClosedReach(g, Emitted(s.result) + Elements(popped), x, y);
        assert y !in Elements(c);
        ClosedReach(g, Emitted(s.result), y, x);
        assert false;
      }
    }
  }

  ghost function Pop(s0: Search, s: Search, c: seq<Node>): Search {
    Search(s.counter, s.index, s0.stack, s.result + [c])
  }

  lemma ElementsSplit(s: seq<Node>, k: nat)
    requires k <= |s|
    ensures Elements(s) == Elements(s[..k]) + Elements(s[k..])
  {
    assert s == s[..k] + s[k..];
  }

  lemma EmittedAppend(cs: seq<seq<Node>>, c: seq<Node>)
    ensures Emitted(cs + [c]) == Emitted(cs) + Elements(c)
  {
    assert (cs + [c])[..|cs|] == cs;
  }

  lemma PopDisjoint(g: Graph, s0: Search, s: Search, grays: set<Node>, node: Node)
    requires node in s.index && Scanning(g, s0, s, grays, node, s.index[node], |Successors(g, node)|)
    ensures Elements(s0.stack) !! Elements(s.stack[|s0.stack|..])
    ensures Elements(s.stack) == Elements(s0.stack) + Elements(s.stack[|s0.stack|..])
  {
    hide Inv, Reach, LowWitness, LowBounds, Scanned;
    ElementsSplit(s.stack, |s0.stack|);
    forall x | x in s0.stack ensures x !in s.stack[|s0.stack|..] {
      assert x in Elements(s0.stack);
      assert x in Elements(s.stack);
      BelowNode(g, s0, s, grays, node, s.index[node], |Successors(g, node)|, x);
    }
  }

  lemma PopNumbered(g: Graph, s0: Search, s: Search, grays: set<Node>, node: Node, c: seq<Node>)
    requires node in s.index && Scanning(g, s0, s, grays, node, s.index[node], |Successors(g, node)|)
    requires Elements(c) == Elements(s.stack[|s0.stack|..])
    ensures Numbered(Pop(s0, s, c))
    ensures Elements(c) !! Emitted(s.result)
  {
    hide Reach, Components, Emitted, GrayReaches, Anchored, BlackClosed, LowBounds, LowWitness, Scanned;
    EmittedAppend(s.result, c);
    PopDisjoint(g, s0, s, grays, node);
    hide Elements;
  }

  lemma PopComponents(g: Graph, s0: Search, s: Search, grays: set<Node>, node: Node, c: seq<Node>)
    requires node in s.index && Scanning(g, s0, s, grays, node, s.index[node], |Successors(g, node)|)
    requires Distinct(c) && Elements(c) == Elements(s.stack[|s0.stack|..])
    ensures Components(g, s.result + [c])
  {
    hide Reach, LowBounds, LowWitness, Scanned, Extends;
    PopNumbered(g, s0, s, grays, node, c);
    PoppedIsComponent(g, s0, s, grays, node, c);
    PoppedClosed(g, s0, s, grays, node);
    EmittedAppend(s.result, c);
    assert (s.result + [c])[..|s.result|] == s.result;
    assert Components(g, s.result);
    hide IsComponent, Emitted, Inv, Numbered, Elements, Closed;
  }

  lemma PopKeepsInv(g: Graph, s0: Search, s: Search, grays: set<Node>, node: Node, c: seq<Node>)
    requires node in s.index && Scanning(g, s0, s, grays, node, s.index[node], |Successors(g, node)|)
    requires Distinct(c) && Elements(c) == Elements(s.stack[|s0.stack|..])
    ensures Inv(g, Pop(s0, s, c), grays)
  {
    hide Reach, LowBounds, LowWitness, Scanned, Components, Anchored;
    var t := Pop(s0, s, c);
    PopNumbered(g, s0, s, grays, node, c);
    PopComponents(g, s0, s, grays, node, c);
    forall x | x in t.stack ensures Anchored(g, t, grays, x) {
      PopAnchored(g, s0, s, grays, node, c, x);
    }
    hide Numbered, Emitted;
    assert GrayReaches(g, t, grays);
    hide GrayReaches;
    NodeScanned(g, s0, s, grays, node, s.index[node]);
    assert BlackClosed(g, t, grays);
    hide BlackClosed;
  }

  lemma PopAnchored(g: Graph, s0: Search, s: Search, grays: set<Node>, node: Node, c: seq<Node>, x: Node)
    requires node in s.index && Scanning(g, s0, s, grays, node, s.index[node], |Successors(g, node)|)
    requires x in s0.stack
    ensures Anchored(g, Pop(s0, s, c), grays, x)
  {
    hide Reach, Components, Emitted, GrayReaches, BlackClosed, LowBounds, LowWitness, Scanned, Numbered;
    assert x in s.stack;
    BelowNode(g, s0, s, grays, node, s.index[node], |Successors(g, node)|, x);
    var r :| r in grays + {node} && Anchors(g, s, x, r);
    assert Anchors(g, Pop(s0, s, c), x, r);
  }

  /** All successors scanned and the lowlink equal to the index: the segment from node up is emitted. */
  lemma LeavePopped(g: Graph, s0: Search, s: Search, grays: set<Node>, node: Node, c: seq<Node>)
    requires node in s.index && Scanning(g, s0, s, grays, node, s.index[node], |Successors(g, node)|)
    requires node !in s0.index && s.index[node] == s0.counter
    requires Distinct(c) && Elements(c) == Elements(s.stack[|s0.stack|..])
    ensures Returned(g, s0, Pop(s0, s, c), grays, node, s.index[node])
  {
    hide Reach, Components, Emitted, GrayReaches, Anchored, BlackClosed, LowBounds, LowWitness, Scanned, Numbered;
    PopKeepsInv(g, s0, s, grays, node, c);
    hide Inv;
  }

  lemma ScanningIsInv(g: Graph, s0: Search, s: Search, grays: set<Node>, node: Node, low: nat, i: nat)
    requires Scanning(g, s0, s, grays, node, low, i)
    ensures Inv(g, s, grays + {node}) && low <= s.index[node]
    ensures s0.stack < s.stack && s.stack[|s0.stack|] == node && Distinct(s.stack)
  {
    hide Reach, GrayReaches, Anchored, BlackClosed, Components, LowBounds, LowWitness, Scanned;
  }

  lemma ReturnedIsInv(g: Graph, s0: Search, s: Search, grays: set<Node>, node: Node, low: nat)
    requires Returned(g, s0, s, grays, node, low)
    ensures Inv(g, s, grays) && SubMap(s0.index, s.index) && node in s.index
  {
    hide Reach, Inv, LowBounds, LowWitness;
  }

  function Reversed(s: seq<Node>): seq<Node> {
    seq(|s|, i requires 0 <= i < |s| => s[|s| - 1 - i])
  }

  lemma ReversedElements(s: seq<Node>)
    requires Distinct(s)
    ensures Distinct(Reversed(s)) && Elements(Reversed(s)) == Elements(s)
  {
    forall x | x in s ensures x in Reversed(s) {
      var i :| 0 <= i < |s| && s[i] == x;
      assert Reversed(s)[|s| - 1 - i] == x;
    }
  }

  /** The whole search: what the nested function and the variables it closes over do. */
  class Finder {
    const graph: Graph
    var indexCounter: nat
    var stack: seq<Node>
    var lowlinks: map<Node, nat>
    var index: map<Node, nat>
    var result: seq<seq<Node>>

    ghost function View(): Search
      reads this
    {
      Search(indexCounter, index, stack, result)
    }

    ghost predicate Valid(grays: set<Node>)
      reads this
    {
      && Inv(graph, View(), grays)
      && lowlinks.Keys == index.Keys <= Universe(graph)
    }

    constructor (graph: Graph)
      ensures this.graph == graph && Valid({}) && View() == Search(0, map[], [], [])
    {
      this.graph := graph;
      indexCounter, stack, lowlinks, index, result := 0, [], map[], map[], [];
    }

    /** Pops the stack down to and including node and emits what was popped, last pushed first. */
    method PopComponent(node: Node, ghost bottom: seq<Node>)
      requires bottom < stack && stack[|bottom|] == node && Distinct(stack)
      modifies this`stack, this`result
      ensures stack == bottom
      ensures result == old(result) + [Reversed(old(stack)[|bottom|..])]
    {
      var connectedComponent: seq<Node> := [];
      while true
        invariant bottom < stack <= old(stack) && result == old(result)
        invariant connectedComponent == Reversed(old(stack)[|stack|..])
        decreases |stack|
      {
        var successor := stack[|stack| - 1];
        stack := stack[..|stack| - 1];
        connectedComponent := connectedComponent + [successor];
        assert connectedComponent == Reversed(old(stack)[|stack|..]);
        if successor == node {
          break;
        }
      }
      result := result + [connectedComponent];
    }

    /** The end of strongconnect: emits the component of node if node is its root. */
    method Leave(node: Node, ghost s0: Search, ghost grays: set<Node>)
      requires lowlinks.Keys == index.Keys <= Universe(graph)
      requires node in index && node in lowlinks && index[node] == s0.counter && node !in s0.index
      requires Scanning(graph, s0, View(), grays, node, lowlinks[node], |Successors(graph, node)|)
      modifies this`stack, this`result
      ensures Returned(graph, s0, View(), grays, node, old(lowlinks[node]))
      ensures Valid(grays)
    {
      hide Reach, Inv, Scanning, Returned;
      ghost var s := View();
      ScanningIsInv(graph, s0, s, grays, node, lowlinks[node], |Successors(graph, node)|);
      if lowlinks[node] == index[node] {
        PopComponent(node, s0.stack);
        ReversedElements(s.stack[|s0.stack|..]);
        LeavePopped(graph, s0, s, grays, node, Reversed(s.stack[|s0.stack|..]));
      } else {
        LeaveStacked(graph, s0, s, grays, node, lowlinks[node]);
      }
      ReturnedIsInv(graph, s0, View(), grays, node, lowlinks[node]);
    }

    /** The start of strongconnect: numbers node with the smallest unused index and stacks it. */
    method Enter(node: Node, ghost grays: set<Node>)
      requires Valid(grays) && node !in index && node in Universe(graph)
      requires forall r :: r in grays ==> Reach(graph, r, node)
      modifies this
      ensures lowlinks.Keys == index.Keys <= Universe(graph)
      ensures View() == Push(old(View()), node) && index[node] == old(indexCounter)
      ensures lowlinks == old(lowlinks)[node := old(indexCounter)]
      ensures Scanning(graph, old(View()), View(), grays, node, lowlinks[node], 0)
    {
      hide Reach, Inv, Scanning;
      EnterStartsScan(graph, View(), grays, node);
      index := index[node := indexCounter];
      lowlinks := lowlinks[node := indexCounter];
      indexCounter := indexCounter + 1;
      stack := stack + [node];
    }

    method StrongConnect(node: Node, ghost grays: set<Node>)
      requires Valid(grays) && node !in index && node in Universe(graph)
      requires forall r :: r in grays ==> Reach(graph, r, node)
      modifies this
      ensures Valid(grays) && node in index
      ensures Returned(graph, old(View()), View(), grays, node, lowlinks[node])
      ensures SubMap(old(lowlinks), lowlinks)
      decreases Universe(graph) - index.Keys
    {
      hide Reach, Inv, Scanning, Returned;
      ghost var s0 := View();
      Enter(node, grays);

      var successors := Successors(graph, node);
      for i := 0 to |successors|
        invariant lowlinks.Keys == index.Keys <= Universe(graph)
        invariant node in index && index[node] == s0.counter
        invariant s0.index.Keys < index.Keys
        invariant Scanning(graph, s0, View(), grays, node, lowlinks[node], i)
        invariant SubMap(old(lowlinks), lowlinks)
      {
        var successor := successors[i];
        ghost var s := View();
        ghost var low := lowlinks[node];
        if successor !in lowlinks {
          ScanReaches(graph, s0, s, grays, node, low, i);
          ScanningIsInv(graph, s0, s, grays, node, low, i);
          assert Edge(graph, node, successor);
          StrongConnect(successor, grays + {node});
          ReturnedIsInv(graph, s, View(), grays + {node}, successor, lowlinks[successor]);
          ScanVisited(graph, s0, s, View(), grays, node, low, lowlinks[successor], i);
          lowlinks := lowlinks[node := Min(lowlinks[node], lowlinks[successor])];
        } else if successor in stack {
          ScanStacked(graph, s0, s, grays, node, low, i);
          lowlinks := lowlinks[node := Min(lowlinks[node], index[successor])];
        } else {
          ScanEmitted(graph, s0, s, grays, node, low, i);
        }
      }

      Leave(node, s0, grays);
    }
  }

  /** Each tuple lists a strongly connected component, and no tuple occurs twice. */
  ghost predicate AllComponents(g: Graph, cs: seq<seq<Node>>) {
    && (forall c :: c in cs ==> IsComponent(g, c))
    && forall i, j, x :: 0 <= i < |cs| && 0 <= j < |cs| && x in cs[i] && x in cs[j] ==> i == j
  }

  /** A tuple comes before every other tuple that can reach it. */
  ghost predicate ReverseTopological(g: Graph, cs: seq<seq<Node>>) {
    forall i, j, x, y :: 0 <= i < |cs| && 0 <= j < |cs| && x in cs[i] && y in cs[j] && Reach(g, x, y) ==> j <= i
  }

  lemma EmittedMember(cs: seq<seq<Node>>, x: Node)
    ensures x in Emitted(cs) <==> exists i :: 0 <= i < |cs| && x in cs[i]
  {
    if cs != [] {
      var n := |cs| - 1;
      EmittedMember(cs[..n], x);
      if i :| 0 <= i < |cs| && x in cs[i] {
        assert i < n ==> x in cs[..n][i];
      }
    }
  }

  lemma {:induction false} ComponentsAreOrdered(g: Graph, cs: seq<seq<Node>>)
    requires Components(g, cs)
    ensures AllComponents(g, cs) && ReverseTopological(g, cs)
  {
    hide Reach, IsComponent;
    if cs != [] {
      var n := |cs| - 1;
      var init := cs[..n];
      ComponentsAreOrdered(g, init);
      EmittedClosed(g, init);
      forall i, x | 0 <= i < n && x in cs[i] ensures x in Emitted(init) && x !in cs[n] {
        assert x in init[i];
        EmittedMember(init, x);
        assert x !in Elements(cs[n]);
      }
      forall i, j, x, y | 0 <= i < |cs| && 0 <= j < |cs| && x in cs[i] && y in cs[j] && Reach(g, x, y)
        ensures j <= i
      {
        if j == n && i < n {
          ClosedReach(g, Emitted(init), x, y);
          assert false;
        } else if i < n {
          assert x in init[i] && y in init[j];
        }
      }
      forall i, j, x | 0 <= i < |cs| && 0 <= j < |cs| && x in cs[i] && x in cs[j] ensures i == j {
        if i < n && j < n {
          assert x in init[i] && x in init[j];
        }
      }
      forall c | c in cs ensures IsComponent(g, c) {
        assert c == cs[n] || c in init;
      }
    }
  }

  /** strongly_connected_components, for whatever order the dictionary's keys are iterated in. */
  method StronglyConnectedComponents(graph: Graph) returns (result: seq<seq<Node>>)
    ensures AllComponents(graph, result)
    ensures ReverseTopological(graph, result)
    ensures forall x :: ReachableFromKeys(graph, x) <==> exists i :: 0 <= i < |result| && x in result[i]
  {
    hide Inv, Returned, Reach, ReachableFromKeys;
    var finder := new Finder(graph);
    var nodes := graph.Keys;
    while nodes != {}
      invariant finder.graph == graph && finder.Valid({})
      invariant graph.Keys - nodes <= finder.index.Keys
      decreases nodes
    {
      var node :| node in nodes;
      nodes := nodes - {node};
      if node !in finder.lowlinks {
        finder.StrongConnect(node, {});
      }
    }
    result := finder.result;
    SearchComplete(graph, finder.View());
  }

  /** With no call running and every key visited, the result covers the graph. */
  lemma SearchComplete(g: Graph, s: Search)
    requires Inv(g, s, {}) && g.Keys <= s.index.Keys <= Universe(g)
    ensures AllComponents(g, s.result) && ReverseTopological(g, s.result)
    ensures forall x :: ReachableFromKeys(g, x) <==> exists i :: 0 <= i < |s.result| && x in s.result[i]
  {
    hide Reach, ReachableFromKeys, AllComponents, ReverseTopological;
    ComponentsAreOrdered(g, s.result);
    forall x | x in s.stack ensures false {
      assert false;
    }
    forall x ensures ReachableFromKeys(g, x) <==> exists i :: 0 <= i < |s.result| && x in s.result[i] {
      EmittedMember(s.result, x);
      UniverseIsReachable(g, x);
      if x in Universe(g) && x !in g {
        var k :| k in g && x in g[k];
        assert Edge(g, k, x);
      }
    }
  }
}
