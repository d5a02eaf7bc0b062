/**
 * The DAG nodes of the class graph, kept as an arena addressed by class
 * name. Each field of a node (direct sub- and super-nodes, cross-links and
 * the two transitive closures) is one map from node name to a set of node
 * names. The closure that `findTransitiveClosure` computes is specified
 * here as reachability along direct edges, computed by a breadth-first
 * expansion and proved equal to the existence of a path.
 */
module DagNodes {

  type Edges = map<string, set<string>>

  /** A set of directed edges, as (from, to) pairs of node names. */
  type Pairs = set<(string, string)>

  /** Every node has an entry and every entry names only nodes. */
  ghost predicate EdgesWithin(e: Edges, nodes: set<string>) {
    e.Keys == nodes && forall n :: n in e ==> e[n] <= nodes
  }

  /** Every edge ends at a key of the map. */
  ghost predicate ClosedEdges(e: Edges) {
    forall n :: n in e ==> e[n] <= e.Keys
  }

  /** Both ends of every pair are nodes. */
  ghost predicate PairsWithin(s: Pairs, nodes: set<string>) {
    forall e :: e in s ==> e.0 in nodes && e.1 in nodes
  }

  /**
   * The node arena. A direct edge (parent, child) is one pair of `subEdges`: it
   * is both `child in parent.directSubNodes` and `parent in child.directSuperNodes`.
   * A pair (from, to) of `crossLinks` is `to in from.crossLinkedNodes`.
   */
  datatype Dag = Dag(
    nodes: set<string>,
    subEdges: Pairs,
    crossLinks: Pairs,
    allSubNodes: Edges,
    allSuperNodes: Edges)

  /** Well-formed arena: every edge joins two nodes and both closures have an entry per node. */
  ghost predicate Valid(d: Dag) {
    && PairsWithin(d.subEdges, d.nodes)
    && PairsWithin(d.crossLinks, d.nodes)
    && EdgesWithin(d.allSubNodes, d.nodes)
    && EdgesWithin(d.allSuperNodes, d.nodes)
  }

  /** `directSubNodes` of every node. */
  function DirectSubNodes(d: Dag): (e: Edges)
    requires Valid(d)
    ensures EdgesWithin(e, d.nodes)
    ensures forall p, c :: p in e && c in e[p] <==> (p, c) in d.subEdges
  {
    map p | p in d.nodes :: set c | c in d.nodes && (p, c) in d.subEdges
  }

  /** `directSuperNodes` of every node: the same edges read from the child's end. */
  function DirectSuperNodes(d: Dag): (e: Edges)
    requires Valid(d)
    ensures EdgesWithin(e, d.nodes)
    ensures forall c, p :: c in e && p in e[c] <==> (p, c) in d.subEdges
  {
    map c | c in d.nodes :: set p | p in d.nodes && (p, c) in d.subEdges
  }

  /** `crossLinkedNodes` of the node `n`. */
  function CrossLinkedNodes(d: Dag, n: string): (r: set<string>)
    requires Valid(d)
    ensures r <= d.nodes
    ensures forall t :: t in r <==> (n, t) in d.crossLinks
  {
    set t | t in d.nodes && (n, t) in d.crossLinks
  }

  /** The node views depend on the edges only. */
  lemma SameEdgesSameViews(d: Dag, e: Dag)
    requires Valid(d) && Valid(e) && d.nodes == e.nodes && d.subEdges == e.subEdges
    ensures DirectSubNodes(d) == DirectSubNodes(e) && DirectSuperNodes(d) == DirectSuperNodes(e)
  {
  }

  function EmptyEdges(nodes: set<string>): (e: Edges)
    ensures EdgesWithin(e, nodes)
    ensures forall n :: n in e ==> e[n] == {}
  {
    map n | n in nodes :: {}
  }

  /** One fresh `DAGNode` per name: no edges, empty closures. */
  function NewDag(nodes: set<string>): (d: Dag)
    ensures Valid(d) && d.nodes == nodes
    ensures d.subEdges == {} && d.crossLinks == {}
  {
    Dag(nodes, {}, {}, EmptyEdges(nodes), EmptyEdges(nodes))
  }

  /** `parent.addSubNode(child)`: `child` becomes a direct sub-node of `parent`, `parent` a direct super-node of `child`. */
  function AddSubNode(d: Dag, parent: string, child: string): (r: Dag)
    requires Valid(d) && parent in d.nodes && child in d.nodes
    ensures Valid(r) && r.nodes == d.nodes
  {
    d.(subEdges := d.subEdges + {(parent, child)})
  }

  /** The one edge `addSubNode` records shows in both directions, and no other direct edge appears. */
  lemma AddSubNodeLinksBoth(d: Dag, parent: string, child: string, p: string, c: string)
    requires Valid(d) && parent in d.nodes && child in d.nodes && p in d.nodes
    ensures child in DirectSubNodes(AddSubNode(d, parent, child))[parent]
    ensures parent in DirectSuperNodes(AddSubNode(d, parent, child))[child]
    ensures c in DirectSubNodes(AddSubNode(d, parent, child))[p] <==>
      c in DirectSubNodes(d)[p] || (p == parent && c == child)
  {
  }

  /** `from.addCrossLink(to)`. */
  function AddCrossLink(d: Dag, from: string, to: string): (r: Dag)
    requires Valid(d) && from in d.nodes && to in d.nodes
    ensures Valid(r) && r.nodes == d.nodes
  {
    d.(crossLinks := d.crossLinks + {(from, to)})
  }

  /** `addCrossLink` adds exactly the one link. */
  lemma AddCrossLinkAddsOne(d: Dag, from: string, to: string, f: string, t: string)
    requires Valid(d) && from in d.nodes && to in d.nodes
    ensures t in CrossLinkedNodes(AddCrossLink(d, from, to), f) <==>
      t in CrossLinkedNodes(d, f) || (f == from && t == to)
  {
  }

  // ---------------------------------------------------------------------------------------------
  // Reachability

  /** A path of one or more nodes, each step along an edge of `e`. */
  ghost predicate IsPath(e: Edges, p: seq<string>) {
    |p| >= 1 && forall i :: 0 <= i < |p| - 1 ==> p[i] in e && p[i + 1] in e[p[i]]
  }

  /** `b` can be reached from `a` along one or more edges. */
  ghost predicate Reachable(e: Edges, a: string, b: string) {
    exists p :: IsPath(e, p) && |p| >= 2 && p[0] == a && p[|p| - 1] == b
  }

  /** The nodes one edge away from some node of `s`. */
  function Successors(e: Edges, s: set<string>): (r: set<string>)
    requires s <= e.Keys
    ensures forall y :: y in r <==> exists x :: x in s && y in e[x]
  {
    set x, y | x in s && y in e[x] :: y
  }

  /** Breadth-first expansion of `visited` from its newest layer `frontier`. */
  function Expand(e: Edges, visited: set<string>, frontier: set<string>): (r: set<string>)
    requires ClosedEdges(e)
    requires frontier <= visited <= e.Keys
    ensures visited <= r <= e.Keys
    decreases |e.Keys - visited|
  {
    var next := Successors(e, frontier) - visited;
    if next == {} then visited
    else
      assert e.Keys - (visited + next) < e.Keys - visited;
      Expand(e, visited + next, next)
  }

  /** The nodes reachable from `n` by at least one edge: `allSubNodes` over sub-edges, `allSuperNodes` over super-edges. */
  function Closure(e: Edges, n: string): (r: set<string>)
    requires ClosedEdges(e) && n in e
    ensures r <= e.Keys
  {
    var first := Successors(e, {n});
    Expand(e, first, first)
  }

  lemma ReachableByOneEdge(e: Edges, a: string, b: string)
    requires a in e && b in e[a]
    ensures Reachable(e, a, b)
  {
    assert IsPath(e, [a, b]);
  }

  lemma ReachableByExtension(e: Edges, a: string, x: string, y: string)
    requires Reachable(e, a, x) && x in e && y in e[x]
    ensures Reachable(e, a, y)
  {
    var p :| IsPath(e, p) && |p| >= 2 && p[0] == a && p[|p| - 1] == x;
    var q := p + [y];
    assert IsPath(e, q);
  }

  lemma {:induction false} ExpandSound(e: Edges, a: string, visited: set<string>, frontier: set<string>)
    requires ClosedEdges(e) && frontier <= visited <= e.Keys
    requires forall x :: x in visited ==> Reachable(e, a, x)
    ensures forall x :: x in Expand(e, visited, frontier) ==> Reachable(e, a, x)
    decreases |e.Keys - visited|
  {
    var next := Successors(e, frontier) - visited;
    if next != {} {
      forall y | y in next ensures Reachable(e, a, y) {
        var x :| x in frontier && y in e[x];
        ReachableByExtension(e, a, x, y);
      }
      assert e.Keys - (visited + next) < e.Keys - visited;
      ExpandSound(e, a, visited + next, next);
    }
  }

  lemma {:induction false} ExpandClosed(e: Edges, visited: set<string>, frontier: set<string>)
    requires ClosedEdges(e) && frontier <= visited <= e.Keys
    requires forall x :: x in visited && x !in frontier ==> e[x] <= visited
    ensures forall x :: x in Expand(e, visited, frontier) ==> e[x] <= Expand(e, visited, frontier)
    decreases |e.Keys - visited|
  {
    var next := Successors(e, frontier) - visited;
    if next == {} {
      forall x | x in frontier ensures e[x] <= visited {
        forall y | y in e[x] ensures y in visited {
          assert y in Successors(e, frontier);
          assert y !in next;
        }
      }
    } else {
      forall x | x in visited + next && x !in next ensures e[x] <= visited + next {
        if x in frontier {
          forall y | y in e[x] ensures y in visited + next {
            assert y in Successors(e, frontier);
          }
        }
      }
      assert e.Keys - (visited + next) < e.Keys - visited;
      ExpandClosed(e, visited + next, next);
    }
  }

  /** A set closed under edges that holds the second node of a path holds every later node. */
  lemma {:induction false} ClosedSetHoldsPath(e: Edges, s: set<string>, p: seq<string>, i: nat)
    requires IsPath(e, p) && 1 <= i < |p|
    requires p[1] in s
    requires forall x :: x in s ==> x in e && e[x] <= s
    ensures p[i] in s
  {
    if i > 1 {
      ClosedSetHoldsPath(e, s, p, i - 1);
    }
  }

  /** The computed closure is exactly the set of nodes reachable by one or more edges. */
  lemma ClosureIsReachability(e: Edges, a: string, b: string)
    requires ClosedEdges(e) && a in e
    ensures b in Closure(e, a) <==> Reachable(e, a, b)
  {
    var first := Successors(e, {a});
    forall x | x in first ensures Reachable(e, a, x) {
      ReachableByOneEdge(e, a, x);
    }
    ExpandSound(e, a, first, first);
    ExpandClosed(e, first, first);
    if Reachable(e, a, b) {
      var p :| IsPath(e, p) && |p| >= 2 && p[0] == a && p[|p| - 1] == b;
      assert p[1] in first;
      ClosedSetHoldsPath(e, Closure(e, a), p, |p| - 1);
    }
  }

  // ---------------------------------------------------------------------------------------------
  // Both directions of the closure

  function Reverse(p: seq<string>): (r: seq<string>)
    ensures |r| == |p| && forall i :: 0 <= i < |p| ==> r[i] == p[|p| - 1 - i]
  {
    seq(|p|, i requires 0 <= i < |p| => p[|p| - 1 - i])
  }

  lemma PathReversed(d: Dag, p: seq<string>)
    requires Valid(d) && IsPath(DirectSubNodes(d), p)
    ensures IsPath(DirectSuperNodes(d), Reverse(p))
  {
    var r := Reverse(p);
    forall i | 0 <= i < |r| - 1 ensures r[i] in DirectSuperNodes(d) && r[i + 1] in DirectSuperNodes(d)[r[i]] {
      var k := |p| - 2 - i;
      assert p[k] in DirectSubNodes(d) && p[k + 1] in DirectSubNodes(d)[p[k]];
    }
  }

  lemma PathReversedBack(d: Dag, p: seq<string>)
    requires Valid(d) && IsPath(DirectSuperNodes(d), p)
    ensures IsPath(DirectSubNodes(d), Reverse(p))
  {
    var r := Reverse(p);
    forall i | 0 <= i < |r| - 1 ensures r[i] in DirectSubNodes(d) && r[i + 1] in DirectSubNodes(d)[r[i]] {
      var k := |p| - 2 - i;
      assert p[k] in DirectSuperNodes(d) && p[k + 1] in DirectSuperNodes(d)[p[k]];
    }
  }

  /** `b` is among `a`'s sub-nodes exactly when `a` is among `b`'s super-nodes. */
  lemma SubSuperSymmetric(d: Dag, a: string, b: string)
    requires Valid(d) && a in d.nodes && b in d.nodes
    ensures b in Closure(DirectSubNodes(d), a) <==> a in Closure(DirectSuperNodes(d), b)
  {
    ClosureIsReachability(DirectSubNodes(d), a, b);
    ClosureIsReachability(DirectSuperNodes(d), b, a);
    if Reachable(DirectSubNodes(d), a, b) {
      var p :| IsPath(DirectSubNodes(d), p) && |p| >= 2 && p[0] == a && p[|p| - 1] == b;
      PathReversed(d, p);
      assert Reverse(p)[0] == b && Reverse(p)[|p| - 1] == a;
    }
    if Reachable(DirectSuperNodes(d), b, a) {
      var p :| IsPath(DirectSuperNodes(d), p) && |p| >= 2 && p[0] == b && p[|p| - 1] == a;
      PathReversedBack(d, p);
      assert Reverse(p)[0] == a && Reverse(p)[|p| - 1] == b;
    }
  }

  /** The direct sub-edges have no cycle. */
  ghost predicate Acyclic(d: Dag)
    requires Valid(d)
  {
    forall n :: !Reachable(DirectSubNodes(d), n, n)
  }

  /** On a DAG no node is its own descendant or ancestor. */
  lemma NotOwnRelative(d: Dag, n: string)
    requires Valid(d) && Acyclic(d) && n in d.nodes
    ensures n !in Closure(DirectSubNodes(d), n)
    ensures n !in Closure(DirectSuperNodes(d), n)
  {
    ClosureIsReachability(DirectSubNodes(d), n, n);
    SubSuperSymmetric(d, n, n);
  }

  /** Diamond inheritance: `D` below `B` and `C`, both below `A`, has ancestors `{A, B, C}`, each once. */
  lemma DiamondAncestors(e: Edges, a: string, b: string, c: string, dd: string)
    requires ClosedEdges(e) && a in e && b in e && c in e && dd in e
    requires a != b && a != c && b != c
    requires e[dd] == {b, c} && e[b] == {a} && e[c] == {a} && e[a] == {}
    ensures Closure(e, dd) == {a, b, c}
  {
    assert Successors(e, {dd}) == {b, c} by {
      forall y ensures y in Successors(e, {dd}) <==> y in e[dd] {}
    }
    assert Successors(e, {b, c}) - {b, c} == {a} by {
      forall y ensures y in Successors(e, {b, c}) <==> y in e[b] || y in e[c] {}
    }
    assert Successors(e, {a}) == {} by {
      forall y ensures y in Successors(e, {a}) <==> y in e[a] {}
    }
    assert {b, c} + {a} == {a, b, c};
    assert Expand(e, {a, b, c}, {a}) == {a, b, c};
  }

  // ---------------------------------------------------------------------------------------------
  // findTransitiveClosure

  /** A closure field after closing the nodes of `list`; the others keep their `before` value. */
  function ClosureMap(e: Edges, nodes: set<string>, list: seq<string>, before: Edges): (m: Edges)
    requires EdgesWithin(e, nodes) && EdgesWithin(before, nodes)
    ensures EdgesWithin(m, nodes)
  {
    map n | n in nodes :: if n in list then Closure(e, n) else before[n]
  }

  lemma ClosureMapStep(e: Edges, nodes: set<string>, list: seq<string>, n: string, before: Edges)
    requires EdgesWithin(e, nodes) && EdgesWithin(before, nodes) && n in nodes
    ensures ClosureMap(e, nodes, list + [n], before) == ClosureMap(e, nodes, list, before)[n := Closure(e, n)]
  {
  }

  /** The arena after closing the nodes of `list`: their `allSubNodes` and `allSuperNodes` set to the closures. */
  function Close(d: Dag, list: seq<string>): (r: Dag)
    requires Valid(d) && forall n :: n in list ==> n in d.nodes
    ensures Valid(r) && r.nodes == d.nodes
  {
    d.(allSubNodes := ClosureMap(DirectSubNodes(d), d.nodes, list, d.allSubNodes),
       allSuperNodes := ClosureMap(DirectSuperNodes(d), d.nodes, list, d.allSuperNodes))
  }

  /** Closing leaves every edge alone, closes the listed nodes and keeps the closures of the others. */
  lemma CloseEffect(d: Dag, list: seq<string>)
    requires Valid(d) && forall n :: n in list ==> n in d.nodes
    ensures Close(d, list).subEdges == d.subEdges && Close(d, list).crossLinks == d.crossLinks
    ensures forall n :: n in list ==>
      && Close(d, list).allSubNodes[n] == Closure(DirectSubNodes(d), n)
      && Close(d, list).allSuperNodes[n] == Closure(DirectSuperNodes(d), n)
    ensures forall n :: n in d.nodes && n !in list ==>
      && Close(d, list).allSubNodes[n] == d.allSubNodes[n]
      && Close(d, list).allSuperNodes[n] == d.allSuperNodes[n]
  {
  }

  /** Node `n` holds its two transitive closures over the whole graph. */
  ghost predicate ClosedAt(d: Dag, n: string)
    requires Valid(d) && n in d.nodes
  {
    d.allSubNodes[n] == Closure(DirectSubNodes(d), n) && d.allSuperNodes[n] == Closure(DirectSuperNodes(d), n)
  }

  /** Closing three lists in turn closes every node of any of them. */
  lemma CloseThrice(d: Dag, s: seq<string>, i: seq<string>, a: seq<string>, n: string)
    requires Valid(d) && forall x :: x in s + i + a ==> x in d.nodes
    requires n in s + i + a
    ensures ClosedAt(Close(Close(Close(d, s), i), a), n)
  {
    var d1 := Close(d, s);
    var d2 := Close(d1, i);
    var d3 := Close(d2, a);
    CloseEffect(d, s);
    CloseEffect(d1, i);
    CloseEffect(d2, a);
    SameEdgesSameViews(d, d1);
    SameEdgesSameViews(d, d2);
    SameEdgesSameViews(d, d3);
    if n in a {
    } else if n in i {
      assert d3.allSubNodes[n] == d2.allSubNodes[n] && d3.allSuperNodes[n] == d2.allSuperNodes[n];
    } else {
      assert d3.allSubNodes[n] == d1.allSubNodes[n] && d3.allSuperNodes[n] == d1.allSuperNodes[n];
    }
  }

  /** One closure field for every node of `list`, the other nodes keeping theirs. */
  method CloseEach(e: Edges, nodes: set<string>, list: seq<string>, before: Edges) returns (m: Edges)
    requires EdgesWithin(e, nodes) && EdgesWithin(before, nodes)
    requires forall n :: n in list ==> n in nodes
    ensures m == ClosureMap(e, nodes, list, before)
  {
    m := before;
    var i := 0;
    assert list[..0] == [];
    while i < |list|
      invariant 0 <= i <= |list|
      invariant m == ClosureMap(e, nodes, list[..i], before)
    {
      var n := list[i];
      ClosureMapStep(e, nodes, list[..i], n, before);
      m := m[n := Closure(e, n)];
      assert list[..i + 1] == list[..i] + [n];
      i := i + 1;
    }
    assert list[..i] == list;
  }

  /** `DAGNode.findTransitiveClosure(list)`: fills in both closures of every node of `list`. */
  method FindTransitiveClosure(d: Dag, list: seq<string>) returns (r: Dag)
    requires Valid(d) && forall n :: n in list ==> n in d.nodes
    ensures r == Close(d, list)
  {
    var allSub := CloseEach(DirectSubNodes(d), d.nodes, list, d.allSubNodes);
    var allSuper := CloseEach(DirectSuperNodes(d), d.nodes, list, d.allSuperNodes);
    r := d.(allSubNodes := allSub, allSuperNodes := allSuper);
  }

}
