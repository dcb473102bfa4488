/**
 Construction of the letter-adjacency graph: every ordered pair of input nodes
 that the caller's adjacency predicate relates becomes an undirected edge.
 */
module LetterNodeUtils {
  import opened LetterNodes

  /** `std::unordered_map<LetterNode, std::unordered_set<LetterNode>>`. */
  type Graph = map<LetterNode, set<LetterNode>>

  /** The caller-supplied adjacency strategy `bool (*)(LetterNode, LetterNode)`. */
  type Adjacency = (LetterNode, LetterNode) -> bool

  /** An ordered pair of nodes. */
  type Pair = (LetterNode, LetterNode)

  /** `graph[u]`, reading an absent key as the empty set. */
  function Neighbours(g: Graph, u: LetterNode): (s: set<LetterNode>)
  {
    if u in g then g[u] else {}
  }

  /** `graph[u].insert(v)`: `operator[]` creates an empty set for a missing key,
      then `v` joins it; every other entry is left alone. */
  function Insert(g: Graph, u: LetterNode, v: LetterNode): (r: Graph)
    ensures r.Keys == g.Keys + {u}
    ensures v in r[u]
    ensures forall w :: w in r[u] <==> w == v || (u in g && w in g[u])
    ensures forall w :: w in g && w != u ==> r[w] == g[w]
  {
    g[u := Neighbours(g, u) + {v}]
  }

  /** Every edge is recorded at both of its ends. */
  ghost predicate Symmetric(g: Graph)
  {
    forall u, v :: u in g && v in g[u] ==> v in g && u in g[v]
  }

  /** The nodes that occur in some pair, in either position. */
  function Endpoints(e: set<Pair>): (ends: set<LetterNode>)
  {
    (set p | p in e :: p.0) + (set p | p in e :: p.1)
  }

  /** The undirected graph spanned by a set of pairs: `u` and `v` are
      neighbours when the pair is present in either orientation. */
  function GraphOf(e: set<Pair>): (g: Graph)
  {
    map u | u in Endpoints(e) :: set v | v in Endpoints(e) && ((u, v) in e || (v, u) in e)
  }

  /** All ordered pairs of input nodes, the self pairs included, that the predicate relates. */
  function AdjacentPairs(nodes: seq<LetterNode>, isAdjacent: Adjacency): (e: set<Pair>)
  {
    set u, v | u in nodes && v in nodes && isAdjacent(u, v) :: (u, v)
  }

  /** The graph the builder is meant to produce, as one expression. */
  function LetterNodeGraph(nodes: seq<LetterNode>, isAdjacent: Adjacency): (g: Graph)
  {
    GraphOf(AdjacentPairs(nodes, isAdjacent))
  }

  /** The related pairs the nested loop has visited once the outer index is at
      `i` and the inner index at `j`. */
  function PairsBefore(nodes: seq<LetterNode>, isAdjacent: Adjacency, i: int, j: int): (e: set<Pair>)
  {
    set a, b | 0 <= a < |nodes| && 0 <= b < |nodes| && (a < i || (a == i && b < j))
                 && isAdjacent(nodes[a], nodes[b]) :: (nodes[a], nodes[b])
  }

  lemma PairsBeforeStart(nodes: seq<LetterNode>, isAdjacent: Adjacency)
    ensures PairsBefore(nodes, isAdjacent, 0, 0) == {}
  {
  }

  /** One step of the inner loop adds at most the pair it looks at. */
  lemma PairsBeforeStep(nodes: seq<LetterNode>, isAdjacent: Adjacency, i: int, j: int)
    requires 0 <= i < |nodes| && 0 <= j < |nodes|
    ensures PairsBefore(nodes, isAdjacent, i, j + 1)
         == PairsBefore(nodes, isAdjacent, i, j)
            + (if isAdjacent(nodes[i], nodes[j]) then {(nodes[i], nodes[j])} else {})
  {
    var lhs := PairsBefore(nodes, isAdjacent, i, j + 1);
    var rhs := PairsBefore(nodes, isAdjacent, i, j)
               + (if isAdjacent(nodes[i], nodes[j]) then {(nodes[i], nodes[j])} else {});
    forall p | p in lhs ensures p in rhs {
      var a, b :| 0 <= a < |nodes| && 0 <= b < |nodes| && (a < i || (a == i && b < j + 1))
                  && isAdjacent(nodes[a], nodes[b]) && p == (nodes[a], nodes[b]);
      if !(a < i || (a == i && b < j)) {
        assert a == i && b == j;
      }
    }
    if isAdjacent(nodes[i], nodes[j]) {
      assert (nodes[i], nodes[j]) in lhs;
    }
  }

  /** A finished inner loop is the start of the next row. */
  lemma PairsBeforeRow(nodes: seq<LetterNode>, isAdjacent: Adjacency, i: int)
    ensures PairsBefore(nodes, isAdjacent, i, |nodes|) == PairsBefore(nodes, isAdjacent, i + 1, 0)
  {
  }

  /** Once every row is done, the visited pairs are all the related pairs. */
  lemma PairsBeforeEnd(nodes: seq<LetterNode>, isAdjacent: Adjacency)
    ensures PairsBefore(nodes, isAdjacent, |nodes|, 0) == AdjacentPairs(nodes, isAdjacent)
  {
    var lhs := PairsBefore(nodes, isAdjacent, |nodes|, 0);
    var rhs := AdjacentPairs(nodes, isAdjacent);
    forall p | p in rhs ensures p in lhs {
      var u, v :| u in nodes && v in nodes && isAdjacent(u, v) && p == (u, v);
      var a :| 0 <= a < |nodes| && nodes[a] == u;
      var b :| 0 <= b < |nodes| && nodes[b] == v;
    }
  }

  lemma GraphOfEmpty()
    ensures GraphOf({}) == map[]
  {
  }

  /** Adding the pair `(u, v)` to the spanning set is what the loop body does
      to the graph: `graph[u].insert(v); graph[v].insert(u);`. */
  lemma {:induction false} GraphOfAddPair(e: set<Pair>, u: LetterNode, v: LetterNode)
    ensures GraphOf(e + {(u, v)}) == Insert(Insert(GraphOf(e), u, v), v, u)
  {
    var e' := e + {(u, v)};
    var lhs := GraphOf(e');
    var rhs := Insert(Insert(GraphOf(e), u, v), v, u);
    assert (u, v) in e';
    assert Endpoints(e') == Endpoints(e) + {u, v};
    assert lhs.Keys == rhs.Keys;
    forall w | w in lhs.Keys ensures lhs[w] == rhs[w] {
      forall x ensures x in lhs[w] <==> x in rhs[w] {
        if x in lhs[w] {
          assert (w, x) in e' || (x, w) in e';
          if (w, x) in e {
            assert w in Endpoints(e) && x in Endpoints(e);
          } else if (x, w) in e {
            assert x in Endpoints(e) && w in Endpoints(e);
          }
        }
        if x in rhs[w] && !(w == u && x == v) && !(w == v && x == u) {
          assert w in GraphOf(e) && x in GraphOf(e)[w];
        }
      }
    }
  }

  /** `LetterNodeUtils::createLetterNodeGraph`: for every ordered pair `(u, v)`
      of input nodes with `isAdjacent(u, v)`, insert `v` into `graph[u]` and
      `u` into `graph[v]`. */
  method CreateLetterNodeGraph(letterNodes: seq<LetterNode>, isAdjacent: Adjacency) returns (graph: Graph)
    ensures graph == LetterNodeGraph(letterNodes, isAdjacent)
    ensures Symmetric(graph)
    ensures forall u, v :: u in letterNodes && v in letterNodes && isAdjacent(u, v) ==>
              u in graph && v in graph[u] && v in graph && u in graph[v]
    ensures forall u, v :: u in graph && v in graph[u] ==>
              u in letterNodes && v in letterNodes && (isAdjacent(u, v) || isAdjacent(v, u))
  {
    graph := map[];
    ghost var visited: set<Pair> := {};
    PairsBeforeStart(letterNodes, isAdjacent);
    GraphOfEmpty();
    var i := 0;
    while i < |letterNodes|
      invariant 0 <= i <= |letterNodes|
      invariant visited == PairsBefore(letterNodes, isAdjacent, i, 0)
      invariant graph == GraphOf(visited)
    {
      var j := 0;
      while j < |letterNodes|
        invariant 0 <= j <= |letterNodes|
        invariant visited == PairsBefore(letterNodes, isAdjacent, i, j)
        invariant graph == GraphOf(visited)
      {
        var u, v := letterNodes[i], letterNodes[j];
        PairsBeforeStep(letterNodes, isAdjacent, i, j);
        if isAdjacent(u, v) {
          GraphOfAddPair(visited, u, v);
          graph := Insert(graph, u, v);
          graph := Insert(graph, v, u);
          visited := visited + {(u, v)};
        }
        j := j + 1;
      }
      PairsBeforeRow(letterNodes, isAdjacent, i);
      i := i + 1;
    }
    PairsBeforeEnd(letterNodes, isAdjacent);
    Symmetry(letterNodes, isAdjacent);
    Completeness(letterNodes, isAdjacent);
    Soundness(letterNodes, isAdjacent);
  }

  /** An empty input yields an empty graph. */
  lemma EmptyInput(isAdjacent: Adjacency)
    ensures LetterNodeGraph([], isAdjacent) == map[]
  {
    assert AdjacentPairs([], isAdjacent) == {};
  }

  /** Neighbourhood in the built graph means relatedness in one direction or the other. */
  lemma NeighbourIff(nodes: seq<LetterNode>, isAdjacent: Adjacency, u: LetterNode, v: LetterNode)
    ensures var g := LetterNodeGraph(nodes, isAdjacent);
            u in g && v in g[u] <==> u in nodes && v in nodes && (isAdjacent(u, v) || isAdjacent(v, u))
  {
    var e := AdjacentPairs(nodes, isAdjacent);
    if u in nodes && v in nodes && isAdjacent(u, v) {
      assert (u, v) in e;
    } else if u in nodes && v in nodes && isAdjacent(v, u) {
      assert (v, u) in e;
    }
  }

  /** The graph is symmetric whatever the predicate, because both directions are inserted. */
  lemma Symmetry(nodes: seq<LetterNode>, isAdjacent: Adjacency)
    ensures Symmetric(LetterNodeGraph(nodes, isAdjacent))
  {
    var g := LetterNodeGraph(nodes, isAdjacent);
    forall u, v | u in g && v in g[u] ensures v in g && u in g[v] {
      NeighbourIff(nodes, isAdjacent, u, v);
      NeighbourIff(nodes, isAdjacent, v, u);
    }
  }

  /** Every related pair of input nodes is an edge, recorded at both ends. */
  lemma Completeness(nodes: seq<LetterNode>, isAdjacent: Adjacency)
    ensures var g := LetterNodeGraph(nodes, isAdjacent);
            forall u, v :: u in nodes && v in nodes && isAdjacent(u, v) ==>
              u in g && v in g[u] && v in g && u in g[v]
  {
    forall u, v | u in nodes && v in nodes && isAdjacent(u, v)
      ensures var g := LetterNodeGraph(nodes, isAdjacent); u in g && v in g[u] && v in g && u in g[v]
    {
      NeighbourIff(nodes, isAdjacent, u, v);
      NeighbourIff(nodes, isAdjacent, v, u);
    }
  }

  /** Every edge joins two input nodes that the predicate relates one way or the other. */
  lemma Soundness(nodes: seq<LetterNode>, isAdjacent: Adjacency)
    ensures var g := LetterNodeGraph(nodes, isAdjacent);
            forall u, v :: u in g && v in g[u] ==>
              u in nodes && v in nodes && (isAdjacent(u, v) || isAdjacent(v, u))
  {
    forall u, v | u in LetterNodeGraph(nodes, isAdjacent) && v in LetterNodeGraph(nodes, isAdjacent)[u]
      ensures u in nodes && v in nodes && (isAdjacent(u, v) || isAdjacent(v, u))
    {
      NeighbourIff(nodes, isAdjacent, u, v);
    }
  }

  /** An input node is related, in either argument position, to some input node. */
  predicate Related(nodes: seq<LetterNode>, isAdjacent: Adjacency, u: LetterNode)
  {
    u in nodes && exists v :: v in nodes && (isAdjacent(u, v) || isAdjacent(v, u))
  }

  /** The keys are exactly the related input nodes; a node related to nothing,
      not even itself, gets no entry. */
  lemma KeysAreRelatedNodes(nodes: seq<LetterNode>, isAdjacent: Adjacency, u: LetterNode)
    ensures u in LetterNodeGraph(nodes, isAdjacent) <==> Related(nodes, isAdjacent, u)
  {
    var e := AdjacentPairs(nodes, isAdjacent);
    var g := LetterNodeGraph(nodes, isAdjacent);
    if u in g {
      var p :| p in e && (p.0 == u || p.1 == u);
      assert p.0 in nodes && p.1 in nodes && isAdjacent(p.0, p.1);
    }
    if Related(nodes, isAdjacent, u) {
      var v :| v in nodes && (isAdjacent(u, v) || isAdjacent(v, u));
      NeighbourIff(nodes, isAdjacent, u, v);
    }
  }

  /** With a reflexive predicate every input node is a key and its own neighbour. */
  lemma ReflexivePredicate(nodes: seq<LetterNode>, isAdjacent: Adjacency)
    requires forall n :: isAdjacent(n, n)
    ensures var g := LetterNodeGraph(nodes, isAdjacent);
            forall u :: u in nodes ==> u in g && u in g[u]
  {
    forall u | u in nodes ensures u in LetterNodeGraph(nodes, isAdjacent) && u in LetterNodeGraph(nodes, isAdjacent)[u] {
      NeighbourIff(nodes, isAdjacent, u, u);
    }
  }

  /** The always-true strategy. */
  function AlwaysAdjacent(u: LetterNode, v: LetterNode): (b: bool)
  {
    true
  }

  /** The exact-centre-match strategy. */
  function CenterMatch(u: LetterNode, v: LetterNode): (b: bool)
  {
    PointEq(u.rect.center, v.rect.center)
  }

  /** With the always-true strategy the graph is complete: every input node
      maps to the set of all distinct input nodes. */
  lemma AlwaysAdjacentIsComplete(nodes: seq<LetterNode>)
    ensures var g := LetterNodeGraph(nodes, AlwaysAdjacent);
            g.Keys == (set u | u in nodes) && forall u :: u in g ==> g[u] == set v | v in nodes
  {
    var g := LetterNodeGraph(nodes, AlwaysAdjacent);
    forall u ensures u in g <==> u in nodes {
      NeighbourIff(nodes, AlwaysAdjacent, u, u);
    }
    forall u | u in g ensures g[u] == set v | v in nodes {
      forall v ensures v in g[u] <==> v in nodes {
        NeighbourIff(nodes, AlwaysAdjacent, u, v);
      }
    }
  }

  /** The graph depends only on which nodes occur: reordering or duplicating
      the input leaves it unchanged. */
  lemma DependsOnlyOnNodeSet(nodes1: seq<LetterNode>, nodes2: seq<LetterNode>, isAdjacent: Adjacency)
    requires forall n :: n in nodes1 <==> n in nodes2
    ensures LetterNodeGraph(nodes1, isAdjacent) == LetterNodeGraph(nodes2, isAdjacent)
  {
    assert AdjacentPairs(nodes1, isAdjacent) == AdjacentPairs(nodes2, isAdjacent);
  }

  /** The centre-match scenario: `a` and `b` share a centre, `c` lies elsewhere. */
  const NodeA := LetterNode('A', RotatedRect(Point2f(0.0, 0.0), Size2f(0.0, 0.0), 0.0))
  const NodeB := LetterNode('B', RotatedRect(Point2f(0.0, 0.0), Size2f(0.0, 0.0), 0.0))
  const NodeC := LetterNode('C', RotatedRect(Point2f(1.0, 1.0), Size2f(0.0, 0.0), 0.0))

  lemma CenterMatchExampleKeys()
    ensures LetterNodeGraph([NodeA, NodeB, NodeC], CenterMatch).Keys == {NodeA, NodeB, NodeC}
  {
    var nodes := [NodeA, NodeB, NodeC];
    forall u ensures u in LetterNodeGraph(nodes, CenterMatch) <==> u in nodes {
      NeighbourIff(nodes, CenterMatch, u, u);
    }
  }

  lemma CenterMatchExampleNeighbours(u: LetterNode, expected: set<LetterNode>)
    requires || ((u == NodeA || u == NodeB) && expected == {NodeA, NodeB})
             || (u == NodeC && expected == {NodeC})
    ensures u in LetterNodeGraph([NodeA, NodeB, NodeC], CenterMatch)
    ensures LetterNodeGraph([NodeA, NodeB, NodeC], CenterMatch)[u] == expected
  {
    var nodes := [NodeA, NodeB, NodeC];
    NeighbourIff(nodes, CenterMatch, u, u);
    forall x ensures x in LetterNodeGraph(nodes, CenterMatch)[u] <==> x in expected {
      NeighbourIff(nodes, CenterMatch, u, x);
    }
  }

  /** Over `a`, `b`, `c` the graph has three keys and neighbour sets of sizes
      2, 2 and 1, each containing its own node. */
  lemma CenterMatchExample()
    ensures var g := LetterNodeGraph([NodeA, NodeB, NodeC], CenterMatch);
            && |g| == 3
            && g.Keys == {NodeA, NodeB, NodeC}
            && g[NodeA] == {NodeA, NodeB} && |g[NodeA]| == 2
            && g[NodeB] == {NodeA, NodeB} && |g[NodeB]| == 2
            && g[NodeC] == {NodeC} && |g[NodeC]| == 1
  {
    var g := LetterNodeGraph([NodeA, NodeB, NodeC], CenterMatch);
    CenterMatchExampleKeys();
    CenterMatchExampleNeighbours(NodeA, {NodeA, NodeB});
    CenterMatchExampleNeighbours(NodeB, {NodeA, NodeB});
    CenterMatchExampleNeighbours(NodeC, {NodeC});
    assert |g.Keys| == 3;
  }
}
