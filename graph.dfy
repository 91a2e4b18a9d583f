/**
 * The second graph container (include/Graph.hpp): like the one in
 * include/DependenceGraph.hpp, but every node keeps two edge lists and
 * `addEdge`, which checks nothing, records each edge in both: as `(to, weight)`
 * among the source's out-edges and as `(from, weight)` among the target's
 * in-edges.
 */
module Graph {
  import opened Multisets

  /** `Graph::UNDEFINED_ID`, public in this version. */
  const UndefinedId: int := -1

  /** An out-edge names its target in `to`; an in-edge names its source there. */
  datatype Edge = Edge(to: int, weight: int)

  datatype Node<T> = Node(id: int, data: T, inEdges: seq<Edge>, outEdges: seq<Edge>)

  /**
   * Every edge is recorded once on each side: for all nodes u, v and weights w,
   * u lists `(v, w)` among its out-edges exactly as often as v lists `(u, w)`
   * among its in-edges, and no list names a node that does not exist. This is
   * the multiset of triples `(u, e.to, e.weight)` over all out-edges being the
   * multiset of triples `(e.to, v, e.weight)` over all in-edges, stated triple
   * by triple.
   */
  ghost predicate Mirrored<T>(nodes: map<int, Node<T>>)
  {
    && (forall u, e | u in nodes && e in nodes[u].outEdges :: e.to in nodes)
    && (forall v, e | v in nodes && e in nodes[v].inEdges :: e.to in nodes)
    && (forall u, v, w | u in nodes && v in nodes ::
          multiset(nodes[u].outEdges)[Edge(v, w)] == multiset(nodes[v].inEdges)[Edge(u, w)])
  }

  /** The node map after `addEdge(from, to, weight)`. */
  function WithEdge<T>(nodes: map<int, Node<T>>, from: int, to: int, weight: int): (r: map<int, Node<T>>)
    requires from in nodes && to in nodes
    ensures r.Keys == nodes.Keys
    ensures r[from].outEdges == nodes[from].outEdges + [Edge(to, weight)]
    ensures r[to].inEdges == nodes[to].inEdges + [Edge(from, weight)]
    ensures forall id | id in nodes && id != from :: r[id].outEdges == nodes[id].outEdges
    ensures forall id | id in nodes && id != to :: r[id].inEdges == nodes[id].inEdges
    ensures forall id | id in nodes :: r[id].id == nodes[id].id && r[id].data == nodes[id].data
  {
    var withOut := nodes[from := nodes[from].(outEdges := nodes[from].outEdges + [Edge(to, weight)])];
    withOut[to := withOut[to].(inEdges := withOut[to].inEdges + [Edge(from, weight)])]
  }

  /** Recording an edge on both sides keeps the two sides in step, self-edges included. */
  lemma WithEdgeKeepsMirrored<T>(nodes: map<int, Node<T>>, from: int, to: int, weight: int)
    requires Mirrored(nodes) && from in nodes && to in nodes
    ensures Mirrored(WithEdge(nodes, from, to, weight))
  {
    var r := WithEdge(nodes, from, to, weight);
    forall u, e | u in r && e in r[u].outEdges
      ensures e.to in r
    {
      if u == from && e !in nodes[u].outEdges {
        assert e == Edge(to, weight);
      }
    }
    forall v, e | v in r && e in r[v].inEdges
      ensures e.to in r
    {
      if v == to && e !in nodes[v].inEdges {
        assert e == Edge(from, weight);
      }
    }
    forall u, v, w | u in r && v in r
      ensures multiset(r[u].outEdges)[Edge(v, w)] == multiset(r[v].inEdges)[Edge(u, w)]
    {
      var added := if u == from && v == to && w == weight then 1 else 0;
      if u == from {
        CountAfterAppend(nodes[u].outEdges, Edge(to, weight), Edge(v, w));
      }
      if v == to {
        CountAfterAppend(nodes[v].inEdges, Edge(from, weight), Edge(u, w));
      }
      assert multiset(r[u].outEdges)[Edge(v, w)] == multiset(nodes[u].outEdges)[Edge(v, w)] + added;
      assert multiset(r[v].inEdges)[Edge(u, w)] == multiset(nodes[v].inEdges)[Edge(u, w)] + added;
    }
  }

  /** Adding a node with no edges under a fresh id keeps the two sides in step. */
  lemma WithNodeKeepsMirrored<T>(nodes: map<int, Node<T>>, id: int, data: T)
    requires Mirrored(nodes) && id !in nodes
    ensures Mirrored(nodes[id := Node(id, data, [], [])])
  {
    var r := nodes[id := Node(id, data, [], [])];
    forall u, v, w | u in r && v in r
      ensures multiset(r[u].outEdges)[Edge(v, w)] == multiset(r[v].inEdges)[Edge(u, w)]
    {
      if u == id && v != id {
        assert Edge(u, w) !in nodes[v].inEdges;
      } else if v == id && u != id {
        assert Edge(v, w) !in nodes[u].outEdges;
      }
    }
  }

  /** Each out-edge of u to v with weight w has its partner: u among v's in-edges with weight w. */
  lemma OutEdgeHasInPartner<T>(nodes: map<int, Node<T>>, u: int, e: Edge)
    requires Mirrored(nodes) && u in nodes && e in nodes[u].outEdges
    ensures e.to in nodes && Edge(u, e.weight) in nodes[e.to].inEdges
  {
    assert multiset(nodes[u].outEdges)[Edge(e.to, e.weight)] > 0;
  }

  /** Each in-edge of v from u with weight w has its partner: v among u's out-edges with weight w. */
  lemma InEdgeHasOutPartner<T>(nodes: map<int, Node<T>>, v: int, e: Edge)
    requires Mirrored(nodes) && v in nodes && e in nodes[v].inEdges
    ensures e.to in nodes && Edge(v, e.weight) in nodes[e.to].outEdges
  {
    assert multiset(nodes[v].inEdges)[Edge(e.to, e.weight)] > 0;
  }

  class Graph<T(0)> {
    var nextId: int
    var nodes: map<int, Node<T>>

    /** The keys are exactly the sentinel and the ids handed out so far, and the edge lists mirror each other. */
    ghost predicate Valid()
      reads this
    {
      && nextId >= 1
      && (forall id :: id in nodes <==> id == UndefinedId || 1 <= id < nextId)
      && (forall id | id in nodes :: nodes[id].id == id)
      && Mirrored(nodes)
    }

    /** A fresh graph holds only the sentinel, with a default payload and both lists empty. */
    constructor ()
      ensures Valid() && nextId == 1
      ensures nodes.Keys == {UndefinedId}
      ensures nodes[UndefinedId].inEdges == [] && nodes[UndefinedId].outEdges == []
    {
      var blank: T :| true;
      nextId := 1;
      nodes := map[UndefinedId := Node(UndefinedId, blank, [], [])];
    }

    /** `getUndefined()`: a node that always exists and that `AddNode` never returns. */
    function GetUndefined(): (id: int)
      reads this
      requires Valid()
      ensures id == UndefinedId && id in nodes
    {
      UndefinedId
    }

    /** `addNode(data)`: the next id, now a node with the payload and no edges; nothing else changes. */
    method AddNode(data: T) returns (id: int)
      requires Valid()
      modifies this
      ensures Valid()
      ensures id == old(nextId) && id >= 1 && id !in old(nodes)
      ensures nextId == old(nextId) + 1
      ensures nodes == old(nodes)[id := Node(id, data, [], [])]
    {
      id := nextId;
      WithNodeKeepsMirrored(nodes, id, data);
      nextId := nextId + 1;
      nodes := nodes[id := Node(id, data, [], [])];
    }

    /**
     * `addEdge(from, to, weight)`: both ends must already be nodes (the source
     * does not check). Appends `(to, weight)` to `from`'s out-edges and
     * `(from, weight)` to `to`'s in-edges, and changes nothing else.
     */
    method AddEdge(from: int, to: int, weight: int)
      requires Valid() && from in nodes && to in nodes
      modifies this
      ensures Valid() && nextId == old(nextId)
      ensures nodes == WithEdge(old(nodes), from, to, weight)
    {
      WithEdgeKeepsMirrored(nodes, from, to, weight);
      nodes := WithEdge(nodes, from, to, weight);
    }
  }
}
