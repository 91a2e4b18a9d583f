/**
 * The graph container the dependence-graph builder uses
 * (include/DependenceGraph.hpp): nodes keyed by integer id, each with a
 * payload and one list of outgoing weighted edges, a permanent sentinel node
 * -1, ids handed out from 1 upward, and an `addEdge` that checks both ends.
 */
module DependenceGraph {
  import opened Operations

  /** `Graph::UNDEFINED_ID`: the sentinel node standing for "no prior definition". */
  const UndefinedId: int := -1

  datatype Edge = Edge(to: int, weight: int)

  datatype Node<T> = Node(id: int, data: T, edges: seq<Edge>)

  /** Every edge stored anywhere in `nodes` ends at a node of `nodes`. */
  ghost predicate EdgesClosed<T>(nodes: map<int, Node<T>>)
  {
    forall id, e | id in nodes && e in nodes[id].edges :: e.to in nodes
  }

  /** The node map after `addEdge(from, to, weight)` has appended to `from`'s list. */
  function WithEdge<T>(nodes: map<int, Node<T>>, from: int, to: int, weight: int): (r: map<int, Node<T>>)
    requires from in nodes
    ensures r.Keys == nodes.Keys
  {
    nodes[from := nodes[from].(edges := nodes[from].edges + [Edge(to, weight)])]
  }

  /** Appending an edge between two existing nodes keeps every edge's target in the graph. */
  lemma WithEdgeKeepsClosed<T>(nodes: map<int, Node<T>>, from: int, to: int, weight: int)
    requires EdgesClosed(nodes) && from in nodes && to in nodes
    ensures EdgesClosed(WithEdge(nodes, from, to, weight))
  {
    var r := WithEdge(nodes, from, to, weight);
    forall id, e | id in r && e in r[id].edges
      ensures e.to in r
    {
      if id == from && e !in nodes[from].edges {
        assert e == Edge(to, weight);
      }
    }
  }

  class Graph<T(0)> {
    var nextId: int
    var nodes: map<int, Node<T>>

    /**
     * The keys are exactly the sentinel and the ids handed out so far, each
     * node records its own id, and every edge ends at an existing node.
     */
    ghost predicate Valid()
      reads this
    {
      && nextId >= 1
      && (forall id :: id in nodes <==> id == UndefinedId || 1 <= id < nextId)
      && (forall id | id in nodes :: nodes[id].id == id)
      && EdgesClosed(nodes)
    }

    /** A fresh graph holds only the sentinel, whose payload is a default `T` and which has no edges. */
    constructor ()
      ensures Valid() && nextId == 1
      ensures nodes.Keys == {UndefinedId} && nodes[UndefinedId].edges == []
    {
      var blank: T :| true;
      nextId := 1;
      nodes := map[UndefinedId := Node(UndefinedId, blank, [])];
    }

    /** `getUndefined()`: a node that always exists and that `AddNode` never returns. */
    function GetUndefined(): (id: int)
      reads this
      requires Valid()
      ensures id == UndefinedId && id in nodes
    {
      UndefinedId
    }

    /** `addNode(data)`: the next id, now a node with the payload and no edges; nothing else changes. */
    method AddNode(data: T) returns (id: int)
      requires Valid()
      modifies this
      ensures Valid()
      ensures id == old(nextId) && id >= 1 && id !in old(nodes)
      ensures nextId == old(nextId) + 1
      ensures nodes == old(nodes)[id := Node(id, data, [])]
    {
      id := nextId;
      nextId := nextId + 1;
      nodes := nodes[id := Node(id, data, [])];
    }

    /**
     * `addEdge(from, to, weight)`: refused, with nothing changed, unless both
     * ends are nodes; otherwise `(to, weight)` goes at the end of `from`'s list.
     */
    method AddEdge(from: int, to: int, weight: int) returns (ok: bool)
      requires Valid()
      modifies this
      ensures Valid() && nextId == old(nextId)
      ensures ok <==> from in old(nodes) && to in old(nodes)
      ensures nodes == if ok then WithEdge(old(nodes), from, to, weight) else old(nodes)
    {
      if from !in nodes || to !in nodes {
        return false;
      }
      WithEdgeKeepsClosed(nodes, from, to, weight);
      nodes := WithEdge(nodes, from, to, weight);
      return true;
    }
  }

  /** `class DependenceGraph : public Graph<Operation>`. */
  type DependenceGraph = Graph<Operation>
}
