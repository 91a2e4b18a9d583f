/**
 * Construction of the dependence graph of one basic block
 * (`Scheduler::buildDependenceGraph`, src/scheduler.cpp).
 *
 * One pass over the operations in program order creates node i+1 for
 * operation i and gives it, in this order: one edge per register use, to the
 * latest definer of that register or to the sentinel, weighted by the
 * operation's own latency; the memory and I/O conflict edges to the most
 * recent STORE and OUTPUT; and, for a STORE, a weight-1 edge to every earlier
 * LOAD and OUTPUT, appended in an unspecified order.
 *
 * The functions below say, for every operation, which edges its node ends up
 * with; `BuildDependenceGraph` is proved to build exactly those, and the
 * lemmas state what the edges guarantee.
 */
module Scheduler {
  import opened Opcodes
  import opened Operations
  import opened DependenceGraph
  import opened Multisets

  /** A non-STORE operation whose `op3` names a register defines that register. */
  predicate Defines(op: Operation, vr: int)
  {
    op.opcode != STORE && op.op3.vr != NoRegister && op.op3.vr == vr
  }

  /** The operands an operation reads, in the order the builder visits them. */
  function Uses(op: Operation): (us: seq<Operand>)
    ensures |us| <= 2
    ensures us == [] <==> op.opcode in {LOADI, OUTPUT, NOP}
    ensures forall k | 0 <= k < |us| :: us[k] in {op.op1, op.op2, op.op3}
  {
    match op.opcode
    case LOAD => [op.op1]
    case STORE => [op.op1, op.op3]
    case ADD | SUB | MULT | LSHIFT | RSHIFT => [op.op1, op.op2]
    case LOADI | OUTPUT | NOP => []
  }

  /**
   * The node of the last of the first `n` operations that defines `vr`, or
   * the sentinel when none does: what `defs[vr]` holds after `n` operations.
   */
  function LastDefiner(ops: seq<Operation>, n: nat, vr: int): (id: int)
    requires n <= |ops|
    ensures id == UndefinedId || 1 <= id <= n
  {
    if n == 0 then UndefinedId
    else if Defines(ops[n - 1], vr) then n
    else LastDefiner(ops, n - 1, vr)
  }

  /**
   * A use resolves to the sentinel exactly when no earlier operation defines
   * the register, and otherwise to the latest operation that does.
   */
  lemma {:induction false} LastDefinerIsLatest(ops: seq<Operation>, n: nat, vr: int)
    requires n <= |ops|
    ensures LastDefiner(ops, n, vr) == UndefinedId <==> forall j | 0 <= j < n :: !Defines(ops[j], vr)
    ensures var id := LastDefiner(ops, n, vr);
            id != UndefinedId ==> Defines(ops[id - 1], vr) && forall j | id <= j < n :: !Defines(ops[j], vr)
  {
    if n > 0 && !Defines(ops[n - 1], vr) {
      LastDefinerIsLatest(ops, n - 1, vr);
    }
  }

  /**
   * The node of the last of the first `n` operations with opcode `kind`, or
   * -1 when there is none: `lastStore` and `lastOutput` after `n` operations.
   */
  function LastOfKind(ops: seq<Operation>, n: nat, kind: Opcode): (id: int)
    requires n <= |ops|
    ensures id == UndefinedId || 1 <= id <= n
  {
    if n == 0 then UndefinedId
    else if ops[n - 1].opcode == kind then n
    else LastOfKind(ops, n - 1, kind)
  }

  /** `LastOfKind` is -1 exactly when no such operation exists, and otherwise the latest one. */
  lemma {:induction false} LastOfKindIsLatest(ops: seq<Operation>, n: nat, kind: Opcode)
    requires n <= |ops|
    ensures LastOfKind(ops, n, kind) == UndefinedId <==> forall j | 0 <= j < n :: ops[j].opcode != kind
    ensures var id := LastOfKind(ops, n, kind);
            id != UndefinedId ==> ops[id - 1].opcode == kind && forall j | id <= j < n :: ops[j].opcode != kind
  {
    if n > 0 && ops[n - 1].opcode != kind {
      LastOfKindIsLatest(ops, n - 1, kind);
    }
  }

  /** The register-use edges of operation `i`, one per use; its own definition is recorded first. */
  function RegisterEdges(ops: seq<Operation>, i: nat): seq<Edge>
    requires i < |ops|
  {
    UseEdges(ops, i + 1, Uses(ops[i]), Latency(ops[i].opcode))
  }

  /** One edge of weight `weight` per use in `uses`, in order, to the register's definer after `n` operations. */
  function UseEdges(ops: seq<Operation>, n: nat, uses: seq<Operand>, weight: int): (edges: seq<Edge>)
    requires n <= |ops|
    ensures |edges| == |uses|
    decreases |uses|
  {
    if uses == [] then []
    else UseEdges(ops, n, uses[..|uses| - 1], weight) + [Edge(LastDefiner(ops, n, uses[|uses| - 1].vr), weight)]
  }

  /** The conflict and serialisation edges of operation `i` to the most recent STORE and OUTPUT. */
  function MemoryEdges(ops: seq<Operation>, i: nat): seq<Edge>
    requires i < |ops|
  {
    var lastStore := LastOfKind(ops, i, STORE);
    var lastOutput := LastOfKind(ops, i, OUTPUT);
    match ops[i].opcode
    case LOAD =>
      if lastStore != UndefinedId then [Edge(lastStore, Latency(LOAD))] else []
    case OUTPUT =>
      (if lastStore != UndefinedId then [Edge(lastStore, Latency(OUTPUT))] else [])
      + (if lastOutput != UndefinedId then [Edge(lastOutput, 1)] else [])
    case STORE =>
      if lastStore != UndefinedId then [Edge(lastStore, 1)] else []
    case _ => []
  }

  /** The edges of operation `i` whose order is fixed: register uses, then memory and I/O. */
  function OrderedEdges(ops: seq<Operation>, i: nat): seq<Edge>
    requires i < |ops|
  {
    RegisterEdges(ops, i) + MemoryEdges(ops, i)
  }

  /** The operations a later STORE is serialised against. */
  predicate IsLoadOrOutput(op: Operation)
  {
    op.opcode == LOAD || op.opcode == OUTPUT
  }

  /** Node `t` is that of a LOAD or OUTPUT among the first `n` operations. */
  predicate SerialTarget(ops: seq<Operation>, n: nat, t: int)
    requires n <= |ops|
  {
    1 <= t <= n && IsLoadOrOutput(ops[t - 1])
  }

  /** A weight-1 edge to each LOAD and OUTPUT among the first `n` operations, in program order. */
  function EarlierLoadsAndOutputs(ops: seq<Operation>, n: nat): seq<Edge>
    requires n <= |ops|
  {
    if n == 0 then []
    else EarlierLoadsAndOutputs(ops, n - 1)
         + (if IsLoadOrOutput(ops[n - 1]) then [Edge(n, 1)] else [])
  }

  /** The serialisation edges of operation `i`, up to order. */
  function SerialEdges(ops: seq<Operation>, i: nat): seq<Edge>
    requires i < |ops|
  {
    if ops[i].opcode == STORE then EarlierLoadsAndOutputs(ops, i) else []
  }

  /** All the edges of operation `i`'s node, in one admissible order. */
  function ExpectedEdges(ops: seq<Operation>, i: nat): seq<Edge>
    requires i < |ops|
  {
    OrderedEdges(ops, i) + SerialEdges(ops, i)
  }

  /** `defs` agrees with `LastDefiner` after `n` operations; a register it lacks has no definer. */
  ghost predicate DefsAgree(ops: seq<Operation>, n: nat, defs: map<int, int>)
    requires n <= |ops|
  {
    && (forall vr | vr in defs :: defs[vr] == LastDefiner(ops, n, vr))
    && (forall vr | vr !in defs :: LastDefiner(ops, n, vr) == UndefinedId)
  }

  /** `defs` once operation `op`, at node `node`, has recorded the register it defines. */
  function Recorded(defs: map<int, int>, op: Operation, node: int): map<int, int>
  {
    if op.opcode != STORE && op.op3.vr != NoRegister then defs[op.op3.vr := node] else defs
  }

  /** `defs` once `uses` have been looked up in order: a register not yet in it is mapped to the sentinel. */
  function Resolved(defs: map<int, int>, uses: seq<Operand>): map<int, int>
    decreases |uses|
  {
    if uses == [] then defs
    else
      var earlier := Resolved(defs, uses[..|uses| - 1]);
      var vr := uses[|uses| - 1].vr;
      if vr in earlier then earlier else earlier[vr := UndefinedId]
  }

  /** The map `defs` of the builder after the first `n` operations. */
  function DefsMap(ops: seq<Operation>, n: nat): map<int, int>
    requires n <= |ops|
  {
    if n == 0 then map[]
    else Resolved(Recorded(DefsMap(ops, n - 1), ops[n - 1], n), Uses(ops[n - 1]))
  }

  /** Looking uses up keeps `defs` in agreement: a register it lacked has no definer, so the sentinel is right. */
  lemma {:induction false} ResolvedAgrees(ops: seq<Operation>, n: nat, defs: map<int, int>, uses: seq<Operand>)
    requires n <= |ops| && DefsAgree(ops, n, defs)
    ensures DefsAgree(ops, n, Resolved(defs, uses))
    decreases |uses|
  {
    if uses != [] {
      ResolvedAgrees(ops, n, defs, uses[..|uses| - 1]);
    }
  }

  /**
   * Every entry of the builder's `defs` is the latest definer of its register
   * (or the sentinel when there is none), and a register it has no entry for
   * has never been defined.
   */
  lemma {:induction false} DefsMapAgree(ops: seq<Operation>, n: nat)
    requires n <= |ops|
    ensures DefsAgree(ops, n, DefsMap(ops, n))
  {
    if n > 0 {
      DefsMapAgree(ops, n - 1);
      DefsAgreeAfterDefinition(ops, n - 1, DefsMap(ops, n - 1));
      ResolvedAgrees(ops, n, Recorded(DefsMap(ops, n - 1), ops[n - 1], n), Uses(ops[n - 1]));
    }
  }

  /**
   * A STORE's serialisation edges: one weight-1 edge to each earlier LOAD and
   * OUTPUT, and nothing else, each exactly once.
   */
  lemma {:induction false} EarlierLoadsAndOutputsCount(ops: seq<Operation>, n: nat, e: Edge)
    requires n <= |ops|
    ensures multiset(EarlierLoadsAndOutputs(ops, n))[e]
            == if e.weight == 1 && SerialTarget(ops, n, e.to) then 1 else 0
  {
    if n > 0 {
      var prev := EarlierLoadsAndOutputs(ops, n - 1);
      EarlierLoadsAndOutputsCount(ops, n - 1, e);
      if IsLoadOrOutput(ops[n - 1]) {
        assert EarlierLoadsAndOutputs(ops, n) == prev + [Edge(n, 1)];
        CountAfterAppend(prev, Edge(n, 1), e);
        if e == Edge(n, 1) {
          assert !SerialTarget(ops, n - 1, e.to) && SerialTarget(ops, n, e.to);
        } else {
          assert e.weight == 1 && SerialTarget(ops, n, e.to) ==> e.to != n;
          assert SerialTarget(ops, n, e.to) <==> SerialTarget(ops, n - 1, e.to) || e.to == n;
        }
      } else {
        assert EarlierLoadsAndOutputs(ops, n) == prev;
        assert SerialTarget(ops, n, e.to) <==> SerialTarget(ops, n - 1, e.to);
      }
    }
  }

  /**
   * Lines 34-66: one edge per register use, to `defs[vr]`, which is first set
   * to the sentinel when the register has no definer yet.
   */
  method AddUseEdges(graph: DependenceGraph, ops: seq<Operation>, i: nat, node: int, defs: map<int, int>)
    returns (defs': map<int, int>)
    requires i < |ops| && node == i + 1
    requires graph.Valid() && graph.nextId == i + 2
    requires graph.nodes[node].edges == []
    requires DefsAgree(ops, i + 1, defs)
    modifies graph
    ensures graph.Valid() && graph.nextId == i + 2
    ensures graph.nodes == WithEdges(old(graph.nodes), node, RegisterEdges(ops, i))
    ensures defs' == Resolved(defs, Uses(ops[i]))
  {
    defs' := defs;
    var op := ops[i];
    var uses := Uses(op);
    for u := 0 to |uses|
      invariant graph.Valid() && graph.nextId == i + 2
      invariant graph.nodes == old(graph.nodes)[node := old(graph.nodes)[node].(edges := UseEdges(ops, i + 1, uses[..u], Latency(op.opcode)))]
      invariant DefsAgree(ops, i + 1, defs')
      invariant defs' == Resolved(defs, uses[..u])
    {
      assert uses[..u + 1][..u] == uses[..u];
      var vr := uses[u].vr;
      if vr !in defs' {
        defs' := defs'[vr := graph.GetUndefined()];
      }
      var added := graph.AddEdge(node, defs'[vr], Latency(op.opcode));
    }
    assert uses[..|uses|] == uses;
  }

  /** Lines 68-83: a LOAD's edge to the last STORE; an OUTPUT's edges to the last STORE and the last OUTPUT. */
  method AddConflictEdges(graph: DependenceGraph, ops: seq<Operation>, i: nat, node: int, lastStore: int, lastOutput: int)
    requires i < |ops| && node == i + 1
    requires graph.Valid() && graph.nextId == i + 2
    requires lastStore == LastOfKind(ops, i, STORE) && lastOutput == LastOfKind(ops, i, OUTPUT)
    modifies graph
    ensures graph.Valid() && graph.nextId == i + 2
    ensures graph.nodes == WithEdges(old(graph.nodes), node,
              old(graph.nodes)[node].edges + if ops[i].opcode == STORE then [] else MemoryEdges(ops, i))
  {
    var op := ops[i];
    if op.opcode == LOAD {
      if lastStore != -1 {
        var added := graph.AddEdge(node, lastStore, Latency(op.opcode));
      }
    }
    if op.opcode == OUTPUT {
      ghost var start := graph.nodes[node].edges;
      if lastStore != -1 {
        var added := graph.AddEdge(node, lastStore, Latency(op.opcode));
      }
      if lastOutput != -1 {
        var added := graph.AddEdge(node, lastOutput, 1);
      }
      assert graph.nodes[node].edges == start + MemoryEdges(ops, i);
    }
    ghost var was := old(graph.nodes);
    if op.opcode == STORE || MemoryEdges(ops, i) == [] {
      assert was[node].edges + [] == was[node].edges;
      assert was[node := was[node]] == was;
    } else if op.opcode == LOAD {
      assert graph.nodes[node].edges == was[node].edges + MemoryEdges(ops, i);
    }
  }

  /** `nodes` with `edges` as the edge list of node `id`. */
  function WithEdges(nodes: map<int, Node<Operation>>, id: int, edges: seq<Edge>): (r: map<int, Node<Operation>>)
    requires id in nodes
    ensures r.Keys == nodes.Keys && r[id].edges == edges
    ensures forall other | other in nodes && other != id :: r[other] == nodes[other]
  {
    nodes[id := nodes[id].(edges := edges)]
  }

  /** Replacing a node's list twice keeps the second list. */
  lemma {:induction false} WithEdgesTwice(nodes: map<int, Node<Operation>>, id: int, first: seq<Edge>, second: seq<Edge>)
    requires id in nodes
    ensures WithEdges(WithEdges(nodes, id, first), id, second) == WithEdges(nodes, id, second)
  {
  }

  /** Appending an edge to a node whose list was replaced is replacing it by the longer list. */
  lemma {:induction false} WithEdgeAfterWithEdges(nodes: map<int, Node<Operation>>, id: int, base: seq<Edge>, tail: seq<Edge>, to: int, weight: int)
    requires id in nodes
    ensures WithEdge(WithEdges(nodes, id, base + tail), id, to, weight)
            == WithEdges(nodes, id, base + (tail + [Edge(to, weight)]))
  {
    assert base + tail + [Edge(to, weight)] == base + (tail + [Edge(to, weight)]);
  }

  /** Line 93-94: the nodes a STORE at `node` is serialised against, the sentinel and itself excluded. */
  predicate SerialisedAgainst(nodes: map<int, Node<Operation>>, node: int, id: int)
    requires id in nodes
  {
    id != UndefinedId && id != node && IsLoadOrOutput(nodes[id].data)
  }

  /** How many copies of `e` the STORE at `node` holds once the ids in `visited` have been looked at. */
  function VisitedSerialCount(nodes: map<int, Node<Operation>>, node: int, visited: set<int>, e: Edge): nat
  {
    if e.weight == 1 && e.to in visited && e.to in nodes && SerialisedAgainst(nodes, node, e.to) then 1 else 0
  }

  /** `tail` holds the serialisation edges for the ids in `visited`, each once. */
  ghost predicate TailMatches(nodes: map<int, Node<Operation>>, node: int, visited: set<int>, tail: seq<Edge>)
  {
    forall e :: multiset(tail)[e] == VisitedSerialCount(nodes, node, visited, e)
  }

  /** Looking at one more node adds its edge exactly when the STORE is serialised against it. */
  lemma {:induction false} TailMatchesStep(nodes: map<int, Node<Operation>>, node: int, visited: set<int>, tail: seq<Edge>, id: int)
    requires TailMatches(nodes, node, visited, tail) && id in nodes && id !in visited
    ensures SerialisedAgainst(nodes, node, id) ==> TailMatches(nodes, node, visited + {id}, tail + [Edge(id, 1)])
    ensures !SerialisedAgainst(nodes, node, id) ==> TailMatches(nodes, node, visited + {id}, tail)
  {
    forall e {
      CountAfterAppend(tail, Edge(id, 1), e);
    }
  }

  /**
   * Once every node of the graph built for the first i+1 operations has been
   * looked at, `tail` is a permutation of the serialisation edges of a STORE.
   */
  lemma {:induction false} TailMatchesDone(ops: seq<Operation>, i: nat, nodes: map<int, Node<Operation>>, tail: seq<Edge>)
    requires i < |ops| && ops[i].opcode == STORE
    requires forall t | t in nodes :: t == UndefinedId || 1 <= t <= i + 1
    requires forall t | 1 <= t <= i :: t in nodes && nodes[t].data == ops[t - 1]
    requires TailMatches(nodes, i + 1, nodes.Keys, tail)
    ensures multiset(tail) == multiset(SerialEdges(ops, i))
  {
    forall e ensures multiset(tail)[e] == multiset(SerialEdges(ops, i))[e] {
      EarlierLoadsAndOutputsCount(ops, i, e);
    }
  }

  lemma {:induction false} NonEmptyHasMember(s: set<int>)
    requires s != {}
    ensures exists x :: x in s
  {
    if forall x :: x !in s {
      assert false;
    }
  }

  /**
   * Lines 91-97: one weight-1 edge from `node` to every other node holding a
   * LOAD or an OUTPUT, the nodes being visited in no particular order; `tail`
   * is the order the edges were appended in.
   */
  method AddEdgesToLoadsAndOutputs(graph: DependenceGraph, node: int) returns (ghost tail: seq<Edge>)
    requires graph.Valid() && node in graph.nodes
    modifies graph
    ensures graph.Valid() && graph.nextId == old(graph.nextId)
    ensures graph.nodes == WithEdges(old(graph.nodes), node, old(graph.nodes)[node].edges + tail)
    ensures TailMatches(old(graph.nodes), node, old(graph.nodes).Keys, tail)
  {
    ghost var start := graph.nodes;
    ghost var base := start[node].edges;
    tail := [];
    assert base + tail == base;
    var pending := graph.nodes.Keys;
    ghost var ids := pending;
    while pending != {}
      invariant graph.Valid() && graph.nextId == old(graph.nextId)
      invariant pending <= ids
      invariant graph.nodes == WithEdges(start, node, base + tail)
      invariant TailMatches(start, node, ids - pending, tail)
      decreases pending
    {
      NonEmptyHasMember(pending);
      var id :| id in pending;
      TailMatchesStep(start, node, ids - pending, tail, id);
      assert ids - (pending - {id}) == (ids - pending) + {id};
      if id != graph.GetUndefined() && id != node
         && (graph.nodes[id].data.opcode == LOAD || graph.nodes[id].data.opcode == OUTPUT)
      {
        var added := graph.AddEdge(node, id, 1);
        WithEdgeAfterWithEdges(start, node, base, tail, id, 1);
        tail := tail + [Edge(id, 1)];
      }
      pending := pending - {id};
    }
    assert ids - pending == start.Keys;
  }

  /** Lines 85-98: a STORE's edge to the last STORE, then its edges to the earlier loads and outputs. */
  method AddStoreEdges(graph: DependenceGraph, ops: seq<Operation>, i: nat, node: int, lastStore: int)
    returns (ghost tail: seq<Edge>)
    requires i < |ops| && node == i + 1
    requires graph.Valid() && graph.nextId == i + 2
    requires lastStore == LastOfKind(ops, i, STORE)
    requires Payloads(ops, i, graph.nodes)
    modifies graph
    ensures graph.Valid() && graph.nextId == i + 2
    ensures graph.nodes == WithEdges(old(graph.nodes), node,
              old(graph.nodes)[node].edges + (if ops[i].opcode == STORE then MemoryEdges(ops, i) else []) + tail)
    ensures multiset(tail) == multiset(SerialEdges(ops, i))
  {
    tail := [];
    var op := ops[i];
    if op.opcode == STORE {
      if lastStore != -1 {
        var added := graph.AddEdge(node, lastStore, 1);
      }
      ghost var start := graph.nodes;
      ghost var base := old(graph.nodes)[node].edges + MemoryEdges(ops, i);
      if lastStore == -1 {
        assert base == old(graph.nodes)[node].edges;
      }
      assert start == WithEdges(old(graph.nodes), node, base);
      assert forall t | 1 <= t <= i :: t in start && start[t].data == ops[t - 1];
      tail := AddEdgesToLoadsAndOutputs(graph, node);
      TailMatchesDone(ops, i, start, tail);
      WithEdgesTwice(old(graph.nodes), node, base, base + tail);
    } else {
      assert old(graph.nodes)[node].edges + [] + tail == old(graph.nodes)[node].edges;
    }
  }

  /** Every node of the first `n` operations carries its operation. */
  ghost predicate Payloads(ops: seq<Operation>, n: nat, nodes: map<int, Node<Operation>>)
    requires n <= |ops|
  {
    forall id | 1 <= id <= n :: id in nodes && nodes[id].data == ops[id - 1]
  }

  /**
   * The node map once the first `|lists|` operations have been processed,
   * `sentinel` being the sentinel node and `lists[k]` the edge list of
   * operation k's node.
   */
  ghost function BuiltNodes(ops: seq<Operation>, sentinel: Node<Operation>, lists: seq<seq<Edge>>): map<int, Node<Operation>>
    requires |lists| <= |ops|
    decreases |lists|
  {
    if lists == [] then map[UndefinedId := sentinel]
    else
      var n := |lists|;
      BuiltNodes(ops, sentinel, lists[..n - 1])[n := Node(n, ops[n - 1], lists[n - 1])]
  }

  /**
   * Each edge list is the operation's ordered edges followed by `tails[k]`,
   * the order its serialisation edges were appended in, a permutation of them.
   */
  ghost predicate ListsAgree(ops: seq<Operation>, lists: seq<seq<Edge>>, tails: seq<seq<Edge>>)
  {
    && |lists| == |tails| <= |ops|
    && forall k | 0 <= k < |lists| ::
         lists[k] == OrderedEdges(ops, k) + tails[k] && multiset(tails[k]) == multiset(SerialEdges(ops, k))
  }

  lemma {:induction false} ListsAgreeExtend(ops: seq<Operation>, lists: seq<seq<Edge>>, tails: seq<seq<Edge>>, tail: seq<Edge>)
    requires |lists| < |ops| && ListsAgree(ops, lists, tails)
    requires multiset(tail) == multiset(SerialEdges(ops, |lists|))
    ensures ListsAgree(ops, lists + [OrderedEdges(ops, |lists|) + tail], tails + [tail])
  {
    var lists', tails' := lists + [OrderedEdges(ops, |lists|) + tail], tails + [tail];
    forall k | 0 <= k < |lists'|
      ensures lists'[k] == OrderedEdges(ops, k) + tails'[k]
      ensures multiset(tails'[k]) == multiset(SerialEdges(ops, k))
    {
      if k < |lists| {
        assert lists'[k] == lists[k] && tails'[k] == tails[k];
      }
    }
  }

  /** Node `id` of the built map carries operation id-1 and its edge list. */
  lemma {:induction false} BuiltNodesAt(ops: seq<Operation>, sentinel: Node<Operation>, lists: seq<seq<Edge>>, id: int)
    requires |lists| <= |ops| && 1 <= id <= |lists|
    ensures id in BuiltNodes(ops, sentinel, lists)
    ensures BuiltNodes(ops, sentinel, lists)[id] == Node(id, ops[id - 1], lists[id - 1])
  {
    var n := |lists|;
    if id < n {
      BuiltNodesAt(ops, sentinel, lists[..n - 1], id);
      assert lists[..n - 1][id - 1] == lists[id - 1];
    }
  }

  /**
   * Node i+1 of `nodes` is operation i's: it carries the operation, its
   * ordered edges and then `tails[i]`, a permutation of its serialisation edges.
   */
  ghost predicate GraphBuilt(ops: seq<Operation>, nodes: map<int, Node<Operation>>, tails: seq<seq<Edge>>)
  {
    && |tails| == |ops|
    && forall id | 1 <= id <= |ops| ::
         && id in nodes
         && nodes[id] == Node(id, ops[id - 1], OrderedEdges(ops, id - 1) + tails[id - 1])
         && multiset(tails[id - 1]) == multiset(SerialEdges(ops, id - 1))
  }

  /** Once every operation has been processed, the built map is the dependence graph's. */
  lemma {:induction false} BuiltNodesBuilt(ops: seq<Operation>, sentinel: Node<Operation>, lists: seq<seq<Edge>>, tails: seq<seq<Edge>>)
    requires |lists| == |ops| && ListsAgree(ops, lists, tails)
    ensures GraphBuilt(ops, BuiltNodes(ops, sentinel, lists), tails)
  {
    forall id | 1 <= id <= |ops|
      ensures id in BuiltNodes(ops, sentinel, lists)
      ensures BuiltNodes(ops, sentinel, lists)[id] == Node(id, ops[id - 1], lists[id - 1])
    {
      BuiltNodesAt(ops, sentinel, lists, id);
    }
  }

  /** The sentinel is never replaced. */
  lemma {:induction false} BuiltNodesSentinel(ops: seq<Operation>, sentinel: Node<Operation>, lists: seq<seq<Edge>>)
    requires |lists| <= |ops|
    ensures UndefinedId in BuiltNodes(ops, sentinel, lists)
    ensures BuiltNodes(ops, sentinel, lists)[UndefinedId] == sentinel
  {
    if lists != [] {
      BuiltNodesSentinel(ops, sentinel, lists[..|lists| - 1]);
    }
  }

  /** The nodes of the first `|lists|` operations carry their operations. */
  lemma {:induction false} BuiltNodesPayloads(ops: seq<Operation>, sentinel: Node<Operation>, lists: seq<seq<Edge>>)
    requires |lists| <= |ops|
    ensures Payloads(ops, |lists|, BuiltNodes(ops, sentinel, lists))
  {
    if lists != [] {
      BuiltNodesPayloads(ops, sentinel, lists[..|lists| - 1]);
    }
  }

  lemma {:induction false} PayloadsWithEdges(ops: seq<Operation>, n: nat, nodes: map<int, Node<Operation>>, id: int, edges: seq<Edge>)
    requires n <= |ops| && Payloads(ops, n, nodes) && id in nodes
    ensures Payloads(ops, n, WithEdges(nodes, id, edges))
  {
  }

  /** Giving a node beyond the first `n` a new value leaves their payloads alone. */
  lemma {:induction false} PayloadsBeyond(ops: seq<Operation>, n: nat, nodes: map<int, Node<Operation>>, id: int, node: Node<Operation>)
    requires n <= |ops| && Payloads(ops, n, nodes) && id > n
    ensures Payloads(ops, n, nodes[id := node])
  {
  }

  /** Adding a node with no edges and then replacing its list is adding it with that list. */
  lemma {:induction false} NewNodeWithEdges(nodes: map<int, Node<Operation>>, id: int, data: Operation, edges: seq<Edge>)
    ensures WithEdges(nodes[id := Node(id, data, [])], id, edges) == nodes[id := Node(id, data, edges)]
  {
  }

  /** Recording operation i's definition turns the map for i operations into the one for i+1. */
  lemma {:induction false} DefsAgreeAfterDefinition(ops: seq<Operation>, i: nat, defs: map<int, int>)
    requires i < |ops| && DefsAgree(ops, i, defs)
    ensures DefsAgree(ops, i + 1,
              if ops[i].opcode != STORE && ops[i].op3.vr != NoRegister then defs[ops[i].op3.vr := i + 1] else defs)
  {
  }

  lemma {:induction false} LastOfKindStep(ops: seq<Operation>, i: nat, kind: Opcode)
    requires i < |ops|
    ensures LastOfKind(ops, i + 1, kind) == if ops[i].opcode == kind then i + 1 else LastOfKind(ops, i, kind)
  {
  }

  /** The three phases replace the new node's empty list by its ordered edges followed by `tail`. */
  lemma {:induction false} PhasesCompose(ops: seq<Operation>, i: nat, nodes: map<int, Node<Operation>>, tail: seq<Edge>)
    requires i < |ops| && i + 1 in nodes
    ensures var node := i + 1;
            var isStore := ops[i].opcode == STORE;
            var afterUses := WithEdges(nodes, node, RegisterEdges(ops, i));
            var conflicts := RegisterEdges(ops, i) + if isStore then [] else MemoryEdges(ops, i);
            var afterConflicts := WithEdges(afterUses, node, conflicts);
            WithEdges(afterConflicts, node, conflicts + (if isStore then MemoryEdges(ops, i) else []) + tail)
            == WithEdges(nodes, node, OrderedEdges(ops, i) + tail)
  {
    var conflicts := RegisterEdges(ops, i) + if ops[i].opcode == STORE then [] else MemoryEdges(ops, i);
    assert conflicts + (if ops[i].opcode == STORE then MemoryEdges(ops, i) else []) == OrderedEdges(ops, i);
  }


  /**
   * Lines 34-98 for the node just added for operation i: its register-use
   * edges, then its conflict edges, then a STORE's serialisation edges.
   */
  method AddOperationEdges(graph: DependenceGraph, ops: seq<Operation>, i: nat, node: int, defs: map<int, int>,
                           lastStore: int, lastOutput: int)
    returns (defs': map<int, int>, ghost tail: seq<Edge>)
    requires i < |ops| && node == i + 1
    requires graph.Valid() && graph.nextId == i + 2
    requires graph.nodes[node].edges == []
    requires Payloads(ops, i, graph.nodes)
    requires defs == Recorded(DefsMap(ops, i), ops[i], node)
    requires lastStore == LastOfKind(ops, i, STORE) && lastOutput == LastOfKind(ops, i, OUTPUT)
    modifies graph
    ensures graph.Valid() && graph.nextId == i + 2
    ensures graph.nodes == WithEdges(old(graph.nodes), node, OrderedEdges(ops, i) + tail)
    ensures multiset(tail) == multiset(SerialEdges(ops, i))
    ensures defs' == Resolved(defs, Uses(ops[i]))
  {
    ghost var added := graph.nodes;
    DefsMapAgree(ops, i);
    DefsAgreeAfterDefinition(ops, i, DefsMap(ops, i));
    defs' := AddUseEdges(graph, ops, i, node, defs);
    AddConflictEdges(graph, ops, i, node, lastStore, lastOutput);
    PayloadsWithEdges(ops, i, added, node, RegisterEdges(ops, i));
    PayloadsWithEdges(ops, i, WithEdges(added, node, RegisterEdges(ops, i)), node,
      RegisterEdges(ops, i) + if ops[i].opcode == STORE then [] else MemoryEdges(ops, i));
    tail := AddStoreEdges(graph, ops, i, node, lastStore);
    PhasesCompose(ops, i, added, tail);
  }

  /**
   * One iteration of the loop at lines 21-106: the node for operation i, the
   * definition it makes, and all its edges.
   */
  method AddOperation(graph: DependenceGraph, ops: seq<Operation>, i: nat, defs: map<int, int>,
                      lastStore: int, lastOutput: int)
    returns (node: int, defs': map<int, int>, ghost tail: seq<Edge>)
    requires i < |ops|
    requires graph.Valid() && graph.nextId == i + 1
    requires Payloads(ops, i, graph.nodes)
    requires defs == DefsMap(ops, i)
    requires lastStore == LastOfKind(ops, i, STORE) && lastOutput == LastOfKind(ops, i, OUTPUT)
    modifies graph
    ensures graph.Valid() && graph.nextId == i + 2 && node == i + 1
    ensures graph.nodes == old(graph.nodes)[node := Node(node, ops[i], OrderedEdges(ops, i) + tail)]
    ensures multiset(tail) == multiset(SerialEdges(ops, i))
    ensures defs' == DefsMap(ops, i + 1)
  {
    var op := ops[i];
    ghost var before := graph.nodes;
    node := graph.AddNode(op);
    PayloadsBeyond(ops, i, before, node, Node(node, op, []));

    // The definition is recorded before the uses are resolved.
    defs' := defs;
    if op.opcode != STORE && op.op3.vr != NoRegister {
      defs' := defs'[op.op3.vr := node];
    }
    assert defs' == Recorded(defs, op, node);

    defs', tail := AddOperationEdges(graph, ops, i, node, defs', lastStore, lastOutput);
    NewNodeWithEdges(before, node, op, OrderedEdges(ops, i) + tail);
  }

  /**
   * Builds the dependence graph of `rep.operations`: node i+1 carries
   * operation i, its ordered edges, and then its serialisation edges in the
   * order `tails[i]` records, a permutation of `SerialEdges`; the sentinel has
   * no edges, and the ids run from 1 to the number of operations.
   */
  method BuildDependenceGraph(rep: InternalRepresentation) returns (graph: DependenceGraph, ghost tails: seq<seq<Edge>>)
    ensures fresh(graph) && graph.Valid()
    ensures graph.nextId == |rep.operations| + 1 && |tails| == |rep.operations|
    ensures graph.nodes[UndefinedId].edges == []
    ensures GraphBuilt(rep.operations, graph.nodes, tails)
  {
    var ops := rep.operations;
    graph := new Graph();
    ghost var sentinel := graph.nodes[UndefinedId];
    ghost var lists: seq<seq<Edge>> := [];
    tails := [];
    var defs: map<int, int> := map[];
    var lastStore := -1;
    var lastOutput := -1;
    for i := 0 to |ops|
      invariant graph.Valid() && graph.nextId == i + 1
      invariant |lists| == i && graph.nodes == BuiltNodes(ops, sentinel, lists)
      invariant ListsAgree(ops, lists, tails)
      invariant defs == DefsMap(ops, i)
      invariant lastStore == LastOfKind(ops, i, STORE)
      invariant lastOutput == LastOfKind(ops, i, OUTPUT)
    {
      BuiltNodesPayloads(ops, sentinel, lists);
      var node;
      ghost var tail;
      node, defs, tail := AddOperation(graph, ops, i, defs, lastStore, lastOutput);
      ListsAgreeExtend(ops, lists, tails, tail);
      assert (lists + [OrderedEdges(ops, i) + tail])[..i] == lists;
      lists := lists + [OrderedEdges(ops, i) + tail];
      tails := tails + [tail];
      LastOfKindStep(ops, i, STORE);
      LastOfKindStep(ops, i, OUTPUT);
      if ops[i].opcode == STORE {
        lastStore := node;
      } else if ops[i].opcode == OUTPUT {
        lastOutput := node;
      }
    }
    BuiltNodesSentinel(ops, sentinel, lists);
    BuiltNodesBuilt(ops, sentinel, lists, tails);
  }
}
