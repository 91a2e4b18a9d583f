# ILOC dependence-graph builder, modelled in Dafny

This project models the front half of an ILOC instruction scheduler. That
half turns a renamed basic block of ILOC operations into a dependence graph.

- `Scheduler::buildDependenceGraph` makes one pass over the block. For each
  operation it creates a node, records the operation's definition in the map
  `defs`, and adds three kinds of edges:
  - one edge per register use, to the latest definer of the register or to
    the sentinel node -1, weighted by the operation's own latency;
  - conflict edges to the most recent STORE and the most recent OUTPUT;
  - for a STORE, a weight-1 edge to every earlier LOAD and OUTPUT.
- `Graph<T>` in include/DependenceGraph.hpp is the container the builder
  uses. It has a sentinel node, hands out ids from 1, and its `addEdge`
  checks both ends.
- `Graph<T>` in include/Graph.hpp is a second container. Its `addEdge` is
  unchecked and records every edge as an out-edge and as an in-edge.
- include/Opcode.hpp holds the opcode enum and its tables of names, padded
  names and latencies.

Modules and files:

- `Opcodes` (opcodes.dfy) models include/Opcode.hpp as total functions over
  an `Opcode` datatype.
- `Operations` (operations.dfy) holds the operation record and the internal
  representation. include/Operation.hpp is not part of this model. An
  operation is its opcode plus three operands. Only each operand's virtual
  register is kept, with -1 meaning "no register".
- `DependenceGraph` (dependence_graph.dfy) models the checked container as a
  class. Its fields are `nextId` and a map from id to node. A node is a
  value holding its id, its payload and its edge list.
- `Graph` (graph.dfy) models the mirrored container in the same way. Its
  invariant `Mirrored` says the in-edge lists and the out-edge lists record
  the same edges.
- `Multisets` (multisets.dfy) holds one counting lemma that both graph proofs
  use.
- `Scheduler` (scheduler.dfy) models the builder itself.
  - `BuildDependenceGraph` is imperative, like the source. It has the outer
    loop over the operations, the loop over a node's uses, and the loop over
    the graph's nodes that adds a STORE's serialisation edges.
  - Specification functions give each operation's expected edge list.
    `ExpectedEdges` is `OrderedEdges` (register-use edges, then conflict
    edges) followed by `SerialEdges`.
  - The method is proved to build exactly those lists. The serialisation
    edges come out in an unspecified order, because the source walks an
    `unordered_map`, so they are matched up to permutation.
- `SchedulerProperties` (scheduler_properties.dfy) proves what those edges
  guarantee:
  - where each use resolves;
  - that edges point backwards;
  - exactly when a node has a self-edge;
  - that memory and output order is preserved along paths;
  - that renamed code gives an acyclic graph;
  - that the builder does not merge duplicate edges;
  - that later operations never change an earlier node's edges.

## Model

| member | source | states |
|---|---|---|
| Opcodes.Ordinal | include/Opcode.hpp:5-16 | every opcode's enum value is below 10, so it indexes each of the three ten-entry tables |
| Opcodes.FromOrdinal | include/Opcode.hpp:5-16 | converting an integer below 10 to the enum gives the opcode with that value |
| Opcodes.OrdinalRoundTrip | include/Opcode.hpp:5-16 | the enum values are distinct: converting an opcode's value back gives the same opcode |
| Opcodes.Name | include/Opcode.hpp:18-29 | every mnemonic is non-empty and at most 6 characters, so it fits the padded width |
| Opcodes.NamesDistinct | include/Opcode.hpp:18-29 | two opcodes have the same mnemonic exactly when they are the same opcode |
| Opcodes.PaddedName | include/Opcode.hpp:31-42 | each padded name is exactly 7 characters: the plain mnemonic followed by spaces |
| Opcodes.PaddedNamesDistinct | include/Opcode.hpp:31-42 | the padded names are pairwise distinct too |
| Opcodes.Latency | include/Opcode.hpp:44-55 | the latency is 6 exactly for LOAD and STORE, 3 exactly for MULT, 1 exactly for every other opcode, and never below 1 |
| DependenceGraph.WithEdge | include/DependenceGraph.hpp:52 | appending an edge to a node's list adds no node and removes none |
| DependenceGraph.WithEdgeKeepsClosed | include/DependenceGraph.hpp:48-54 | appending an edge between two existing nodes keeps every stored edge's target a node of the graph |
| DependenceGraph.Graph.constructor | include/DependenceGraph.hpp:34-36 | a fresh graph holds only the sentinel -1, with no edges, and `nextId` is 1 |
| DependenceGraph.Graph.GetUndefined | include/DependenceGraph.hpp:38-40 | returns -1, which is always a node of the graph |
| DependenceGraph.Graph.AddNode | include/DependenceGraph.hpp:42-46 | returns the old `nextId`, a positive id not yet in use, and increments `nextId`. It adds exactly that node, with the payload and no edges, and changes no other node |
| DependenceGraph.Graph.AddEdge | include/DependenceGraph.hpp:48-54 | returns true exactly when both ends are nodes. Then `(to, weight)` is appended to `from`'s list. Otherwise nothing changes |
| Graph.WithEdge | include/Graph.hpp:47-50 | `(to, w)` goes at the end of `from`'s out-edges and `(from, w)` at the end of `to`'s in-edges. Every other list, id and payload is unchanged. For a self-edge both appends land on the same node |
| Graph.WithEdgeKeepsMirrored | include/Graph.hpp:47-50 | recording an edge on both sides keeps the in-edge and out-edge lists in step, self-edges included |
| Graph.WithNodeKeepsMirrored | include/Graph.hpp:41-45 | adding a node with empty lists under a fresh id keeps the lists in step |
| Graph.OutEdgeHasInPartner | include/Graph.hpp:47-50 | in a mirrored graph each out-edge u→v of weight w has u among v's in-edges with weight w |
| Graph.InEdgeHasOutPartner | include/Graph.hpp:47-50 | in a mirrored graph each in-edge of v from u with weight w has v among u's out-edges with weight w |
| Graph.Graph.constructor | include/Graph.hpp:33-35 | a fresh graph holds only the sentinel -1, with both edge lists empty, and `nextId` is 1 |
| Graph.Graph.GetUndefined | include/Graph.hpp:37-39 | returns the public constant -1, which is always a node |
| Graph.Graph.AddNode | include/Graph.hpp:41-45 | returns the old `nextId` and increments it. It adds exactly that node, with empty lists, and keeps the mirror invariant |
| Graph.Graph.AddEdge | include/Graph.hpp:47-50 | requires both ends to exist, since the source does not check them. It records the edge on both sides, changes nothing else and keeps the mirror invariant |
| Scheduler.Uses | src/scheduler.cpp:35-54 | an operation reads at most two operands, drawn from its own operands. It reads none exactly when it is LOADI, OUTPUT or NOP |
| Scheduler.LastDefiner | src/scheduler.cpp:27-32 | the definer of a register after n operations is the sentinel or one of nodes 1..n |
| Scheduler.LastDefinerIsLatest | src/scheduler.cpp:27-32 | the definer is the sentinel exactly when none of the first n operations defines the register. Otherwise it is the latest operation that does, so a later definition overwrites an earlier one |
| Scheduler.LastOfKind | src/scheduler.cpp:100-105 | `lastStore` and `lastOutput` after n operations are -1 or one of nodes 1..n |
| Scheduler.LastOfKindIsLatest | src/scheduler.cpp:100-105 | `lastStore` (`lastOutput`) is -1 exactly when no STORE (OUTPUT) has been seen. Otherwise it is the latest such node |
| Scheduler.UseEdges | src/scheduler.cpp:57-66 | there is one register-use edge per use |
| Scheduler.ResolvedAgrees | src/scheduler.cpp:59-62 | mapping a register with no entry to the sentinel keeps `defs` correct, because such a register has no definer |
| Scheduler.DefsMapAgree | src/scheduler.cpp:27-62 | after each operation, each entry of `defs` is its register's latest definer, or the sentinel if there is none. A register without an entry has never been defined |
| Scheduler.EarlierLoadsAndOutputsCount | src/scheduler.cpp:91-97 | the serialisation edges of a STORE hold each earlier LOAD or OUTPUT exactly once, with weight 1, and nothing else |
| Scheduler.AddUseEdges | src/scheduler.cpp:34-66 | the inner loop appends exactly the operation's register-use edges to its node, and leaves `defs` as the lookups make it |
| Scheduler.AddConflictEdges | src/scheduler.cpp:68-83 | a LOAD gets its edge to the last STORE. An OUTPUT gets its edges to the last STORE and then the last OUTPUT. Nothing else changes |
| Scheduler.TailMatchesDone | src/scheduler.cpp:91-97 | once every node has been visited, the appended edges are a permutation of the STORE's serialisation edges |
| Scheduler.AddEdgesToLoadsAndOutputs | src/scheduler.cpp:91-97 | the loop over the node map appends one weight-1 edge per other non-sentinel LOAD or OUTPUT node, in the order it visits them |
| Scheduler.AddStoreEdges | src/scheduler.cpp:85-98 | a STORE gets its edge to the last STORE, then a permutation of its serialisation edges. Other opcodes get nothing |
| Scheduler.AddOperationEdges | src/scheduler.cpp:34-98 | the new node's list becomes its ordered edges followed by a permutation of its serialisation edges |
| Scheduler.AddOperation | src/scheduler.cpp:21-106 | one iteration adds node i+1 with operation i and exactly those edges. It leaves every other node alone and advances `defs` to the map for i+1 operations |
| Scheduler.BuildDependenceGraph | src/scheduler.cpp:12-109 | the graph has the sentinel, with no edges, and nodes 1..n. Node i+1 carries operation i, its ordered edges and then a permutation of its serialisation edges |
| SchedulerProperties.UseEdgesAt | src/scheduler.cpp:57-66 | the k-th register-use edge targets the definer of the k-th use |
| SchedulerProperties.UseResolves | src/scheduler.cpp:57-66 | a use's edge has the operation's own latency as its weight. It goes to the sentinel exactly when no operation up to and including this one defines the register. Otherwise it goes to the latest one that does |
| SchedulerProperties.RegisterEdgeOfUse | src/scheduler.cpp:57-66 | every register-use edge belongs to one of the operation's uses |
| SchedulerProperties.LastDefinerIsSelf | src/scheduler.cpp:27-32 | after operation i, a register's definer is node i+1 exactly when operation i defines the register |
| SchedulerProperties.EdgesPointBackward | src/scheduler.cpp:57-98 | every edge has weight at least 1 and goes to the sentinel or to a node no later than its source. An edge to itself comes from a use of a register the operation defines |
| SchedulerProperties.SelfEdgeIff | src/scheduler.cpp:27-66 | a node has a self-edge exactly when its operation uses a register it also defines, because the definition is recorded before the uses are resolved |
| SchedulerProperties.StoreSerialisation | src/scheduler.cpp:85-97 | a STORE has exactly one weight-1 serialisation edge to each earlier LOAD and OUTPUT, and no other. Other operations have none |
| SchedulerProperties.ConflictEdgesOf | src/scheduler.cpp:68-89 | the conflict edges are exactly these: a LOAD's, OUTPUT's or STORE's edge to the most recent earlier STORE (weight 6 from a LOAD, 1 otherwise), and an OUTPUT's weight-1 edge to the most recent earlier OUTPUT |
| SchedulerProperties.DependsOnLastStore | src/scheduler.cpp:68-89 | a LOAD, STORE or OUTPUT depends directly on the most recent earlier STORE |
| SchedulerProperties.DependsOnLastOutput | src/scheduler.cpp:80-82 | an OUTPUT depends directly on the most recent earlier OUTPUT |
| SchedulerProperties.StoreDependsOnEarlierRead | src/scheduler.cpp:91-97 | a STORE depends directly on every earlier LOAD and OUTPUT |
| SchedulerProperties.ReachesEarlierStore | src/scheduler.cpp:68-105 | a LOAD, STORE or OUTPUT reaches every earlier STORE by a path of edges |
| SchedulerProperties.ReachesEarlierOutput | src/scheduler.cpp:76-105 | an OUTPUT reaches every earlier OUTPUT by a path of edges |
| SchedulerProperties.MemoryOrderPreserved | src/scheduler.cpp:68-105 | of two memory operations where one is a STORE, or both are OUTPUTs, the later one reaches the earlier one. So a schedule that respects the edges keeps their order |
| SchedulerProperties.PathsDescend | src/scheduler.cpp:21-106 | for renamed code, where no operation reads a register it writes, ids strictly decrease along every path, so the graph is acyclic |
| SchedulerProperties.NoDeduplication | src/scheduler.cpp:40-97 | a STORE whose operand was last defined by a LOAD keeps both the weight-6 register edge and the weight-1 serialisation edge to that LOAD |
| SchedulerProperties.ExpectedEdgesPrefix | src/scheduler.cpp:21-106 | a node's edges depend only on its operation and the ones before it, so later iterations never change an earlier node's list |
| SchedulerProperties.BuiltEdges | src/scheduler.cpp:12-109 | in the built graph, node i+1 holds operation i and exactly the edges `ExpectedEdges` gives it, each as often, in some order |

## Left out

- `Scheduler::schedule` (src/scheduler.cpp:7-10) only prints the graph, and `Graph::print` (include/DependenceGraph.hpp:56-66) only renders text through `Operation::printVR`. Both are output, and `printVR` is not part of this model.
- src/main.cpp is left out. It handles command-line arguments, file input, parsing, renaming and printing. include/Renamer.hpp and include/Scheduler.hpp are declarations without logic.
- No source file implements priority computation or list scheduling, so neither is modelled.
- `maxSR`, `maxVR` and `maxLive` of the internal representation are kept as fields, but the builder never reads them. Operand fields other than the virtual register are left out for the same reason.
- `unique_ptr` ownership and `unordered_map` hashing are left out. Nodes are values in a map keyed by id.
- The iteration order of the `unordered_map` is not modelled. The serialisation loop picks its next id arbitrarily. So `Scheduler.BuildDependenceGraph` fixes the order of a STORE's serialisation edges only up to permutation, and gives the order it produced as a ghost result.
- DependenceGraph.Graph.constructor: the sentinel's payload is an arbitrary value of the payload type, not the value-initialised `T()`, because Dafny has no default constructor for a type parameter.
- DependenceGraph.Graph.AddNode: `nextId` is an unbounded integer. The source's `int` would overflow after 2^31 - 1 nodes, which no basic block reaches.
- Graph.Graph.AddNode: `nextId` is unbounded, for the same reason.
- Graph.WithEdgeKeepsMirrored: the mirror invariant is stated pair by pair and weight by weight, as equal counts of `(v, w)` in u's out-edges and `(u, w)` in v's in-edges. This is equivalent to equality of the two multisets of triples, but it is not written as one multiset of triples.
- Scheduler.BuildDependenceGraph: the repository's description of the builder says a STORE's serialisation edge is skipped when an edge between the pair already exists. src/scheduler.cpp:91-97 does not check this. The model follows the code, and `SchedulerProperties.NoDeduplication` shows both edges survive.
- SchedulerProperties.PathsDescend: the same description calls the graph a DAG. The code adds a self-edge when an operation reads the register it writes (`SchedulerProperties.SelfEdgeIff`), so acyclicity is proved only for input where that never happens. Renamed ILOC satisfies this.
