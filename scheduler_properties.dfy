/**
 * What the dependence graph built by `Scheduler.BuildDependenceGraph`
 * guarantees, stated on the edge lists `Scheduler.ExpectedEdges` gives each
 * node and carried over to the built graph by `BuiltEdges`.
 */
module SchedulerProperties {
  import opened Opcodes
  import opened Operations
  import opened DependenceGraph
  import opened Scheduler

  /** The `k`-th register-use edge goes to the definer of the `k`-th use, with the given weight. */
  lemma {:induction false} UseEdgesAt(ops: seq<Operation>, n: nat, uses: seq<Operand>, weight: int, k: nat)
    requires n <= |ops| && k < |uses|
    ensures UseEdges(ops, n, uses, weight)[k] == Edge(LastDefiner(ops, n, uses[k].vr), weight)
    decreases |uses|
  {
    var m := |uses|;
    if k < m - 1 {
      UseEdgesAt(ops, n, uses[..m - 1], weight, k);
    }
  }

  /**
   * Lines 57-66: the edge for the `k`-th use of operation `i` has the
   * operation's own latency as weight and goes to the sentinel exactly when
   * no operation up to and including `i` defines the register; otherwise it
   * goes to the latest such operation.
   */
  lemma {:induction false} UseResolves(ops: seq<Operation>, i: nat, k: nat)
    requires i < |ops| && k < |Uses(ops[i])|
    ensures var vr := Uses(ops[i])[k].vr;
            var e := RegisterEdges(ops, i)[k];
            && e.weight == Latency(ops[i].opcode)
            && (e.to == UndefinedId <==> forall j | 0 <= j <= i :: !Defines(ops[j], vr))
            && (e.to != UndefinedId ==>
                  && 1 <= e.to <= i + 1
                  && Defines(ops[e.to - 1], vr)
                  && forall j | e.to <= j <= i :: !Defines(ops[j], vr))
  {
    var vr := Uses(ops[i])[k].vr;
    UseEdgesAt(ops, i + 1, Uses(ops[i]), Latency(ops[i].opcode), k);
    LastDefinerIsLatest(ops, i + 1, vr);
  }

  /** Every register-use edge of operation `i` is the edge of one of its uses. */
  lemma {:induction false} RegisterEdgeOfUse(ops: seq<Operation>, i: nat, e: Edge)
    requires i < |ops| && e in RegisterEdges(ops, i)
    ensures exists k :: 0 <= k < |Uses(ops[i])| && e == Edge(LastDefiner(ops, i + 1, Uses(ops[i])[k].vr), Latency(ops[i].opcode))
  {
    var k :| 0 <= k < |RegisterEdges(ops, i)| && RegisterEdges(ops, i)[k] == e;
    UseEdgesAt(ops, i + 1, Uses(ops[i]), Latency(ops[i].opcode), k);
  }

  /** A register's definer after operation `i` is `i`'s own node exactly when `i` defines it. */
  lemma {:induction false} LastDefinerIsSelf(ops: seq<Operation>, i: nat, vr: int)
    requires i < |ops|
    ensures LastDefiner(ops, i + 1, vr) == i + 1 <==> Defines(ops[i], vr)
  {
    assert LastDefiner(ops, i, vr) <= i;
  }

  /**
   * Every edge of operation `i`'s node has a positive weight and goes to the
   * sentinel or to a node no later than its own; an edge to its own node is a
   * register-use edge for a register the operation itself defines.
   */
  lemma {:induction false} EdgesPointBackward(ops: seq<Operation>, i: nat, e: Edge)
    requires i < |ops| && e in ExpectedEdges(ops, i)
    ensures e.weight >= 1
    ensures e.to == UndefinedId || 1 <= e.to <= i + 1
    ensures e.to == i + 1 ==> exists k :: 0 <= k < |Uses(ops[i])| && Defines(ops[i], Uses(ops[i])[k].vr)
  {
    if e in RegisterEdges(ops, i) {
      RegisterEdgeOfUse(ops, i, e);
      var k :| 0 <= k < |Uses(ops[i])| && e == Edge(LastDefiner(ops, i + 1, Uses(ops[i])[k].vr), Latency(ops[i].opcode));
      LastDefinerIsSelf(ops, i, Uses(ops[i])[k].vr);
    } else if e in MemoryEdges(ops, i) {
      assert e.to == LastOfKind(ops, i, STORE) || e.to == LastOfKind(ops, i, OUTPUT);
    } else {
      assert e in SerialEdges(ops, i);
      EarlierLoadsAndOutputsCount(ops, i, e);
    }
  }

  /**
   * Lines 27-31 and 57-66: operation `i`'s node has an edge to itself exactly
   * when the operation defines a register it also uses, since the definition
   * is recorded before the uses are looked up.
   */
  lemma {:induction false} SelfEdgeIff(ops: seq<Operation>, i: nat)
    requires i < |ops|
    ensures (exists e :: e in ExpectedEdges(ops, i) && e.to == i + 1)
            <==> exists k :: 0 <= k < |Uses(ops[i])| && Defines(ops[i], Uses(ops[i])[k].vr)
  {
    if exists k :: 0 <= k < |Uses(ops[i])| && Defines(ops[i], Uses(ops[i])[k].vr) {
      var k :| 0 <= k < |Uses(ops[i])| && Defines(ops[i], Uses(ops[i])[k].vr);
      UseEdgesAt(ops, i + 1, Uses(ops[i]), Latency(ops[i].opcode), k);
      LastDefinerIsSelf(ops, i, Uses(ops[i])[k].vr);
      assert RegisterEdges(ops, i)[k] in ExpectedEdges(ops, i);
    }
    if exists e :: e in ExpectedEdges(ops, i) && e.to == i + 1 {
      var e :| e in ExpectedEdges(ops, i) && e.to == i + 1;
      EdgesPointBackward(ops, i, e);
    }
  }

  /**
   * Lines 86-98: a STORE is serialised against every earlier LOAD and OUTPUT
   * by exactly one weight-1 edge, and has no other serialisation edge; any
   * other operation has none.
   */
  lemma {:induction false} StoreSerialisation(ops: seq<Operation>, i: nat, e: Edge)
    requires i < |ops|
    ensures multiset(SerialEdges(ops, i))[e]
            == if ops[i].opcode == STORE && e.weight == 1 && 1 <= e.to <= i && IsLoadOrOutput(ops[e.to - 1]) then 1 else 0
  {
    if ops[i].opcode == STORE {
      EarlierLoadsAndOutputsCount(ops, i, e);
    }
  }

  /**
   * Lines 68-89: the conflict edges of operation `i` are exactly a LOAD's,
   * OUTPUT's or STORE's edge to the most recent earlier STORE (weight 6 from a
   * LOAD, 1 otherwise) and an OUTPUT's weight-1 edge to the most recent
   * earlier OUTPUT.
   */
  lemma {:induction false} ConflictEdgesOf(ops: seq<Operation>, i: nat, e: Edge)
    requires i < |ops|
    ensures e in MemoryEdges(ops, i) <==>
              && 1 <= e.to <= i
              && (|| (&& IsMemoryOp(ops[i])
                      && ops[e.to - 1].opcode == STORE
                      && e.weight == (if ops[i].opcode == LOAD then 6 else 1)
                      && forall j | e.to <= j < i :: ops[j].opcode != STORE)
                  || (&& ops[i].opcode == OUTPUT
                      && ops[e.to - 1].opcode == OUTPUT
                      && e.weight == 1
                      && forall j | e.to <= j < i :: ops[j].opcode != OUTPUT))
  {
    LastOfKindIsLatest(ops, i, STORE);
    LastOfKindIsLatest(ops, i, OUTPUT);
    var s, o := LastOfKind(ops, i, STORE), LastOfKind(ops, i, OUTPUT);
    if 1 <= e.to <= i && ops[e.to - 1].opcode == STORE && forall j | e.to <= j < i :: ops[j].opcode != STORE {
      assert s != UndefinedId && s == e.to;
    }
    if 1 <= e.to <= i && ops[e.to - 1].opcode == OUTPUT && forall j | e.to <= j < i :: ops[j].opcode != OUTPUT {
      assert o != UndefinedId && o == e.to;
    }
  }

  /** Node `b` is a direct successor of node `a` in the dependence graph of `ops`. */
  ghost predicate DependsOn(ops: seq<Operation>, a: int, b: int)
  {
    1 <= a <= |ops| && exists e :: e in ExpectedEdges(ops, a - 1) && e.to == b
  }

  /** `p` is a path of dependence edges. */
  ghost predicate IsPath(ops: seq<Operation>, p: seq<int>)
  {
    |p| >= 1 && forall k {:trigger DependsOn(ops, p[k], p[k + 1])} | 0 <= k < |p| - 1 :: DependsOn(ops, p[k], p[k + 1])
  }

  /** A LOAD, STORE or OUTPUT: an operation that touches memory or the output stream. */
  predicate IsMemoryOp(op: Operation)
  {
    op.opcode == LOAD || op.opcode == STORE || op.opcode == OUTPUT
  }

  /** Putting a node in front of a path that starts at one of its successors gives a path. */
  lemma {:induction false} PrependToPath(ops: seq<Operation>, a: int, p: seq<int>)
    requires IsPath(ops, p) && DependsOn(ops, a, p[0])
    ensures IsPath(ops, [a] + p) && ([a] + p)[0] == a && ([a] + p)[|[a] + p| - 1] == p[|p| - 1]
  {
    var q := [a] + p;
    forall k | 0 <= k < |q| - 1
      ensures DependsOn(ops, q[k], q[k + 1])
    {
      if k > 0 {
        var j := k - 1;
        assert q[k] == p[j] && q[k + 1] == p[j + 1];
        assert DependsOn(ops, p[j], p[j + 1]);
      }
    }
  }

  /** Lines 69-73, 76-79 and 87-89: a memory operation depends on the most recent earlier STORE, if any. */
  lemma {:induction false} DependsOnLastStore(ops: seq<Operation>, i: nat)
    requires i < |ops| && IsMemoryOp(ops[i]) && LastOfKind(ops, i, STORE) != UndefinedId
    ensures DependsOn(ops, i + 1, LastOfKind(ops, i, STORE))
  {
    var s := LastOfKind(ops, i, STORE);
    var e := if ops[i].opcode == LOAD then Edge(s, Latency(LOAD))
             else if ops[i].opcode == OUTPUT then Edge(s, Latency(OUTPUT))
             else Edge(s, 1);
    assert e == MemoryEdges(ops, i)[0];
    assert e in ExpectedEdges(ops, i);
  }

  /** Lines 80-82: an OUTPUT depends on the most recent earlier OUTPUT, if any. */
  lemma {:induction false} DependsOnLastOutput(ops: seq<Operation>, i: nat)
    requires i < |ops| && ops[i].opcode == OUTPUT && LastOfKind(ops, i, OUTPUT) != UndefinedId
    ensures DependsOn(ops, i + 1, LastOfKind(ops, i, OUTPUT))
  {
    var o := LastOfKind(ops, i, OUTPUT);
    assert Edge(o, 1) in MemoryEdges(ops, i);
    MemoryEdgeExpected(ops, i, Edge(o, 1));
  }

  /** A conflict edge is among the node's edges. */
  lemma {:induction false} MemoryEdgeExpected(ops: seq<Operation>, i: nat, e: Edge)
    requires i < |ops| && e in MemoryEdges(ops, i)
    ensures e in ExpectedEdges(ops, i)
  {
    assert OrderedEdges(ops, i) == RegisterEdges(ops, i) + MemoryEdges(ops, i);
  }

  /** Lines 90-96: a STORE depends on every earlier LOAD and OUTPUT. */
  lemma {:induction false} StoreDependsOnEarlierRead(ops: seq<Operation>, i: nat, j: nat)
    requires j < i < |ops| && ops[i].opcode == STORE && IsLoadOrOutput(ops[j])
    ensures DependsOn(ops, i + 1, j + 1)
  {
    StoreSerialisation(ops, i, Edge(j + 1, 1));
    assert Edge(j + 1, 1) in SerialEdges(ops, i);
    assert ExpectedEdges(ops, i) == OrderedEdges(ops, i) + SerialEdges(ops, i);
  }

  /** A path of dependence edges leads from node `a` to node `b`. */
  ghost predicate Reaches(ops: seq<Operation>, a: int, b: int)
  {
    exists p :: IsPath(ops, p) && p[0] == a && p[|p| - 1] == b
  }

  /** The latest operation of a kind before `i` is of that kind and no earlier than any other. */
  lemma {:induction false} LastOfKindAfter(ops: seq<Operation>, i: nat, kind: Opcode, j: nat)
    requires j < i <= |ops| && ops[j].opcode == kind
    ensures var last := LastOfKind(ops, i, kind);
            last != UndefinedId && j + 1 <= last <= i && ops[last - 1].opcode == kind
  {
    LastOfKindIsLatest(ops, i, kind);
  }

  /** An edge, followed by a path from its target if it does not end there, is a path. */
  lemma {:induction false} ReachViaEdge(ops: seq<Operation>, a: int, b: int, c: int)
    requires DependsOn(ops, a, b)
    requires b == c || Reaches(ops, b, c)
    ensures Reaches(ops, a, c)
  {
    if b == c {
      assert IsPath(ops, [a, b]);
    } else {
      var p :| IsPath(ops, p) && p[0] == b && p[|p| - 1] == c;
      PrependToPath(ops, a, p);
    }
  }

  /** A memory operation reaches whatever the most recent earlier STORE reaches. */
  lemma {:induction false} ReachViaLastStore(ops: seq<Operation>, i: nat, c: int)
    requires i < |ops| && IsMemoryOp(ops[i]) && LastOfKind(ops, i, STORE) != UndefinedId
    requires LastOfKind(ops, i, STORE) == c || Reaches(ops, LastOfKind(ops, i, STORE), c)
    ensures Reaches(ops, i + 1, c)
  {
    DependsOnLastStore(ops, i);
    ReachViaEdge(ops, i + 1, LastOfKind(ops, i, STORE), c);
  }

  /** An OUTPUT reaches whatever the most recent earlier OUTPUT reaches. */
  lemma {:induction false} ReachViaLastOutput(ops: seq<Operation>, i: nat, c: int)
    requires i < |ops| && ops[i].opcode == OUTPUT && LastOfKind(ops, i, OUTPUT) != UndefinedId
    requires LastOfKind(ops, i, OUTPUT) == c || Reaches(ops, LastOfKind(ops, i, OUTPUT), c)
    ensures Reaches(ops, i + 1, c)
  {
    DependsOnLastOutput(ops, i);
    ReachViaEdge(ops, i + 1, LastOfKind(ops, i, OUTPUT), c);
  }

  /**
   * The STOREs are chained: a LOAD, STORE or OUTPUT reaches every earlier
   * STORE through the edges from each memory operation to the STORE before it.
   */
  lemma {:induction false} ReachesEarlierStore(ops: seq<Operation>, i: nat, j: nat)
    requires j < i < |ops| && IsMemoryOp(ops[i]) && ops[j].opcode == STORE
    ensures Reaches(ops, i + 1, j + 1)
    decreases i
  {
    LastOfKindAfter(ops, i, STORE, j);
    var s := LastOfKind(ops, i, STORE);
    if s != j + 1 {
      ReachesEarlierStore(ops, s - 1, j);
    }
    ReachViaLastStore(ops, i, j + 1);
  }

  /** Lines 80-82: the OUTPUTs are chained, each depending on the one before it. */
  lemma {:induction false} ReachesEarlierOutput(ops: seq<Operation>, i: nat, j: nat)
    requires j < i < |ops| && ops[i].opcode == OUTPUT && ops[j].opcode == OUTPUT
    ensures Reaches(ops, i + 1, j + 1)
    decreases i
  {
    LastOfKindAfter(ops, i, OUTPUT, j);
    var o := LastOfKind(ops, i, OUTPUT);
    if o != j + 1 {
      ReachesEarlierOutput(ops, o - 1, j);
    }
    ReachViaLastOutput(ops, i, j + 1);
  }

  /**
   * Memory and output order survive scheduling: of two memory operations
   * where at least one is a STORE, or which are both OUTPUTs, the later one
   * reaches the earlier one in the dependence graph. Two reads (LOADs and
   * OUTPUTs) are left unordered.
   */
  lemma {:induction false} MemoryOrderPreserved(ops: seq<Operation>, i: nat, j: nat)
    requires j < i < |ops| && IsMemoryOp(ops[i]) && IsMemoryOp(ops[j])
    requires ops[i].opcode == STORE || ops[j].opcode == STORE
             || (ops[i].opcode == OUTPUT && ops[j].opcode == OUTPUT)
    ensures Reaches(ops, i + 1, j + 1)
  {
    if ops[j].opcode == STORE {
      ReachesEarlierStore(ops, i, j);
    } else if ops[i].opcode == STORE {
      StoreDependsOnEarlierRead(ops, i, j);
      ReachViaEdge(ops, i + 1, j + 1, j + 1);
    } else {
      ReachesEarlierOutput(ops, i, j);
    }
  }

  /**
   * No operation reads a register it also writes, which holds for the
   * renamed code the scheduler is given, where every definition names a
   * fresh virtual register.
   */
  ghost predicate NoSelfUse(ops: seq<Operation>)
  {
    forall i, k | 0 <= i < |ops| && 0 <= k < |Uses(ops[i])| :: !Defines(ops[i], Uses(ops[i])[k].vr)
  }

  /**
   * The dependence graph of such code is acyclic: along any path of two or
   * more nodes the ids strictly decrease, so no path returns to its start.
   */
  lemma {:induction false} PathsDescend(ops: seq<Operation>, p: seq<int>)
    requires NoSelfUse(ops) && IsPath(ops, p) && |p| >= 2
    ensures p[|p| - 1] < p[0]
    decreases |p|
  {
    var first := 0;
    assert DependsOn(ops, p[first], p[first + 1]);
    var e :| e in ExpectedEdges(ops, p[0] - 1) && e.to == p[1];
    EdgesPointBackward(ops, p[0] - 1, e);
    if |p| > 2 {
      var q := p[1..];
      forall k | 0 <= k < |q| - 1
        ensures DependsOn(ops, q[k], q[k + 1])
      {
        var j := k + 1;
        assert q[k] == p[j] && q[k + 1] == p[j + 1];
        assert DependsOn(ops, p[j], p[j + 1]);
      }
      assert IsPath(ops, q);
      PathsDescend(ops, q);
      assert q[|q| - 1] == p[|p| - 1];
    }
  }

  /**
   * The builder does not merge edges: a STORE whose address or data register
   * was last defined by a LOAD keeps both the weight-6 register edge and the
   * weight-1 serialisation edge to that LOAD.
   */
  lemma {:induction false} NoDeduplication(ops: seq<Operation>, i: nat, k: nat)
    requires i < |ops| && ops[i].opcode == STORE && k < |Uses(ops[i])|
    requires var d := LastDefiner(ops, i + 1, Uses(ops[i])[k].vr);
             d != UndefinedId && ops[d - 1].opcode == LOAD
    ensures var d := LastDefiner(ops, i + 1, Uses(ops[i])[k].vr);
            Edge(d, 6) in ExpectedEdges(ops, i) && Edge(d, 1) in ExpectedEdges(ops, i)
  {
    var d := LastDefiner(ops, i + 1, Uses(ops[i])[k].vr);
    LastDefinerIsSelf(ops, i, Uses(ops[i])[k].vr);
    UseEdgesAt(ops, i + 1, Uses(ops[i]), Latency(STORE), k);
    assert RegisterEdges(ops, i)[k] == Edge(d, 6);
    assert Edge(d, 6) in ExpectedEdges(ops, i);
    StoreSerialisation(ops, i, Edge(d, 1));
    assert Edge(d, 1) in SerialEdges(ops, i);
  }

  /** A definer found among the first `n` operations does not depend on what follows them. */
  lemma {:induction false} LastDefinerPrefix(ops: seq<Operation>, m: nat, n: nat, vr: int)
    requires n <= m <= |ops|
    ensures LastDefiner(ops[..m], n, vr) == LastDefiner(ops, n, vr)
  {
    if n > 0 {
      assert ops[..m][n - 1] == ops[n - 1];
      LastDefinerPrefix(ops, m, n - 1, vr);
    }
  }

  lemma {:induction false} LastOfKindPrefix(ops: seq<Operation>, m: nat, n: nat, kind: Opcode)
    requires n <= m <= |ops|
    ensures LastOfKind(ops[..m], n, kind) == LastOfKind(ops, n, kind)
  {
    if n > 0 {
      assert ops[..m][n - 1] == ops[n - 1];
      LastOfKindPrefix(ops, m, n - 1, kind);
    }
  }

  lemma {:induction false} UseEdgesPrefix(ops: seq<Operation>, m: nat, n: nat, uses: seq<Operand>, weight: int)
    requires n <= m <= |ops|
    ensures UseEdges(ops[..m], n, uses, weight) == UseEdges(ops, n, uses, weight)
    decreases |uses|
  {
    if uses != [] {
      UseEdgesPrefix(ops, m, n, uses[..|uses| - 1], weight);
      LastDefinerPrefix(ops, m, n, uses[|uses| - 1].vr);
    }
  }

  lemma {:induction false} EarlierLoadsAndOutputsPrefix(ops: seq<Operation>, m: nat, n: nat)
    requires n <= m <= |ops|
    ensures EarlierLoadsAndOutputs(ops[..m], n) == EarlierLoadsAndOutputs(ops, n)
  {
    if n > 0 {
      assert ops[..m][n - 1] == ops[n - 1];
      EarlierLoadsAndOutputsPrefix(ops, m, n - 1);
    }
  }

  /**
   * A node's edges depend only on its own operation and those before it:
   * the operations processed later never change an earlier node's list.
   */
  lemma {:induction false} ExpectedEdgesPrefix(ops: seq<Operation>, m: nat, i: nat)
    requires i < m <= |ops|
    ensures ExpectedEdges(ops[..m], i) == ExpectedEdges(ops, i)
  {
    assert ops[..m][i] == ops[i];
    UseEdgesPrefix(ops, m, i + 1, Uses(ops[i]), Latency(ops[i].opcode));
    LastOfKindPrefix(ops, m, i, STORE);
    LastOfKindPrefix(ops, m, i, OUTPUT);
    EarlierLoadsAndOutputsPrefix(ops, m, i);
  }

  /**
   * In the graph the builder returns, node i+1 holds exactly the edges
   * `ExpectedEdges` gives operation i, each as often, in some order.
   */
  lemma {:induction false} BuiltEdges(ops: seq<Operation>, nodes: map<int, Node<Operation>>, tails: seq<seq<Edge>>, id: int)
    requires GraphBuilt(ops, nodes, tails) && 1 <= id <= |ops|
    ensures id in nodes && nodes[id].data == ops[id - 1]
    ensures multiset(nodes[id].edges) == multiset(ExpectedEdges(ops, id - 1))
  {
    var i := id - 1;
    assert multiset(OrderedEdges(ops, i) + tails[i]) == multiset(OrderedEdges(ops, i)) + multiset(tails[i]);
    assert multiset(ExpectedEdges(ops, i)) == multiset(OrderedEdges(ops, i)) + multiset(SerialEdges(ops, i));
  }
}
