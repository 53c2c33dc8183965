/**
 * The D* Lite engine: g and rhs cost tables, the key modifier km, the
 * start/goal/last nodes and the open list, searched backwards from the
 * goal and repaired incrementally when cells change.
 */
module DStar {
  import opened Graph
  import opened Keys
  import opened Heaps
  import opened Grids

  /** Tolerance of the floating-point equality tests. */
  const EPSILON: real := 0.000001

  /**
   * `fabs(a - b) < EPSILON` on doubles. An infinite operand makes the
   * difference infinite or NaN, and the test false.
   */
  predicate NearlyEqual(a: Cost, b: Cost) {
    a.Fin? && b.Fin? && -EPSILON < a.v - b.v < EPSILON
  }

  /** A table read: a missing entry is INF_COST. */
  function Lookup(t: map<Pos, Cost>, p: Pos): (c: Cost)
    ensures p !in t ==> c == INF_COST
  {
    if p in t then t[p] else INF_COST
  }

  /**
   * `calculateKey` on the looked-up values: with m = min(g, rhs),
   * the key (m + h + km, m).
   */
  function KeyFor(g: Cost, rhs: Cost, h: real, km: real): (k: Key)
    requires h >= 0.0 && km >= 0.0
    ensures k.k2 == g || k.k2 == rhs
    ensures !Below(g, k.k2) && !Below(rhs, k.k2)
    ensures k.k1.Inf? <==> k.k2.Inf?
    ensures k.k1.Fin? ==> k.k1.v == k.k2.v + h + km
  {
    var m := Min(g, rhs);
    Key(Add(Add(m, Fin(h)), Fin(km)), m)
  }

  /** A larger km never makes a key smaller. */
  lemma KeyForGrowsWithKm(g: Cost, rhs: Cost, h: real, km1: real, km2: real)
    requires h >= 0.0 && 0.0 <= km1 <= km2
    ensures LessEq(KeyFor(g, rhs, h, km1), KeyFor(g, rhs, h, km2))
  {
  }

  /** With the same heuristic and km, a strictly smaller min(g, rhs) gives a strictly smaller key. */
  lemma KeyForOrdersByEstimate(g1: Cost, rhs1: Cost, g2: Cost, rhs2: Cost, h: real, km: real)
    requires h >= 0.0 && km >= 0.0
    requires Below(Min(g1, rhs1), Min(g2, rhs2))
    ensures Less(KeyFor(g1, rhs1, h, km), KeyFor(g2, rhs2, h, km))
  {
  }

  /**
   * The open-list invariant at one position: an inconsistent node
   * (g != rhs) is queued, and a node with g = rhs finite is not.
   * A node with g = rhs = INF_COST may be either.
   */
  ghost predicate SettledIn(g: map<Pos, Cost>, rhs: map<Pos, Cost>, open: map<Pos, HeapNode>, p: Pos) {
    (Lookup(g, p) != Lookup(rhs, p) ==> p in open) &&
    (Lookup(g, p) == Lookup(rhs, p) && Lookup(g, p).Fin? ==> p !in open)
  }

  ghost predicate AllSettledExcept(g: map<Pos, Cost>, rhs: map<Pos, Cost>, open: map<Pos, HeapNode>, except: set<Pos>) {
    forall p :: p !in except ==> SettledIn(g, rhs, open, p)
  }

  /**
   * Changing the tables and the open list at q only keeps every other
   * position settled; once q is settled too, it can leave the exceptions.
   */
  lemma Reframe(g0: map<Pos, Cost>, rhs0: map<Pos, Cost>, open0: map<Pos, HeapNode>,
                g1: map<Pos, Cost>, rhs1: map<Pos, Cost>, open1: map<Pos, HeapNode>,
                q: Pos, except: set<Pos>)
    requires forall p :: p != q ==> Lookup(g1, p) == Lookup(g0, p) && Lookup(rhs1, p) == Lookup(rhs0, p)
    requires forall p :: p != q ==> (p in open1 <==> p in open0)
    requires AllSettledExcept(g0, rhs0, open0, except)
    ensures AllSettledExcept(g1, rhs1, open1, except + {q})
    ensures SettledIn(g1, rhs1, open1, q) ==> AllSettledExcept(g1, rhs1, open1, except - {q})
  {
    forall p | p !in except && p != q
      ensures SettledIn(g1, rhs1, open1, p)
    {
      assert SettledIn(g0, rhs0, open0, p);
    }
  }

  /** A settled position can leave the exceptions. */
  lemma SettleOne(g: map<Pos, Cost>, rhs: map<Pos, Cost>, open: map<Pos, HeapNode>, except: set<Pos>, q: Pos)
    requires AllSettledExcept(g, rhs, open, except) && SettledIn(g, rhs, open, q)
    ensures AllSettledExcept(g, rhs, open, except - {q})
  {
  }

  /** Right after seeding only the goal is inconsistent (g = INF_COST, rhs = 0), and it is queued. */
  lemma SeededIsSettled(g: map<Pos, Cost>, rhs: map<Pos, Cost>, open: map<Pos, HeapNode>, q: Pos)
    requires g == map[q := INF_COST] && rhs == map[q := Fin(0.0)] && q in open
    ensures AllSettledExcept(g, rhs, open, {})
  {
    forall p
      ensures SettledIn(g, rhs, open, p)
    {
      if p != q {
        assert Lookup(g, p) == INF_COST == Lookup(rhs, p);
      }
    }
  }

  /**
   * `r` is `r0` after the first `i` entries of `ns` were offered `offers`:
   * those took the smaller of their old rhs and the offer, nothing else
   * changed, and nothing went up.
   */
  ghost predicate RelaxedUpTo(r0: map<Pos, Cost>, r: map<Pos, Cost>, ns: seq<Node>, offers: seq<Cost>, i: nat)
    requires i <= |ns| == |offers|
  {
    (forall j :: 0 <= j < i ==> Lookup(r, ns[j].Pos()) == Min(Lookup(r0, ns[j].Pos()), offers[j])) &&
    (forall p :: (forall j :: 0 <= j < i ==> ns[j].Pos() != p) ==> Lookup(r, p) == Lookup(r0, p)) &&
    (forall p :: !Below(Lookup(r0, p), Lookup(r, p)))
  }

  lemma RelaxStep(r0: map<Pos, Cost>, r: map<Pos, Cost>, ns: seq<Node>, offers: seq<Cost>, i: nat)
    requires i < |ns| == |offers|
    requires forall j :: 0 <= j < i ==> ns[j].Pos() != ns[i].Pos()
    requires RelaxedUpTo(r0, r, ns, offers, i)
    ensures var p := ns[i].Pos();
      RelaxedUpTo(r0, if Below(offers[i], Lookup(r, p)) then r[p := offers[i]] else r, ns, offers, i + 1)
  {
    var p := ns[i].Pos();
    assert Lookup(r, p) == Lookup(r0, p);
  }

  /**
   * `r` is `r0` after the first `i` entries of `ns` were rechecked: an
   * entry whose rhs matched its offer took its recomputed value, the rest
   * of the table is unchanged.
   */
  ghost predicate RevisedUpTo(r0: map<Pos, Cost>, r: map<Pos, Cost>, ns: seq<Node>, offers: seq<Cost>, recomputed: seq<Cost>, i: nat)
    requires i <= |ns| == |offers| == |recomputed|
  {
    (forall j :: 0 <= j < i ==>
      (Lookup(r, ns[j].Pos()) == if NearlyEqual(Lookup(r0, ns[j].Pos()), offers[j]) then recomputed[j] else Lookup(r0, ns[j].Pos()))) &&
    (forall p :: (forall j :: 0 <= j < i ==> ns[j].Pos() != p) ==> Lookup(r, p) == Lookup(r0, p))
  }

  lemma ReviseStep(r0: map<Pos, Cost>, r: map<Pos, Cost>, ns: seq<Node>, offers: seq<Cost>, recomputed: seq<Cost>, i: nat)
    requires i < |ns| == |offers| == |recomputed|
    requires forall j :: 0 <= j < i ==> ns[j].Pos() != ns[i].Pos()
    requires RevisedUpTo(r0, r, ns, offers, recomputed, i)
    ensures var p := ns[i].Pos();
      RevisedUpTo(r0, if NearlyEqual(Lookup(r, p), offers[i]) then r[p := recomputed[i]] else r, ns, offers, recomputed, i + 1)
  {
    var p := ns[i].Pos();
    assert Lookup(r, p) == Lookup(r0, p);
  }

  /** Rekeying a queued position keeps every position on or off the open list, so nothing unsettles. */
  lemma RekeyKeepsSettled(g: map<Pos, Cost>, rhs: map<Pos, Cost>, open0: map<Pos, HeapNode>,
                          open1: map<Pos, HeapNode>, q: Pos, x: HeapNode, except: set<Pos>)
    requires q in open0 && open1 == open0[q := x]
    requires AllSettledExcept(g, rhs, open0, except)
    ensures open1.Keys == open0.Keys
    ensures AllSettledExcept(g, rhs, open1, except)
    ensures Lookup(g, q) != Lookup(rhs, q) ==> AllSettledExcept(g, rhs, open1, except - {q})
  {
    assert open1.Keys == open0.Keys;
  }

  /** Every position lies on a rows x cols grid. */
  ghost predicate WithinBounds(ps: set<Pos>, rows: int, cols: int) {
    forall p :: p in ps ==> 0 <= p.0 < rows && 0 <= p.1 < cols
  }

  /** The branch one pass of the main loop takes on the top node. */
  datatype Expansion = Rekeyed | Lowered | Raised | Untouched

  class DStarLite {
    const graph: Grid
    const heap: MinHeapMap
    var start: Node
    var goal: Node
    var last: Node
    var km: real
    var gCosts: map<Pos, Cost>
    var rhsCosts: map<Pos, Cost>
    /** Whether `findPath` has seeded a search; replanning depends on it. */
    ghost var ready: bool

    /** g(n), INF_COST when absent. */
    function G(n: Node): Cost
      reads this`gCosts
    {
      Lookup(gCosts, n.Pos())
    }

    /** rhs(n), INF_COST when absent. */
    function Rhs(n: Node): Cost
      reads this`rhsCosts
    {
      Lookup(rhsCosts, n.Pos())
    }

    /** The shape every operation relies on, apart from open-list membership. */
    ghost predicate Struct()
      reads this, heap, graph
    {
      graph.Valid() && heap.Valid() && km >= 0.0 &&
      WithinBounds(heap.Contents().Keys, graph.rows, graph.cols) &&
      WithinBounds(gCosts.Keys, graph.rows, graph.cols) &&
      (last == DefaultNode || graph.InBounds(last)) &&
      (ready ==> graph.InBounds(start) && graph.InBounds(goal) && goal.walkable)
    }

    /** The open-list invariant at p, on the current tables and open list. */
    ghost predicate Settled(p: Pos)
      reads this, heap
      requires heap.Valid()
    {
      SettledIn(gCosts, rhsCosts, heap.Contents(), p)
    }

    ghost predicate SettledExcept(except: set<Pos>)
      reads this, heap
      requires heap.Valid()
    {
      AllSettledExcept(gCosts, rhsCosts, heap.Contents(), except)
    }

    ghost predicate Valid()
      reads this, heap, graph
    {
      Struct() && SettledExcept({})
    }

    /** With an empty open list every node is consistent. */
    lemma EmptyOpenListIsConsistent(n: Node)
      requires Valid() && heap.Contents() == map[]
      ensures G(n) == Rhs(n)
    {
      assert Settled(n.Pos());
    }

    constructor(graph: Grid)
      requires graph.Valid()
      ensures this.graph == graph && fresh(heap)
      ensures Valid() && !ready && heap.Contents() == map[]
      ensures gCosts == map[] && rhsCosts == map[] && km == 0.0
      ensures start == DefaultNode && goal == DefaultNode && last == DefaultNode
    {
      this.graph := graph;
      heap := new MinHeapMap();
      start := DefaultNode;
      goal := DefaultNode;
      last := DefaultNode;
      km := 0.0;
      gCosts := map[];
      rhsCosts := map[];
      ready := false;
    }

    /** `calculateKey(node)`, with h the Euclidean distance from start. */
    function CalculateKey(node: Node): (k: Key)
      reads this, graph
      requires graph.Valid() && km >= 0.0 && graph.InBounds(start) && graph.InBounds(node)
    {
      KeyFor(G(node), Rhs(node), graph.Distance(start, node), km)
    }

    /**
     * The `std::min` fold of `computeRhs` over ns, starting from acc:
     * every walkable m with finite g offers g(m) + c(n, m).
     */
    function BestVia(n: Node, ns: seq<Node>, acc: Cost): Cost
      reads this`gCosts, graph
      requires graph.Valid() && graph.InBounds(n)
      requires forall m :: m in ns ==> graph.InBounds(m)
    {
      if ns == [] then acc
      else
        var m := ns[0];
        var next := if m.walkable && Below(G(m), INF_COST) then Min(acc, Add(G(m), graph.EdgeCost(n, m))) else acc;
        BestVia(n, ns[1..], next)
    }

    /** The fold is the least of acc and of every offer, and it is one of them. */
    lemma {:induction false} BestViaIsLeast(n: Node, ns: seq<Node>, acc: Cost)
      requires graph.Valid() && graph.InBounds(n)
      requires forall m :: m in ns ==> graph.InBounds(m)
      ensures !Below(acc, BestVia(n, ns, acc))
      ensures forall m :: m in ns && m.walkable && G(m).Fin? ==> !Below(Add(G(m), graph.EdgeCost(n, m)), BestVia(n, ns, acc))
      ensures var r := BestVia(n, ns, acc);
        r == acc || exists m :: m in ns && m.walkable && G(m).Fin? && r == Add(G(m), graph.EdgeCost(n, m))
    {
      if ns != [] {
        var m := ns[0];
        var next := if m.walkable && Below(G(m), INF_COST) then Min(acc, Add(G(m), graph.EdgeCost(n, m))) else acc;
        assert forall x :: x in ns[1..] ==> x in ns;
        BestViaIsLeast(n, ns[1..], next);
      }
    }

    /** `computeRhs(node)`: 0 at the goal, elsewhere the fold over the neighbours from INF_COST. */
    function ComputeRhs(node: Node): (r: Cost)
      reads this`gCosts, this`goal, graph
      requires graph.Valid() && graph.InBounds(node)
      ensures Same(node, goal) ==> r == Fin(0.0)
    {
      if Same(node, goal) then Fin(0.0)
      else BestVia(node, graph.Neighbors(node), INF_COST)
    }

    /**
     * Away from the goal, rhs is the least g(m) + c(node, m) over walkable
     * neighbours m with finite g, and INF_COST when there are none.
     */
    lemma ComputeRhsIsLeast(node: Node)
      requires graph.Valid() && graph.InBounds(node) && !Same(node, goal)
      ensures forall m :: m in graph.Neighbors(node) && G(m).Fin? ==> !Below(Add(G(m), graph.EdgeCost(node, m)), ComputeRhs(node))
      ensures ComputeRhs(node) == INF_COST ||
        exists m :: m in graph.Neighbors(node) && G(m).Fin? && ComputeRhs(node) == Add(G(m), graph.EdgeCost(node, m))
    {
      BestViaIsLeast(node, graph.Neighbors(node), INF_COST);
    }

    /** Without a neighbour of finite g, rhs is INF_COST away from the goal. */
    lemma ComputeRhsWithoutSupport(node: Node)
      requires graph.Valid() && graph.InBounds(node) && !Same(node, goal)
      requires forall m :: m in graph.Neighbors(node) ==> G(m).Inf?
      ensures ComputeRhs(node) == INF_COST
    {
      ComputeRhsIsLeast(node);
    }

    /** Gives a queued node a new key; every position keeps its place on or off the open list. */
    method Requeue(node: Node, newKey: Key, ghost except: set<Pos>)
      requires Struct() && SettledExcept(except) && node.Pos() in heap.Contents()
      modifies heap
      ensures Struct() && SettledExcept(except)
      ensures G(node) != Rhs(node) ==> SettledExcept(except - {node.Pos()})
      ensures heap.Contents() == old(heap.Contents())[node.Pos() := HeapNode(old(heap.Contents())[node.Pos()].node, newKey)]
    {
      ghost var before := heap.Contents();
      var o := heap.Update(node, newKey);
      assert o == Pass;
      RekeyKeepsSettled(gCosts, rhsCosts, before, heap.Contents(), node.Pos(), HeapNode(before[node.Pos()].node, newKey), except);
    }

    /** Gives the node queued at its own position a new key, on a valid state. */
    method RequeueTop(node: Node, newKey: Key)
      requires Valid() && node.Pos() in heap.Contents() && heap.Contents()[node.Pos()].node == node
      modifies heap
      ensures Valid() && gCosts == old(gCosts) && rhsCosts == old(rhsCosts)
      ensures heap.Contents() == old(heap.Contents())[node.Pos() := HeapNode(node, newKey)]
    {
      Requeue(node, newKey, {});
    }

    /** Queues an unqueued, inconsistent node with `key`. */
    method Enqueue(node: Node, key: Key, ghost except: set<Pos>)
      requires Struct() && SettledExcept(except) && ready && graph.InBounds(node)
      requires node.Pos() !in heap.Contents() && G(node) != Rhs(node)
      modifies heap
      ensures Struct() && SettledExcept(except - {node.Pos()})
      ensures heap.Contents() == old(heap.Contents())[node.Pos() := HeapNode(node, key)]
    {
      ghost var before := heap.Contents();
      var o := heap.Insert(node, key);
      assert o == Pass;
      assert heap.Contents().Keys == before.Keys + {node.Pos()};
      Reframe(gCosts, rhsCosts, before, gCosts, rhsCosts, heap.Contents(), node.Pos(), except);
    }

    /** Drops a queued node from the open list; a consistent finite node is then settled. */
    method Dequeue(node: Node, ghost except: set<Pos>)
      requires Struct() && SettledExcept(except) && node.Pos() in heap.Contents()
      modifies heap
      ensures Struct() && heap.Contents() == old(heap.Contents()) - {node.Pos()}
      ensures G(node) == Rhs(node) && G(node).Fin? ==> SettledExcept(except - {node.Pos()})
    {
      ghost var before := heap.Contents();
      var o := heap.Remove(node);
      assert o == Pass;
      assert heap.Contents().Keys == before.Keys - {node.Pos()};
      Reframe(gCosts, rhsCosts, before, gCosts, rhsCosts, heap.Contents(), node.Pos(), except);
    }

    /**
     * `updateNode(node)`: queue it with a fresh key while g != rhs, drop it
     * once g = rhs is finite; g = rhs = INF_COST leaves the open list alone.
     */
    method UpdateNode(node: Node, ghost except: set<Pos>)
      requires Struct() && SettledExcept(except) && ready
      requires G(node) != Rhs(node) ==> graph.InBounds(node)
      modifies heap
      ensures Struct() && SettledExcept(except - {node.Pos()})
      ensures G(node) != Rhs(node) ==>
        (heap.Contents() == old(heap.Contents())[node.Pos() :=
          HeapNode(if node.Pos() in old(heap.Contents()) then old(heap.Contents())[node.Pos()].node else node, CalculateKey(node))])
      ensures G(node) == Rhs(node) && G(node).Fin? ==> heap.Contents() == old(heap.Contents()) - {node.Pos()}
      ensures G(node) == Rhs(node) && G(node).Inf? ==> heap.Contents() == old(heap.Contents())
    {
      var g := G(node);
      var rhs := Rhs(node);
      var contains := heap.Contains(node);
      if g != rhs {
        QueueInconsistent(node, contains, except);
      } else {
        DropConsistent(node, contains, except);
      }
    }

    /** The first two branches of `updateNode`: g != rhs, so the node is (re)queued with a fresh key. */
    method QueueInconsistent(node: Node, contains: bool, ghost except: set<Pos>)
      requires Struct() && SettledExcept(except) && ready && graph.InBounds(node)
      requires G(node) != Rhs(node) && contains == (node.Pos() in heap.Contents())
      modifies heap
      ensures Struct() && SettledExcept(except - {node.Pos()})
      ensures heap.Contents() == old(heap.Contents())[node.Pos() :=
        HeapNode(if contains then old(heap.Contents())[node.Pos()].node else node, CalculateKey(node))]
    {
      if contains {
        Requeue(node, CalculateKey(node), except);
      } else {
        Enqueue(node, CalculateKey(node), except);
      }
    }

    /** The third branch of `updateNode` and its fall-through: g = rhs, so a finite node leaves the open list. */
    method DropConsistent(node: Node, contains: bool, ghost except: set<Pos>)
      requires Struct() && SettledExcept(except)
      requires G(node) == Rhs(node) && contains == (node.Pos() in heap.Contents())
      modifies heap
      ensures Struct() && SettledExcept(except - {node.Pos()})
      ensures heap.Contents() == if G(node).Fin? then old(heap.Contents()) - {node.Pos()} else old(heap.Contents())
    {
      if contains && NearlyEqual(G(node), Rhs(node)) {
        Dequeue(node, except);
      } else {
        SettleOne(gCosts, rhsCosts, heap.Contents(), except, node.Pos());
      }
    }

    /** The positions of a list of nodes. */
    ghost function Positions(ns: seq<Node>): set<Pos> {
      set m | m in ns :: m.Pos()
    }

    /**
     * The seeding of `findPath`: empty the open list and both tables, take
     * the new start and goal, zero km, and queue the goal with rhs 0.
     * `this->last = last` assigns last to itself, so last keeps its value.
     */
    method Seed(start: Node, goal: Node)
      requires Struct() && graph.InBounds(start) && graph.InBounds(goal) && goal.walkable
      modifies this`gCosts, this`rhsCosts, this`start, this`goal, this`km, this`ready, heap
      ensures Valid() && ready
      ensures this.start == start && this.goal == goal && last == old(last) && km == 0.0
      ensures gCosts == map[goal.Pos() := INF_COST] && rhsCosts == map[goal.Pos() := Fin(0.0)]
      ensures heap.Contents() == map[goal.Pos() := HeapNode(goal, Key(Fin(graph.Distance(start, goal)), Fin(0.0)))]
    {
      heap.Reset();
      ResetTables(start, goal);
      var key := CalculateKey(goal);
      assert key == Key(Fin(graph.Distance(start, goal)), Fin(0.0));
      var _ := heap.Insert(goal, key);
      SeededIsSettled(gCosts, rhsCosts, heap.Contents(), goal.Pos());
    }

    /** The table part of the seeding: g(goal) = INF_COST, rhs(goal) = 0, nothing else. */
    method ResetTables(start: Node, goal: Node)
      modifies this`gCosts, this`rhsCosts, this`start, this`goal, this`km, this`ready
      ensures this.start == start && this.goal == goal && km == 0.0 && ready
      ensures gCosts == map[goal.Pos() := INF_COST] && rhsCosts == map[goal.Pos() := Fin(0.0)]
    {
      gCosts := map[];
      rhsCosts := map[];
      this.start := start;
      this.goal := goal;
      km := 0.0;
      gCosts := gCosts[goal.Pos() := INF_COST];
      rhsCosts := rhsCosts[goal.Pos() := Fin(0.0)];
      ready := true;
    }

    /** Store a new rhs for one node; only that node can become unsettled. */
    method SetRhs(node: Node, rhs: Cost, ghost except: set<Pos>)
      requires Struct() && SettledExcept(except)
      modifies this`rhsCosts
      ensures rhsCosts == old(rhsCosts)[node.Pos() := rhs]
      ensures Struct() && SettledExcept(except + {node.Pos()})
    {
      ghost var r0 := rhsCosts;
      rhsCosts := rhsCosts[node.Pos() := rhs];
      Reframe(gCosts, r0, heap.Contents(), gCosts, rhsCosts, heap.Contents(), node.Pos(), except);
    }

    /**
     * One entry of `notifyEnvironmentChanges`' update list: rhs becomes
     * INF_COST on a cell that is now blocked or outside the grid, and is
     * recomputed otherwise; then the node's open-list entry is repaired.
     */
    method MarkChanged(node: Node)
      requires Valid() && ready
      modifies this`rhsCosts, heap
      ensures Valid()
      ensures rhsCosts == old(rhsCosts)[node.Pos() := old(ChangedRhs(node))]
    {
      var rhs := if graph.IsWalkable(node) then ComputeRhs(node) else INF_COST;
      assert G(node) != rhs ==> graph.InBounds(node);
      SetRhs(node, rhs, {});
      UpdateNode(node, {} + {node.Pos()});
    }

    /**
     * One neighbour of a node whose g was just lowered to its rhs: take
     * the offer g(node) + c(node, neighbor) as its rhs when that is smaller,
     * then repair its open-list entry.
     */
    method Relax(node: Node, neighbor: Node, ghost offer: Cost)
      requires Valid() && ready && graph.InBounds(neighbor) && graph.InBounds(node)
      requires offer == Add(G(node), graph.EdgeCost(node, neighbor))
      modifies this`rhsCosts, heap
      ensures Valid()
      ensures rhsCosts == if Below(offer, old(Rhs(neighbor))) then old(rhsCosts)[neighbor.Pos() := offer] else old(rhsCosts)
    {
      var neighborRhs := Rhs(neighbor);
      var newRhs := Add(G(node), graph.EdgeCost(node, neighbor));
      if Below(newRhs, neighborRhs) {
        SetRhs(neighbor, newRhs, {});
        UpdateNode(neighbor, {} + {neighbor.Pos()});
        assert {} + {neighbor.Pos()} - {neighbor.Pos()} == {};
      } else {
        UpdateNode(neighbor, {});
      }
    }

    /** Store a new g for one node; only that node can become unsettled. */
    method SetG(node: Node, g: Cost, ghost except: set<Pos>)
      requires Struct() && SettledExcept(except) && graph.InBounds(node)
      modifies this`gCosts
      ensures gCosts == old(gCosts)[node.Pos() := g]
      ensures Struct() && SettledExcept(except + {node.Pos()})
    {
      ghost var g0 := gCosts;
      gCosts := gCosts[node.Pos() := g];
      Reframe(g0, rhsCosts, heap.Contents(), gCosts, rhsCosts, heap.Contents(), node.Pos(), except);
    }

    /** Pop the top of the open list, which is `node`. */
    method PopTop(node: Node, ghost except: set<Pos>)
      requires Struct() && SettledExcept(except) && heap.Top() == Ok(node)
      modifies heap
      ensures Struct() && SettledExcept(except + {node.Pos()})
      ensures heap.Contents() == old(heap.Contents()) - {node.Pos()}
      ensures G(node) == Rhs(node) && G(node).Fin? ==> SettledExcept(except - {node.Pos()})
    {
      ghost var open0 := heap.Contents();
      var r := heap.Pop();
      assert r == Ok(node);
      Reframe(gCosts, rhsCosts, open0, gCosts, rhsCosts, heap.Contents(), node.Pos(), except);
    }

    /** What each neighbour in `ns` would be offered through `node` at cost `base`: base + c(node, m). */
    ghost function Offers(base: Cost, node: Node, ns: seq<Node>): (r: seq<Cost>)
      reads graph
      requires graph.Valid() && graph.InBounds(node)
      requires forall m :: m in ns ==> graph.InBounds(m)
      ensures |r| == |ns|
      ensures forall j :: 0 <= j < |ns| ==> r[j] == Add(base, graph.EdgeCost(node, ns[j]))
    {
      if ns == [] then [] else Offers(base, node, ns[..|ns| - 1]) + [Add(base, graph.EdgeCost(node, ns[|ns| - 1]))]
    }

    /** `r` is `r0` with every neighbour of `node` relaxed through it. */
    ghost predicate RelaxedThrough(r0: map<Pos, Cost>, r: map<Pos, Cost>, node: Node)
      reads this`gCosts, graph
      requires graph.Valid() && graph.InBounds(node)
    {
      var ns := graph.Neighbors(node);
      RelaxedUpTo(r0, r, ns, Offers(G(node), node, ns), |ns|)
    }

    /**
     * After relaxing through `node`, each neighbour m holds
     * min(rhs(m), g(node) + c(node, m)), every other position is as before,
     * and no rhs went up.
     */
    lemma RelaxedThroughMeans(r0: map<Pos, Cost>, r: map<Pos, Cost>, node: Node)
      requires graph.Valid() && graph.InBounds(node) && RelaxedThrough(r0, r, node)
      ensures forall p :: !Below(Lookup(r0, p), Lookup(r, p))
      ensures forall m :: m in graph.Neighbors(node) ==>
        Lookup(r, m.Pos()) == Min(Lookup(r0, m.Pos()), Add(G(node), graph.EdgeCost(node, m)))
      ensures forall p :: p !in Positions(graph.Neighbors(node)) ==> Lookup(r, p) == Lookup(r0, p)
    {
      var ns := graph.Neighbors(node);
      var offers := Offers(G(node), node, ns);
      forall m | m in ns
        ensures Lookup(r, m.Pos()) == Min(Lookup(r0, m.Pos()), Add(G(node), graph.EdgeCost(node, m)))
      {
        var j :| 0 <= j < |ns| && ns[j] == m;
      }
      forall p | p !in Positions(ns)
        ensures Lookup(r, p) == Lookup(r0, p)
      {
        forall j | 0 <= j < |ns|
          ensures ns[j].Pos() != p
        {
          assert ns[j] in ns;
        }
      }
    }

    /**
     * The relaxation loop of the over-consistent branch: every walkable
     * neighbour of `node` gets min(rhs, g(node) + cost) as its rhs. No rhs
     * goes up and nodes off the neighbour list keep theirs.
     */
    method RelaxNeighbors(node: Node)
      requires Valid() && ready && graph.InBounds(node)
      modifies this`rhsCosts, heap
      ensures Valid()
      ensures RelaxedThrough(old(rhsCosts), rhsCosts, node)
    {
      ghost var r0 := rhsCosts;
      var neighbors := graph.Neighbors(node);
      ghost var offers := Offers(G(node), node, neighbors);
      graph.NeighborsSpec(node);
      for i := 0 to |neighbors|
        invariant Valid()
        invariant RelaxedUpTo(r0, rhsCosts, neighbors, offers, i)
      {
        var neighbor := neighbors[i];
        if !neighbor.walkable {
          continue;
        }
        assert neighbor in neighbors;
        forall j | 0 <= j < i
          ensures neighbors[j].Pos() != neighbor.Pos()
        {
          assert !Same(neighbors[j], neighbors[i]);
        }
        assert graph.EdgeCost(node, neighbor) == old(graph.EdgeCost(node, neighbor));
        RelaxStep(r0, rhsCosts, neighbors, offers, i);
        Relax(node, neighbor, offers[i]);
      }
    }

    /** g(node) := rhs(node) and pop node, which leaves it consistent and off the open list. */
    method SettleHead(node: Node)
      requires Valid() && ready && heap.Top() == Ok(node) && Below(Rhs(node), G(node))
      modifies this`gCosts, heap
      ensures Valid() && graph.InBounds(node)
      ensures gCosts == old(gCosts)[node.Pos() := old(Rhs(node))]
      ensures heap.Contents() == old(heap.Contents()) - {node.Pos()}
    {
      assert node.Pos() in heap.Contents();
      SetG(node, Rhs(node), {});
      PopTop(node, {node.Pos()});
    }

    /** The rhs each node in `ns` would be given by `computeRhs` now. */
    ghost function Recomputed(ns: seq<Node>): (r: seq<Cost>)
      reads this`gCosts, this`goal, graph
      requires graph.Valid()
      requires forall m :: m in ns ==> graph.InBounds(m)
      ensures |r| == |ns|
    {
      if ns == [] then [] else Recomputed(ns[..|ns| - 1]) + [ComputeRhs(ns[|ns| - 1])]
    }

    lemma {:induction false} RecomputedAt(ns: seq<Node>, j: nat)
      requires graph.Valid() && forall m :: m in ns ==> graph.InBounds(m)
      requires j < |ns|
      ensures Recomputed(ns)[j] == ComputeRhs(ns[j])
    {
      if j < |ns| - 1 {
        var front := ns[..|ns| - 1];
        assert forall m :: m in front ==> m in ns;
        RecomputedAt(front, j);
      }
    }

    /**
     * `r` is `r0` with every neighbour of `node` rechecked against the offer
     * oldG + c(node, m) and, where it matched, given its recomputed rhs.
     */
    ghost predicate RevisedThrough(oldG: Cost, r0: map<Pos, Cost>, r: map<Pos, Cost>, node: Node)
      reads this`gCosts, this`goal, graph
      requires graph.Valid() && graph.InBounds(node)
    {
      var ns := graph.Neighbors(node);
      RevisedUpTo(r0, r, ns, Offers(oldG, node, ns), Recomputed(ns), |ns|)
    }

    /**
     * After the recheck loop over the neighbours of `node`: a neighbour whose
     * rhs equalled oldG + c(node, m) holds its recomputed rhs, the others and
     * every position off the list keep theirs.
     */
    lemma RevisedMeans(oldG: Cost, r0: map<Pos, Cost>, r: map<Pos, Cost>, node: Node)
      requires graph.Valid() && graph.InBounds(node)
      requires RevisedThrough(oldG, r0, r, node)
      ensures forall m :: m in graph.Neighbors(node) ==>
        Lookup(r, m.Pos()) == if NearlyEqual(Lookup(r0, m.Pos()), Add(oldG, graph.EdgeCost(node, m)))
          then ComputeRhs(m) else Lookup(r0, m.Pos())
      ensures forall p :: p !in Positions(graph.Neighbors(node)) ==> Lookup(r, p) == Lookup(r0, p)
    {
      var ns := graph.Neighbors(node);
      forall m | m in ns
        ensures Lookup(r, m.Pos()) == if NearlyEqual(Lookup(r0, m.Pos()), Add(oldG, graph.EdgeCost(node, m)))
          then ComputeRhs(m) else Lookup(r0, m.Pos())
      {
        var j :| 0 <= j < |ns| && ns[j] == m;
        RecomputedAt(ns, j);
      }
      forall p | p !in Positions(ns)
        ensures Lookup(r, p) == Lookup(r0, p)
      {
        forall j | 0 <= j < |ns|
          ensures ns[j].Pos() != p
        {
          assert ns[j] in ns;
        }
      }
    }

    /**
     * One neighbour of a node whose g was raised from `oldG`: if its rhs
     * equals the offer oldG + c(node, neighbor) it relied on node, so its rhs becomes
     * `renewed`, the value `computeRhs` gives it now; then its open-list entry
     * is repaired. Only `node` may stay unsettled.
     */
    method Recheck(node: Node, oldG: Cost, neighbor: Node, ghost offer: Cost, ghost renewed: Cost)
      requires Struct() && ready && SettledExcept({node.Pos()})
      requires graph.InBounds(node) && graph.InBounds(neighbor) && !Same(node, neighbor)
      requires offer == Add(oldG, graph.EdgeCost(node, neighbor)) && renewed == ComputeRhs(neighbor)
      modifies this`rhsCosts, heap
      ensures Struct() && SettledExcept({node.Pos()})
      ensures rhsCosts == if NearlyEqual(old(Rhs(neighbor)), offer) then old(rhsCosts)[neighbor.Pos() := renewed] else old(rhsCosts)
    {
      var neighborRhs := Rhs(neighbor);
      if NearlyEqual(neighborRhs, Add(oldG, graph.EdgeCost(node, neighbor))) {
        SetRhs(neighbor, ComputeRhs(neighbor), {node.Pos()});
      }
      UpdateNode(neighbor, {node.Pos()} + {neighbor.Pos()});
    }

    /** One pass of the recheck loop: entry `i` of the neighbour list. */
    method ReviseAt(node: Node, oldG: Cost, ns: seq<Node>, i: nat, ghost r0: map<Pos, Cost>, ghost offers: seq<Cost>, ghost recomputed: seq<Cost>)
      requires Struct() && ready && SettledExcept({node.Pos()}) && graph.InBounds(node)
      requires i < |ns| == |offers| == |recomputed|
      requires graph.InBounds(ns[i]) && !Same(node, ns[i])
      requires forall j :: 0 <= j < i ==> ns[j].Pos() != ns[i].Pos()
      requires forall m :: m in ns ==> graph.InBounds(m)
      requires offers[i] == Add(oldG, graph.EdgeCost(node, ns[i]))
      requires forall j :: 0 <= j < |ns| ==> recomputed[j] == ComputeRhs(ns[j])
      requires RevisedUpTo(r0, rhsCosts, ns, offers, recomputed, i)
      modifies this`rhsCosts, heap
      ensures Struct() && SettledExcept({node.Pos()})
      ensures forall j :: 0 <= j < |ns| ==> recomputed[j] == ComputeRhs(ns[j])
      ensures RevisedUpTo(r0, rhsCosts, ns, offers, recomputed, i + 1)
    {
      ReviseStep(r0, rhsCosts, ns, offers, recomputed, i);
      Recheck(node, oldG, ns[i], offers[i], recomputed[i]);
      forall j | 0 <= j < |ns|
        ensures recomputed[j] == ComputeRhs(ns[j])
      {
        assert ns[j] in ns;
        assert ComputeRhs(ns[j]) == old(ComputeRhs(ns[j]));
      }
    }

    /**
     * The recheck loop of the under-consistent branch, over every neighbour
     * of `node`, followed by the repair of node's own open-list entry. The
     * neighbour list, the offers oldG + c(node, m) and the recomputed rhs
     * values are those of the entry state, where g(node) is already raised.
     */
    method ReviseNeighbors(node: Node, oldG: Cost) returns (ghost ns: seq<Node>, ghost offers: seq<Cost>, ghost recomputed: seq<Cost>)
      requires Struct() && ready && SettledExcept({node.Pos()}) && graph.InBounds(node)
      modifies this`rhsCosts, heap
      ensures Valid()
      ensures ns == graph.Neighbors(node) && |offers| == |recomputed| == |ns|
      ensures forall j :: 0 <= j < |ns| ==> offers[j] == Add(oldG, graph.EdgeCost(node, ns[j]))
      ensures forall j :: 0 <= j < |ns| ==> recomputed[j] == ComputeRhs(ns[j])
      ensures RevisedUpTo(old(rhsCosts), rhsCosts, ns, offers, recomputed, |ns|)
    {
      ghost var r0 := rhsCosts;
      var neighbors := graph.Neighbors(node);
      ns := neighbors;
      offers := Offers(oldG, node, neighbors);
      recomputed := Recomputed(neighbors);
      graph.NeighborsSpec(node);
      forall j | 0 <= j < |neighbors|
        ensures recomputed[j] == ComputeRhs(neighbors[j])
      {
        RecomputedAt(neighbors, j);
      }
      for i := 0 to |neighbors|
        invariant Struct() && SettledExcept({node.Pos()})
        invariant forall j :: 0 <= j < |neighbors| ==> recomputed[j] == ComputeRhs(neighbors[j])
        invariant RevisedUpTo(r0, rhsCosts, neighbors, offers, recomputed, i)
      {
        assert neighbors[i] in neighbors;
        forall j | 0 <= j < i
          ensures neighbors[j].Pos() != neighbors[i].Pos()
        {
          assert !Same(neighbors[j], neighbors[i]);
        }
        assert graph.EdgeCost(node, neighbors[i]) == old(graph.EdgeCost(node, neighbors[i]));
        ReviseAt(node, oldG, neighbors, i, r0, offers, recomputed);
      }
      RequeueRaised(node, neighbors, recomputed);
    }

    /**
     * The closing `updateNode(node)` of the recheck: the tables, and with
     * them what `computeRhs` gives each listed node, stay as they are.
     */
    method RequeueRaised(node: Node, ghost ns: seq<Node>, ghost recomputed: seq<Cost>)
      requires Struct() && ready && SettledExcept({node.Pos()}) && graph.InBounds(node)
      requires |recomputed| == |ns| && forall m :: m in ns ==> graph.InBounds(m)
      requires forall j :: 0 <= j < |ns| ==> recomputed[j] == ComputeRhs(ns[j])
      modifies heap
      ensures Valid()
      ensures forall j :: 0 <= j < |ns| ==> recomputed[j] == ComputeRhs(ns[j])
    {
      UpdateNode(node, {node.Pos()});
      forall j | 0 <= j < |ns|
        ensures recomputed[j] == ComputeRhs(ns[j])
      {
        assert ns[j] in ns;
        assert ComputeRhs(ns[j]) == old(ComputeRhs(ns[j]));
      }
    }

    /** g(node) := INF_COST and pop node, which leaves only node unsettled. */
    method Raise(node: Node)
      requires Valid() && ready && heap.Top() == Ok(node)
      modifies this`gCosts, heap
      ensures Struct() && SettledExcept({node.Pos()}) && graph.InBounds(node)
      ensures gCosts == old(gCosts)[node.Pos() := INF_COST]
      ensures heap.Contents() == old(heap.Contents()) - {node.Pos()}
    {
      assert node.Pos() in heap.Contents();
      SetG(node, INF_COST, {});
      PopTop(node, {node.Pos()});
    }

    /**
     * The over-consistent branch of the main loop: g(node) := rhs(node),
     * pop node, and relax every walkable neighbour.
     */
    method Settle(node: Node)
      requires Valid() && ready && heap.Top() == Ok(node) && Below(Rhs(node), G(node))
      modifies this`gCosts, this`rhsCosts, heap
      ensures Valid()
      ensures gCosts == old(gCosts)[node.Pos() := old(Rhs(node))]
      ensures RelaxedThrough(old(rhsCosts), rhsCosts, node)
    {
      SettleHead(node);
      RelaxNeighbors(node);
    }

    /**
     * What raising `node` from g-table `g0` and rhs-table `r0` leaves: g(node)
     * is INF_COST, `offers` are the old costs through node to its neighbours
     * `ns`, `recomputed` their rhs values computed afresh, and every neighbour
     * whose rhs equalled its offer took the recomputed value.
     */
    ghost predicate RaisedFrom(node: Node, g0: map<Pos, Cost>, r0: map<Pos, Cost>, ns: seq<Node>, offers: seq<Cost>, recomputed: seq<Cost>)
      reads this`gCosts, this`rhsCosts, this`goal, graph
      requires graph.Valid() && graph.InBounds(node)
    {
      && gCosts == g0[node.Pos() := INF_COST]
      && ns == graph.Neighbors(node) && |offers| == |recomputed| == |ns|
      && (forall j :: 0 <= j < |ns| ==> offers[j] == Add(Lookup(g0, node.Pos()), graph.EdgeCost(node, ns[j])))
      && (forall j :: 0 <= j < |ns| ==> recomputed[j] == ComputeRhs(ns[j]))
      && RevisedUpTo(r0, rhsCosts, ns, offers, recomputed, |ns|)
    }

    /**
     * One pass of the main loop on the top node: requeue it when its key
     * is stale, settle it when over-consistent (g > rhs), raise it when
     * under-consistent (g < rhs), and leave everything alone otherwise.
     * `step` names the branch taken; for a raise, `ns`, `offers` and
     * `recomputed` are the neighbour list, the offers through the old g and
     * the rhs values the recheck worked with.
     */
    method Expand(node: Node, oldKey: Key)
      returns (ghost step: Expansion, ghost newKey: Key, ghost g: Cost, ghost rhs: Cost,
               ghost ns: seq<Node>, ghost offers: seq<Cost>, ghost recomputed: seq<Cost>)
      requires Valid() && ready && heap.Top() == Ok(node) && heap.TopKey() == Ok(oldKey)
      modifies this`gCosts, this`rhsCosts, heap
      ensures Valid()
      ensures newKey == old(CalculateKey(node)) && g == old(G(node)) && rhs == old(Rhs(node))
      ensures step == Rekeyed <==> Less(oldKey, newKey)
      ensures step == Lowered <==> !Less(oldKey, newKey) && Above(g, rhs)
      ensures step == Raised <==> !Less(oldKey, newKey) && Below(g, rhs)
      ensures step == Rekeyed ==>
        gCosts == old(gCosts) && rhsCosts == old(rhsCosts) &&
        heap.Contents() == old(heap.Contents())[node.Pos() := HeapNode(node, newKey)]
      ensures step == Lowered ==>
        gCosts == old(gCosts)[node.Pos() := rhs] && RelaxedThrough(old(rhsCosts), rhsCosts, node)
      ensures step == Raised ==> RaisedFrom(node, old(gCosts), old(rhsCosts), ns, offers, recomputed)
      ensures step == Untouched ==>
        gCosts == old(gCosts) && rhsCosts == old(rhsCosts) && heap.Contents() == old(heap.Contents())
    {
      assert node.Pos() in heap.Contents();
      var key := CalculateKey(node);
      newKey, g, rhs := key, G(node), Rhs(node);
      if Less(oldKey, key) {
        RequeueTop(node, key);
        step, ns, offers, recomputed := Rekeyed, [], [], [];
      } else {
        step, ns, offers, recomputed := ExpandCurrent(node);
      }
    }

    /** `Expand` once the top key is known to be current: settle, raise or leave the node. */
    method ExpandCurrent(node: Node) returns (ghost step: Expansion, ghost ns: seq<Node>, ghost offers: seq<Cost>, ghost recomputed: seq<Cost>)
      requires Valid() && ready && heap.Top() == Ok(node)
      modifies this`gCosts, this`rhsCosts, heap
      ensures Valid() && step != Rekeyed
      ensures step == Lowered <==> Above(old(G(node)), old(Rhs(node)))
      ensures step == Raised <==> Below(old(G(node)), old(Rhs(node)))
      ensures step == Lowered ==>
        gCosts == old(gCosts)[node.Pos() := old(Rhs(node))] && RelaxedThrough(old(rhsCosts), rhsCosts, node)
      ensures step == Raised ==> RaisedFrom(node, old(gCosts), old(rhsCosts), ns, offers, recomputed)
      ensures step == Untouched ==>
        gCosts == old(gCosts) && rhsCosts == old(rhsCosts) && heap.Contents() == old(heap.Contents())
    {
      ns, offers, recomputed := [], [], [];
      if Above(G(node), Rhs(node)) {
        Settle(node);
        step := Lowered;
      } else if Below(G(node), Rhs(node)) {
        ns, offers, recomputed := RaiseAndRevise(node);
        step := Raised;
      } else {
        step := Untouched;
      }
    }

    /**
     * The under-consistent branch: g becomes INF_COST, the node leaves the
     * open list, the neighbours that leaned on its old g are rechecked, and
     * the node itself is requeued.
     */
    method RaiseAndRevise(node: Node) returns (ghost ns: seq<Node>, ghost offers: seq<Cost>, ghost recomputed: seq<Cost>)
      requires Valid() && ready && heap.Top() == Ok(node)
      modifies this`gCosts, this`rhsCosts, heap
      ensures Valid()
      ensures gCosts == old(gCosts)[node.Pos() := INF_COST]
      ensures ns == graph.Neighbors(node) && |offers| == |recomputed| == |ns|
      ensures forall j :: 0 <= j < |ns| ==> offers[j] == Add(old(G(node)), graph.EdgeCost(node, ns[j]))
      ensures forall j :: 0 <= j < |ns| ==> recomputed[j] == ComputeRhs(ns[j])
      ensures RevisedUpTo(old(rhsCosts), rhsCosts, ns, offers, recomputed, |ns|)
    {
      var oldG := G(node);
      Raise(node);
      ns, offers, recomputed := ReviseNeighbors(node, oldG);
    }

    /**
     * `computeShortestPath`: expand the top of the open list while its key
     * is below start's key (taken once, on entry) or start is inconsistent.
     * `fuel` bounds the number of passes; a return below the bound means
     * the loop stopped by its own test: start is consistent and no queued
     * key is below start's entry key.
     */
    method ComputeShortestPath(fuel: nat) returns (steps: nat)
      requires Valid() && ready
      modifies this`gCosts, this`rhsCosts, heap
      ensures Valid() && steps <= fuel
      ensures steps < fuel ==> G(start) == Rhs(start)
      ensures steps < fuel ==> forall p :: p in heap.Contents() ==> !Less(heap.Contents()[p].key, old(CalculateKey(start)))
    {
      var startKey := CalculateKey(start);
      steps := 0;
      while steps < fuel
        invariant Valid() && steps <= fuel
        invariant startKey == old(CalculateKey(start))
      {
        if heap.IsEmpty() {
          EmptyOpenListIsConsistent(start);
          return;
        }
        var startG := G(start);
        var startRhs := Rhs(start);
        var topKey := heap.TopKey().value;
        if !(Less(topKey, startKey) || startG != startRhs) {
          TopKeyBoundsAll(startKey);
          return;
        }
        var node := heap.Top().value;
        ghost var step, newKey, g, rhs, ns, offers, recomputed := Expand(node, topKey);
        steps := steps + 1;
      }
    }

    /** When the least queued key is not below `k`, no queued key is. */
    lemma TopKeyBoundsAll(k: Key)
      requires heap.Valid() && heap.TopKey().Ok? && !Less(heap.TopKey().value, k)
      ensures forall p :: p in heap.Contents() ==> !Less(heap.Contents()[p].key, k)
    {
      var t := heap.TopKey().value;
      forall p | p in heap.Contents()
        ensures !Less(heap.Contents()[p].key, k)
      {
        LessEqIsTotalOrder(t, heap.Contents()[p].key, k);
      }
    }

    /**
     * The candidate scan of `buildPath` over `ns` from `cur` with best total
     * `minCost` so far: a walkable node with finite g whose g plus the edge
     * cost from the current choice is below the best becomes the choice.
     * The edge cost is taken from the latest choice, not from the node the
     * scan started at, as the source reassigns `current` inside the scan.
     */
    function Pick(cur: Node, minCost: Cost, ns: seq<Node>): (r: Node)
      reads this`gCosts, graph
      requires graph.Valid() && graph.InBounds(cur)
      requires forall m :: m in ns ==> graph.InBounds(m)
      ensures graph.InBounds(r)
      ensures r == cur || (r in ns && r.walkable && G(r).Fin?)
      decreases |ns|
    {
      if ns == [] then cur
      else
        var m := ns[0];
        if m.walkable && G(m) != INF_COST && Below(Add(G(m), graph.EdgeCost(cur, m)), minCost) then
          Pick(m, Add(G(m), graph.EdgeCost(cur, m)), ns[1..])
        else
          Pick(cur, minCost, ns[1..])
    }

    /** The node `buildPath` moves to from `cur`: the scan over all of cur's neighbours. */
    function NextOf(cur: Node): (r: Node)
      reads this`gCosts, graph
      requires graph.Valid() && graph.InBounds(cur)
    {
      Pick(cur, INF_COST, graph.Neighbors(cur))
    }

    /** A move always lands on a walkable neighbour with finite g. */
    lemma NextOfIsNeighbor(cur: Node)
      requires graph.Valid() && graph.InBounds(cur)
      ensures NextOf(cur) == cur || (NextOf(cur) in graph.Neighbors(cur) && graph.Adjacent(cur, NextOf(cur)) && G(NextOf(cur)).Fin?)
    {
    }

    /** A blocked cell prices every edge at INF_COST, so the scan never moves. */
    lemma {:induction false} PickFromBlockedStays(cur: Node, ns: seq<Node>)
      requires graph.Valid() && graph.InBounds(cur) && !graph.Open(cur)
      requires forall m :: m in ns ==> graph.InBounds(m) && !Same(m, cur)
      ensures Pick(cur, INF_COST, ns) == cur
      decreases |ns|
    {
      if ns != [] {
        var m := ns[0];
        graph.EdgeCostBlocked(cur, m);
        PickFromBlockedStays(cur, ns[1..]);
      }
    }

    /**
     * From an open cell with INF_COST as the best so far, the first walkable
     * neighbour with finite g is always taken, so the scan ends somewhere else.
     */
    lemma {:induction false} PickFromOpenMoves(cur: Node, ns: seq<Node>)
      requires graph.Valid() && graph.InBounds(cur) && graph.Open(cur)
      requires forall m :: m in ns ==> m in graph.Neighbors(cur) && graph.InBounds(m)
      requires exists m :: m in ns && m.walkable && G(m).Fin?
      ensures Pick(cur, INF_COST, ns) != cur
      decreases |ns|
    {
      var m := ns[0];
      if m.walkable && G(m).Fin? {
        graph.EdgeCostOfNeighbor(cur, m);
        assert Below(Add(G(m), graph.EdgeCost(cur, m)), INF_COST);
        var r := Pick(m, Add(G(m), graph.EdgeCost(cur, m)), ns[1..]);
        assert r == m || r in ns[1..];
        assert r.Pos() != cur.Pos() by {
          if r != m {
            assert r in ns;
          }
        }
      } else {
        assert exists m' :: m' in ns[1..] && m'.walkable && G(m').Fin? by {
          var w :| w in ns && w.walkable && G(w).Fin?;
          assert w != ns[0];
          assert w in ns[1..];
        }
        PickFromOpenMoves(cur, ns[1..]);
      }
    }

    /** A blocked cell has no next step; an open one with a finite-g neighbour always has one. */
    lemma NextOfMovesIffSupported(cur: Node)
      requires graph.Valid() && graph.InBounds(cur)
      ensures !graph.Open(cur) ==> NextOf(cur) == cur
      ensures graph.Open(cur) && (exists m :: m in graph.Neighbors(cur) && G(m).Fin?) ==> NextOf(cur) != cur
    {
      var ns := graph.Neighbors(cur);
      if !graph.Open(cur) {
        PickFromBlockedStays(cur, ns);
      } else if exists m :: m in ns && G(m).Fin? {
        PickFromOpenMoves(cur, ns);
      }
    }

    /**
     * The path `buildPath` returns, characterised: empty exactly when g(start)
     * is INF_COST; otherwise it begins at start (or is just the goal when
     * start is the goal), each node is followed by its `NextOf` move, no
     * position repeats, and it ends at the goal or where the next move would
     * revisit a position already on it.
     */
    ghost predicate GreedyWalk(p: seq<Node>)
      reads this`gCosts, this`start, this`goal, graph
      requires graph.Valid() && graph.InBounds(start) && graph.InBounds(goal)
    {
      (p == [] <==> G(start).Inf?) &&
      (forall i :: 0 <= i < |p| ==> graph.InBounds(p[i]) && G(p[i]).Fin?) &&
      (p != [] ==> p[0] == if Same(start, goal) then goal else start) &&
      (forall i :: 0 <= i < |p| - 1 ==> !Same(p[i], goal) && p[i + 1] == NextOf(p[i])) &&
      (forall i, j :: 0 <= i < j < |p| ==> p[i].Pos() != p[j].Pos()) &&
      (p != [] && !Same(p[|p| - 1], goal) ==>
        exists j :: 0 <= j < |p| && p[j].Pos() == NextOf(p[|p| - 1]).Pos())
    }

    /** Consecutive nodes of a walk are grid neighbours: walkable, adjacent, with finite g. */
    lemma GreedyWalkSteps(p: seq<Node>, i: nat)
      requires graph.Valid() && graph.InBounds(start) && graph.InBounds(goal)
      requires GreedyWalk(p) && i + 1 < |p|
      ensures p[i + 1] in graph.Neighbors(p[i]) && graph.Adjacent(p[i], p[i + 1])
    {
      NextOfIsNeighbor(p[i]);
    }

    /** The walk is determined by the tables: two walks from the same state are equal. */
    lemma GreedyWalkUnique(p: seq<Node>, q: seq<Node>)
      requires graph.Valid() && graph.InBounds(start) && graph.InBounds(goal)
      requires GreedyWalk(p) && GreedyWalk(q)
      ensures p == q
    {
      if p != [] {
        var n := if |p| <= |q| then |p| else |q|;
        forall i | 0 <= i < n
          ensures p[i] == q[i]
        {
          SamePrefix(p, q, i);
        }
        if |p| <= |q| {
          NoProperPrefix(p, q);
        } else {
          NoProperPrefix(q, p);
        }
      }
    }

    lemma {:induction false} SamePrefix(p: seq<Node>, q: seq<Node>, i: nat)
      requires graph.Valid() && graph.InBounds(start) && graph.InBounds(goal)
      requires GreedyWalk(p) && GreedyWalk(q) && i < |p| && i < |q|
      ensures p[i] == q[i]
    {
      if i > 0 {
        SamePrefix(p, q, i - 1);
      }
    }

    /** A walk that agrees with another on its whole length cannot be shorter. */
    lemma NoProperPrefix(p: seq<Node>, q: seq<Node>)
      requires graph.Valid() && graph.InBounds(start) && graph.InBounds(goal)
      requires GreedyWalk(p) && GreedyWalk(q) && 0 < |p| <= |q|
      requires forall i :: 0 <= i < |p| ==> p[i] == q[i]
      ensures |p| == |q|
    {
      if |p| < |q| {
        WalkNeverRevisits(q, |p| - 1);
        assert false;
      }
    }

    /** Before the walk's last node, the next move always lands on a new position. */
    lemma WalkNeverRevisits(q: seq<Node>, k: nat)
      requires graph.Valid() && graph.InBounds(start) && graph.InBounds(goal)
      requires GreedyWalk(q) && k + 1 < |q|
      ensures !Same(q[k], goal)
      ensures forall j :: 0 <= j <= k ==> q[j].Pos() != NextOf(q[k]).Pos()
    {
      assert q[k + 1] == NextOf(q[k]);
    }

    /** The candidate scan of one `buildPath` step, as the source runs it. */
    method Scan(from: Node, ghost next: Node) returns (current: Node)
      requires graph.Valid() && graph.InBounds(from) && next == NextOf(from)
      ensures current == next
    {
      current := from;
      var neighbors := graph.Neighbors(from);
      var minCost := INF_COST;
      for i := 0 to |neighbors|
        invariant graph.InBounds(current)
        invariant next == Pick(current, minCost, neighbors[i..])
      {
        var neighbor := neighbors[i];
        assert neighbors[i..][0] == neighbor && neighbors[i..][1..] == neighbors[i + 1..];
        if !neighbor.walkable {
          continue;
        }
        var neighborG := G(neighbor);
        if neighborG != INF_COST {
          var totalCost := Add(neighborG, graph.EdgeCost(current, neighbor));
          if Below(totalCost, minCost) {
            minCost := totalCost;
            current := neighbor;
          }
        }
      }
    }

    /**
     * The state of `buildPath` after recording `path` with `current` next:
     * the recorded nodes are in bounds, finite, short of the goal, distinct,
     * and each was reached from the one before by `NextOf`.
     */
    ghost predicate WalkSoFar(path: seq<Node>, current: Node)
      reads this`gCosts, this`start, this`goal, graph
      requires graph.Valid() && graph.InBounds(start) && graph.InBounds(goal)
    {
      graph.InBounds(current) && G(current).Fin? &&
      (forall i :: 0 <= i < |path| ==> graph.InBounds(path[i]) && G(path[i]).Fin? && !Same(path[i], goal)) &&
      (path == [] ==> current == start) &&
      (path != [] ==> path[0] == start && current == NextOf(path[|path| - 1])) &&
      (forall i :: 0 <= i < |path| - 1 ==> path[i + 1] == NextOf(path[i])) &&
      (forall i, j :: 0 <= i < j < |path| ==> path[i].Pos() != path[j].Pos())
    }

    lemma WalkStep(path: seq<Node>, current: Node)
      requires graph.Valid() && graph.InBounds(start) && graph.InBounds(goal)
      requires WalkSoFar(path, current) && !Same(current, goal) && current.Pos() !in Positions(path)
      ensures WalkSoFar(path + [current], NextOf(current))
    {
      var q := path + [current];
      assert forall i :: 0 <= i < |path| ==> q[i] == path[i];
      assert q[|path|] == current;
      forall i | 0 <= i < |path|
        ensures path[i].Pos() != current.Pos()
      {
        assert path[i] in path;
      }
    }

    /** Recording an in-bounds position not seen before shrinks the unvisited part of the grid. */
    lemma VisitShrinks(path: seq<Node>, current: Node)
      requires graph.Valid() && graph.InBounds(current) && current.Pos() !in Positions(path)
      ensures Positions(path + [current]) == Positions(path) + {current.Pos()}
      ensures graph.AllPositions() - Positions(path + [current]) < graph.AllPositions() - Positions(path)
    {
      var q := path + [current];
      assert forall m :: m in q <==> m in path || m == current;
    }

    lemma WalkStops(path: seq<Node>, current: Node)
      requires graph.Valid() && graph.InBounds(start) && graph.InBounds(goal)
      requires WalkSoFar(path, current) && current.Pos() in Positions(path)
      ensures GreedyWalk(path)
    {
      var m :| m in path && m.Pos() == current.Pos();
      var j :| 0 <= j < |path| && path[j] == m;
    }

    lemma WalkArrives(path: seq<Node>, current: Node)
      requires graph.Valid() && graph.InBounds(start) && graph.InBounds(goal) && goal.walkable
      requires WalkSoFar(path, current) && Same(current, goal)
      ensures GreedyWalk(path + [goal])
    {
      if path != [] {
        NextOfIsNeighbor(path[|path| - 1]);
      }
    }

    /**
     * `buildPath`: walk from start by `NextOf` moves, recording each node,
     * until the goal is reached or a position would be visited twice; the
     * goal is appended when reached.
     */
    method BuildPath() returns (path: seq<Node>)
      requires graph.Valid() && graph.InBounds(start) && graph.InBounds(goal) && goal.walkable
      ensures GreedyWalk(path)
    {
      var visited: set<Pos> := {};
      path := [];
      var current := start;
      var startG := G(start);
      if startG == INF_COST {
        return;
      }
      ghost var all := graph.AllPositions();
      while NotSame(current, goal)
        invariant WalkSoFar(path, current)
        invariant visited == Positions(path)
        decreases all - visited
      {
        if current.Pos() in visited {
          WalkStops(path, current);
          return;
        }
        WalkStep(path, current);
        VisitShrinks(path, current);
        visited := visited + {current.Pos()};
        path := path + [current];
        var currentG := G(current);
        if currentG == INF_COST {
          break;
        }
        current := Scan(current, NextOf(current));
      }
      if Same(current, goal) {
        WalkArrives(path, current);
        path := path + [goal];
      }
    }

    /**
     * `findPath`: refuse a blocked start or goal (judged by the arguments'
     * own flags) with an empty path and no change; otherwise seed the search
     * toward `goal`, run it with `fuel` expansions, and walk the result.
     */
    method FindPath(start: Node, goal: Node, fuel: nat) returns (path: seq<Node>, steps: nat)
      requires Valid()
      requires start.walkable && goal.walkable ==> graph.InBounds(start) && graph.InBounds(goal)
      modifies this, heap
      ensures Valid()
      ensures !start.walkable || !goal.walkable ==>
        path == [] && unchanged(this) && heap.Contents() == old(heap.Contents())
      ensures start.walkable && goal.walkable ==>
        ready && this.start == start && this.goal == goal && last == old(last) && km == 0.0 &&
        GreedyWalk(path) && steps <= fuel && (steps < fuel ==> G(start) == Rhs(start))
    {
      if !start.walkable || !goal.walkable {
        return [], 0;
      }
      Seed(start, goal);
      steps := ComputeShortestPath(fuel);
      path := BuildPath();
    }

    /**
     * `notifyEnvironmentChanges`: add the heuristic distance the agent moved
     * to km, move start and last to the agent, recompute rhs for every
     * reported cell (INF_COST when it is now blocked) and requeue it, then
     * resume the search and walk the result.
     */
    method NotifyEnvironmentChanges(agent: Node, updated: seq<Node>, fuel: nat) returns (path: seq<Node>, steps: nat)
      requires Valid() && ready && graph.InBounds(agent) && graph.InBounds(last)
      modifies this, heap
      ensures Valid() && ready
      ensures km == old(km) + graph.Distance(old(last), agent)
      ensures start == agent && last == agent && goal == old(goal)
      ensures GreedyWalk(path) && steps <= fuel && (steps < fuel ==> G(start) == Rhs(start))
    {
      MoveAgent(agent);
      MarkAllChanged(updated);
      steps := ComputeShortestPath(fuel);
      path := BuildPath();
    }

    /** The head of `notifyEnvironmentChanges`: km grows by the distance moved. */
    method MoveAgent(agent: Node)
      requires Valid() && ready && graph.InBounds(agent) && graph.InBounds(last)
      modifies this`km, this`start, this`last
      ensures Valid()
      ensures km == old(km) + graph.Distance(old(last), agent)
      ensures start == agent && last == agent
    {
      km := km + graph.Distance(last, agent);
      start := agent;
      last := agent;
    }

    /** The rhs a reported cell is given: recomputed when open, INF_COST when blocked. */
    ghost function ChangedRhs(n: Node): Cost
      reads this`gCosts, this`goal, graph
      requires graph.Valid()
    {
      if graph.Open(n) then ComputeRhs(n) else INF_COST
    }

    /** The rhs table after the reported cells ns are visited in order; a later report wins. */
    ghost function Remarked(r: map<Pos, Cost>, ns: seq<Node>): map<Pos, Cost>
      reads this`gCosts, this`goal, graph
      requires graph.Valid()
    {
      if ns == [] then r
      else Remarked(r, ns[..|ns| - 1])[ns[|ns| - 1].Pos() := ChangedRhs(ns[|ns| - 1])]
    }

    /** `r` with each of the first `n` nodes of `ns` given its entry of `vals`, in order; a later entry wins. */
    ghost function Overwritten(r: map<Pos, Cost>, ns: seq<Node>, vals: seq<Cost>, n: nat): map<Pos, Cost>
      requires n <= |ns| == |vals|
    {
      if n == 0 then r
      else Overwritten(r, ns, vals, n - 1)[ns[n - 1].Pos() := vals[n - 1]]
    }

    /** Remarking a prefix is overwriting it with the values `ChangedRhs` gives now. */
    lemma {:induction false} RemarkedIsOverwritten(r: map<Pos, Cost>, ns: seq<Node>, vals: seq<Cost>, n: nat)
      requires graph.Valid() && n <= |ns| == |vals|
      requires forall j :: 0 <= j < |ns| ==> vals[j] == ChangedRhs(ns[j])
      ensures Remarked(r, ns[..n]) == Overwritten(r, ns, vals, n)
    {
      if n > 0 {
        assert ns[..n][..n - 1] == ns[..n - 1];
        RemarkedIsOverwritten(r, ns, vals, n - 1);
      }
    }

    /** One pass of the report loop: the i-th reported cell; what `ChangedRhs` gives stays put. */
    method MarkAt(updated: seq<Node>, i: nat, ghost vals: seq<Cost>, ghost r0: map<Pos, Cost>)
      requires Valid() && ready && i < |updated| == |vals|
      requires forall j :: 0 <= j < |updated| ==> vals[j] == ChangedRhs(updated[j])
      requires rhsCosts == Overwritten(r0, updated, vals, i)
      modifies this`rhsCosts, heap
      ensures Valid()
      ensures forall j :: 0 <= j < |updated| ==> vals[j] == ChangedRhs(updated[j])
      ensures rhsCosts == Overwritten(r0, updated, vals, i + 1)
    {
      MarkChanged(updated[i]);
      forall j | 0 <= j < |updated|
        ensures vals[j] == ChangedRhs(updated[j])
      {
        assert ChangedRhs(updated[j]) == old(ChangedRhs(updated[j]));
      }
    }

    /** The loop of `notifyEnvironmentChanges` over the reported cells. */
    method MarkAllChanged(updated: seq<Node>)
      requires Valid() && ready
      modifies this`rhsCosts, heap
      ensures Valid()
      ensures rhsCosts == old(Remarked(rhsCosts, updated))
    {
      ghost var r0 := rhsCosts;
      ghost var vals := seq(|updated|, j requires 0 <= j < |updated| && graph.Valid() reads this`gCosts, this`goal, graph => ChangedRhs(updated[j]));
      RemarkedIsOverwritten(r0, updated, vals, |updated|);
      assert updated[..|updated|] == updated;
      for i := 0 to |updated|
        invariant Valid()
        invariant forall j :: 0 <= j < |updated| ==> vals[j] == ChangedRhs(updated[j])
        invariant rhsCosts == Overwritten(r0, updated, vals, i)
      {
        MarkAt(updated, i, vals, r0);
      }
    }
  }
}
