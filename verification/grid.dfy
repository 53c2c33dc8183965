/**
 * The 8-connected occupancy grid the path finder runs on: a rows x cols
 * matrix of nodes, each walkable or blocked, with straight and diagonal
 * step costs and a Euclidean heuristic.
 */
module Grids {
  import opened Graph

  /** The eight (dr, dc) offsets, in the order neighbours are listed. */
  const Directions: seq<(int, int)> :=
    [(-1, -1), (-1, 0), (-1, 1),
     (0, -1),           (0, 1),
     (1, -1),  (1, 0),  (1, 1)]

  /** sqrt(2) as the nearest double. */
  const DIAGONAL_COST: real := 1.4142135623730951
  const STRAIGHT_COST: real := 1.0

  /** A king's move: each coordinate changes by at most one, and not both by zero. */
  predicate IsStep(dr: int, dc: int) {
    -1 <= dr <= 1 && -1 <= dc <= 1 && (dr != 0 || dc != 0)
  }

  /** No offset is listed twice. */
  predicate DistinctOffsets(ds: seq<(int, int)>) {
    forall i, j :: 0 <= i < j < |ds| ==> ds[i] != ds[j]
  }

  /** The number of true entries. */
  function CountTrue(bs: seq<bool>): nat {
    if bs == [] then 0 else (if bs[0] then 1 else 0) + CountTrue(bs[1..])
  }

  function Abs(x: int): (r: nat)
    ensures r == x || r == -x
  {
    if x < 0 then -x else x
  }

  /** The direction table is exactly the eight king's moves, each once. */
  lemma DirectionsAreSteps(dr: int, dc: int)
    ensures (dr, dc) in Directions <==> IsStep(dr, dc)
    ensures |Directions| == 8 && DistinctOffsets(Directions)
  {
  }

  lemma DiagonalCostBounds()
    ensures STRAIGHT_COST < DIAGONAL_COST < 2.0 * STRAIGHT_COST
    ensures 1.9999 < DIAGONAL_COST * DIAGONAL_COST < 2.0001
  {
  }

  class Grid {
    const rows: int
    const cols: int
    /** `std::sqrt` on the non-negative integers the heuristic feeds it. */
    const sqrt: nat -> real
    var cells: seq<seq<Node>>

    /** The square root never returns a negative number. */
    ghost predicate SqrtOk() {
      forall x: nat :: sqrt(x) >= 0.0
    }

    ghost predicate Valid()
      reads this
    {
      0 <= rows && 0 <= cols && SqrtOk() &&
      |cells| == rows &&
      (forall r :: 0 <= r < rows ==> |cells[r]| == cols) &&
      (forall r, c :: 0 <= r < rows && 0 <= c < cols ==> cells[r][c].row == r && cells[r][c].col == c)
    }

    /** The bounds test every accessor uses before touching a cell. */
    predicate InBounds(n: Node) {
      0 <= n.row < rows && 0 <= n.col < cols
    }

    /** Every position inside the grid. */
    ghost function AllPositions(): (ps: set<Pos>)
      ensures forall n: Node :: InBounds(n) ==> n.Pos() in ps
    {
      set r: int, c: int | 0 <= r < rows && 0 <= c < cols :: (r, c)
    }

    /** The stored node at n's position. */
    function Cell(n: Node): (m: Node)
      reads this
      requires Valid() && InBounds(n)
      ensures Same(m, n)
    {
      cells[n.row][n.col]
    }

    /** The (dr, dc) offset from a to b. */
    function Offset(a: Node, b: Node): (int, int) {
      (b.row - a.row, b.col - a.col)
    }

    /** An in-bounds cell whose stored flag is walkable. */
    predicate Open(n: Node)
      reads this
      requires Valid()
    {
      InBounds(n) && Cell(n).walkable
    }

    /** b is one king's move from a and open: what `getNeighbors(a)` may list. */
    predicate Adjacent(a: Node, b: Node)
      reads this
      requires Valid()
    {
      Open(b) && IsStep(b.row - a.row, b.col - a.col)
    }

    constructor(rows: int, cols: int, sqrt: nat -> real)
      requires rows >= 0 && cols >= 0
      requires forall x: nat :: sqrt(x) >= 0.0
      ensures Valid()
      ensures this.rows == rows && this.cols == cols && this.sqrt == sqrt
      ensures forall r, c :: 0 <= r < rows && 0 <= c < cols ==> cells[r][c] == Node(r, c, true)
    {
      this.rows := rows;
      this.cols := cols;
      this.sqrt := sqrt;
      var g := seq(rows, _ => seq(cols, _ => DefaultNode));
      var r := 0;
      while r < rows
        invariant 0 <= r <= rows && |g| == rows
        invariant forall i :: 0 <= i < rows ==> |g[i]| == cols
        invariant forall i, j :: 0 <= i < r && 0 <= j < cols ==> g[i][j] == Node(i, j, true)
      {
        var c := 0;
        while c < cols
          invariant 0 <= c <= cols && |g| == rows
          invariant forall i :: 0 <= i < rows ==> |g[i]| == cols
          invariant forall i, j :: 0 <= i < r && 0 <= j < cols ==> g[i][j] == Node(i, j, true)
          invariant forall j :: 0 <= j < c ==> g[r][j] == Node(r, j, true)
        {
          g := g[r := g[r][c := Node(r, c, true)]];
          c := c + 1;
        }
        r := r + 1;
      }
      cells := g;
    }

    /** Sets the stored flag of the cell at node's position; out of bounds it does nothing. */
    method SetWalkable(node: Node, walkable: bool)
      requires Valid()
      modifies this
      ensures Valid()
      ensures !InBounds(node) ==> cells == old(cells)
      ensures InBounds(node) ==> Cell(node) == old(Cell(node)).(walkable := walkable)
      ensures forall m :: InBounds(m) && !Same(m, node) ==> Cell(m) == old(Cell(m))
    {
      if !(0 <= node.row < rows && 0 <= node.col < cols) {
        return;
      }
      var n := cells[node.row][node.col];
      cells := cells[node.row := cells[node.row][node.col := n.(walkable := walkable)]];
    }

    /** The stored flag in bounds, false outside; the argument's own flag is not read. */
    function IsWalkable(n: Node): (b: bool)
      reads this
      requires Valid()
      ensures b <==> Open(n)
    {
      if !(0 <= n.row < rows && 0 <= n.col < cols) then false
      else cells[n.row][n.col].walkable
    }

    /**
     * The stored nodes at offsets ds from n that are in bounds and walkable,
     * in the order of ds.
     */
    function NeighborsFrom(n: Node, ds: seq<(int, int)>): (r: seq<Node>)
      reads this
      requires Valid()
      ensures |r| <= |ds|
      ensures forall m :: m in r ==> Open(m) && m.walkable && Offset(n, m) in ds
    {
      if ds == [] then []
      else
        var row := n.row + ds[0].0;
        var col := n.col + ds[0].1;
        if 0 <= row < rows && 0 <= col < cols && cells[row][col].walkable then
          [cells[row][col]] + NeighborsFrom(n, ds[1..])
        else
          NeighborsFrom(n, ds[1..])
    }

    /** The scan lists the head offset's cell, if any, then the rest. */
    lemma NeighborsFromCons(n: Node, ds: seq<(int, int)>)
      requires Valid() && ds != []
      ensures NeighborsFrom(n, ds) == Listed(n, ds[0]) + NeighborsFrom(n, ds[1..])
    {
    }

    /** The stored node at offset d from n when it is in bounds and walkable, else nothing. */
    function Listed(n: Node, d: (int, int)): (r: seq<Node>)
      reads this
      requires Valid()
      ensures |r| <= 1
      ensures r != [] <==> Open(Target(n, d))
      ensures forall m :: m in r ==> m == Cell(Target(n, d)) && Open(m) && m.walkable && Offset(n, m) == d
    {
      var row := n.row + d.0;
      var col := n.col + d.1;
      if 0 <= row < rows && 0 <= col < cols && cells[row][col].walkable then [cells[row][col]] else []
    }

    /** Exactly the open cells at the listed offsets are listed. */
    lemma {:induction false} NeighborsFromMembers(n: Node, ds: seq<(int, int)>, m: Node)
      requires Valid()
      ensures m in NeighborsFrom(n, ds) <==> Open(m) && m.walkable && Offset(n, m) in ds
    {
      if ds != [] {
        NeighborsFromMembers(n, ds[1..], m);
        if Open(m) && m.walkable && Offset(n, m) == ds[0] {
          assert m == Cell(m);
        }
      }
    }

    /** Distinct offsets give distinct positions. */
    lemma {:induction false} NeighborsFromDistinct(n: Node, ds: seq<(int, int)>)
      requires Valid() && DistinctOffsets(ds)
      ensures forall i, j :: 0 <= i < j < |NeighborsFrom(n, ds)| ==> !Same(NeighborsFrom(n, ds)[i], NeighborsFrom(n, ds)[j])
    {
      if ds != [] {
        var rest := NeighborsFrom(n, ds[1..]);
        assert DistinctOffsets(ds[1..]);
        NeighborsFromDistinct(n, ds[1..]);
        forall m | m in rest ensures Offset(n, m) != ds[0] {
          var k :| 0 <= k < |ds[1..]| && ds[1..][k] == Offset(n, m);
          assert ds[k + 1] == Offset(n, m);
        }
      }
    }

    /** `getNeighbors`: the open cells one king's move away, in direction-table order. */
    function Neighbors(n: Node): (r: seq<Node>)
      reads this
      requires Valid() && InBounds(n)
      ensures |r| <= 8
      ensures forall m :: m in r ==> InBounds(m)
    {
      NeighborsFromDirections(n);
      NeighborsFrom(cells[n.row][n.col], Directions)
    }

    /**
     * `getNeighbors(n)` lists exactly the open cells one king's move away,
     * each as the grid stores it and once.
     */
    lemma NeighborsSpec(n: Node)
      requires Valid() && InBounds(n)
      ensures var r := Neighbors(n);
              && (forall m :: m in r <==> Adjacent(n, m) && m.walkable)
              && (forall m :: m in r ==> m == Cell(m) && !Same(m, n))
              && (forall i, j :: 0 <= i < j < |r| ==> !Same(r[i], r[j]))
    {
      NeighborsFromDirections(n);
    }

    /** The direction-table scan from n's stored node lists exactly the adjacent open cells, once each. */
    lemma NeighborsFromDirections(n: Node)
      requires Valid() && InBounds(n)
      ensures var r := NeighborsFrom(Cell(n), Directions);
              && |r| <= 8
              && (forall m :: m in r <==> Adjacent(n, m) && m.walkable)
              && (forall m :: m in r ==> InBounds(m) && m == Cell(m) && !Same(m, n))
              && (forall i, j :: 0 <= i < j < |r| ==> !Same(r[i], r[j]))
    {
      var node := Cell(n);
      var r := NeighborsFrom(node, Directions);
      forall m
        ensures m in r <==> Adjacent(n, m) && m.walkable
      {
        NeighborsFromMembers(node, Directions, m);
        DirectionsAreSteps(m.row - n.row, m.col - n.col);
      }
      forall m | m in r
        ensures m == Cell(m) && !Same(m, n)
      {
        NeighborsFromMembers(node, Directions, m);
        DirectionsAreSteps(m.row - n.row, m.col - n.col);
      }
      DirectionsAreSteps(0, 0);
      NeighborsFromDistinct(node, Directions);
    }

    /** Every offset lands on an open cell: nothing is filtered out. */
    lemma {:induction false} NeighborsFromAllOpen(n: Node, ds: seq<(int, int)>)
      requires Valid()
      requires forall d :: d in ds ==> Open(Target(n, d))
      ensures |NeighborsFrom(n, ds)| == |ds|
    {
      if ds != [] {
        assert Open(Target(n, ds[0]));
        NeighborsFromCons(n, ds);
        NeighborsFromAllOpen(n, ds[1..]);
      }
    }

    /** No offset lands on an open cell: nothing is listed. */
    lemma {:induction false} NeighborsFromNoneOpen(n: Node, ds: seq<(int, int)>)
      requires Valid()
      requires forall d :: d in ds ==> !Open(Target(n, d))
      ensures NeighborsFrom(n, ds) == []
    {
      if ds != [] {
        assert !Open(Target(n, ds[0]));
        NeighborsFromCons(n, ds);
        NeighborsFromNoneOpen(n, ds[1..]);
      }
    }

    /** Every cell is walkable, as after construction. */
    ghost predicate AllOpen()
      reads this
      requires Valid()
    {
      forall r, c :: 0 <= r < rows && 0 <= c < cols ==> cells[r][c].walkable
    }

    /** On an open grid an interior cell has 8 neighbours. */
    lemma InteriorHasEight(n: Node)
      requires Valid() && AllOpen()
      requires 1 <= n.row < rows - 1 && 1 <= n.col < cols - 1
      ensures |Neighbors(n)| == 8
    {
      NeighborsFromAllOpen(Cell(n), Directions);
    }

    /** On an open grid a non-corner cell of the top row has 5 neighbours. */
    lemma TopEdgeHasFive(n: Node)
      requires Valid() && AllOpen() && rows >= 2
      requires n.row == 0 && 1 <= n.col < cols - 1
      ensures |Neighbors(n)| == 5
    {
      TopEdgeFive(Cell(n));
    }

    lemma TopEdgeFive(node: Node)
      requires Valid() && AllOpen() && rows >= 2
      requires node.row == 0 && 1 <= node.col < cols - 1
      ensures |NeighborsFrom(node, Directions)| == 5
    {
      var ds := Directions;
      forall i | 0 <= i < |ds| ensures Open(Target(node, ds[i])) <==> 3 <= i {
        var t := Target(node, ds[i]);
        if 3 <= i {
          assert cells[t.row][t.col].walkable;
        }
      }
      NeighborsFromCount(node, ds, [false, false, false, true, true, true, true, true]);
    }

    /** On an open grid the top-left corner has 3 neighbours. */
    lemma CornerHasThree(n: Node)
      requires Valid() && AllOpen() && rows >= 2 && cols >= 2
      requires n.row == 0 && n.col == 0
      ensures |Neighbors(n)| == 3
    {
      CornerThree(Cell(n));
    }

    lemma CornerThree(node: Node)
      requires Valid() && AllOpen() && rows >= 2 && cols >= 2
      requires node.row == 0 && node.col == 0
      ensures |NeighborsFrom(node, Directions)| == 3
    {
      var ds := Directions;
      forall i | 0 <= i < |ds| ensures Open(Target(node, ds[i])) <==> i == 4 || 6 <= i {
        var t := Target(node, ds[i]);
        if i == 4 || 6 <= i {
          assert cells[t.row][t.col].walkable;
        }
      }
      NeighborsFromCount(node, ds, [false, false, false, false, true, false, true, true]);
    }

    /** The cell at offset d from n. */
    function Target(n: Node, d: (int, int)): Node {
      Node(n.row + d.0, n.col + d.1, true)
    }

    /** When mask[i] says whether offset i lands on an open cell, the scan lists as many cells as mask has trues. */
    lemma {:induction false} NeighborsFromCount(node: Node, ds: seq<(int, int)>, mask: seq<bool>)
      requires Valid() && |mask| == |ds|
      requires forall i :: 0 <= i < |ds| ==> (Open(Target(node, ds[i])) <==> mask[i])
      ensures |NeighborsFrom(node, ds)| == CountTrue(mask)
    {
      if ds != [] {
        NeighborsFromCons(node, ds);
        NeighborsFromCount(node, ds[1..], mask[1..]);
      }
    }

    /** Once every adjacent cell is blocked, the neighbour list is empty. */
    lemma AllBlockedHasNone(n: Node)
      requires Valid() && InBounds(n)
      requires forall m: Node :: IsStep(m.row - n.row, m.col - n.col) && InBounds(m) ==> !Cell(m).walkable
      ensures Neighbors(n) == []
    {
      var node := Cell(n);
      forall d | d in Directions
        ensures !Open(Target(node, d))
      {
        DirectionsAreSteps(d.0, d.1);
        var m := Node(node.row + d.0, node.col + d.1, true);
        assert IsStep(m.row - n.row, m.col - n.col);
      }
      NeighborsFromNoneOpen(node, Directions);
    }

    /** Adjacency is mutual between open cells. */
    lemma AdjacentIsSymmetric(a: Node, b: Node)
      requires Valid() && Open(a)
      ensures Adjacent(a, b) ==> Adjacent(b, a)
    {
    }

    /**
     * `getEdgeCost` as written: 0 on the same cell, infinite if either stored
     * flag is blocked or |dr| + |dc| > 2, otherwise diagonal for |dr| = |dc| = 1
     * and straight for everything else.
     */
    function EdgeCost(a: Node, b: Node): (r: Cost)
      reads this
      requires Valid() && InBounds(a) && InBounds(b)
      ensures r == Fin(0.0) <==> Same(a, b)
      ensures r.Fin? && !Same(a, b) ==> Open(a) && Open(b) && Abs(a.row - b.row) + Abs(a.col - b.col) <= 2
      ensures r.Fin? && !Same(a, b) ==> STRAIGHT_COST <= r.v <= DIAGONAL_COST
      ensures Open(a) && Open(b) && !Same(a, b) && Abs(a.row - b.row) + Abs(a.col - b.col) <= 2 ==>
        r == Fin(if Abs(a.row - b.row) == 1 && Abs(a.col - b.col) == 1 then DIAGONAL_COST else STRAIGHT_COST)
    {
      var n1 := cells[a.row][a.col];
      var n2 := cells[b.row][b.col];
      if Same(n1, n2) then Fin(0.0)
      else if !n1.walkable || !n2.walkable then Inf
      else
        var dr := Abs(n1.row - n2.row);
        var dc := Abs(n1.col - n2.col);
        if dr + dc > 2 then Inf
        else if dr == 1 && dc == 1 then Fin(DIAGONAL_COST)
        else Fin(STRAIGHT_COST)
    }

    lemma EdgeCostIsSymmetric(a: Node, b: Node)
      requires Valid() && InBounds(a) && InBounds(b)
      ensures EdgeCost(a, b) == EdgeCost(b, a)
    {
    }

    /** Blocked endpoints are unreachable in one step. */
    lemma EdgeCostBlocked(a: Node, b: Node)
      requires Valid() && InBounds(a) && InBounds(b) && !Same(a, b)
      requires !Cell(a).walkable || !Cell(b).walkable
      ensures EdgeCost(a, b) == Inf
    {
    }

    /** A step from an open cell to a listed neighbour costs straight or diagonal. */
    lemma EdgeCostOfNeighbor(n: Node, m: Node)
      requires Valid() && Open(n) && m in Neighbors(n)
      ensures EdgeCost(n, m).Fin?
      ensures EdgeCost(n, m).v == (if n.row != m.row && n.col != m.col then DIAGONAL_COST else STRAIGHT_COST)
    {
    }

    /**
     * Two open cells two apart in a straight line are not adjacent, yet the
     * only distance test is dr + dc > 2, so their edge cost is STRAIGHT_COST.
     */
    lemma EdgeCostTwoApart(a: Node, b: Node)
      requires Valid() && Open(a) && Open(b)
      requires (a.row == b.row && Abs(a.col - b.col) == 2) || (a.col == b.col && Abs(a.row - b.row) == 2)
      ensures !Adjacent(a, b)
      ensures EdgeCost(a, b) == Fin(STRAIGHT_COST)
    {
    }

    /** `getEuclideanDistance`: sqrt(dr^2 + dc^2), and exactly 0 on the same cell. */
    function Distance(a: Node, b: Node): (r: real)
      requires SqrtOk() && InBounds(a) && InBounds(b)
      ensures r >= 0.0
      ensures Same(a, b) ==> r == 0.0
    {
      if Same(a, b) then 0.0
      else
        var dr := a.row - b.row;
        var dc := a.col - b.col;
        sqrt(dr * dr + dc * dc)
    }

    /** The heuristic is symmetric and depends on positions only, never on flags. */
    lemma DistanceIsSymmetric(a: Node, b: Node, x: bool)
      requires SqrtOk() && InBounds(a) && InBounds(b)
      ensures Distance(a, b) == Distance(b, a)
      ensures Distance(a, b) == Distance(a.(walkable := x), b)
    {
      var dr := a.row - b.row;
      var dc := a.col - b.col;
      assert (-dr) * (-dr) + (-dc) * (-dc) == dr * dr + dc * dc;
    }
  }
}
