/**
 * The shared vocabulary of the path finder: grid nodes, their identity,
 * their hash, and path costs extended with an explicit infinity.
 */
module Graph {

  /** A cell position (row, col): the whole identity of a node. */
  type Pos = (int, int)

  /**
   * A grid node. Only `row` and `col` take part in equality and hashing;
   * `walkable` is a per-copy flag that travels with the value.
   */
  datatype Node = Node(row: int, col: int, walkable: bool) {
    function Pos(): Pos { (row, col) }
  }

  /** The default node: (0, 0) and walkable. */
  const DefaultNode: Node := Node(0, 0, true)

  /** The (r, c) constructor, whose walkable flag defaults to true. */
  function MakeNode(r: int, c: int): (n: Node)
    ensures n.row == r && n.col == c && n.walkable
  {
    Node(r, c, true)
  }

  /** Node equality: row and col match, the walkable flag is ignored. */
  predicate Same(a: Node, b: Node) {
    a.row == b.row && a.col == b.col
  }

  /** Node inequality: the negation of `Same`. */
  predicate NotSame(a: Node, b: Node) {
    !Same(a, b)
  }

  lemma SameIsPositional(a: Node, b: Node)
    ensures Same(a, b) <==> a.Pos() == b.Pos()
    ensures Same(a, b) <==> Same(a.(walkable := !a.walkable), b)
    ensures NotSame(a, b) <==> !Same(a, b)
  {
  }

  lemma DefaultNodes(r: int, c: int)
    ensures DefaultNode.row == 0 && DefaultNode.col == 0 && DefaultNode.walkable
    ensures MakeNode(r, c) == Node(r, c, true)
  {
  }

  /** `std::hash<int>` of the platform: the value read as an unsigned 64-bit word. */
  function SizeT(x: int): bv64 {
    (x % 0x1_0000_0000_0000_0000) as bv64
  }

  /** The node hash: hash(row) XOR (hash(col) << 1). */
  function Hash(n: Node): bv64 {
    SizeT(n.row) ^ (SizeT(n.col) << 1)
  }

  lemma HashIgnoresWalkable(a: Node, b: Node)
    requires Same(a, b)
    ensures Hash(a) == Hash(b)
  {
  }

  /** A path cost: a finite real or +infinity (`INF_COST`). */
  datatype Cost = Fin(v: real) | Inf

  const INF_COST: Cost := Inf

  /** `a < b` on doubles restricted to the values a cost can take. */
  predicate Below(a: Cost, b: Cost) {
    a.Fin? && (b.Inf? || a.v < b.v)
  }

  /** `a > b` on doubles. */
  predicate Above(a: Cost, b: Cost) {
    Below(b, a)
  }

  /** Addition with infinity absorbing (there is never a -infinity operand). */
  function Add(a: Cost, b: Cost): (r: Cost)
    ensures r.Fin? <==> a.Fin? && b.Fin?
    ensures r.Fin? ==> r.v == a.v + b.v
  {
    if a.Fin? && b.Fin? then Fin(a.v + b.v) else Inf
  }

  /** `std::min(a, b)`: `b` when `b < a`, otherwise `a`. */
  function Min(a: Cost, b: Cost): (r: Cost)
    ensures r == a || r == b
    ensures !Below(a, r) && !Below(b, r)
  {
    if Below(b, a) then b else a
  }

  lemma InfIsTop(c: Cost)
    ensures c.Fin? ==> Below(c, INF_COST)
    ensures !Below(INF_COST, c)
    ensures c != INF_COST ==> Below(c, INF_COST)
  {
  }

  /** Below is a strict total order on costs. */
  lemma BelowIsStrictTotal(a: Cost, b: Cost, c: Cost)
    ensures !Below(a, a)
    ensures Below(a, b) && Below(b, c) ==> Below(a, c)
    ensures a != b ==> (Below(a, b) <==> !Below(b, a))
  {
  }
}
