/**
 * The priority of a node in the open list: a pair (k1, k2) ordered
 * lexicographically, and the (node, key) record the heap stores.
 */
module Keys {
  import opened Graph

  /** k1 = min(g, rhs) + h + km, k2 = min(g, rhs). */
  datatype Key = Key(k1: Cost, k2: Cost)

  /** The default-constructed key (0, 0). */
  const DefaultKey: Key := Key(Fin(0.0), Fin(0.0))

  /** `operator<`: k1 decides, k2 breaks ties. */
  predicate Less(a: Key, b: Key) {
    Below(a.k1, b.k1) || (a.k1 == b.k1 && Below(a.k2, b.k2))
  }

  /** `operator>`, written out in the source on its own. */
  predicate Greater(a: Key, b: Key) {
    Above(a.k1, b.k1) || (a.k1 == b.k1 && Above(a.k2, b.k2))
  }

  /** "not after": the order the heap keeps between a parent and a child. */
  predicate LessEq(a: Key, b: Key) {
    !Less(b, a)
  }

  datatype HeapNode = HeapNode(node: Node, key: Key)

  lemma GreaterIsFlippedLess(a: Key, b: Key)
    ensures Greater(a, b) <==> Less(b, a)
  {
  }

  lemma LessIsLexicographic(a: Key, b: Key)
    ensures Below(a.k1, b.k1) ==> Less(a, b)
    ensures Below(b.k1, a.k1) ==> !Less(a, b)
    ensures a.k1 == b.k1 ==> (Less(a, b) <==> Below(a.k2, b.k2))
  {
  }

  lemma LessIsStrictOrder(a: Key, b: Key, c: Key)
    ensures !Less(a, a)
    ensures Less(a, b) && Less(b, c) ==> Less(a, c)
    ensures a != b ==> (Less(a, b) <==> !Less(b, a))
  {
  }

  lemma EqualKeysUnordered(a: Key, b: Key)
    requires a.k1 == b.k1 && a.k2 == b.k2
    ensures !Less(a, b) && !Greater(a, b)
    ensures DefaultKey.k1 == Fin(0.0) && DefaultKey.k2 == Fin(0.0)
  {
  }

  /** LessEq is a total order: reflexive, total, transitive, and it mixes with Less. */
  lemma LessEqIsTotalOrder(a: Key, b: Key, c: Key)
    ensures LessEq(a, a)
    ensures LessEq(a, b) || LessEq(b, a)
    ensures LessEq(a, b) && LessEq(b, a) ==> a == b
    ensures LessEq(a, b) && LessEq(b, c) ==> LessEq(a, c)
    ensures Less(a, b) ==> LessEq(a, b)
    ensures Less(a, b) && LessEq(b, c) ==> Less(a, c)
    ensures LessEq(a, b) && Less(b, c) ==> Less(a, c)
  {
  }
}
