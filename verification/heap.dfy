/**
 * `MinHeapMap`: a binary min-heap of (node, key) records kept in a vector,
 * plus a map from node identity to the record's slot. The map lets the
 * search engine test membership, change a key, or remove a node in place.
 */
module Heaps {
  import opened Graph
  import opened Keys

  /** The three failures the heap reports. */
  datatype HeapError = EmptyHeap | DuplicateNode | NodeNotFound

  datatype Outcome = Pass | Fail(error: HeapError)

  datatype Result<T> = Ok(value: T) | Err(error: HeapError)

  // ---------------------------------------------------------------------
  // The slot/position bijection, on plain values.

  /** Every slot is indexed under its node's position, and every index entry names a slot holding that position. */
  ghost predicate IndexOk(h: seq<HeapNode>, idx: map<Pos, int>) {
    && |idx| == |h|
    && (forall i :: 0 <= i < |h| ==> h[i].node.Pos() in idx && idx[h[i].node.Pos()] == i)
    && (forall p :: p in idx ==> 0 <= idx[p] < |h| && h[idx[p]].node.Pos() == p)
  }

  /** The abstract contents: each position in the heap with its stored record. */
  ghost function Entries(h: seq<HeapNode>, idx: map<Pos, int>): (m: map<Pos, HeapNode>)
    requires IndexOk(h, idx)
    ensures m.Keys == idx.Keys && |m| == |h|
    ensures forall p :: p in m ==> m[p].node.Pos() == p
  {
    var m := map p | p in idx :: h[idx[p]];
    assert m.Keys == idx.Keys;
    m
  }

  /** No position occurs in two slots. */
  lemma IndexOkNoDuplicates(h: seq<HeapNode>, idx: map<Pos, int>, i: int, j: int)
    requires IndexOk(h, idx)
    requires 0 <= i < |h| && 0 <= j < |h| && i != j
    ensures h[i].node.Pos() != h[j].node.Pos()
  {
  }

  /** The record in slot i is the entry of its own position. */
  lemma EntryOfSlot(h: seq<HeapNode>, idx: map<Pos, int>, i: int)
    requires IndexOk(h, idx) && 0 <= i < |h|
    ensures h[i].node.Pos() in Entries(h, idx) && Entries(h, idx)[h[i].node.Pos()] == h[i]
  {
  }

  function Swapped(h: seq<HeapNode>, i: int, j: int): (r: seq<HeapNode>)
    requires 0 <= i < |h| && 0 <= j < |h|
    ensures |r| == |h| && r[i] == h[j] && r[j] == h[i]
    ensures forall k :: 0 <= k < |h| && k != i && k != j ==> r[k] == h[k]
  {
    h[i := h[j]][j := h[i]]
  }

  /** Swapping two slots and re-pointing both index entries keeps the bijection and the contents. */
  lemma SwapKeepsIndex(h: seq<HeapNode>, idx: map<Pos, int>, i: int, j: int)
    requires IndexOk(h, idx) && 0 <= i < |h| && 0 <= j < |h|
    ensures var h' := Swapped(h, i, j);
            var idx' := idx[h'[i].node.Pos() := i][h'[j].node.Pos() := j];
            IndexOk(h', idx') && Entries(h', idx') == Entries(h, idx)
  {
    var h' := Swapped(h, i, j);
    var idx' := idx[h'[i].node.Pos() := i][h'[j].node.Pos() := j];
    assert idx'.Keys == idx.Keys;
    forall p | p in idx
      ensures idx'[p] == if idx[p] == i then j else if idx[p] == j then i else idx[p]
    {
      if idx[p] == i { assert h'[j] == h[i]; }
      else if idx[p] == j { assert h'[i] == h[j]; }
      else {
        IndexOkNoDuplicates(h, idx, idx[p], i);
        IndexOkNoDuplicates(h, idx, idx[p], j);
      }
    }
    assert IndexOk(h', idx');
  }

  /** Dropping the last slot and its index entry removes exactly that position. */
  lemma DropLastKeepsIndex(h: seq<HeapNode>, idx: map<Pos, int>)
    requires IndexOk(h, idx) && |h| > 0
    ensures var p := h[|h| - 1].node.Pos();
            IndexOk(h[..|h| - 1], idx - {p}) && Entries(h[..|h| - 1], idx - {p}) == Entries(h, idx) - {p}
  {
    var n := |h| - 1;
    var p := h[n].node.Pos();
    var idx' := idx - {p};
    assert idx'.Keys == idx.Keys - {p};
    assert |idx'| == |idx| - 1;
    forall q | q in idx'
      ensures 0 <= idx'[q] < n
    {
      if idx[q] == n { assert false; }
    }
  }

  /** Appending a record at a fresh position extends the bijection by that position. */
  lemma AppendKeepsIndex(h: seq<HeapNode>, idx: map<Pos, int>, x: HeapNode)
    requires IndexOk(h, idx) && x.node.Pos() !in idx
    ensures IndexOk(h + [x], idx[x.node.Pos() := |h|])
    ensures Entries(h + [x], idx[x.node.Pos() := |h|]) == Entries(h, idx)[x.node.Pos() := x]
  {
    var h' := h + [x];
    var idx' := idx[x.node.Pos() := |h|];
    forall i | 0 <= i < |h'|
      ensures h'[i].node.Pos() in idx' && idx'[h'[i].node.Pos()] == i
    {
      if i < |h| { assert h'[i] == h[i]; }
    }
  }

  /** Replacing the key in a slot keeps the bijection and rewrites that one entry. */
  lemma RekeyKeepsIndex(h: seq<HeapNode>, idx: map<Pos, int>, i: int, k: Key)
    requires IndexOk(h, idx) && 0 <= i < |h|
    ensures var h' := h[i := HeapNode(h[i].node, k)];
            IndexOk(h', idx) && Entries(h', idx) == Entries(h, idx)[h[i].node.Pos() := HeapNode(h[i].node, k)]
  {
    var h' := h[i := HeapNode(h[i].node, k)];
    forall p | p in idx
      ensures h'[idx[p]] == if idx[p] == i then HeapNode(h[i].node, k) else h[idx[p]]
    {
    }
  }

  // ---------------------------------------------------------------------
  // Heap order, on plain values. The parent of slot j > 0 is (j - 1) / 2.

  /** The record in slot j > 0 is not below its parent's. */
  ghost predicate EdgeOk(h: seq<HeapNode>, j: int)
    requires 0 < j < |h|
  {
    LessEq(h[(j - 1) / 2].key, h[j].key)
  }

  /** No record's key is below its parent's key. */
  ghost predicate HeapOrdered(h: seq<HeapNode>) {
    forall j :: 0 < j < |h| ==> EdgeOk(h, j)
  }

  /** The parent of slot i is no greater than any child of slot i. */
  ghost predicate Bridged(h: seq<HeapNode>, i: int)
    requires 0 <= i < |h|
  {
    i > 0 ==> forall j :: 0 < j < |h| && (j - 1) / 2 == i ==> LessEq(h[(i - 1) / 2].key, h[j].key)
  }

  /** Heap order holds on every parent edge that does not touch slot i. */
  ghost predicate OrderedAwayFrom(h: seq<HeapNode>, i: int)
    requires 0 <= i < |h|
  {
    && (forall j :: 0 < j < |h| && j != i && (j - 1) / 2 != i ==> EdgeOk(h, j))
    && Bridged(h, i)
  }

  /** Heap order holds everywhere except possibly between slot i and its children. */
  ghost predicate OrderedAboveChildrenOf(h: seq<HeapNode>, i: int)
    requires 0 <= i < |h|
  {
    && (forall j :: 0 < j < |h| && (j - 1) / 2 != i ==> EdgeOk(h, j))
    && Bridged(h, i)
  }

  lemma {:induction false} RootIsMinimal(h: seq<HeapNode>, j: int)
    requires HeapOrdered(h) && 0 <= j < |h|
    ensures LessEq(h[0].key, h[j].key)
    decreases j
  {
    if j > 0 {
      RootIsMinimal(h, (j - 1) / 2);
      assert EdgeOk(h, j);
      LessEqIsTotalOrder(h[0].key, h[(j - 1) / 2].key, h[j].key);
    }
  }

  lemma OrderedIsOrderedAboveChildren(h: seq<HeapNode>, i: int)
    requires HeapOrdered(h) && 0 <= i < |h|
    ensures OrderedAboveChildrenOf(h, i)
  {
    if i > 0 {
      forall j | 0 < j < |h| && (j - 1) / 2 == i
        ensures LessEq(h[(i - 1) / 2].key, h[j].key)
      {
        assert EdgeOk(h, i) && EdgeOk(h, j);
        LessEqIsTotalOrder(h[(i - 1) / 2].key, h[i].key, h[j].key);
      }
    }
  }

  /** Changing one slot's record keeps heap order away from that slot. */
  lemma ReplaceOneIsOrderedAway(h: seq<HeapNode>, i: int, x: HeapNode)
    requires HeapOrdered(h) && 0 <= i < |h|
    ensures OrderedAwayFrom(h[i := x], i)
  {
    var h' := h[i := x];
    forall j | 0 < j < |h'| && j != i && (j - 1) / 2 != i
      ensures EdgeOk(h', j)
    {
      assert EdgeOk(h, j);
    }
    if i > 0 {
      forall j | 0 < j < |h'| && (j - 1) / 2 == i
        ensures LessEq(h'[(i - 1) / 2].key, h'[j].key)
      {
        assert EdgeOk(h, i) && EdgeOk(h, j);
        LessEqIsTotalOrder(h[(i - 1) / 2].key, h[i].key, h[j].key);
      }
    }
  }

  /** Prefixes of a heap-ordered sequence are heap-ordered. */
  lemma PrefixIsOrdered(h: seq<HeapNode>, n: int)
    requires HeapOrdered(h) && 0 <= n <= |h|
    ensures HeapOrdered(h[..n])
  {
    forall j | 0 < j < n
      ensures EdgeOk(h[..n], j)
    {
      assert EdgeOk(h, j);
      assert h[..n][j] == h[j] && h[..n][(j - 1) / 2] == h[(j - 1) / 2];
    }
  }

  /** Moving the last record into slot i and dropping the last slot keeps heap order away from i. */
  lemma MoveLastIsOrderedAway(h: seq<HeapNode>, i: int, h': seq<HeapNode>)
    requires HeapOrdered(h) && 0 <= i < |h| - 1 && h' == Swapped(h, i, |h| - 1)[..|h| - 1]
    ensures OrderedAwayFrom(h', i)
  {
    var n := |h| - 1;
    assert |h'| == n;
    assert forall k :: 0 <= k < n && k != i ==> h'[k] == h[k];
    forall j | 0 < j < n && j != i && (j - 1) / 2 != i
      ensures EdgeOk(h', j)
    {
      assert EdgeOk(h, j);
    }
    if i > 0 {
      forall j | 0 < j < n && (j - 1) / 2 == i
        ensures LessEq(h'[(i - 1) / 2].key, h'[j].key)
      {
        assert EdgeOk(h, i) && EdgeOk(h, j);
        LessEqIsTotalOrder(h[(i - 1) / 2].key, h[i].key, h[j].key);
      }
    }
  }

  /** Every child of slot i is not below the record in slot i. */
  ghost predicate ChildrenNotBelow(h: seq<HeapNode>, i: int)
    requires 0 <= i < |h|
  {
    forall j :: 0 < j < |h| && (j - 1) / 2 == i ==> EdgeOk(h, j)
  }

  /** One step of sift-up: swapping slot i with its larger parent moves the fault up to the parent. */
  lemma SiftUpStep(h: seq<HeapNode>, i: int)
    requires 0 < i < |h| && OrderedAwayFrom(h, i)
    requires Less(h[i].key, h[(i - 1) / 2].key)
    ensures OrderedAwayFrom(Swapped(h, i, (i - 1) / 2), (i - 1) / 2)
    ensures ChildrenNotBelow(Swapped(h, i, (i - 1) / 2), (i - 1) / 2)
  {
    var p := (i - 1) / 2;
    var h' := Swapped(h, i, p);
    var x, up := h[i].key, h[p].key;
    // edges below the old slot i now hang from the old parent record
    forall j | 0 < j < |h'| && (j - 1) / 2 == i
      ensures EdgeOk(h', j)
    {
      assert h'[j] == h[j];
    }
    forall j | 0 < j < |h'| && j != p && (j - 1) / 2 != p
      ensures EdgeOk(h', j)
    {
      if (j - 1) / 2 != i {
        assert EdgeOk(h, j);
      }
    }
    forall j | 0 < j < |h'| && (j - 1) / 2 == p
      ensures EdgeOk(h', j)
    {
      if j == i {
        LessEqIsTotalOrder(x, up, up);
      } else {
        assert EdgeOk(h, j) && h'[j] == h[j];
        LessEqIsTotalOrder(x, up, h[j].key);
      }
    }
    if p > 0 {
      var g := h[(p - 1) / 2].key;
      assert EdgeOk(h, p);
      forall j | 0 < j < |h'| && (j - 1) / 2 == p
        ensures LessEq(h'[(p - 1) / 2].key, h'[j].key)
      {
        if j != i {
          assert EdgeOk(h, j);
          LessEqIsTotalOrder(g, up, h[j].key);
        }
      }
    }
  }

  /** When sift-up stops, only the edges below the start slot can be out of order. */
  lemma SiftUpDone(h: seq<HeapNode>, i: int, i0: int)
    requires 0 <= i <= i0 < |h| && OrderedAwayFrom(h, i)
    requires i > 0 ==> EdgeOk(h, i)
    requires i != i0 ==> ChildrenNotBelow(h, i)
    ensures OrderedAboveChildrenOf(h, i0)
  {
    if i == i0 {
    } else {
      assert HeapOrdered(h);
      OrderedIsOrderedAboveChildren(h, i0);
    }
  }

  /** One step of sift-down: swapping slot i with its smallest, smaller child moves the fault down. */
  lemma SiftDownStep(h: seq<HeapNode>, i: int, s: int)
    requires 0 <= i < s < |h| && (s - 1) / 2 == i && OrderedAboveChildrenOf(h, i)
    requires Less(h[s].key, h[i].key)
    requires forall j :: 0 < j < |h| && (j - 1) / 2 == i ==> LessEq(h[s].key, h[j].key)
    ensures OrderedAboveChildrenOf(Swapped(h, i, s), s)
  {
    var h' := Swapped(h, i, s);
    var x, y := h[i].key, h[s].key;
    forall j | 0 < j < |h'| && (j - 1) / 2 != s
      ensures EdgeOk(h', j)
    {
      if (j - 1) / 2 == i {
        if j == s {
          LessEqIsTotalOrder(y, x, x);
        } else {
          assert h'[j] == h[j];
        }
      } else if j == i {
        assert (i - 1) / 2 != i && h'[(i - 1) / 2] == h[(i - 1) / 2];
      } else {
        assert EdgeOk(h, j);
      }
    }
    forall j | 0 < j < |h'| && (j - 1) / 2 == s
      ensures LessEq(h'[(s - 1) / 2].key, h'[j].key)
    {
      assert EdgeOk(h, j);
    }
  }

  /** When no child is below slot i, the whole sequence is heap-ordered. */
  lemma SiftDownDone(h: seq<HeapNode>, i: int)
    requires 0 <= i < |h| && OrderedAboveChildrenOf(h, i)
    requires forall j :: 0 < j < |h| && (j - 1) / 2 == i ==> LessEq(h[i].key, h[j].key)
    ensures HeapOrdered(h)
  {
    forall j | 0 < j < |h|
      ensures EdgeOk(h, j)
    {
    }
  }

  /** The slot among i and its children holding the least key, preferring i, then the left child. */
  function SmallestOf(h: seq<HeapNode>, i: int): int
    requires 0 <= i < |h|
  {
    var l, r := 2 * i + 1, 2 * i + 2;
    var s1 := if l < |h| && Less(h[l].key, h[i].key) then l else i;
    if r < |h| && Less(h[r].key, h[s1].key) then r else s1
  }

  lemma SmallestOfIsLeast(h: seq<HeapNode>, i: int)
    requires 0 <= i < |h|
    ensures var s := SmallestOf(h, i);
            && (s == i || (i < s < |h| && (s - 1) / 2 == i && Less(h[s].key, h[i].key)))
            && forall j :: 0 < j < |h| && (j - 1) / 2 == i ==> LessEq(h[s].key, h[j].key)
  {
    var l, r := 2 * i + 1, 2 * i + 2;
    var s1 := if l < |h| && Less(h[l].key, h[i].key) then l else i;
    var s2 := SmallestOf(h, i);
    LessEqIsTotalOrder(h[s2].key, h[s1].key, h[i].key);
    if l < |h| { LessEqIsTotalOrder(h[s2].key, h[s1].key, h[l].key); }
    if r < |h| { LessEqIsTotalOrder(h[s2].key, h[r].key, h[r].key); }
  }

  /** Appending a record to a heap leaves heap order intact away from the new slot. */
  lemma AppendIsOrderedAway(h: seq<HeapNode>, x: HeapNode)
    requires HeapOrdered(h)
    ensures OrderedAwayFrom(h + [x], |h|)
  {
    forall j | 0 < j < |h|
      ensures EdgeOk(h + [x], j)
    {
      assert EdgeOk(h, j);
    }
  }

  /** A slot without children cannot hide a fault below it. */
  lemma LeafFaultIsOrdered(h: seq<HeapNode>, i: int)
    requires 0 <= i < |h| && 2 * i + 1 >= |h| && OrderedAboveChildrenOf(h, i)
    ensures HeapOrdered(h)
  {
    forall j | 0 < j < |h|
      ensures EdgeOk(h, j)
    {
    }
  }

  /** No two records share a position. */
  predicate DistinctPositions(s: seq<HeapNode>) {
    forall i, j :: 0 <= i < j < |s| ==> s[i].node.Pos() != s[j].node.Pos()
  }

  /** The contents that inserting the records in order, with no failure, produces. */
  ghost function InsertedAll(s: seq<HeapNode>): map<Pos, HeapNode>
  {
    if s == [] then map[] else InsertedAll(s[..|s| - 1])[s[|s| - 1].node.Pos() := s[|s| - 1]]
  }

  lemma {:induction false} InsertedAllKeys(s: seq<HeapNode>)
    ensures forall p :: p in InsertedAll(s) ==> exists i :: 0 <= i < |s| && s[i].node.Pos() == p
  {
    if s != [] {
      var t := s[..|s| - 1];
      InsertedAllKeys(t);
      forall p | p in InsertedAll(s)
        ensures exists i :: 0 <= i < |s| && s[i].node.Pos() == p
      {
        if p != s[|s| - 1].node.Pos() {
          assert p in InsertedAll(t);
          var i :| 0 <= i < |t| && t[i].node.Pos() == p;
          assert s[i] == t[i];
        }
      }
    }
  }

  /** A record whose position an earlier record already holds makes the records non-distinct. */
  lemma RepeatIsNotDistinct(s: seq<HeapNode>, k: int)
    requires 0 <= k < |s| && s[k].node.Pos() in InsertedAll(s[..k])
    ensures !DistinctPositions(s)
  {
    InsertedAllKeys(s[..k]);
    var i :| 0 <= i < k && s[..k][i].node.Pos() == s[k].node.Pos();
    assert s[i] == s[..k][i];
  }

  /** One more successful insertion extends the distinct prefix and its contents. */
  lemma InsertedAllStep(s: seq<HeapNode>, k: int)
    requires 0 <= k < |s| && DistinctPositions(s[..k]) && s[k].node.Pos() !in InsertedAll(s[..k])
    ensures DistinctPositions(s[..k + 1])
    ensures InsertedAll(s[..k + 1]) == InsertedAll(s[..k])[s[k].node.Pos() := s[k]]
  {
    assert s[..k + 1][..k] == s[..k];
    InsertedAllHoldsEach(s[..k]);
    var t := s[..k + 1];
    forall i, j | 0 <= i < j < |t|
      ensures t[i].node.Pos() != t[j].node.Pos()
    {
      if j < k {
        assert s[..k][i] == t[i] && s[..k][j] == t[j];
      } else {
        assert s[..k][i] == t[i] && s[..k][i].node.Pos() in InsertedAll(s[..k]);
        assert t[j] == s[k];
      }
    }
  }

  lemma {:induction false} InsertedAllHoldsEach(s: seq<HeapNode>)
    requires DistinctPositions(s)
    ensures |InsertedAll(s)| == |s|
    ensures forall i :: 0 <= i < |s| ==> s[i].node.Pos() in InsertedAll(s) && InsertedAll(s)[s[i].node.Pos()] == s[i]
  {
    if s != [] {
      var t := s[..|s| - 1];
      var x := s[|s| - 1];
      assert DistinctPositions(t) by {
        forall i, j | 0 <= i < j < |t|
          ensures t[i].node.Pos() != t[j].node.Pos()
        {
          assert t[i] == s[i] && t[j] == s[j];
        }
      }
      InsertedAllHoldsEach(t);
      InsertedAllKeys(t);
      forall i | 0 <= i < |t|
        ensures t[i].node.Pos() != x.node.Pos()
      {
        assert s[i] == t[i];
      }
      assert x.node.Pos() !in InsertedAll(t);
      forall i | 0 <= i < |s|
        ensures s[i].node.Pos() in InsertedAll(s) && InsertedAll(s)[s[i].node.Pos()] == s[i]
      {
        if i < |t| { assert s[i] == t[i]; }
      }
    }
  }

  // ---------------------------------------------------------------------
  // The heap object.

  class MinHeapMap {
    var heap: seq<HeapNode>
    var nodeToIndex: map<Pos, int>

    /** The object invariant: heap order, and slots and index in exact bijection. */
    ghost predicate Valid()
      reads this
    {
      IndexOk(heap, nodeToIndex) && HeapOrdered(heap)
    }

    /** The abstract view: every queued position with its (node, key) record. */
    ghost function Contents(): (m: map<Pos, HeapNode>)
      reads this
      requires Valid()
      ensures forall p :: p in m ==> m[p].node.Pos() == p
    {
      Entries(heap, nodeToIndex)
    }

    constructor ()
      ensures Valid() && Contents() == map[]
    {
      heap := [];
      nodeToIndex := map[];
    }

    /** The vector constructor: the records inserted one by one, in order; DuplicateNode escapes. */
    static method FromNodes(nodes: seq<HeapNode>) returns (r: Result<MinHeapMap>)
      ensures r.Ok? <==> DistinctPositions(nodes)
      ensures r.Err? ==> r.error == DuplicateNode
      ensures r.Ok? ==> fresh(r.value) && r.value.Valid() && r.value.Contents() == InsertedAll(nodes)
    {
      var h := new MinHeapMap();
      var k := 0;
      while k < |nodes|
        invariant 0 <= k <= |nodes| && fresh(h) && h.Valid()
        invariant DistinctPositions(nodes[..k]) && h.Contents() == InsertedAll(nodes[..k])
      {
        var o := h.Insert(nodes[k].node, nodes[k].key);
        if o.Fail? {
          RepeatIsNotDistinct(nodes, k);
          return Err(o.error);
        }
        InsertedAllStep(nodes, k);
        k := k + 1;
      }
      assert nodes[..k] == nodes;
      r := Ok(h);
    }

    function Count(): (n: int)
      reads this
      requires Valid()
      ensures n == |Contents()|
    {
      |heap|
    }

    function IsEmpty(): (b: bool)
      reads this
      requires Valid()
      ensures b <==> Contents() == map[]
    {
      assert |Contents()| == |heap|;
      |heap| == 0
    }

    function Contains(node: Node): (b: bool)
      reads this
      requires Valid()
      ensures b <==> node.Pos() in Contents()
    {
      node.Pos() in nodeToIndex
    }

    /** The node with the least key, or EmptyHeap. */
    function Top(): (r: Result<Node>)
      reads this
      requires Valid()
      ensures r.Err? <==> Contents() == map[]
      ensures r.Err? ==> r.error == EmptyHeap
      ensures r.Ok? ==> var p := r.value.Pos();
                        p in Contents() && Contents()[p].node == r.value
                        && forall q :: q in Contents() ==> LessEq(Contents()[p].key, Contents()[q].key)
    {
      if |heap| == 0 then
        assert |Contents()| == 0;
        Err(EmptyHeap)
      else
        EntryOfSlot(heap, nodeToIndex, 0);
        assert forall q :: q in Contents() ==> LessEq(heap[0].key, Contents()[q].key) by {
          forall q | q in Contents()
            ensures LessEq(heap[0].key, Contents()[q].key)
          {
            RootIsMinimal(heap, nodeToIndex[q]);
          }
        }
        Ok(heap[0].node)
    }

    /** The least key, or EmptyHeap; it is the key stored with `Top()`. */
    function TopKey(): (r: Result<Key>)
      reads this
      requires Valid()
      ensures r.Err? <==> Contents() == map[]
      ensures r.Err? ==> r.error == EmptyHeap
      ensures r.Ok? ==> Top().Ok? && r.value == Contents()[Top().value.Pos()].key
    {
      if |heap| == 0 then
        assert |Contents()| == 0;
        Err(EmptyHeap)
      else
        EntryOfSlot(heap, nodeToIndex, 0);
        Ok(heap[0].key)
    }

    /** Exchanges two slots and re-points both index entries. */
    method Swap(i: int, j: int)
      requires IndexOk(heap, nodeToIndex) && 0 <= i < |heap| && 0 <= j < |heap|
      modifies this
      ensures heap == Swapped(old(heap), i, j)
      ensures nodeToIndex == old(nodeToIndex)[heap[i].node.Pos() := i][heap[j].node.Pos() := j]
      ensures IndexOk(heap, nodeToIndex) && Entries(heap, nodeToIndex) == old(Entries(heap, nodeToIndex))
    {
      SwapKeepsIndex(heap, nodeToIndex, i, j);
      heap := Swapped(heap, i, j);
      nodeToIndex := nodeToIndex[heap[i].node.Pos() := i];
      nodeToIndex := nodeToIndex[heap[j].node.Pos() := j];
    }

    /** Moves the record in slot i0 up while its parent's key is greater. */
    method SiftUp(i0: int)
      requires IndexOk(heap, nodeToIndex) && 0 <= i0 < |heap| && OrderedAwayFrom(heap, i0)
      modifies this
      ensures IndexOk(heap, nodeToIndex) && Entries(heap, nodeToIndex) == old(Entries(heap, nodeToIndex))
      ensures |heap| == old(|heap|) && OrderedAboveChildrenOf(heap, i0)
    {
      var i := i0;
      while i > 0
        invariant 0 <= i <= i0 && |heap| == old(|heap|)
        invariant IndexOk(heap, nodeToIndex) && Entries(heap, nodeToIndex) == old(Entries(heap, nodeToIndex))
        invariant OrderedAwayFrom(heap, i)
        invariant i != i0 ==> ChildrenNotBelow(heap, i)
      {
        var p := (i - 1) / 2;
        if Greater(heap[p].key, heap[i].key) {
          GreaterIsFlippedLess(heap[p].key, heap[i].key);
          SiftUpStep(heap, i);
          Swap(i, p);
          i := p;
        } else {
          GreaterIsFlippedLess(heap[p].key, heap[i].key);
          assert EdgeOk(heap, i);
          break;
        }
      }
      SiftUpDone(heap, i, i0);
    }

    /** Moves the record in slot i0 down while a child's key is smaller. */
    method SiftDown(i0: int)
      requires IndexOk(heap, nodeToIndex) && 0 <= i0 < |heap| && OrderedAboveChildrenOf(heap, i0)
      modifies this
      ensures IndexOk(heap, nodeToIndex) && Entries(heap, nodeToIndex) == old(Entries(heap, nodeToIndex))
      ensures |heap| == old(|heap|) && HeapOrdered(heap)
    {
      var i := i0;
      while true
        invariant 0 <= i < |heap| && |heap| == old(|heap|)
        invariant IndexOk(heap, nodeToIndex) && Entries(heap, nodeToIndex) == old(Entries(heap, nodeToIndex))
        invariant OrderedAboveChildrenOf(heap, i)
        decreases |heap| - i
      {
        var smallest := SmallestOf(heap, i);
        SmallestOfIsLeast(heap, i);
        if smallest != i {
          SiftDownStep(heap, i, smallest);
          Swap(i, smallest);
          i := smallest;
        } else {
          SiftDownDone(heap, i);
          break;
        }
      }
    }

    /** Sift-up then sift-down from slot i: restores heap order around a changed slot. */
    method Resift(i: int)
      requires IndexOk(heap, nodeToIndex) && 0 <= i < |heap| && OrderedAwayFrom(heap, i)
      modifies this
      ensures Valid() && Entries(heap, nodeToIndex) == old(Entries(heap, nodeToIndex))
      ensures |heap| == old(|heap|)
    {
      SiftUp(i);
      SiftDown(i);
    }

    /** Adds `node` with `key`; DuplicateNode when its position is already queued. */
    method Insert(node: Node, key: Key) returns (o: Outcome)
      requires Valid()
      modifies this
      ensures Valid()
      ensures o == (if node.Pos() in old(Contents()) then Fail(DuplicateNode) else Pass)
      ensures o.Pass? ==> Contents() == old(Contents())[node.Pos() := HeapNode(node, key)]
      ensures o.Fail? ==> Contents() == old(Contents())
    {
      if Contains(node) {
        return Fail(DuplicateNode);
      }
      var x := HeapNode(node, key);
      ghost var c1 := Entries(heap, nodeToIndex)[node.Pos() := x];
      AppendKeepsIndex(heap, nodeToIndex, x);
      AppendIsOrderedAway(heap, x);
      heap := heap + [x];
      nodeToIndex := nodeToIndex[node.Pos() := |heap| - 1];
      assert Entries(heap, nodeToIndex) == c1;
      SiftUp(|heap| - 1);
      LeafFaultIsOrdered(heap, |heap| - 1);
      o := Pass;
    }

    /** Swaps slot `index` (holding p) with the last slot, drops the last slot and p's index entry. */
    method DropSlot(index: int, p: Pos)
      requires Valid() && p in nodeToIndex && nodeToIndex[p] == index
      modifies this
      ensures IndexOk(heap, nodeToIndex) && Entries(heap, nodeToIndex) == old(Entries(heap, nodeToIndex)) - {p}
      ensures |heap| == old(|heap|) - 1
      ensures index < |heap| ==> OrderedAwayFrom(heap, index)
      ensures index >= |heap| ==> HeapOrdered(heap)
    {
      var last := |heap| - 1;
      ghost var h0 := heap;
      Swap(index, last);
      assert heap[last] == h0[index];
      DropLastKeepsIndex(heap, nodeToIndex);
      heap := heap[..last];
      nodeToIndex := nodeToIndex - {p};
      if index < |heap| {
        MoveLastIsOrderedAway(h0, index, heap);
      } else {
        PrefixIsOrdered(h0, last);
      }
    }

    /** Deletes the record of `node`'s position; NodeNotFound when it is not queued. */
    method Remove(node: Node) returns (o: Outcome)
      requires Valid()
      modifies this
      ensures Valid()
      ensures o == (if node.Pos() in old(Contents()) then Pass else Fail(NodeNotFound))
      ensures Contents() == old(Contents()) - {node.Pos()}
      ensures |Contents()| == if o.Pass? then old(|Contents()|) - 1 else old(|Contents()|)
    {
      if !Contains(node) {
        assert old(Contents()) - {node.Pos()} == old(Contents());
        return Fail(NodeNotFound);
      }
      var index := nodeToIndex[node.Pos()];
      ghost var e0 := Entries(heap, nodeToIndex);
      DropSlot(index, node.Pos());
      if index < |heap| {
        Resift(index);
      }
      assert Contents() == e0 - {node.Pos()};
      o := Pass;
    }

    /** Removes and returns the node with the least key; EmptyHeap when empty. */
    method Pop() returns (r: Result<Node>)
      requires Valid()
      modifies this
      ensures Valid()
      ensures r == old(Top())
      ensures r.Ok? ==> Contents() == old(Contents()) - {r.value.Pos()} && |Contents()| == old(|Contents()|) - 1
      ensures r.Err? ==> Contents() == old(Contents())
    {
      if IsEmpty() {
        return Err(EmptyHeap);
      }
      var topNode := Top().value;
      var _ := Remove(topNode);
      r := Ok(topNode);
    }

    /** Gives `node`'s record the key `newKey`; NodeNotFound when it is not queued. */
    method Update(node: Node, newKey: Key) returns (o: Outcome)
      requires Valid()
      modifies this
      ensures Valid()
      ensures o == (if node.Pos() in old(Contents()) then Pass else Fail(NodeNotFound))
      ensures o.Pass? ==> Contents() == old(Contents())[node.Pos() := HeapNode(old(Contents())[node.Pos()].node, newKey)]
      ensures o.Fail? ==> Contents() == old(Contents())
    {
      if !Contains(node) {
        return Fail(NodeNotFound);
      }
      var index := nodeToIndex[node.Pos()];
      RekeyKeepsIndex(heap, nodeToIndex, index, newKey);
      ReplaceOneIsOrderedAway(heap, index, HeapNode(heap[index].node, newKey));
      heap := heap[index := HeapNode(heap[index].node, newKey)];
      Resift(index);
      o := Pass;
    }

    /** Empties the heap and its index. */
    method Reset()
      requires Valid()
      modifies this
      ensures Valid() && Contents() == map[]
    {
      heap := [];
      nodeToIndex := map[];
    }
  }

  /** The keys are in non-decreasing order. */
  ghost predicate SortedKeys(keys: seq<Key>) {
    forall i, j :: 0 <= i < j < |keys| ==> LessEq(keys[i], keys[j])
  }

  /** No key of `keys` is above a key still queued in `m`. */
  ghost predicate KeysNotAbove(keys: seq<Key>, m: map<Pos, HeapNode>) {
    forall i, q :: 0 <= i < |keys| && q in m ==> LessEq(keys[i], m[q].key)
  }

  /** Appending the least queued key and removing its entry keeps the drained keys sorted. */
  lemma DrainStep(keys: seq<Key>, before: map<Pos, HeapNode>, p: Pos)
    requires SortedKeys(keys) && KeysNotAbove(keys, before) && p in before
    requires forall q :: q in before ==> LessEq(before[p].key, before[q].key)
    ensures SortedKeys(keys + [before[p].key]) && KeysNotAbove(keys + [before[p].key], before - {p})
  {
    var keys' := keys + [before[p].key];
    forall i, j | 0 <= i < j < |keys'|
      ensures LessEq(keys'[i], keys'[j])
    {
      if j < |keys| {
        assert keys'[i] == keys[i] && keys'[j] == keys[j];
      }
    }
  }

  /**
   * `keys` and `ps` are what popping the positions `ps` from contents `c0`
   * collected, and `rest` is what is left: each popped position once, with
   * its own key, and the rest unchanged.
   */
  ghost predicate Drained(c0: map<Pos, HeapNode>, rest: map<Pos, HeapNode>, keys: seq<Key>, ps: seq<Pos>) {
    && |keys| == |ps| && |keys| + |rest| == |c0|
    && (forall i, j :: 0 <= i < j < |ps| ==> ps[i] != ps[j])
    && (forall i :: 0 <= i < |ps| ==> ps[i] in c0 && keys[i] == c0[ps[i]].key)
    && (forall p :: p in rest <==> p in c0 && p !in ps)
    && (forall p :: p in rest ==> rest[p] == c0[p])
  }

  /** Popping one more queued position extends the drained record by it. */
  lemma DrainedStep(c0: map<Pos, HeapNode>, rest: map<Pos, HeapNode>, keys: seq<Key>, ps: seq<Pos>, p: Pos)
    requires Drained(c0, rest, keys, ps) && p in rest
    ensures Drained(c0, rest - {p}, keys + [rest[p].key], ps + [p])
  {
    var ps' := ps + [p];
    forall i, j | 0 <= i < j < |ps'|
      ensures ps'[i] != ps'[j]
    {
      if j < |ps| {
        assert ps'[i] == ps[i] && ps'[j] == ps[j];
      } else {
        assert ps'[i] == ps[i] && ps[i] in ps;
      }
    }
  }

  /**
   * Pops until empty, collecting each top key: every queued position comes
   * out exactly once, with its own key, and the keys are in non-decreasing order.
   */
  method PopAllKeys(h: MinHeapMap) returns (keys: seq<Key>, ghost ps: seq<Pos>)
    requires h.Valid()
    modifies h
    ensures h.Valid() && h.Contents() == map[]
    ensures |keys| == |ps| == old(|h.Contents()|)
    ensures forall i, j :: 0 <= i < j < |ps| ==> ps[i] != ps[j]
    ensures forall p :: p in ps <==> p in old(h.Contents())
    ensures forall i :: 0 <= i < |ps| ==> ps[i] in old(h.Contents()) && keys[i] == old(h.Contents())[ps[i]].key
    ensures SortedKeys(keys)
  {
    keys := [];
    ps := [];
    ghost var c0 := h.Contents();
    while !h.IsEmpty()
      invariant h.Valid()
      invariant Drained(c0, h.Contents(), keys, ps)
      invariant SortedKeys(keys) && KeysNotAbove(keys, h.Contents())
      decreases |h.Contents()|
    {
      ghost var before := h.Contents();
      ghost var t := h.Top().value;
      var k := h.TopKey().value;
      DrainStep(keys, before, t.Pos());
      DrainedStep(c0, before, keys, ps, t.Pos());
      var popped := h.Pop();
      keys := keys + [k];
      ps := ps + [t.Pos()];
    }
  }
}
