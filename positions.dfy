/**
 * The position index: each edge row carries the `position` of its child among the
 * children of its parent. Insertions open a slot with one range update, removals close
 * the gap with another; this module states the updates and proves that, used as the
 * repository uses them, they keep every parent's positions exactly 0..n-1.
 */
module Positions {
  import opened Store

  /** The edge rows under parent `p`. */
  function ChildLinks(e: Edges, p: BlockId): set<Link> {
    set l | l in e && l.parent == p
  }

  /** The edge rows under parent `p`, with their positions. */
  function Siblings(e: Edges, p: BlockId): map<Link, int> {
    map l | l in e && l.parent == p :: e[l]
  }

  /** The positions in use under parent `p`. */
  function PositionsUnder(e: Edges, p: BlockId): set<int> {
    set l | l in e && l.parent == p :: e[l]
  }

  /** `UPDATE block_content_association SET position = position + 1 WHERE parent_block_id = p AND position >= from` */
  function ShiftUp(e: Edges, p: BlockId, from: int): Edges {
    map l | l in e :: if l.parent == p && e[l] >= from then e[l] + 1 else e[l]
  }

  /** `UPDATE block_content_association SET position = position - 1 WHERE parent_block_id = p AND position > removed` */
  function ShiftDown(e: Edges, p: BlockId, removed: int): Edges {
    map l | l in e :: if l.parent == p && e[l] > removed then e[l] - 1 else e[l]
  }

  /** Opening a slot at `pos` under `p`, then inserting the edge (p, c) there. */
  function InsertAt(e: Edges, p: BlockId, c: BlockId, pos: int): Edges {
    ShiftUp(e, p, pos)[Link(p, c) := pos]
  }

  /** Removing the edge `l`, then closing the gap it leaves under its parent. */
  function Detach(e: Edges, l: Link): Edges
    requires l in e
  {
    ShiftDown(e - {l}, l.parent, e[l])
  }

  /** Some child of `p` sits at position `i`. */
  ghost predicate Occupied(e: Edges, p: BlockId, i: int) {
    exists l :: l in e && l.parent == p && e[l] == i
  }

  /** No two children of `p` share a position. */
  ghost predicate DistinctPositions(e: Edges, p: BlockId) {
    forall l, m :: l in e && m in e && l.parent == p && m.parent == p && e[l] == e[m] ==> l == m
  }

  /**
   * The children of `p` occupy exactly the positions 0..n-1, one child per position,
   * where n is their number.
   */
  ghost predicate Contiguous(e: Edges, p: BlockId) {
    var n := |ChildLinks(e, p)|;
    && (forall l :: l in e && l.parent == p ==> 0 <= e[l] < n)
    && (forall i :: 0 <= i < n ==> Occupied(e, p, i))
    && DistinctPositions(e, p)
  }

  /** Every parent's children are contiguous. */
  ghost predicate Ordered(e: Edges) {
    forall p :: Contiguous(e, p)
  }

  /** Contiguity is the statement "the positions under `p` are exactly {0, ..., n-1}, without duplicates". */
  lemma ContiguousIsInterval(e: Edges, p: BlockId)
    ensures Contiguous(e, p) <==>
      (forall i :: i in PositionsUnder(e, p) <==> 0 <= i < |ChildLinks(e, p)|) && DistinctPositions(e, p)
  {
    var n := |ChildLinks(e, p)|;
    if Contiguous(e, p) {
      forall i | 0 <= i < n ensures i in PositionsUnder(e, p) {
        assert Occupied(e, p, i);
      }
    }
    if (forall i :: i in PositionsUnder(e, p) <==> 0 <= i < n) && DistinctPositions(e, p) {
      forall l | l in e && l.parent == p ensures 0 <= e[l] < n {
        assert e[l] in PositionsUnder(e, p);
      }
      forall i | 0 <= i < n ensures Occupied(e, p, i) {
        assert i in PositionsUnder(e, p);
      }
    }
  }

  /** Shifting down from the same position undoes a shift up. */
  lemma ShiftDownUndoesShiftUp(e: Edges, p: BlockId, from: int)
    ensures ShiftDown(ShiftUp(e, p, from), p, from) == e
  {
    var r := ShiftDown(ShiftUp(e, p, from), p, from);
    forall l | l in e ensures r[l] == e[l] {
    }
  }

  /** Shifting up from a position nobody under `p` occupies undoes a shift down from it. */
  lemma ShiftUpUndoesShiftDown(e: Edges, p: BlockId, removed: int)
    requires !Occupied(e, p, removed)
    ensures ShiftUp(ShiftDown(e, p, removed), p, removed) == e
  {
    var r := ShiftUp(ShiftDown(e, p, removed), p, removed);
    forall l | l in e ensures r[l] == e[l] {
      if l.parent == p {
        assert e[l] != removed;
      }
    }
  }

  /** The shift up leaves position `from` free under `p`, provided positions under `p` were distinct. */
  lemma ShiftUpFreesSlot(e: Edges, p: BlockId, from: int)
    requires DistinctPositions(e, p)
    ensures !Occupied(ShiftUp(e, p, from), p, from)
    ensures DistinctPositions(ShiftUp(e, p, from), p)
  {
  }

  /** Contiguity under `p` depends only on the edges under `p`. */
  lemma ContiguousBySiblings(e1: Edges, e2: Edges, p: BlockId)
    requires Siblings(e1, p) == Siblings(e2, p)
    ensures Contiguous(e1, p) == Contiguous(e2, p)
  {
    assert ChildLinks(e1, p) == Siblings(e1, p).Keys;
    assert ChildLinks(e2, p) == Siblings(e2, p).Keys;
    forall l: Link | l.parent == p
      ensures (l in e1 <==> l in e2) && (l in e1 ==> e1[l] == e2[l])
    {
      if l in e1 { assert l in Siblings(e1, p); }
      if l in e2 { assert l in Siblings(e2, p); }
    }
    forall i ensures Occupied(e1, p, i) == Occupied(e2, p, i) {
      if Occupied(e1, p, i) {
        var l :| l in e1 && l.parent == p && e1[l] == i;
        assert l in e2 && e2[l] == i;
      }
      if Occupied(e2, p, i) {
        var l :| l in e2 && l.parent == p && e2[l] == i;
        assert l in e1 && e1[l] == i;
      }
    }
  }

  /** Inserting under `p` and shifting under `p` leave the children of every other parent alone. */
  lemma InsertAtLeavesOthers(e: Edges, p: BlockId, c: BlockId, pos: int, q: BlockId)
    requires q != p
    ensures Siblings(InsertAt(e, p, c, pos), q) == Siblings(e, q)
  {
  }

  /** Detaching an edge leaves the children of every parent other than its own alone. */
  lemma DetachLeavesOthers(e: Edges, l: Link, q: BlockId)
    requires l in e && q != l.parent
    ensures Siblings(Detach(e, l), q) == Siblings(e, q)
  {
  }

  /**
   * Insertion at an in-range position keeps the parent's children contiguous: the
   * new child sits at `pos`, the former children below `pos` keep their positions and
   * those at `pos` or above move up by one.
   */
  lemma {:induction false} InsertKeepsContiguous(e: Edges, p: BlockId, c: BlockId, pos: int)
    requires Contiguous(e, p)
    requires Link(p, c) !in e
    requires 0 <= pos <= |ChildLinks(e, p)|
    ensures |ChildLinks(InsertAt(e, p, c, pos), p)| == |ChildLinks(e, p)| + 1
    ensures Contiguous(InsertAt(e, p, c, pos), p)
  {
    var e' := InsertAt(e, p, c, pos);
    var n := |ChildLinks(e, p)|;
    assert ChildLinks(e', p) == ChildLinks(e, p) + {Link(p, c)};
    InsertedInRange(e, p, c, pos);
    InsertedDistinct(e, p, c, pos);
    InsertedOccupied(e, p, c, pos);
  }

  /** After the insertion every child of `p` sits in 0..n, for the n children before it. */
  lemma InsertedInRange(e: Edges, p: BlockId, c: BlockId, pos: int)
    requires Contiguous(e, p)
    requires 0 <= pos <= |ChildLinks(e, p)|
    ensures forall l :: l in InsertAt(e, p, c, pos) && l.parent == p ==>
      0 <= InsertAt(e, p, c, pos)[l] < |ChildLinks(e, p)| + 1
  {
    var e' := InsertAt(e, p, c, pos);
    forall l | l in e' && l.parent == p ensures 0 <= e'[l] < |ChildLinks(e, p)| + 1 {
      if l != Link(p, c) {
        assert l in e;
      }
    }
  }

  /** After the insertion no two children of `p` share a position. */
  lemma InsertedDistinct(e: Edges, p: BlockId, c: BlockId, pos: int)
    requires Contiguous(e, p)
    requires Link(p, c) !in e
    requires 0 <= pos
    ensures DistinctPositions(InsertAt(e, p, c, pos), p)
  {
    var e' := InsertAt(e, p, c, pos);
    var added := Link(p, c);
    forall l, m | l in e' && m in e' && l.parent == p && m.parent == p && e'[l] == e'[m]
      ensures l == m
    {
      if l != added && m != added {
        assert l in e && m in e;
      }
    }
  }

  /** After the insertion every position 0..n holds a child of `p`. */
  lemma InsertedOccupied(e: Edges, p: BlockId, c: BlockId, pos: int)
    requires Contiguous(e, p)
    requires Link(p, c) !in e
    requires 0 <= pos <= |ChildLinks(e, p)|
    ensures forall i :: 0 <= i < |ChildLinks(e, p)| + 1 ==> Occupied(InsertAt(e, p, c, pos), p, i)
  {
    var e' := InsertAt(e, p, c, pos);
    forall i | 0 <= i < |ChildLinks(e, p)| + 1 ensures Occupied(e', p, i) {
      if i == pos {
        assert e'[Link(p, c)] == i;
      } else if i < pos {
        assert Occupied(e, p, i);
        var l :| l in e && l.parent == p && e[l] == i;
        assert e'[l] == i;
      } else {
        assert Occupied(e, p, i - 1);
        var l :| l in e && l.parent == p && e[l] == i - 1;
        assert e'[l] == i;
      }
    }
  }

  /**
   * Detaching a child keeps its parent's remaining children contiguous: the children
   * above the removed position move down by one, the others keep their positions.
   */
  lemma {:induction false} DetachKeepsContiguous(e: Edges, l: Link)
    requires l in e
    requires Contiguous(e, l.parent)
    ensures |ChildLinks(Detach(e, l), l.parent)| == |ChildLinks(e, l.parent)| - 1
    ensures Contiguous(Detach(e, l), l.parent)
  {
    var p, q := l.parent, e[l];
    var e' := Detach(e, l);
    var n := |ChildLinks(e, p)|;
    assert ChildLinks(e', p) == ChildLinks(e, p) - {l};
    forall i | 0 <= i < n - 1 ensures Occupied(e', p, i) {
      if i < q {
        assert Occupied(e, p, i);
        var m :| m in e && m.parent == p && e[m] == i;
        assert m != l && e'[m] == i;
      } else {
        assert Occupied(e, p, i + 1);
        var m :| m in e && m.parent == p && e[m] == i + 1;
        assert m != l && e'[m] == i;
      }
    }
  }

  /**
   * Moving the child of `l` to position `pos` under `np` (detach, then insert) keeps
   * both the old and the new parent contiguous, including a reorder under one parent,
   * when `pos` is at most the destination's child count after detaching.
   */
  lemma {:induction false} MoveKeepsContiguous(e: Edges, l: Link, np: BlockId, pos: int)
    requires l in e
    requires Contiguous(e, l.parent) && Contiguous(e, np)
    requires Link(np, l.child) !in Detach(e, l)
    requires 0 <= pos <= |ChildLinks(Detach(e, l), np)|
    ensures Contiguous(InsertAt(Detach(e, l), np, l.child, pos), l.parent)
    ensures Contiguous(InsertAt(Detach(e, l), np, l.child, pos), np)
  {
    var d := Detach(e, l);
    DetachKeepsContiguous(e, l);
    if np != l.parent {
      DetachLeavesOthers(e, l, np);
      ContiguousBySiblings(d, e, np);
      InsertAtLeavesOthers(d, np, l.child, pos, l.parent);
      ContiguousBySiblings(InsertAt(d, np, l.child, pos), d, l.parent);
    }
    InsertKeepsContiguous(d, np, l.child, pos);
  }

  /** Insertion at an in-range position keeps every parent contiguous. */
  lemma InsertKeepsOrdered(e: Edges, p: BlockId, c: BlockId, pos: int)
    requires Ordered(e)
    requires Link(p, c) !in e
    requires 0 <= pos <= |ChildLinks(e, p)|
    ensures Ordered(InsertAt(e, p, c, pos))
  {
    forall q ensures Contiguous(InsertAt(e, p, c, pos), q) {
      if q == p {
        InsertKeepsContiguous(e, p, c, pos);
      } else {
        assert Contiguous(e, q);
        InsertAtLeavesOthers(e, p, c, pos, q);
        ContiguousBySiblings(InsertAt(e, p, c, pos), e, q);
      }
    }
  }

  /** Detaching any edge keeps every parent contiguous. */
  lemma DetachKeepsOrdered(e: Edges, l: Link)
    requires l in e
    requires Ordered(e)
    ensures Ordered(Detach(e, l))
  {
    forall q ensures Contiguous(Detach(e, l), q) {
      assert Contiguous(e, q);
      if q == l.parent {
        DetachKeepsContiguous(e, l);
      } else {
        DetachLeavesOthers(e, l, q);
        ContiguousBySiblings(Detach(e, l), e, q);
      }
    }
  }

  /** Shifting under `p` treats equal sibling maps alike, and leaves other parents' children alone. */
  lemma ShiftDownBySiblings(e1: Edges, e2: Edges, p: BlockId, removed: int, q: BlockId)
    requires Siblings(e1, q) == Siblings(e2, q)
    ensures Siblings(ShiftDown(e1, p, removed), q) == Siblings(ShiftDown(e2, p, removed), q)
    ensures q != p ==> Siblings(ShiftDown(e1, p, removed), q) == Siblings(e1, q)
  {
    forall l: Link | l.parent == q ensures (l in e1 <==> l in e2) && (l in e1 ==> e1[l] == e2[l]) {
      if l in e1 { assert l in Siblings(e1, q); }
      if l in e2 { assert l in Siblings(e2, q); }
    }
  }

  /** A parent without children is trivially contiguous. */
  lemma NoChildrenContiguous(e: Edges, q: BlockId)
    requires Siblings(e, q) == map[]
    ensures Contiguous(e, q)
  {
    assert forall l :: l in e && l.parent == q ==> l in Siblings(e, q);
    assert ChildLinks(e, q) == {};
  }
}
