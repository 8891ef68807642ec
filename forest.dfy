/**
 * The edge table read as a forest: ranks that witness acyclicity, the set of
 * descendants of a block, and the edge deletion used by the cascading delete.
 */
module Forest {
  import opened Store
  import opened Positions

  /** `h` ranks blocks so that every child ranks strictly below its parent. */
  ghost predicate Ranked(e: Edges, h: BlockId -> nat) {
    forall l :: l in e ==> h(l.child) < h(l.parent)
  }

  /** No block is its own ancestor: the edges admit a ranking. */
  ghost predicate Acyclic(e: Edges) {
    exists h :: Ranked(e, h)
  }

  /** A ranking of acyclic edges, chosen once per edge table. */
  ghost function RankOf(e: Edges): (h: BlockId -> nat)
    requires Acyclic(e)
    ensures Ranked(e, h)
  {
    var h :| Ranked(e, h); h
  }

  /** `SELECT child_block_id FROM block_content_association WHERE parent_block_id = x` */
  function ChildIds(e: Edges, x: BlockId): set<BlockId> {
    set l | l in e && l.parent == x :: l.child
  }

  /** `DELETE FROM block_content_association WHERE parent_block_id IN s OR child_block_id IN s` */
  function Strip(e: Edges, s: set<BlockId>): Edges {
    map l | l in e && l.parent !in s && l.child !in s :: e[l]
  }

  /** Every block reachable from `x` through one or more edges. */
  ghost function Descendants(e: Edges, x: BlockId, h: BlockId -> nat): set<BlockId>
    requires Ranked(e, h)
    decreases h(x)
  {
    set l, d | l in e && l.parent == x && d in {l.child} + Descendants(e, l.child, h) :: d
  }

  /** The descendants of `x` under the ranking chosen for `e`. */
  ghost function DescendantsOf(e: Edges, x: BlockId): set<BlockId>
    requires Acyclic(e)
  {
    Descendants(e, x, RankOf(e))
  }

  /** The blocks of `cs` together with all their descendants. */
  ghost function Below(e: Edges, cs: set<BlockId>, h: BlockId -> nat): set<BlockId>
    requires Ranked(e, h)
  {
    set c, d | c in cs && d in {c} + Descendants(e, c, h) :: d
  }

  /** Following an edge out of `s` never leaves `s`. */
  ghost predicate Closed(e: Edges, s: set<BlockId>) {
    forall l :: l in e && l.parent in s ==> l.child in s
  }

  /** Every descendant ranks strictly below its ancestor; in particular no block is its own descendant. */
  lemma {:induction false} DescendantsRankBelow(e: Edges, x: BlockId, h: BlockId -> nat)
    requires Ranked(e, h)
    ensures forall d :: d in Descendants(e, x, h) ==> h(d) < h(x)
    decreases h(x)
  {
    forall d | d in Descendants(e, x, h) ensures h(d) < h(x) {
      var l :| l in e && l.parent == x && d in {l.child} + Descendants(e, l.child, h);
      if d != l.child {
        DescendantsRankBelow(e, l.child, h);
      }
    }
  }

  /** A descendant's descendants are descendants. */
  lemma {:induction false} DescendantsTransitive(e: Edges, x: BlockId, h: BlockId -> nat)
    requires Ranked(e, h)
    ensures forall d :: d in Descendants(e, x, h) ==> Descendants(e, d, h) <= Descendants(e, x, h)
    decreases h(x)
  {
    forall d | d in Descendants(e, x, h) ensures Descendants(e, d, h) <= Descendants(e, x, h) {
      var l :| l in e && l.parent == x && d in {l.child} + Descendants(e, l.child, h);
      forall y | y in Descendants(e, l.child, h) ensures y in Descendants(e, x, h) {
        assert y in {l.child} + Descendants(e, l.child, h);
      }
      if d != l.child {
        DescendantsTransitive(e, l.child, h);
      }
    }
  }

  /** The descendants of a block form a closed set. */
  lemma DescendantsClosed(e: Edges, x: BlockId, h: BlockId -> nat)
    requires Ranked(e, h)
    ensures Closed(e, Descendants(e, x, h))
  {
    DescendantsTransitive(e, x, h);
    forall l | l in e && l.parent in Descendants(e, x, h) ensures l.child in Descendants(e, x, h) {
      assert l.child in {l.child} + Descendants(e, l.child, h);
      assert l.child in Descendants(e, l.parent, h);
    }
  }

  /** A closed set that holds a block holds all its descendants. */
  lemma {:induction false} ClosedHoldsDescendants(e: Edges, h: BlockId -> nat, s: set<BlockId>, c: BlockId)
    requires Ranked(e, h) && Closed(e, s) && c in s
    ensures Descendants(e, c, h) <= s
    decreases h(c)
  {
    forall d | d in Descendants(e, c, h) ensures d in s {
      var l :| l in e && l.parent == c && d in {l.child} + Descendants(e, l.child, h);
      if d != l.child {
        ClosedHoldsDescendants(e, h, s, l.child);
      }
    }
  }

  /** Deleting edges keeps a ranking and can only lose descendants. */
  lemma {:induction false} StripShrinksDescendants(e: Edges, h: BlockId -> nat, s: set<BlockId>, x: BlockId)
    requires Ranked(e, h)
    ensures Ranked(Strip(e, s), h)
    ensures Descendants(Strip(e, s), x, h) <= Descendants(e, x, h)
    decreases h(x)
  {
    var f := Strip(e, s);
    forall d | d in Descendants(f, x, h) ensures d in Descendants(e, x, h) {
      var l :| l in f && l.parent == x && d in {l.child} + Descendants(f, l.child, h);
      if d != l.child {
        StripShrinksDescendants(e, h, s, l.child);
      }
      assert d in {l.child} + Descendants(e, l.child, h);
    }
  }

  /**
   * Deleting the edges that touch a closed set `s` loses, below any block, only
   * descendants that are in `s` themselves.
   */
  lemma {:induction false} StripKeepsDescendantsOutside(e: Edges, h: BlockId -> nat, s: set<BlockId>, x: BlockId)
    requires Ranked(e, h) && Closed(e, s)
    ensures Ranked(Strip(e, s), h)
    ensures Descendants(e, x, h) <= Descendants(Strip(e, s), x, h) + s
    decreases h(x)
  {
    var f := Strip(e, s);
    forall d | d in Descendants(e, x, h) ensures d in Descendants(f, x, h) + s {
      var l :| l in e && l.parent == x && d in {l.child} + Descendants(e, l.child, h);
      if l.child in s {
        ClosedHoldsDescendants(e, h, s, l.child);
      } else {
        assert l in f;
        if d != l.child {
          StripKeepsDescendantsOutside(e, h, s, l.child);
          if d in Descendants(f, l.child, h) {
            assert d in {l.child} + Descendants(f, l.child, h);
          }
        } else {
          assert d in {l.child} + Descendants(f, l.child, h);
        }
      }
    }
  }

  /** A block's descendants are its children together with theirs. */
  lemma BelowChildren(e: Edges, x: BlockId, h: BlockId -> nat)
    requires Ranked(e, h)
    ensures Below(e, ChildIds(e, x), h) == Descendants(e, x, h)
  {
    forall d | d in Below(e, ChildIds(e, x), h) ensures d in Descendants(e, x, h) {
      var c :| c in ChildIds(e, x) && d in {c} + Descendants(e, c, h);
      var l :| l in e && l.parent == x && l.child == c;
      assert d in {l.child} + Descendants(e, l.child, h);
    }
    forall d | d in Descendants(e, x, h) ensures d in Below(e, ChildIds(e, x), h) {
      var l :| l in e && l.parent == x && d in {l.child} + Descendants(e, l.child, h);
      assert l.child in ChildIds(e, x);
    }
  }

  /** The blocks of a set together with their descendants form a closed set. */
  lemma BelowClosed(e: Edges, cs: set<BlockId>, h: BlockId -> nat)
    requires Ranked(e, h)
    ensures Closed(e, Below(e, cs, h))
  {
    forall l | l in e && l.parent in Below(e, cs, h) ensures l.child in Below(e, cs, h) {
      var c :| c in cs && l.parent in {c} + Descendants(e, c, h);
      DescendantsClosed(e, c, h);
      if l.parent == c {
        assert l.child in {l.child} + Descendants(e, l.child, h);
      }
      assert l.child in {c} + Descendants(e, c, h);
    }
  }

  /** Deleting edges keeps the edges acyclic. */
  lemma StripKeepsAcyclic(e: Edges, s: set<BlockId>)
    requires Acyclic(e)
    ensures Acyclic(Strip(e, s))
  {
    assert Ranked(Strip(e, s), RankOf(e));
  }

  /** Shifting positions down keeps the edges acyclic. */
  lemma ShiftDownKeepsAcyclic(e: Edges, p: BlockId, removed: int)
    requires Acyclic(e)
    ensures Acyclic(ShiftDown(e, p, removed))
  {
    assert Ranked(ShiftDown(e, p, removed), RankOf(e));
  }

  /** Hanging a new leaf `c` (a block no edge mentions) under another block keeps the edges acyclic. */
  lemma InsertLeafKeepsAcyclic(e: Edges, p: BlockId, c: BlockId, pos: int)
    requires Acyclic(e)
    requires c != p
    requires forall l :: l in e ==> l.parent != c && l.child != c
    ensures Acyclic(InsertAt(e, p, c, pos))
  {
    var h := RankOf(e);
    var h' := (x: BlockId) => if x == c then 0 else h(x) + 1;
    assert Ranked(InsertAt(e, p, c, pos), h');
  }

  /** Every descendant of `x` is the child of an edge whose parent is `x` or another descendant of `x`. */
  lemma {:induction false} DescendantsHaveParentInside(e: Edges, x: BlockId, h: BlockId -> nat, d: BlockId)
    requires Ranked(e, h) && d in Descendants(e, x, h)
    ensures exists m :: m in e && m.child == d && m.parent in {x} + Descendants(e, x, h)
    decreases h(x)
  {
    var l :| l in e && l.parent == x && d in {l.child} + Descendants(e, l.child, h);
    if d == l.child {
      assert l.parent in {x} + Descendants(e, x, h);
    } else {
      DescendantsHaveParentInside(e, l.child, h, d);
      var m :| m in e && m.child == d && m.parent in {l.child} + Descendants(e, l.child, h);
      assert l.child in Descendants(e, x, h) by {
        assert l.child in {l.child} + Descendants(e, l.child, h);
      }
      DescendantsTransitive(e, x, h);
      assert m.parent in {x} + Descendants(e, x, h);
    }
  }

  /**
   * In a forest the only edge that enters the subtree of `x` from outside is the edge
   * into `x` itself.
   */
  lemma OnlyRootEdgeEntersSubtree(e: Edges, h: BlockId -> nat, x: BlockId, m: Link)
    requires Ranked(e, h) && SingleParent(e)
    requires m in e && m.parent !in {x} + Descendants(e, x, h)
    requires m.child in {x} + Descendants(e, x, h)
    ensures m.child == x
  {
    if m.child != x {
      DescendantsHaveParentInside(e, x, h, m.child);
    }
  }

  /**
   * Deleting the subtree of `x` (the cascade: every edge touching `x` or a descendant)
   * leaves the children of a block outside the subtree as they were, less `x`.
   */
  lemma CascadeSiblings(e: Edges, h: BlockId -> nat, x: BlockId, q: BlockId)
    requires Ranked(e, h) && SingleParent(e)
    requires q !in {x} + Descendants(e, x, h)
    ensures Siblings(Strip(e, {x} + Descendants(e, x, h)), q) == Siblings(e, q) - {Link(q, x)}
  {
    var gone := {x} + Descendants(e, x, h);
    var lhs := Siblings(Strip(e, gone), q);
    var rhs := Siblings(e, q) - {Link(q, x)};
    forall m | m in e && m.parent == q && m.child in gone ensures m == Link(q, x) {
      OnlyRootEdgeEntersSubtree(e, h, x, m);
    }
    assert forall m :: m in lhs <==> m in rhs;
    assert forall m :: m in lhs ==> lhs[m] == rhs[m];
  }

  /** Below the subtree of `x`, no block keeps a child once the subtree is deleted. */
  lemma CascadeEmptiesSubtree(e: Edges, h: BlockId -> nat, x: BlockId, q: BlockId)
    requires Ranked(e, h)
    requires q in {x} + Descendants(e, x, h)
    ensures Siblings(Strip(e, {x} + Descendants(e, x, h)), q) == map[]
  {
  }

  /** `x`'s parent (the parent of edge `l`) is outside the subtree of `x`. */
  lemma ParentOutsideSubtree(e: Edges, h: BlockId -> nat, l: Link)
    requires Ranked(e, h) && l in e
    ensures l.parent !in {l.child} + Descendants(e, l.child, h)
  {
    DescendantsRankBelow(e, l.child, h);
  }

  /** After the cascade below edge `l`, the parent of `l` is contiguous as after detaching `l`. */
  lemma CascadeKeepsParentContiguous(e: Edges, h: BlockId -> nat, l: Link)
    requires Ranked(e, h) && SingleParent(e) && Contiguous(e, l.parent)
    requires l in e
    ensures Contiguous(ShiftDown(Strip(e, {l.child} + Descendants(e, l.child, h)), l.parent, e[l]), l.parent)
  {
    var q := l.parent;
    var s := Strip(e, {l.child} + Descendants(e, l.child, h));
    ParentOutsideSubtree(e, h, l);
    CascadeSiblings(e, h, l.child, q);
    assert Siblings(s, q) == Siblings(e - {l}, q);
    ShiftDownBySiblings(s, e - {l}, q, e[l], q);
    DetachKeepsContiguous(e, l);
    ContiguousBySiblings(ShiftDown(s, q, e[l]), Detach(e, l), q);
  }

  /** After the cascade below edge `l`, a block outside the subtree other than `l`'s parent keeps its children. */
  lemma CascadeKeepsOtherContiguous(e: Edges, h: BlockId -> nat, l: Link, q: BlockId)
    requires Ranked(e, h) && SingleParent(e) && Contiguous(e, q)
    requires l in e && q != l.parent && q !in {l.child} + Descendants(e, l.child, h)
    ensures Contiguous(ShiftDown(Strip(e, {l.child} + Descendants(e, l.child, h)), l.parent, e[l]), q)
  {
    CascadeSiblings(e, h, l.child, q);
    assert Link(q, l.child) !in e;
    RemovalElsewhereKeepsContiguous(e, {l.child} + Descendants(e, l.child, h), l, q);
  }

  /** Removing edges that leave `q`'s children alone, then closing a gap elsewhere, keeps `q` contiguous. */
  lemma RemovalElsewhereKeepsContiguous(e: Edges, gone: set<BlockId>, l: Link, q: BlockId)
    requires l in e && q != l.parent && Contiguous(e, q)
    requires Link(q, l.child) !in e
    requires Siblings(Strip(e, gone), q) == Siblings(e, q) - {Link(q, l.child)}
    ensures Contiguous(ShiftDown(Strip(e, gone), l.parent, e[l]), q)
  {
    var s := Strip(e, gone);
    assert Siblings(s, q) == Siblings(e, q);
    ShiftDownBySiblings(s, e, l.parent, e[l], q);
    ContiguousBySiblings(ShiftDown(s, l.parent, e[l]), e, q);
  }

  /**
   * Deleting the subtree of a child and closing the gap it leaves under its parent
   * keeps every parent's children contiguous.
   */
  lemma CascadeKeepsOrdered(e: Edges, h: BlockId -> nat, l: Link)
    requires Ranked(e, h) && SingleParent(e) && Ordered(e)
    requires l in e
    ensures Ordered(ShiftDown(Strip(e, {l.child} + Descendants(e, l.child, h)), l.parent, e[l]))
  {
    var gone := {l.child} + Descendants(e, l.child, h);
    var s := Strip(e, gone);
    var e' := ShiftDown(s, l.parent, e[l]);
    forall q ensures Contiguous(e', q) {
      if q in gone {
        CascadeEmptiesSubtree(e, h, l.child, q);
        ShiftDownBySiblings(s, map[], l.parent, e[l], q);
        NoChildrenContiguous(e', q);
      } else if q == l.parent {
        assert Contiguous(e, q);
        CascadeKeepsParentContiguous(e, h, l);
      } else {
        assert Contiguous(e, q);
        CascadeKeepsOtherContiguous(e, h, l, q);
      }
    }
  }

  /** Deleting the subtree of a block without a parent keeps every parent's children contiguous. */
  lemma CascadeOfRootKeepsOrdered(e: Edges, h: BlockId -> nat, x: BlockId)
    requires Ranked(e, h) && SingleParent(e) && Ordered(e)
    requires forall l :: l in e ==> l.child != x
    ensures Ordered(Strip(e, {x} + Descendants(e, x, h)))
  {
    var gone := {x} + Descendants(e, x, h);
    var s := Strip(e, gone);
    forall q ensures Contiguous(s, q) {
      if q in gone {
        CascadeEmptiesSubtree(e, h, x, q);
        NoChildrenContiguous(s, q);
      } else {
        CascadeSiblings(e, h, x, q);
        assert Siblings(s, q) == Siblings(e, q);
        assert Contiguous(e, q);
        ContiguousBySiblings(s, e, q);
      }
    }
  }

  /** `DELETE FROM block_content_association WHERE child_block_id = x` */
  function DropIncoming(e: Edges, x: BlockId): Edges {
    map l | l in e && l.child != x :: e[l]
  }

  /** Deleting edges in two rounds deletes the edges of both sets. */
  lemma StripTwice(e: Edges, a: set<BlockId>, b: set<BlockId>)
    ensures Strip(Strip(e, a), b) == Strip(e, a + b)
  {
  }

  /** Adding a block to `cs` adds it and its descendants to the blocks below `cs`. */
  lemma BelowInsert(e: Edges, cs: set<BlockId>, c: BlockId, h: BlockId -> nat)
    requires Ranked(e, h)
    ensures Below(e, cs + {c}, h) == Below(e, cs, h) + ({c} + Descendants(e, c, h))
  {
    forall d | d in Below(e, cs, h) + ({c} + Descendants(e, c, h)) ensures d in Below(e, cs + {c}, h) {
      if d !in Below(e, cs, h) {
        assert c in cs + {c} && d in {c} + Descendants(e, c, h);
      }
    }
  }

  /** When every child of `x` is in `d`, removing `d`'s edges and then those into `x` removes the edges of `{x} + d`. */
  lemma DropIncomingAfterChildren(e: Edges, x: BlockId, d: set<BlockId>)
    requires forall l :: l in e && l.parent == x ==> l.child in d
    ensures DropIncoming(Strip(e, d), x) == Strip(e, {x} + d)
  {
    var lhs := DropIncoming(Strip(e, d), x);
    var rhs := Strip(e, {x} + d);
    assert forall l :: l in lhs <==> l in rhs;
  }

  /**
   * Once the descendants of `x` are gone, removing the edges into `x` leaves exactly the
   * edges that touch neither `x` nor a descendant.
   */
  lemma DropIncomingAfterDescendants(e: Edges, x: BlockId, h: BlockId -> nat)
    requires Ranked(e, h)
    ensures DropIncoming(Strip(e, Descendants(e, x, h)), x) == Strip(e, {x} + Descendants(e, x, h))
  {
    forall l | l in e && l.parent == x ensures l.child in Descendants(e, x, h) {
      assert l.child in {l.child} + Descendants(e, l.child, h);
    }
    DropIncomingAfterChildren(e, x, Descendants(e, x, h));
  }
}
