/**
 * The block repository: the queries that read blocks and their place in the tree, and
 * the `BlockRepository` class whose methods change the blocks and edge tables, one
 * transaction per method.
 */
module BlockRepository {
  import opened Wrappers
  import opened Store
  import opened Positions
  import opened Forest
  import opened Ordering

  /** A block as the repository reports it: its columns plus its parent and position. */
  datatype BlockView = BlockView(
    id: BlockId,
    kind: BlockType,
    properties: Properties,
    workspace: WorkspaceId,
    parent: Option<BlockId>,
    position: int)

  /** A block with its immediate children (`get_block_with_content`). */
  datatype BlockWithContent = BlockWithContent(block: BlockView, content: seq<BlockView>)

  /** A block with its children expanded to every depth (`get_blocks_tree`). */
  datatype Tree = Tree(block: BlockView, content: seq<Tree>)

  /** The columns of row `b` of block `id`, reported with the given parent and position. */
  function RowView(id: BlockId, b: Block, parent: Option<BlockId>, position: int): BlockView {
    BlockView(id, b.kind, b.properties, b.workspace, parent, position)
  }

  /**
   * `_get_block_position`: the (parent, position) of an edge whose child is `id`, or
   * None for a block without a parent.
   */
  ghost function GetBlockPosition(e: Edges, id: BlockId): (r: Option<(BlockId, int)>)
    ensures r.None? <==> forall l :: l in e ==> l.child != id
    ensures r.Some? ==> Link(r.value.0, id) in e && e[Link(r.value.0, id)] == r.value.1
  {
    if exists l :: l in e && l.child == id then
      var l :| l in e && l.child == id;
      Some((l.parent, e[l]))
    else
      None
  }

  /** In a forest the position lookup finds the one edge into the block. */
  lemma PositionIsParentEdge(e: Edges, l: Link)
    requires SingleParent(e) && l in e
    ensures GetBlockPosition(e, l.child) == Some((l.parent, e[l]))
  {
  }

  /** Block `id` with the parent and position that `_get_block_position` finds, (None, 0) for a root. */
  ghost function ViewOf(t: Tables, id: BlockId): BlockView
    requires id in t.blocks
  {
    match GetBlockPosition(t.edges, id)
    case Some(pp) => RowView(id, t.blocks[id], Some(pp.0), pp.1)
    case None => RowView(id, t.blocks[id], None, 0)
  }

  /** `get_block`: a live block with its parent and position; None for an absent or soft-deleted one. */
  ghost function GetBlock(t: Tables, id: BlockId): (r: Option<BlockView>)
    ensures r.Some? <==> IsLive(t, id)
    ensures r.Some? ==> r.value == RowView(id, t.blocks[id], r.value.parent, r.value.position)
    ensures r.Some? && r.value.parent.Some? ==>
      Link(r.value.parent.value, id) in t.edges && t.edges[Link(r.value.parent.value, id)] == r.value.position
    ensures r.Some? && r.value.parent.None? ==>
      r.value.position == 0 && forall l :: l in t.edges ==> l.child != id
  {
    if IsLive(t, id) then Some(ViewOf(t, id)) else None
  }

  /** The edge rows under `p` whose child is live and, when `ws` is given, belongs to workspace `ws`. */
  ghost function LiveChildLinks(t: Tables, p: BlockId, ws: Option<WorkspaceId>): set<Link> {
    set l | l in t.edges && l.parent == p && IsLive(t, l.child)
      && (ws.None? || t.blocks[l.child].workspace == ws.value)
  }

  /** The key that orders edge rows by position. */
  function PositionKey(e: Edges): Link -> int {
    (l: Link) => if l in e then e[l] else 0
  }

  /** The rows of `LiveChildLinks`, each once, in ascending position. */
  ghost function OrderedChildLinks(t: Tables, p: BlockId, ws: Option<WorkspaceId>): (ls: seq<Link>)
    ensures |ls| == |LiveChildLinks(t, p, ws)|
    ensures forall i :: 0 <= i < |ls| ==> ls[i] in LiveChildLinks(t, p, ws)
    ensures forall l :: l in LiveChildLinks(t, p, ws) ==> l in ls
    ensures forall i, j :: 0 <= i < j < |ls| ==> ls[i] != ls[j]
    ensures forall i, j :: 0 <= i < j < |ls| ==> t.edges[ls[i]] <= t.edges[ls[j]]
  {
    var ls := SortedBy(LiveChildLinks(t, p, ws), PositionKey(t.edges));
    ls
  }

  /** Each edge row of `ls` reported as its child block with that parent and position. */
  ghost function LinkViews(t: Tables, ls: seq<Link>): (r: seq<BlockView>)
    requires forall i :: 0 <= i < |ls| ==> ls[i] in t.edges && ls[i].child in t.blocks
    ensures |r| == |ls|
    ensures forall i :: 0 <= i < |ls| ==>
      r[i] == RowView(ls[i].child, t.blocks[ls[i].child], Some(ls[i].parent), t.edges[ls[i]])
  {
    if ls == [] then []
    else [RowView(ls[0].child, t.blocks[ls[0].child], Some(ls[0].parent), t.edges[ls[0]])] + LinkViews(t, ls[1..])
  }

  /** The views of the child rows under `p` report live children of `p`, with the edge's position. */
  lemma ChildRowsReported(t: Tables, p: BlockId, ws: Option<WorkspaceId>, ls: seq<Link>, r: seq<BlockView>)
    requires forall i :: 0 <= i < |ls| ==> ls[i] in LiveChildLinks(t, p, ws)
    requires forall i :: 0 <= i < |ls| ==> ls[i] in t.edges && ls[i].child in t.blocks
    requires |r| == |ls|
    requires forall i :: 0 <= i < |ls| ==>
      r[i] == RowView(ls[i].child, t.blocks[ls[i].child], Some(ls[i].parent), t.edges[ls[i]])
    ensures forall i :: 0 <= i < |r| ==> ls[i] == Link(p, r[i].id)
    ensures forall i :: 0 <= i < |r| ==>
      && Link(p, r[i].id) in t.edges && IsLive(t, r[i].id)
      && r[i] == RowView(r[i].id, t.blocks[r[i].id], Some(p), t.edges[Link(p, r[i].id)])
      && (ws.Some? ==> r[i].workspace == ws.value)
  {
    forall i | 0 <= i < |r| ensures ls[i] == Link(p, r[i].id) {
      assert ls[i] in LiveChildLinks(t, p, ws);
    }
  }

  /** Every live child row under `p` is reported by the view of the ordered rows. */
  lemma ChildRowsComplete(t: Tables, p: BlockId, ws: Option<WorkspaceId>, ls: seq<Link>, r: seq<BlockView>)
    requires forall l :: l in LiveChildLinks(t, p, ws) ==> l in ls
    requires |r| == |ls|
    requires forall i :: 0 <= i < |r| ==> ls[i] == Link(p, r[i].id)
    ensures forall c :: Link(p, c) in t.edges && IsLive(t, c) && (ws.None? || t.blocks[c].workspace == ws.value) ==>
      exists i :: 0 <= i < |r| && r[i].id == c
  {
    forall c | Link(p, c) in t.edges && IsLive(t, c) && (ws.None? || t.blocks[c].workspace == ws.value)
      ensures exists i :: 0 <= i < |r| && r[i].id == c
    {
      assert Link(p, c) in LiveChildLinks(t, p, ws);
      var i :| 0 <= i < |ls| && ls[i] == Link(p, c);
      assert r[i].id == c;
    }
  }

  /**
   * The children query shared by `get_block_children`, `get_block_with_content` and
   * `get_blocks_tree`: a JOIN of blocks and edges under `p`, only live children (and
   * only those of `ws` when given), ORDER BY position.
   */
  ghost function ChildViews(t: Tables, p: BlockId, ws: Option<WorkspaceId>): (r: seq<BlockView>)
    ensures |r| == |LiveChildLinks(t, p, ws)|
    ensures forall i :: 0 <= i < |r| ==>
      && Link(p, r[i].id) in t.edges && IsLive(t, r[i].id)
      && r[i] == RowView(r[i].id, t.blocks[r[i].id], Some(p), t.edges[Link(p, r[i].id)])
      && (ws.Some? ==> r[i].workspace == ws.value)
    ensures forall c :: Link(p, c) in t.edges && IsLive(t, c) && (ws.None? || t.blocks[c].workspace == ws.value) ==>
      exists i :: 0 <= i < |r| && r[i].id == c
    ensures forall i, j :: 0 <= i < j < |r| ==> r[i].id != r[j].id
    ensures forall i, j :: 0 <= i < j < |r| ==> r[i].position <= r[j].position
  {
    var ls := OrderedChildLinks(t, p, ws);
    var r := LinkViews(t, ls);
    ChildRowsReported(t, p, ws, ls, r);
    ChildRowsComplete(t, p, ws, ls, r);
    r
  }

  /** `get_block_children`: the children query without a workspace filter (see `ChildViews`). */
  ghost function GetBlockChildren(t: Tables, p: BlockId): seq<BlockView> {
    ChildViews(t, p, None)
  }

  /** `get_block_with_content`: a live block as `get_block` reports it, with its children one level deep. */
  ghost function GetBlockWithContent(t: Tables, id: BlockId): (r: Option<BlockWithContent>)
    ensures r.Some? <==> IsLive(t, id)
    ensures r.Some? ==> Some(r.value.block) == GetBlock(t, id) && r.value.content == GetBlockChildren(t, id)
  {
    if IsLive(t, id) then Some(BlockWithContent(ViewOf(t, id), ChildViews(t, id, None))) else None
  }

  /** The live blocks. */
  ghost function LiveIds(t: Tables): set<BlockId> {
    set b | b in t.blocks && t.blocks[b].deletedAt.None?
  }

  /** The `created_at` column of block `id` (0 for an absent row). */
  function CreatedAt(t: Tables, id: BlockId): Timestamp {
    if id in t.blocks then t.blocks[id].createdAt else 0
  }

  /** The key that orders block rows by descending `created_at`. */
  function NewestFirst(t: Tables): BlockId -> int {
    (b: BlockId) => 0 - CreatedAt(t, b)
  }

  /** Each block of `ids` as `get_block` reports it. */
  ghost function IdViews(t: Tables, ids: seq<BlockId>): (r: seq<BlockView>)
    requires forall i :: 0 <= i < |ids| ==> ids[i] in t.blocks
    ensures |r| == |ids|
    ensures forall i :: 0 <= i < |ids| ==> r[i] == ViewOf(t, ids[i])
  {
    if ids == [] then [] else [ViewOf(t, ids[0])] + IdViews(t, ids[1..])
  }

  /** Reporting the live ids, each once and newest first, gives the contract of `GetAll`. */
  lemma AllBlocksReported(t: Tables, ids: seq<BlockId>, r: seq<BlockView>)
    requires forall i :: 0 <= i < |ids| ==> ids[i] in LiveIds(t)
    requires forall b :: b in LiveIds(t) ==> b in ids
    requires forall i, j :: 0 <= i < j < |ids| ==> ids[i] != ids[j]
    requires forall i, j :: 0 <= i < j < |ids| ==> NewestFirst(t)(ids[i]) <= NewestFirst(t)(ids[j])
    requires |r| == |ids|
    requires forall i :: 0 <= i < |ids| ==> ids[i] in t.blocks && r[i] == ViewOf(t, ids[i])
    ensures forall i :: 0 <= i < |r| ==> IsLive(t, r[i].id) && GetBlock(t, r[i].id) == Some(r[i])
    ensures forall b :: IsLive(t, b) ==> exists i :: 0 <= i < |r| && r[i].id == b
    ensures forall i, j :: 0 <= i < j < |r| ==> r[i].id != r[j].id
    ensures forall i, j :: 0 <= i < j < |r| ==> CreatedAt(t, r[i].id) >= CreatedAt(t, r[j].id)
  {
    assert forall i :: 0 <= i < |r| ==> r[i].id == ids[i];
    forall b | IsLive(t, b) ensures exists i :: 0 <= i < |r| && r[i].id == b {
      assert b in LiveIds(t);
      var i :| 0 <= i < |ids| && ids[i] == b;
      assert r[i].id == b;
    }
  }

  /**
   * `get_all`: every live block once, as `get_block` reports it, newest `created_at`
   * first. The LEFT JOIN yields one row per incoming edge, so "once" needs one parent
   * per block.
   */
  ghost function GetAll(t: Tables): (r: seq<BlockView>)
    requires SingleParent(t.edges)
    ensures forall i :: 0 <= i < |r| ==> IsLive(t, r[i].id) && GetBlock(t, r[i].id) == Some(r[i])
    ensures forall b :: IsLive(t, b) ==> exists i :: 0 <= i < |r| && r[i].id == b
    ensures forall i, j :: 0 <= i < j < |r| ==> r[i].id != r[j].id
    ensures forall i, j :: 0 <= i < j < |r| ==> CreatedAt(t, r[i].id) >= CreatedAt(t, r[j].id)
  {
    var ids := SortedBy(LiveIds(t), NewestFirst(t));
    var r := IdViews(t, ids);
    AllBlocksReported(t, ids, r);
    r
  }

  /**
   * `_get_children_recursive`: the live children of `p` that belong to `ws`, in
   * ascending position, each expanded in the same way.
   */
  ghost function Subtrees(t: Tables, ws: WorkspaceId, p: BlockId): (r: seq<Tree>)
    requires Acyclic(t.edges)
    ensures |r| == |ChildViews(t, p, Some(ws))|
    ensures forall i :: 0 <= i < |r| ==> r[i].block == ChildViews(t, p, Some(ws))[i]
    decreases RankOf(t.edges)(p), 1
  {
    Expand(t, ws, p, ChildViews(t, p, Some(ws)))
  }

  /** Each child view of `cs` (all children of `p`) with its own subtree. */
  ghost function Expand(t: Tables, ws: WorkspaceId, p: BlockId, cs: seq<BlockView>): (r: seq<Tree>)
    requires Acyclic(t.edges)
    requires forall i :: 0 <= i < |cs| ==> Link(p, cs[i].id) in t.edges
    ensures |r| == |cs|
    ensures forall i :: 0 <= i < |r| ==> r[i] == Tree(cs[i], Subtrees(t, ws, cs[i].id))
    decreases RankOf(t.edges)(p), 0, |cs|
  {
    if cs == [] then []
    else [Tree(cs[0], Subtrees(t, ws, cs[0].id))] + Expand(t, ws, p, cs[1..])
  }

  /** The live blocks of `ws` without a parent edge. */
  ghost function Roots(t: Tables, ws: WorkspaceId): set<BlockId> {
    set b | b in t.blocks && t.blocks[b].deletedAt.None? && t.blocks[b].workspace == ws
      && forall l :: l in t.edges ==> l.child != b
  }

  /** Each root of `roots` reported with parent None and position 0, and expanded. */
  ghost function RootForest(t: Tables, ws: WorkspaceId, roots: seq<BlockId>): (r: seq<Tree>)
    requires Acyclic(t.edges)
    requires forall i :: 0 <= i < |roots| ==> roots[i] in t.blocks
    ensures |r| == |roots|
    ensures forall i :: 0 <= i < |roots| ==>
      r[i].block == RowView(roots[i], t.blocks[roots[i]], None, 0) && r[i].content == Subtrees(t, ws, roots[i])
  {
    seq(|roots|, i requires 0 <= i < |roots| => Tree(RowView(roots[i], t.blocks[roots[i]], None, 0), Subtrees(t, ws, roots[i])))
  }

  /** Reporting the roots each once gives the contract of `RootTrees`. */
  lemma RootsReported(t: Tables, ws: WorkspaceId, roots: seq<BlockId>, r: seq<Tree>)
    requires forall i :: 0 <= i < |roots| ==> roots[i] in Roots(t, ws)
    requires forall b :: b in Roots(t, ws) ==> b in roots
    requires forall i, j :: 0 <= i < j < |roots| ==> roots[i] != roots[j]
    requires |r| == |roots|
    requires forall i :: 0 <= i < |roots| ==> roots[i] in t.blocks && r[i].block.id == roots[i]
    ensures forall b :: b in Roots(t, ws) ==> exists i :: 0 <= i < |r| && r[i].block.id == b
    ensures forall i, j :: 0 <= i < j < |r| ==> r[i].block.id != r[j].block.id
  {
    forall b | b in Roots(t, ws) ensures exists i :: 0 <= i < |r| && r[i].block.id == b {
      var i :| 0 <= i < |roots| && roots[i] == b;
      assert r[i].block.id == b;
    }
  }

  /** The roots of `ws` in some order, each once, reported with parent None and position 0 and expanded. */
  ghost function RootTrees(t: Tables, ws: WorkspaceId): (r: seq<Tree>)
    requires Acyclic(t.edges)
    ensures |r| == |Roots(t, ws)|
    ensures forall i :: 0 <= i < |r| ==>
      && r[i].block.id in Roots(t, ws)
      && r[i].block == RowView(r[i].block.id, t.blocks[r[i].block.id], None, 0)
      && r[i].content == Subtrees(t, ws, r[i].block.id)
    ensures forall b :: b in Roots(t, ws) ==> exists i :: 0 <= i < |r| && r[i].block.id == b
    ensures forall i, j :: 0 <= i < j < |r| ==> r[i].block.id != r[j].block.id
  {
    var roots := SortedBy(Roots(t, ws), (b: BlockId) => 0);
    var r := RootForest(t, ws, roots);
    RootsReported(t, ws, roots, r);
    r
  }

  /**
   * `get_blocks_tree`: with a parent, the expanded children of that parent; without one,
   * the roots of `ws` (in an order the query leaves open), each expanded.
   */
  ghost function GetBlocksTree(t: Tables, ws: WorkspaceId, parent: Option<BlockId>): (r: seq<Tree>)
    requires Acyclic(t.edges)
    ensures parent.Some? ==>
      && |r| == |LiveChildLinks(t, parent.value, Some(ws))|
      && forall i :: 0 <= i < |r| ==>
        && Link(parent.value, r[i].block.id) in t.edges && IsLive(t, r[i].block.id)
        && r[i].block.parent == Some(parent.value) && r[i].block.workspace == ws
    ensures parent.None? ==>
      && |r| == |Roots(t, ws)|
      && (forall b :: b in Roots(t, ws) ==> exists i :: 0 <= i < |r| && r[i].block.id == b)
      && forall i :: 0 <= i < |r| ==> r[i].block.parent.None? && r[i].block.position == 0
  {
    if parent.Some? then Subtrees(t, ws, parent.value) else RootTrees(t, ws)
  }

  /** A tree whose every node is a live block of `ws` listed under its own parent. */
  ghost predicate NodesOf(t: Tables, ws: WorkspaceId, trees: seq<Tree>)
    decreases trees
  {
    forall i :: 0 <= i < |trees| ==>
      && IsLive(t, trees[i].block.id)
      && trees[i].block == RowView(trees[i].block.id, t.blocks[trees[i].block.id], trees[i].block.parent, trees[i].block.position)
      && trees[i].block.workspace == ws
      && (forall k :: 0 <= k < |trees[i].content| ==> trees[i].content[k].block.parent == Some(trees[i].block.id))
      && NodesOf(t, ws, trees[i].content)
  }

  /** `_get_children_recursive` reports, at every depth, only live blocks of `ws`, each under its parent. */
  lemma {:induction false} SubtreesStayInWorkspace(t: Tables, ws: WorkspaceId, p: BlockId)
    requires Acyclic(t.edges)
    ensures NodesOf(t, ws, Subtrees(t, ws, p))
    decreases RankOf(t.edges)(p)
  {
    var r := Subtrees(t, ws, p);
    var cs := ChildViews(t, p, Some(ws));
    forall i | 0 <= i < |r|
      ensures IsLive(t, r[i].block.id) && r[i].block.workspace == ws
      ensures r[i].block == RowView(r[i].block.id, t.blocks[r[i].block.id], r[i].block.parent, r[i].block.position)
      ensures forall k :: 0 <= k < |r[i].content| ==> r[i].content[k].block.parent == Some(r[i].block.id)
      ensures NodesOf(t, ws, r[i].content)
    {
      assert r[i].block == cs[i];
      assert Link(p, cs[i].id) in t.edges;
      SubtreesStayInWorkspace(t, ws, cs[i].id);
    }
  }

  /** The root trees of `ws` report, at every depth, only live blocks of `ws`, each child under its parent. */
  lemma RootTreesStayInWorkspace(t: Tables, ws: WorkspaceId)
    requires Acyclic(t.edges)
    ensures NodesOf(t, ws, RootTrees(t, ws))
  {
    var r := RootTrees(t, ws);
    forall i | 0 <= i < |r|
      ensures IsLive(t, r[i].block.id) && r[i].block.workspace == ws
      ensures r[i].block == RowView(r[i].block.id, t.blocks[r[i].block.id], r[i].block.parent, r[i].block.position)
      ensures forall k :: 0 <= k < |r[i].content| ==> r[i].content[k].block.parent == Some(r[i].block.id)
      ensures NodesOf(t, ws, r[i].content)
    {
      assert r[i].block.id in Roots(t, ws);
      SubtreesStayInWorkspace(t, ws, r[i].block.id);
    }
  }

  /** `get_blocks_tree` reports, at every depth, only live blocks of `ws`, each child under its parent. */
  lemma GetBlocksTreeStaysInWorkspace(t: Tables, ws: WorkspaceId, parent: Option<BlockId>)
    requires Acyclic(t.edges)
    ensures NodesOf(t, ws, GetBlocksTree(t, ws, parent))
  {
    if parent.Some? {
      SubtreesStayInWorkspace(t, ws, parent.value);
    } else {
      RootTreesStayInWorkspace(t, ws);
    }
  }

  /** With distinct positions under `p`, the children come in strictly ascending position. */
  lemma ChildPositionsIncrease(t: Tables, p: BlockId)
    requires DistinctPositions(t.edges, p)
    ensures forall i, j :: 0 <= i < j < |GetBlockChildren(t, p)| ==>
      GetBlockChildren(t, p)[i].position < GetBlockChildren(t, p)[j].position
  {
    var r := GetBlockChildren(t, p);
    forall i, j | 0 <= i < j < |r| ensures r[i].position < r[j].position {
      assert Link(p, r[i].id) != Link(p, r[j].id);
    }
  }

  /** When all children of `p` are live, `get_block_children` lists as many rows as `p` has children. */
  lemma AllChildrenListed(t: Tables, p: BlockId)
    requires forall l :: l in t.edges && l.parent == p ==> IsLive(t, l.child)
    ensures |GetBlockChildren(t, p)| == |ChildLinks(t.edges, p)|
  {
    assert LiveChildLinks(t, p, None) == ChildLinks(t.edges, p);
  }

  /** Within contiguous, all-live children, every listed child's position is below the number listed. */
  lemma ChildPositionsInRange(t: Tables, p: BlockId)
    requires Contiguous(t.edges, p)
    requires forall l :: l in t.edges && l.parent == p ==> IsLive(t, l.child)
    ensures forall i :: 0 <= i < |GetBlockChildren(t, p)| ==>
      0 <= GetBlockChildren(t, p)[i].position < |GetBlockChildren(t, p)|
  {
    AllChildrenListed(t, p);
  }

  /**
   * When the children of `p` are contiguous and all live, `get_block_children` lists
   * every child, and the child at index i has position i.
   */
  lemma ChildrenAtTheirIndex(t: Tables, p: BlockId)
    requires Contiguous(t.edges, p)
    requires forall l :: l in t.edges && l.parent == p ==> IsLive(t, l.child)
    ensures |GetBlockChildren(t, p)| == |ChildLinks(t.edges, p)|
    ensures forall i :: 0 <= i < |GetBlockChildren(t, p)| ==> GetBlockChildren(t, p)[i].position == i
  {
    AllChildrenListed(t, p);
    ChildPositionsIncrease(t, p);
    ChildPositionsInRange(t, p);
    PositionsFillRange(GetBlockChildren(t, p));
  }

  /** Strictly ascending positions, each below the number of rows, are 0, 1, ..., n-1. */
  lemma PositionsFillRange(r: seq<BlockView>)
    requires forall i, j :: 0 <= i < j < |r| ==> r[i].position < r[j].position
    requires forall i :: 0 <= i < |r| ==> 0 <= r[i].position < |r|
    ensures forall i :: 0 <= i < |r| ==> r[i].position == i
  {
    forall k | 0 <= k < |r| ensures r[k].position == k {
      AtLeastIndex(r, k);
      AtMostIndex(r, k);
    }
  }

  lemma {:induction false} AtLeastIndex(r: seq<BlockView>, k: int)
    requires forall i, j :: 0 <= i < j < |r| ==> r[i].position < r[j].position
    requires forall i :: 0 <= i < |r| ==> 0 <= r[i].position
    requires 0 <= k < |r|
    ensures r[k].position >= k
  {
    if k > 0 {
      AtLeastIndex(r, k - 1);
    }
  }

  lemma {:induction false} AtMostIndex(r: seq<BlockView>, k: int)
    requires forall i, j :: 0 <= i < j < |r| ==> r[i].position < r[j].position
    requires forall i :: 0 <= i < |r| ==> r[i].position < |r|
    requires 0 <= k < |r|
    ensures r[k].position <= k
    decreases |r| - k
  {
    if k < |r| - 1 {
      AtMostIndex(r, k + 1);
    }
  }

  // ---------------------------------------------------------------------------------
  // The committed states of the writing transactions
  // ---------------------------------------------------------------------------------

  /** What `create_block` demands of the tables for both INSERTs to succeed. */
  predicate CreateAccepted(t: Tables, id: BlockId, workspace: WorkspaceId, parent: Option<BlockId>) {
    && id !in t.blocks
    && workspace in t.workspaces
    && (parent.None? || parent.value == id || parent.value in t.blocks)
  }

  /**
   * The state `create_block` commits: a live row stamped with the transaction's time
   * and, under a parent, the edge at `position` after the shift.
   */
  function Inserted(t: Tables, id: BlockId, kind: BlockType, properties: Properties, workspace: WorkspaceId,
                    parent: Option<BlockId>, position: int): Tables
  {
    var row := Block(kind, properties, workspace, t.clock, t.clock, None);
    var edges := if parent.Some? then InsertAt(t.edges, parent.value, id, position) else t.edges;
    t.(blocks := t.blocks[id := row], edges := edges, clock := t.clock + 1)
  }

  /** A committed creation keeps every constraint of the schema. */
  lemma CreateKeepsValid(t: Tables, id: BlockId, kind: BlockType, properties: Properties, workspace: WorkspaceId,
                         parent: Option<BlockId>, position: int)
    requires Valid(t) && CreateAccepted(t, id, workspace, parent)
    ensures Valid(Inserted(t, id, kind, properties, workspace, parent, position))
  {
    var t' := Inserted(t, id, kind, properties, workspace, parent, position);
    assert BlocksReferenceWorkspaces(t') && StampsBeforeClock(t');
    if parent.Some? {
      InsertFreshChildKeepsForest(t.edges, parent.value, id, position);
    }
  }

  /** Inserting the edge of a block no edge mentions yet leaves one parent per block. */
  lemma InsertFreshChildKeepsForest(e: Edges, p: BlockId, c: BlockId, position: int)
    requires SingleParent(e)
    requires forall l :: l in e ==> l.child != c
    ensures SingleParent(InsertAt(e, p, c, position))
    ensures forall l :: l in InsertAt(e, p, c, position) ==> l in e || l == Link(p, c)
  {
  }

  /**
   * After a creation `get_block` reports the new block with the requested parent and
   * position (position 0 for a root).
   */
  lemma CreatedBlockIsReported(t: Tables, id: BlockId, kind: BlockType, properties: Properties,
                               workspace: WorkspaceId, parent: Option<BlockId>, position: int)
    requires Valid(t) && CreateAccepted(t, id, workspace, parent)
    ensures GetBlock(Inserted(t, id, kind, properties, workspace, parent, position), id)
      == Some(BlockView(id, kind, properties, workspace, parent, if parent.Some? then position else 0))
  {
    var t' := Inserted(t, id, kind, properties, workspace, parent, position);
    CreateKeepsValid(t, id, kind, properties, workspace, parent, position);
    if parent.Some? {
      PositionIsParentEdge(t'.edges, Link(parent.value, id));
    } else {
      assert forall l :: l in t'.edges ==> l.child != id;
    }
  }

  /** A created block has no content, unless it was made its own parent. */
  lemma CreatedBlockIsEmpty(t: Tables, id: BlockId, kind: BlockType, properties: Properties,
                            workspace: WorkspaceId, parent: Option<BlockId>, position: int)
    requires Valid(t) && CreateAccepted(t, id, workspace, parent) && parent != Some(id)
    ensures GetBlockChildren(Inserted(t, id, kind, properties, workspace, parent, position), id) == []
  {
    var t' := Inserted(t, id, kind, properties, workspace, parent, position);
    assert forall l :: l in t.edges ==> l.parent != id;
    assert forall l :: l in t'.edges ==> l.parent != id;
    assert LiveChildLinks(t', id, None) == {};
  }

  /**
   * Under a parent whose children sit at 0..n-1, creating at a position in 0..n keeps
   * every parent's children contiguous, and the parent then has n + 1 children.
   */
  lemma CreateKeepsOrdered(t: Tables, id: BlockId, kind: BlockType, properties: Properties,
                           workspace: WorkspaceId, parent: Option<BlockId>, position: int)
    requires Valid(t) && CreateAccepted(t, id, workspace, parent) && Ordered(t.edges)
    requires parent.Some? ==> 0 <= position <= |ChildLinks(t.edges, parent.value)|
    ensures Ordered(Inserted(t, id, kind, properties, workspace, parent, position).edges)
    ensures parent.Some? ==>
      |ChildLinks(Inserted(t, id, kind, properties, workspace, parent, position).edges, parent.value)|
        == |ChildLinks(t.edges, parent.value)| + 1
  {
    if parent.Some? {
      assert Link(parent.value, id) !in t.edges;
      assert Contiguous(t.edges, parent.value);
      InsertKeepsOrdered(t.edges, parent.value, id, position);
      InsertKeepsContiguous(t.edges, parent.value, id, position);
    }
  }

  /** Creating a block under another block keeps the edges acyclic. */
  lemma CreateKeepsAcyclic(t: Tables, id: BlockId, kind: BlockType, properties: Properties,
                           workspace: WorkspaceId, parent: Option<BlockId>, position: int)
    requires Valid(t) && CreateAccepted(t, id, workspace, parent) && Acyclic(t.edges)
    requires parent != Some(id)
    ensures Acyclic(Inserted(t, id, kind, properties, workspace, parent, position).edges)
  {
    if parent.Some? {
      InsertLeafKeepsAcyclic(t.edges, parent.value, id, position);
    }
  }

  /** Nothing stops a block from being created as its own parent, and that edge is a cycle. */
  lemma SelfParentMakesCycle(t: Tables, id: BlockId, kind: BlockType, properties: Properties,
                             workspace: WorkspaceId, position: int)
    ensures CreateAccepted(t, id, workspace, Some(id)) <==> id !in t.blocks && workspace in t.workspaces
    ensures !Acyclic(Inserted(t, id, kind, properties, workspace, Some(id), position).edges)
  {
    var e := Inserted(t, id, kind, properties, workspace, Some(id), position).edges;
    forall h: BlockId -> nat ensures !Ranked(e, h) {
      assert Link(id, id) in e;
    }
  }

  /** Inserting at position 0 under `p` moves every former child of `p` with a position of at least 0 to 1 or above. */
  lemma InsertAtZeroShiftsSiblings(e: Edges, p: BlockId, c: BlockId)
    requires forall l :: l in e && l.parent == p ==> e[l] >= 0
    ensures forall l :: l in InsertAt(e, p, c, 0) && l.parent == p && l != Link(p, c) ==> InsertAt(e, p, c, 0)[l] >= 1
  {
  }

  /**
   * `append_block_child` under a parent whose children sit at 0..n-1: the new block is
   * the first child `get_block_children` lists.
   */
  lemma AppendedChildComesFirst(t: Tables, id: BlockId, kind: BlockType, properties: Properties,
                                workspace: WorkspaceId, p: BlockId)
    requires Valid(t) && CreateAccepted(t, id, workspace, Some(p)) && Contiguous(t.edges, p)
    ensures var t' := Inserted(t, id, kind, properties, workspace, Some(p), 0);
      |GetBlockChildren(t', p)| > 0 && GetBlockChildren(t', p)[0].id == id
  {
    var t' := Inserted(t, id, kind, properties, workspace, Some(p), 0);
    InsertAtZeroShiftsSiblings(t.edges, p, id);
    assert t'.edges == InsertAt(t.edges, p, id, 0);
    FirstChildHasLeastPosition(t', p, id);
  }

  /** A live child at position 0, above which every other child sits, is the first child listed. */
  lemma FirstChildHasLeastPosition(t: Tables, p: BlockId, c: BlockId)
    requires Link(p, c) in t.edges && t.edges[Link(p, c)] == 0 && IsLive(t, c)
    requires forall l :: l in t.edges && l.parent == p && l != Link(p, c) ==> t.edges[l] >= 1
    ensures |GetBlockChildren(t, p)| > 0 && GetBlockChildren(t, p)[0].id == c
  {
    var r := GetBlockChildren(t, p);
    var i :| 0 <= i < |r| && r[i].id == c;
    assert r[0].position <= r[i].position;
  }

  /** `properties.update(patch)`: the keys of both, a patched key takes the patch's value. */
  function Merged(current: Properties, patch: Properties): (r: Properties)
    ensures r.Keys == current.Keys + patch.Keys
    ensures forall k :: k in patch ==> r[k] == patch[k]
    ensures forall k :: k in current && k !in patch ==> r[k] == current[k]
  {
    current + patch
  }

  /** Merging the same patch twice is merging it once. */
  lemma MergeIdempotent(current: Properties, patch: Properties)
    ensures Merged(Merged(current, patch), patch) == Merged(current, patch)
  {
  }

  /**
   * The state `update_block` commits: non-empty properties merged in, the type replaced
   * when one is given, `updated_at` stamped.
   */
  function Updated(t: Tables, id: BlockId, properties: Option<Properties>, kind: Option<BlockType>): Tables
    requires id in t.blocks
  {
    var b := t.blocks[id];
    var props := if properties.Some? && properties.value != map[] then Merged(b.properties, properties.value) else b.properties;
    var k := if kind.Some? then kind.value else b.kind;
    t.(blocks := t.blocks[id := b.(properties := props, kind := k, updatedAt := t.clock)], clock := t.clock + 1)
  }

  /** A committed update keeps every constraint of the schema. */
  lemma UpdateKeepsValid(t: Tables, id: BlockId, properties: Option<Properties>, kind: Option<BlockType>)
    requires Valid(t) && id in t.blocks
    ensures Valid(Updated(t, id, properties, kind))
  {
  }

  /**
   * After an update `get_block` reports the block with the merged properties and the
   * new type, and with its workspace, parent and position unchanged; every other block
   * reads as before.
   */
  lemma UpdatedBlockIsReported(t: Tables, id: BlockId, properties: Option<Properties>, kind: Option<BlockType>)
    requires IsLive(t, id)
    ensures var v := GetBlock(t, id).value;
      GetBlock(Updated(t, id, properties, kind), id) == Some(v.(
        properties := if properties.Some? && properties.value != map[] then Merged(v.properties, properties.value) else v.properties,
        kind := if kind.Some? then kind.value else v.kind))
    ensures forall b :: b != id ==> GetBlock(Updated(t, id, properties, kind), b) == GetBlock(t, b)
  {
  }

  /** Repeating an update changes nothing more that a read can see. */
  lemma UpdateIdempotent(t: Tables, id: BlockId, properties: Option<Properties>, kind: Option<BlockType>)
    requires IsLive(t, id)
    ensures var t' := Updated(t, id, properties, kind);
      GetBlock(Updated(t', id, properties, kind), id) == GetBlock(t', id)
  {
    var t' := Updated(t, id, properties, kind);
    UpdatedBlockIsReported(t, id, properties, kind);
    UpdatedBlockIsReported(t', id, properties, kind);
    if properties.Some? && properties.value != map[] {
      MergeIdempotent(t.blocks[id].properties, properties.value);
    }
  }

  /** The edges once the block's parent edge (if any) is deleted and the gap it leaves closed. */
  ghost function Unlinked(t: Tables, id: BlockId): Edges {
    match GetBlockPosition(t.edges, id)
    case Some(pp) => Detach(t.edges, Link(pp.0, id))
    case None => t.edges
  }

  /**
   * The state `move_block` commits: the block detached from its old parent, inserted
   * under `np` at `position`, and `updated_at` stamped.
   */
  ghost function Moved(t: Tables, id: BlockId, np: BlockId, position: int): Tables
    requires id in t.blocks
  {
    t.(blocks := t.blocks[id := t.blocks[id].(updatedAt := t.clock)],
       edges := InsertAt(Unlinked(t, id), np, id, position),
       clock := t.clock + 1)
  }

  /** After detaching, no edge enters the block. */
  lemma UnlinkedHasNoParent(t: Tables, id: BlockId)
    requires SingleParent(t.edges)
    ensures forall l :: l in Unlinked(t, id) ==> l.child != id
    ensures forall l :: l in Unlinked(t, id) ==> l in t.edges
  {
  }

  /**
   * `move_block` in the order it issues its statements: delete the old edge, close the
   * gap under the old parent, open a slot under `np`, stamp the row, insert the edge.
   */
  lemma MoveInSteps(t: Tables, id: BlockId, np: BlockId, position: int)
    requires Valid(t) && id in t.blocks
    ensures var unlinked := match GetBlockPosition(t.edges, id)
        case Some(pp) => ShiftDown(t.edges - {Link(pp.0, id)}, pp.0, pp.1)
        case None => t.edges;
      && unlinked == Unlinked(t, id)
      && Link(np, id) !in ShiftUp(unlinked, np, position)
      && Moved(t, id, np, position) == t.(
        blocks := t.blocks[id := t.blocks[id].(updatedAt := t.clock)],
        edges := ShiftUp(unlinked, np, position)[Link(np, id) := position],
        clock := t.clock + 1)
  {
    UnlinkedHasNoParent(t, id);
  }

  /** A committed move keeps every constraint of the schema. */
  lemma MoveKeepsValid(t: Tables, id: BlockId, np: BlockId, position: int)
    requires Valid(t) && id in t.blocks && np in t.blocks
    ensures Valid(Moved(t, id, np, position))
  {
    UnlinkedHasNoParent(t, id);
    var t' := Moved(t, id, np, position);
    assert SingleParent(Unlinked(t, id));
    InsertFreshChildKeepsForest(Unlinked(t, id), np, id, position);
    assert BlocksReferenceWorkspaces(t') && StampsBeforeClock(t');
  }

  /** After a move `get_block` reports the block under the new parent at the new position. */
  lemma MovedBlockIsReported(t: Tables, id: BlockId, np: BlockId, position: int)
    requires Valid(t) && IsLive(t, id) && np in t.blocks
    ensures GetBlock(Moved(t, id, np, position), id) == Some(RowView(id, t.blocks[id], Some(np), position))
  {
    MoveKeepsValid(t, id, np, position);
    PositionIsParentEdge(Moved(t, id, np, position).edges, Link(np, id));
  }

  /**
   * Moving a child of `op` to a position in 0..n under `np`, where n counts the children
   * of `np` after the detach, keeps both sibling lists contiguous, including a reorder
   * under one parent.
   */
  lemma MoveKeepsSiblingsContiguous(t: Tables, id: BlockId, op: BlockId, np: BlockId, position: int)
    requires Valid(t) && id in t.blocks && Link(op, id) in t.edges
    requires Contiguous(t.edges, op) && Contiguous(t.edges, np)
    requires 0 <= position <= |ChildLinks(Detach(t.edges, Link(op, id)), np)|
    ensures Contiguous(Moved(t, id, np, position).edges, op)
    ensures Contiguous(Moved(t, id, np, position).edges, np)
  {
    PositionIsParentEdge(t.edges, Link(op, id));
    UnlinkedHasNoParent(t, id);
    MoveKeepsContiguous(t.edges, Link(op, id), np, position);
  }

  /** With all parents contiguous, a move to a position in range keeps all parents contiguous. */
  lemma MoveKeepsOrdered(t: Tables, id: BlockId, np: BlockId, position: int)
    requires Valid(t) && id in t.blocks && Ordered(t.edges)
    requires 0 <= position <= |ChildLinks(Unlinked(t, id), np)|
    ensures Ordered(Moved(t, id, np, position).edges)
  {
    UnlinkedHasNoParent(t, id);
    match GetBlockPosition(t.edges, id)
    case Some(pp) =>
      DetachKeepsOrdered(t.edges, Link(pp.0, id));
      InsertKeepsOrdered(Unlinked(t, id), np, id, position);
    case None =>
      InsertKeepsOrdered(t.edges, np, id, position);
  }

  /**
   * The state `delete_block` commits: the block and all its descendants gone with every
   * edge touching them, and the gap under the old parent closed.
   */
  ghost function Deleted(t: Tables, id: BlockId): Tables
    requires Acyclic(t.edges)
  {
    var gone := {id} + DescendantsOf(t.edges, id);
    var stripped := Strip(t.edges, gone);
    var edges := match GetBlockPosition(t.edges, id)
      case Some(pp) => ShiftDown(stripped, pp.0, pp.1)
      case None => stripped;
    t.(blocks := t.blocks - gone, edges := edges)
  }

  /** Both DELETEs `_delete_children_recursively` issues, for every block of `s`. */
  function Removed(t: Tables, s: set<BlockId>): Tables {
    t.(blocks := t.blocks - s, edges := Strip(t.edges, s))
  }

  /** Removing the rows of `s` with every edge touching them keeps the schema's constraints. */
  lemma RemoveRowsKeepsValid(t: Tables, s: set<BlockId>)
    requires Valid(t)
    ensures Valid(Removed(t, s))
  {
  }

  /**
   * One turn of the cascade loop: with the subtrees of `done` gone, deleting the
   * subtree of `c` and then `c` itself leaves exactly the subtrees of `done + {c}` gone.
   */
  lemma CascadeStep(start: Tables, h: BlockId -> nat, done: set<BlockId>, c: BlockId)
    requires Valid(start) && Ranked(start.edges, h)
    ensures Ranked(Removed(start, Below(start.edges, done, h)).edges, h)
    ensures var cur := Removed(start, Below(start.edges, done, h));
      Removed(Removed(cur, Descendants(cur.edges, c, h)), {c}) == Removed(start, Below(start.edges, done + {c}, h))
  {
    var removed := Below(start.edges, done, h);
    var cur := Removed(start, removed);
    BelowClosed(start.edges, done, h);
    StripShrinksDescendants(start.edges, h, removed, c);
    StripKeepsDescendantsOutside(start.edges, h, removed, c);
    var below := Descendants(cur.edges, c, h);
    BelowInsert(start.edges, done, c, h);
    assert removed + below + {c} == Below(start.edges, done + {c}, h);
    RemovedTwice(start, removed, below);
    RemovedTwice(start, removed + below, {c});
  }

  /** Two rounds of removal are one round over the union. */
  lemma RemovedTwice(t: Tables, a: set<BlockId>, b: set<BlockId>)
    ensures Removed(Removed(t, a), b) == Removed(t, a + b)
  {
    StripTwice(t.edges, a, b);
    assert (t.blocks - a) - b == t.blocks - (a + b);
  }

  /** What a turn of the cascade loop leaves behind is the next loop state. */
  lemma CascadeTurn(start: Tables, h: BlockId -> nat, done: set<BlockId>, c: BlockId, after: Tables)
    requires Valid(start) && Ranked(start.edges, h)
    requires Ranked(Removed(start, Below(start.edges, done, h)).edges, h)
    requires var cur := Removed(start, Below(start.edges, done, h));
      after == Removed(Removed(cur, Descendants(cur.edges, c, h)), {c})
    ensures after == Removed(start, Below(start.edges, done + {c}, h)) && Valid(after)
  {
    CascadeStep(start, h, done, c);
    RemoveRowsKeepsValid(start, Below(start.edges, done + {c}, h));
  }

  /** Before the first turn of the cascade loop nothing is gone. */
  lemma NothingRemoved(t: Tables, h: BlockId -> nat)
    requires Ranked(t.edges, h)
    ensures Removed(t, Below(t.edges, {}, h)) == t
  {
    assert Below(t.edges, {}, h) == {};
    assert Strip(t.edges, {}) == t.edges;
  }

  /** Moving `c` from the blocks still to visit to the visited ones. */
  lemma TakeOne(children: set<BlockId>, todo: set<BlockId>, done: set<BlockId>, c: BlockId)
    requires todo <= children && done == children - todo && c in todo
    ensures done + {c} == children - (todo - {c})
  {
  }

  /**
   * `delete_block` in the order it issues its statements: the cascade, the incoming
   * edge, the row, then the gap under the old parent.
   */
  lemma DeleteInSteps(t: Tables, id: BlockId)
    requires Valid(t) && Acyclic(t.edges)
    ensures var r := Removed(t, DescendantsOf(t.edges, id));
      var s := r.(edges := DropIncoming(r.edges, id), blocks := r.blocks - {id});
      Deleted(t, id) == match GetBlockPosition(t.edges, id)
        case Some(pp) => s.(edges := ShiftDown(s.edges, pp.0, pp.1))
        case None => s
  {
    var d := DescendantsOf(t.edges, id);
    var r := Removed(t, d);
    var s := r.(edges := DropIncoming(r.edges, id), blocks := r.blocks - {id});
    DropIncomingAfterDescendants(t.edges, id, RankOf(t.edges));
    assert (t.blocks - d) - {id} == t.blocks - ({id} + d);
    assert s == Removed(t, {id} + d);
  }

  /** A committed delete keeps every constraint of the schema, and the edges acyclic. */
  lemma DeleteKeepsValid(t: Tables, id: BlockId)
    requires Valid(t) && Acyclic(t.edges)
    ensures Valid(Deleted(t, id)) && Acyclic(Deleted(t, id).edges)
  {
    var gone := {id} + DescendantsOf(t.edges, id);
    RemoveRowsKeepsValid(t, gone);
    StripKeepsAcyclic(t.edges, gone);
    match GetBlockPosition(t.edges, id)
    case Some(pp) =>
      ShiftDownKeepsAcyclic(Strip(t.edges, gone), pp.0, pp.1);
    case None =>
  }

  /**
   * The cascade is complete: the removed set holds the block and is closed under
   * edges, no block outside it loses its row, no remaining edge touches it, and no
   * removed block can be read back.
   */
  lemma DeleteRemovesSubtree(t: Tables, id: BlockId)
    requires Acyclic(t.edges)
    ensures var gone := {id} + DescendantsOf(t.edges, id);
      && id in gone && Closed(t.edges, gone)
      && (forall b :: b in t.blocks && b !in gone ==> b in Deleted(t, id).blocks && Deleted(t, id).blocks[b] == t.blocks[b])
      && (forall l :: l in Deleted(t, id).edges ==> l.parent !in gone && l.child !in gone)
      && (forall b :: b in gone ==> GetBlock(Deleted(t, id), b).None?)
  {
    var h := RankOf(t.edges);
    DescendantsClosed(t.edges, id, h);
    forall l | l in t.edges && l.parent in {id} + Descendants(t.edges, id, h)
      ensures l.child in {id} + Descendants(t.edges, id, h)
    {
      if l.parent == id {
        assert l.child in {l.child} + Descendants(t.edges, l.child, h);
      }
    }
  }

  /** Deleting a child closes the gap: its former parent's children stay contiguous. */
  lemma DeleteKeepsParentContiguous(t: Tables, id: BlockId, p: BlockId)
    requires Valid(t) && Acyclic(t.edges)
    requires Link(p, id) in t.edges && Contiguous(t.edges, p)
    ensures Contiguous(Deleted(t, id).edges, p)
  {
    PositionIsParentEdge(t.edges, Link(p, id));
    CascadeKeepsParentContiguous(t.edges, RankOf(t.edges), Link(p, id));
  }

  /** With all parents contiguous, a delete keeps all parents contiguous. */
  lemma DeleteKeepsOrdered(t: Tables, id: BlockId)
    requires Valid(t) && Acyclic(t.edges) && Ordered(t.edges)
    ensures Ordered(Deleted(t, id).edges)
  {
    var h := RankOf(t.edges);
    match GetBlockPosition(t.edges, id)
    case Some(pp) =>
      PositionIsParentEdge(t.edges, Link(pp.0, id));
      CascadeKeepsOrdered(t.edges, h, Link(pp.0, id));
    case None =>
      CascadeOfRootKeepsOrdered(t.edges, h, id);
  }

  // ---------------------------------------------------------------------------------
  // The repository: one transaction per method over the shared store
  // ---------------------------------------------------------------------------------

  class BlockRepository {
    const db: Database

    constructor (db: Database)
      ensures this.db == db
    {
      this.db := db;
    }

    /** `_get_block_position`: a plain read of the current edge table. */
    method BlockPosition(id: BlockId) returns (r: Option<(BlockId, int)>)
      requires SingleParent(db.tables.edges)
      ensures r == GetBlockPosition(db.tables.edges, id)
    {
      var e := db.tables.edges;
      if exists l :: l in e && l.child == id {
        var l :| l in e && l.child == id;
        PositionIsParentEdge(e, l);
        r := Some((l.parent, e[l]));
      } else {
        r := None;
      }
    }

    /** `_shift_positions`: one UPDATE inside the caller's transaction. */
    method ShiftPositions(parent: BlockId, from: int)
      modifies db
      ensures db.tables == old(db.tables).(edges := ShiftUp(old(db.tables.edges), parent, from))
    {
      db.tables := db.tables.(edges := ShiftUp(db.tables.edges, parent, from));
    }

    /**
     * `create_block`: shift the siblings, insert the row, insert the edge, commit; any
     * failed INSERT rolls the whole transaction back, shift included.
     */
    method CreateBlock(id: BlockId, kind: BlockType, properties: Properties, workspace: WorkspaceId,
                       parent: Option<BlockId>, position: int)
      returns (r: Result<BlockView, DbError>)
      requires Valid(db.tables)
      modifies db
      ensures Valid(db.tables)
      ensures r.Success? <==> CreateAccepted(old(db.tables), id, workspace, parent)
      ensures r == Failure(UniqueViolation) <==> id in old(db.tables.blocks)
      ensures r.Failure? ==> db.tables == old(db.tables)
      ensures r.Success? ==>
        && db.tables == Inserted(old(db.tables), id, kind, properties, workspace, parent, position)
        && r.value == BlockView(id, kind, properties, workspace, parent, position)
    {
      var saved := db.tables;
      if parent.Some? {
        ShiftPositions(parent.value, position);
      }
      // INSERT INTO blocks: the primary key first, then the workspace foreign key
      if id in db.tables.blocks {
        db.tables := saved;
        return Failure(UniqueViolation);
      }
      if workspace !in db.tables.workspaces {
        db.tables := saved;
        return Failure(ForeignKeyViolation);
      }
      var now := db.tables.clock;
      db.tables := db.tables.(blocks := db.tables.blocks[id := Block(kind, properties, workspace, now, now, None)]);
      if parent.Some? {
        // INSERT INTO block_content_association: the parent foreign key
        if parent.value !in db.tables.blocks {
          db.tables := saved;
          return Failure(ForeignKeyViolation);
        }
        // the key (parent, id) is new: no edge mentions a block that did not exist
        assert Link(parent.value, id) !in db.tables.edges;
        db.tables := db.tables.(edges := db.tables.edges[Link(parent.value, id) := position]);
      }
      db.tables := db.tables.(clock := now + 1);
      assert db.tables == Inserted(saved, id, kind, properties, workspace, parent, position);
      CreateKeepsValid(saved, id, kind, properties, workspace, parent, position);
      r := Success(BlockView(id, kind, properties, workspace, parent, position));
    }

    /**
     * `append_block_child`: `create_block` at position 0 with the id `uuid4` draws
     * (here the caller's `id`); under contiguous siblings the new block comes first.
     */
    method AppendBlockChild(id: BlockId, kind: BlockType, properties: Properties, workspace: WorkspaceId,
                            parent: Option<BlockId>)
      returns (r: Result<BlockView, DbError>)
      requires Valid(db.tables)
      modifies db
      ensures Valid(db.tables)
      ensures r.Success? <==> CreateAccepted(old(db.tables), id, workspace, parent)
      ensures r.Failure? ==> db.tables == old(db.tables)
      ensures r.Success? ==>
        && db.tables == Inserted(old(db.tables), id, kind, properties, workspace, parent, 0)
        && r.value == BlockView(id, kind, properties, workspace, parent, 0)
      ensures r.Success? && parent.Some? && Contiguous(old(db.tables.edges), parent.value) ==>
        |GetBlockChildren(db.tables, parent.value)| > 0 && GetBlockChildren(db.tables, parent.value)[0].id == id
    {
      r := CreateBlock(id, kind, properties, workspace, parent, 0);
      if r.Success? && parent.Some? && Contiguous(old(db.tables.edges), parent.value) {
        AppendedChildComesFirst(old(db.tables), id, kind, properties, workspace, parent.value);
      }
    }

    /**
     * `update_block`: None for an absent or soft-deleted block; otherwise merge, retype,
     * stamp, commit, and report the row with its parent and position.
     */
    method UpdateBlock(id: BlockId, properties: Option<Properties>, kind: Option<BlockType>)
      returns (r: Option<BlockView>)
      requires Valid(db.tables)
      modifies db
      ensures Valid(db.tables)
      ensures r.None? <==> !IsLive(old(db.tables), id)
      ensures r.None? ==> db.tables == old(db.tables)
      ensures r.Some? ==> db.tables == Updated(old(db.tables), id, properties, kind) && r == GetBlock(db.tables, id)
    {
      if !IsLive(db.tables, id) {
        return None;
      }
      ghost var start := db.tables;
      var b := db.tables.blocks[id];
      var props := b.properties;
      if properties.Some? && properties.value != map[] {
        props := Merged(props, properties.value);
      }
      var k := b.kind;
      if kind.Some? {
        k := kind.value;
      }
      var now := db.tables.clock;
      db.tables := db.tables.(blocks := db.tables.blocks[id := b.(properties := props, kind := k, updatedAt := now)],
                              clock := now + 1);
      assert db.tables == Updated(start, id, properties, kind);
      UpdateKeepsValid(start, id, properties, kind);
      var positionInfo := BlockPosition(id);
      var row := db.tables.blocks[id];
      if positionInfo.Some? {
        r := Some(RowView(id, row, Some(positionInfo.value.0), positionInfo.value.1));
      } else {
        r := Some(RowView(id, row, None, 0));
      }
    }

    /**
     * `_delete_children_recursively`: for each child of `x`, delete its subtree, then
     * every edge touching it, then its row. `h` ranks the edges, so the recursion ends.
     */
    method DeleteChildrenRecursively(x: BlockId, ghost h: BlockId -> nat)
      requires Valid(db.tables) && Ranked(db.tables.edges, h)
      modifies db
      ensures Valid(db.tables)
      ensures db.tables == Removed(old(db.tables), Descendants(old(db.tables.edges), x, h))
      decreases h(x)
    {
      ghost var start := db.tables;
      var children := ChildIds(db.tables.edges, x);
      var todo := children;
      ghost var done: set<BlockId> := {};
      NothingRemoved(start, h);
      while todo != {}
        invariant todo <= children && done == children - todo
        invariant db.tables == Removed(start, Below(start.edges, done, h))
        invariant Valid(db.tables)
        decreases |todo|
      {
        var c :| c in todo;
        ghost var l :| l in start.edges && l.parent == x && l.child == c;
        CascadeStep(start, h, done, c);
        DeleteChildrenRecursively(c, h);
        // DELETE the edges touching c, then the row of c
        db.tables := Removed(db.tables, {c});
        CascadeTurn(start, h, done, c, db.tables);
        TakeOne(children, todo, done, c);
        todo := todo - {c};
        done := done + {c};
      }
      assert done == ChildIds(start.edges, x);
      BelowChildren(start.edges, x, h);
    }

    /**
     * `delete_block`: False for an absent or soft-deleted block; otherwise delete its
     * subtree, its parent edge and its row, close the gap under the old parent, commit.
     */
    method DeleteBlock(id: BlockId) returns (deleted: bool)
      requires Valid(db.tables) && Acyclic(db.tables.edges)
      modifies db
      ensures Valid(db.tables) && Acyclic(db.tables.edges)
      ensures deleted <==> IsLive(old(db.tables), id)
      ensures !deleted ==> db.tables == old(db.tables)
      ensures deleted ==> db.tables == Deleted(old(db.tables), id)
    {
      if !IsLive(db.tables, id) {
        return false;
      }
      ghost var start := db.tables;
      DeleteInSteps(start, id);
      DeleteKeepsValid(start, id);
      var positionInfo := BlockPosition(id);
      DeleteChildrenRecursively(id, RankOf(start.edges));
      // DELETE FROM block_content_association WHERE child_block_id = id
      db.tables := db.tables.(edges := DropIncoming(db.tables.edges, id));
      // DELETE FROM blocks WHERE id = id
      db.tables := db.tables.(blocks := db.tables.blocks - {id});
      if positionInfo.Some? {
        db.tables := db.tables.(edges := ShiftDown(db.tables.edges, positionInfo.value.0, positionInfo.value.1));
      }
      return true;
    }

    /**
     * `move_block`: None when the block or the new parent is absent or soft-deleted;
     * otherwise detach, close the gap, open a slot under the new parent, stamp, insert
     * the edge, commit.
     */
    method MoveBlock(id: BlockId, newParent: Option<BlockId>, newPosition: int) returns (r: Option<BlockView>)
      requires Valid(db.tables)
      modifies db
      ensures Valid(db.tables)
      ensures r.None? <==>
        !IsLive(old(db.tables), id) || newParent.None? || !IsLive(old(db.tables), newParent.value)
      ensures r.None? ==> db.tables == old(db.tables)
      ensures r.Some? ==>
        && db.tables == Moved(old(db.tables), id, newParent.value, newPosition)
        && r.value == RowView(id, old(db.tables.blocks[id]), newParent, newPosition)
        && GetBlock(db.tables, id) == r
    {
      if !IsLive(db.tables, id) {
        return None;
      }
      if newParent.None? || !IsLive(db.tables, newParent.value) {
        return None;
      }
      var np := newParent.value;
      ghost var start := db.tables;
      MoveInSteps(start, id, np, newPosition);
      var positionInfo := BlockPosition(id);
      if positionInfo.Some? {
        var op, oldPosition := positionInfo.value.0, positionInfo.value.1;
        // DELETE the old edge, then UPDATE ... SET position = position - 1 under the old parent
        db.tables := db.tables.(edges := db.tables.edges - {Link(op, id)});
        db.tables := db.tables.(edges := ShiftDown(db.tables.edges, op, oldPosition));
      }
      ShiftPositions(np, newPosition);
      var now := db.tables.clock;
      var row := db.tables.blocks[id];
      db.tables := db.tables.(blocks := db.tables.blocks[id := row.(updatedAt := now)]);
      // the key (np, id) is new: the only edge into the block was deleted above
      assert Link(np, id) !in db.tables.edges;
      db.tables := db.tables.(edges := db.tables.edges[Link(np, id) := newPosition]);
      db.tables := db.tables.(clock := now + 1);
      MoveKeepsValid(start, id, np, newPosition);
      MovedBlockIsReported(start, id, np, newPosition);
      r := Some(RowView(id, row, newParent, newPosition));
    }
  }
}
