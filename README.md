# Block tree store — a verified model

This project models the storage core of a block-based document service. Content items
("blocks") are kept in three tables:

- `blocks`: one row per block, carrying its kind, a JSON properties document, its
  workspace, and timestamps. A block with `deleted_at` set is soft-deleted.
- `workspaces`: one row per workspace, with the same soft-delete column.
- `block_content_association`: one edge row per (parent, child) pair, holding the child's
  `position` among its parent's children.

Two repositories work on these tables. The block repository creates blocks under a
parent at a position, appends a block as first child, reads blocks, children, whole
trees and all blocks, updates properties and kind, moves a block to a new parent and
position, and deletes a block with its whole subtree. The workspace repository lists,
reads, creates and updates workspaces. Its delete soft-deletes the workspace together
with its still-live blocks.

The model is written in Dafny.

- `store.dfy` holds the tables as one value, `Tables`, and the invariant `Valid` that
  every committed state keeps. It also holds `Database`, the object both repositories
  share. `Valid` requires:
  - the foreign keys of the schema;
  - a single parent per block;
  - every stored timestamp earlier than the clock that stands for `now()`.
- `positions.dfy` models the two range updates on `position`: the shift up that opens a
  slot, and the shift down that closes a gap. It proves that inserts, detaches and
  moves used as the repository uses them keep each parent's positions exactly `0..n-1`.
- `forest.dfy` reads the edges as a forest. Acyclicity is a ranking of the blocks. It
  defines the descendants of a block and proves the facts the cascading delete needs.
- `ordering.dfy` models `ORDER BY`: a finite set of rows listed each once, in
  ascending order of a key.
- `block_repository.dfy` holds the following:
  - the block readers, as functions on `Tables`;
  - the state each writing transaction commits, as a function on `Tables`;
  - lemmas about those states;
  - the class `BlockRepository`, whose methods update the shared store statement by
    statement, with rollback on a failed INSERT.
- `workspace_repository.dfy` does the same for workspaces.
- `wrappers.dfy` holds `Option` and `Result`.

Each SQL statement is a function on the tables, for example `ShiftUp`, `ShiftDown`,
`Strip` and `StampBlocks`. Each method is proved to leave the store equal to a
transition function of the old state. The properties of the transition are then lemmas
about that function.

Behaviour of the code worth knowing:

- `move_block` does not check for cycles, so `MoveBlock` promises `Valid`, not `Acyclic`.
- `create_block` relies only on the foreign keys, so a block can be created in a
  soft-deleted workspace or under a soft-deleted parent (`CreateAccepted`).
- `create_block` checks no parent, so a block can be created as its own parent.
  `SelfParentMakesCycle` proves that this edge is a cycle.
- For a block created without a parent, `create_block` returns the requested position.
  `get_block` then reports position 0 for it (`CreatedBlockIsReported`).

## Model

| member | source | states |
|---|---|---|
| Store.Database.constructor | src/alembic/versions/5dac43674354_create_block_schema.py:34-44 | an empty store satisfies the schema's foreign keys and the other invariants |
| Positions.ShiftUp | src/repositories/block_repository.py:71-79 | definition of the UPDATE that opens a slot: every edge under `p` at `from` or above moves up one; other edges keep their position |
| Positions.ShiftDown | src/repositories/block_repository.py:379-388 | definition of the UPDATE that closes a gap (also at :468-475): every edge under `p` above `removed` moves down one; other edges keep their position |
| Positions.InsertAt | src/repositories/block_repository.py:48-56 | definition: the shift up at `pos` under `p`, then the edge (p, c) inserted at `pos`, as `create_block` and `move_block` issue them |
| Positions.Detach | src/repositories/block_repository.py:458-475 | definition: the edge deleted, then the shift down under its parent from its position, as `move_block` issues them |
| Positions.ContiguousIsInterval | src/repositories/block_repository.py:71-79 | the children of a parent are contiguous exactly when their positions, without duplicates, are the set {0, ..., n-1} |
| Positions.ShiftDownUndoesShiftUp | src/repositories/block_repository.py:71-79 | closing the gap at `from` undoes opening a slot at `from` |
| Positions.ShiftUpUndoesShiftDown | src/repositories/block_repository.py:379-388 | opening a slot at a free position undoes closing the gap there |
| Positions.ShiftUpFreesSlot | src/repositories/block_repository.py:71-79 | after the shift up, no child of the parent sits at `from`, and positions stay distinct |
| Positions.ContiguousBySiblings | src/repositories/block_repository.py:71-79 | contiguity under a parent depends only on that parent's edge rows |
| Positions.InsertAtLeavesOthers | src/repositories/block_repository.py:71-79 | the shift and the insert under `p` leave the edges of every other parent unchanged |
| Positions.DetachLeavesOthers | src/repositories/block_repository.py:458-475 | deleting an edge and closing its gap leave the edges of every other parent unchanged |
| Positions.InsertKeepsContiguous | src/repositories/block_repository.py:32-56 | inserting at a position in 0..n under a contiguous parent keeps it contiguous, with n + 1 children |
| Positions.InsertedInRange | src/repositories/block_repository.py:32-56 | after such an insert every child position lies in 0..n |
| Positions.InsertedDistinct | src/repositories/block_repository.py:32-56 | after an insert at a non-negative position no two children share a position |
| Positions.InsertedOccupied | src/repositories/block_repository.py:32-56 | after an insert at 0..n every position 0..n holds a child |
| Positions.DetachKeepsContiguous | src/repositories/block_repository.py:458-475 | removing a child and closing the gap keeps the parent contiguous, with one child fewer |
| Positions.MoveKeepsContiguous | src/repositories/block_repository.py:456-497 | a detach followed by an in-range insert keeps both the old and the new parent contiguous |
| Positions.InsertKeepsOrdered | src/repositories/block_repository.py:32-56 | an in-range insert keeps every parent contiguous |
| Positions.DetachKeepsOrdered | src/repositories/block_repository.py:458-475 | a detach keeps every parent contiguous |
| Positions.ShiftDownBySiblings | src/repositories/block_repository.py:379-388 | the shift down under `p` treats equal sibling maps alike and leaves other parents alone |
| Positions.NoChildrenContiguous | src/repositories/block_repository.py:397-424 | a parent whose children were all deleted is trivially contiguous |
| Forest.ChildIds | src/repositories/block_repository.py:398-405 | definition of the SELECT of the children ids of `x` |
| Forest.Strip | src/repositories/block_repository.py:410-416 | definition of the DELETE of every edge whose parent or child is in the set |
| Forest.DropIncoming | src/repositories/block_repository.py:363-369 | definition of the DELETE of the edges whose child is `x` |
| Forest.RankOf | src/repositories/block_repository.py:397-424 | acyclic edges admit a rank under which every child ranks below its parent, which bounds the recursion |
| Forest.DescendantsRankBelow | src/repositories/block_repository.py:397-424 | every descendant ranks below its ancestor, so no block is its own descendant |
| Forest.DescendantsTransitive | src/repositories/block_repository.py:407-408 | the descendants of a descendant are descendants |
| Forest.DescendantsClosed | src/repositories/block_repository.py:397-424 | a block's descendants are closed under following edges |
| Forest.ClosedHoldsDescendants | src/repositories/block_repository.py:397-424 | a closed set holding a block holds all of its descendants |
| Forest.StripShrinksDescendants | src/repositories/block_repository.py:410-416 | deleting edges keeps the ranking and can only lose descendants |
| Forest.StripKeepsDescendantsOutside | src/repositories/block_repository.py:410-416 | deleting the edges of a closed set loses only descendants inside that set |
| Forest.BelowChildren | src/repositories/block_repository.py:405-408 | a block's descendants are its children together with theirs, which is what the loop over children collects |
| Forest.BelowClosed | src/repositories/block_repository.py:405-408 | the children of a block together with their descendants form a closed set |
| Forest.StripKeepsAcyclic | src/repositories/block_repository.py:410-416 | deleting edges keeps the edges acyclic |
| Forest.ShiftDownKeepsAcyclic | src/repositories/block_repository.py:379-388 | changing positions keeps the edges acyclic |
| Forest.InsertLeafKeepsAcyclic | src/repositories/block_repository.py:48-56 | hanging a block that no edge mentions under another block keeps the edges acyclic |
| Forest.DescendantsHaveParentInside | src/repositories/block_repository.py:397-424 | every descendant of `x` hangs under `x` or under another descendant |
| Forest.OnlyRootEdgeEntersSubtree | src/repositories/block_repository.py:361-369 | with single parents, only the edge into `x` enters the subtree of `x` from outside |
| Forest.CascadeSiblings | src/repositories/block_repository.py:361-369 | the cascade leaves the children of any block outside the subtree as they were, less `x` |
| Forest.CascadeEmptiesSubtree | src/repositories/block_repository.py:397-424 | after the cascade no block of the subtree keeps a child edge |
| Forest.ParentOutsideSubtree | src/repositories/block_repository.py:359-361 | the parent of the deleted block is not inside its subtree |
| Forest.CascadeKeepsParentContiguous | src/repositories/block_repository.py:379-388 | after the cascade and the gap closing, the old parent's children are contiguous |
| Forest.CascadeKeepsOtherContiguous | src/repositories/block_repository.py:361-388 | the cascade keeps every other surviving parent contiguous |
| Forest.RemovalElsewhereKeepsContiguous | src/repositories/block_repository.py:379-388 | deletions that leave `q`'s edges alone, followed by a gap closing under another parent, keep `q` contiguous |
| Forest.CascadeKeepsOrdered | src/repositories/block_repository.py:359-388 | deleting a child's subtree and closing the gap keeps every parent contiguous |
| Forest.CascadeOfRootKeepsOrdered | src/repositories/block_repository.py:359-378 | deleting the subtree of a parentless block keeps every parent contiguous |
| Forest.StripTwice | src/repositories/block_repository.py:410-416 | proof step of the cascade loop, no source behaviour of its own: two rounds of edge deletion delete the edges of both sets |
| Forest.BelowInsert | src/repositories/block_repository.py:407-424 | visiting one more child adds it and its descendants to what is deleted |
| Forest.DropIncomingAfterChildren | src/repositories/block_repository.py:361-369 | with the children already gone, deleting the edges into `x` deletes every edge touching `x` |
| Forest.DropIncomingAfterDescendants | src/repositories/block_repository.py:361-369 | after the cascade, deleting the edges into `x` leaves exactly the edges touching neither `x` nor a descendant |
| Ordering.LeastExists | src/repositories/block_repository.py:164-179 | a non-empty set of rows has a row with the smallest key |
| Ordering.SortedBy | src/repositories/block_repository.py:164-179 | an ORDER BY lists every row of the set exactly once, keys non-decreasing |
| BlockRepository.GetBlockPosition | src/repositories/block_repository.py:249-263 | None exactly when no edge enters the block; otherwise an existing edge into it, with that edge's position |
| BlockRepository.PositionIsParentEdge | src/repositories/block_repository.py:249-263 | with single parents, the lookup finds the one edge into the block |
| BlockRepository.GetBlock | src/repositories/block_repository.py:133-162 | Some exactly for a live block: its columns, with its parent edge's parent and position, or (None, 0) with no edge into it |
| BlockRepository.OrderedChildLinks | src/repositories/block_repository.py:228-247 | every live child edge under `p` once, positions non-decreasing |
| BlockRepository.LinkViews | src/repositories/block_repository.py:228-247 | each joined row reports the child's columns with that edge's parent and position |
| BlockRepository.ChildRowsReported | src/repositories/block_repository.py:228-247 | each reported row is a live child of `p` (of `ws` when given) with its edge's position |
| BlockRepository.ChildRowsComplete | src/repositories/block_repository.py:228-247 | every live child of `p` (of `ws` when given) is reported |
| BlockRepository.ChildViews | src/repositories/block_repository.py:228-247 | the children query: exactly the live children of `p` (of `ws` when given), each once, with their edge positions, in ascending position |
| BlockRepository.LiveChildLinks | src/repositories/block_repository.py:232-240 | definition of the JOIN's WHERE clause: the edges under `p` whose child is live (and of `ws` when given) |
| BlockRepository.GetBlockChildren | src/repositories/block_repository.py:228-247 | definition: the children query `ChildViews` with no workspace filter, so every live child of `p` exactly once, with its edge's position, in ascending position (the `ChildViews` contract) |
| BlockRepository.GetBlockWithContent | src/repositories/block_repository.py:181-226 | Some exactly for a live block: `get_block`'s answer plus `get_block_children` of the block |
| BlockRepository.IdViews | src/repositories/block_repository.py:164-179 | each id is reported as `get_block` reports it |
| BlockRepository.AllBlocksReported | src/repositories/block_repository.py:164-179 | live ids, each once and newest first, give exactly the contract of `GetAll` |
| BlockRepository.GetAll | src/repositories/block_repository.py:164-179 | every live block exactly once, as `get_block` reports it, `created_at` non-increasing |
| BlockRepository.Subtrees | src/repositories/block_repository.py:560-590 | one tree per child row of the children query, in its order, each child with its block view |
| BlockRepository.Expand | src/repositories/block_repository.py:583-588 | each child is paired with the recursive expansion of its own children |
| BlockRepository.Roots | src/repositories/block_repository.py:534-545 | definition of the root query: the live blocks of the workspace with no incoming edge |
| BlockRepository.RootForest | src/repositories/block_repository.py:533-554 | each root is reported with parent None and position 0 and expanded |
| BlockRepository.RootsReported | src/repositories/block_repository.py:533-545 | listing the roots once each reports every root exactly once |
| BlockRepository.RootTrees | src/repositories/block_repository.py:533-554 | every live parentless block of the workspace once, with parent None, position 0, expanded |
| BlockRepository.GetBlocksTree | src/repositories/block_repository.py:511-558 | with a parent: one tree per live child of that parent in the workspace, each under that parent; without one: every root of the workspace, with parent None and position 0 |
| BlockRepository.SubtreesStayInWorkspace | src/repositories/block_repository.py:560-590 | at every depth the recursion reports only live blocks of the workspace, each child under its own parent |
| BlockRepository.RootTreesStayInWorkspace | src/repositories/block_repository.py:533-554 | the root forest, at every depth, holds only live blocks of the workspace, each child under its own parent |
| BlockRepository.GetBlocksTreeStaysInWorkspace | src/repositories/block_repository.py:511-558 | `get_blocks_tree` holds, at every depth, only live blocks of the workspace, each child under its own parent |
| BlockRepository.ChildPositionsIncrease | src/repositories/block_repository.py:228-247 | with distinct positions, children come in strictly ascending position |
| BlockRepository.AllChildrenListed | src/repositories/block_repository.py:228-247 | when all children are live, one row per child edge is listed |
| BlockRepository.ChildPositionsInRange | src/repositories/block_repository.py:228-247 | with contiguous, live children, every listed position is below the number listed |
| BlockRepository.ChildrenAtTheirIndex | src/repositories/block_repository.py:228-247 | with contiguous, live children, every child is listed and the child at index i has position i |
| BlockRepository.PositionsFillRange | src/repositories/block_repository.py:228-247 | strictly ascending positions, each below the count, are exactly 0..n-1 |
| BlockRepository.AtLeastIndex | src/repositories/block_repository.py:228-247 | strictly ascending non-negative positions are at least their index |
| BlockRepository.AtMostIndex | src/repositories/block_repository.py:228-247 | strictly ascending positions bounded by the count are at most their index |
| BlockRepository.CreateAccepted | src/repositories/block_repository.py:35-56 | definition of when both INSERTs succeed: a new id, an existing workspace row, and an existing parent row (or the block itself); liveness is not checked |
| BlockRepository.Inserted | src/repositories/block_repository.py:20-69 | definition of the committed state: the row stamped with one instant and, under a parent, `InsertAt` at the requested position |
| BlockRepository.CreateKeepsValid | src/repositories/block_repository.py:20-69 | a committed creation keeps the foreign keys, single parents and timestamps valid |
| BlockRepository.InsertFreshChildKeepsForest | src/repositories/block_repository.py:48-56 | the edge of a block without a parent keeps one parent per block and adds only that edge |
| BlockRepository.CreatedBlockIsReported | src/repositories/block_repository.py:35-62 | after creation, `get_block` reports the new block with its columns, the given parent and position, or position 0 for a root |
| BlockRepository.CreatedBlockIsEmpty | src/repositories/block_repository.py:35-56 | a created block has no children unless it was made its own parent |
| BlockRepository.CreateKeepsOrdered | src/repositories/block_repository.py:32-56 | creating at a position in 0..n keeps every parent contiguous, and the parent gains one child |
| BlockRepository.CreateKeepsAcyclic | src/repositories/block_repository.py:32-56 | creating under another block keeps the edges acyclic |
| BlockRepository.SelfParentMakesCycle | src/repositories/block_repository.py:32-56 | the inserts accept a block as its own parent, and that edge is a cycle |
| BlockRepository.InsertAtZeroShiftsSiblings | src/repositories/block_repository.py:90-95 | inserting at 0 moves every former child with a non-negative position to 1 or above |
| BlockRepository.AppendedChildComesFirst | src/repositories/block_repository.py:81-131 | under contiguous siblings, the appended block is the first child listed |
| BlockRepository.FirstChildHasLeastPosition | src/repositories/block_repository.py:228-247 | a live child at 0, with every sibling above it, is listed first |
| BlockRepository.Merged | src/repositories/block_repository.py:289-293 | the merged document has the keys of both; patched keys take the patch's value; others keep theirs |
| BlockRepository.MergeIdempotent | src/repositories/block_repository.py:289-293 | merging the same patch twice equals merging it once |
| BlockRepository.Updated | src/repositories/block_repository.py:286-312 | definition of the committed state: non-empty properties merged, the type replaced when given, `updated_at` stamped |
| BlockRepository.UpdateKeepsValid | src/repositories/block_repository.py:265-343 | a committed update keeps the invariant |
| BlockRepository.UpdatedBlockIsReported | src/repositories/block_repository.py:286-325 | after an update the block reads with merged properties (when non-empty) and the new type (when given); parent, position, workspace and every other block unchanged |
| BlockRepository.UpdateIdempotent | src/repositories/block_repository.py:286-325 | repeating an update changes nothing a read can see |
| BlockRepository.Unlinked | src/repositories/block_repository.py:456-475 | definition: the edges after the old parent edge (if any) is deleted and the gap closed |
| BlockRepository.Moved | src/repositories/block_repository.py:456-499 | definition of the committed state: `Unlinked`, then `InsertAt` under the new parent, and `updated_at` stamped |
| BlockRepository.UnlinkedHasNoParent | src/repositories/block_repository.py:456-475 | after deleting its old edge, no edge enters the block, and no edge was added |
| BlockRepository.MoveInSteps | src/repositories/block_repository.py:456-497 | the statements in the order issued commit exactly the `Moved` state, and the insert does not collide with an existing edge |
| BlockRepository.MoveKeepsValid | src/repositories/block_repository.py:426-509 | a committed move keeps foreign keys, single parents and timestamps valid |
| BlockRepository.MovedBlockIsReported | src/repositories/block_repository.py:479-504 | after a move `get_block` reports the block under the new parent at the new position, with its columns |
| BlockRepository.MoveKeepsSiblingsContiguous | src/repositories/block_repository.py:456-497 | a move to a position in range keeps the old and the new parent contiguous, reorders under one parent included |
| BlockRepository.MoveKeepsOrdered | src/repositories/block_repository.py:456-497 | a move to a position in range keeps every parent contiguous |
| BlockRepository.Deleted | src/repositories/block_repository.py:359-390 | definition of the committed state: the rows of the block and its descendants and every edge touching them gone, then the shift down under the old parent |
| BlockRepository.Removed | src/repositories/block_repository.py:410-424 | definition of the two DELETEs for every block of a set: its edges, then its row |
| BlockRepository.RemoveRowsKeepsValid | src/repositories/block_repository.py:410-424 | deleting rows with every edge touching them keeps the invariant |
| BlockRepository.CascadeStep | src/repositories/block_repository.py:407-424 | one loop turn: with the subtrees of the visited children gone, the recursive call and the two DELETEs remove the next child's subtree too |
| BlockRepository.RemovedTwice | src/repositories/block_repository.py:410-424 | proof step of the cascade loop, no source behaviour of its own: two rounds of row and edge deletion are one round over the union |
| BlockRepository.CascadeTurn | src/repositories/block_repository.py:407-424 | the state after a loop turn is the next loop state and satisfies the invariant |
| BlockRepository.NothingRemoved | src/repositories/block_repository.py:405-407 | proof step of the cascade loop, no source behaviour of its own: before the first turn nothing is deleted |
| BlockRepository.TakeOne | src/repositories/block_repository.py:407 | proof step of the cascade loop, no source behaviour of its own: visiting a child moves it from the children to visit to the visited ones |
| BlockRepository.DeleteInSteps | src/repositories/block_repository.py:359-388 | the statements in the order issued commit exactly the `Deleted` state |
| BlockRepository.DeleteKeepsValid | src/repositories/block_repository.py:345-395 | a committed delete keeps the invariant and acyclicity |
| BlockRepository.DeleteRemovesSubtree | src/repositories/block_repository.py:359-378 | the block and all its descendants lose their rows and every edge touching them; no other block is removed; none of them can be read back |
| BlockRepository.DeleteKeepsParentContiguous | src/repositories/block_repository.py:379-388 | deleting a child closes the gap: the old parent stays contiguous |
| BlockRepository.DeleteKeepsOrdered | src/repositories/block_repository.py:359-388 | with every parent contiguous, a delete keeps every parent contiguous |
| BlockRepository.BlockRepository.constructor | src/repositories/block_repository.py:10-12 | the repository works on the given shared store |
| BlockRepository.BlockRepository.BlockPosition | src/repositories/block_repository.py:249-263 | returns the parent and position lookup on the current edges |
| BlockRepository.BlockRepository.ShiftPositions | src/repositories/block_repository.py:71-79 | changes only the edges, into the shift up of the old edges |
| BlockRepository.BlockRepository.CreateBlock | src/repositories/block_repository.py:20-69 | succeeds exactly when the id is new, the workspace row exists and the parent row exists (or is the block itself). A duplicate id fails with UniqueViolation; a failure rolls back the shift. On success: the `Inserted` state, reporting the columns with the requested parent and position |
| BlockRepository.BlockRepository.AppendBlockChild | src/repositories/block_repository.py:81-131 | `create_block` at position 0; under contiguous siblings the new block is the parent's first listed child |
| BlockRepository.BlockRepository.UpdateBlock | src/repositories/block_repository.py:265-343 | None, with nothing changed, exactly for an absent or soft-deleted block; otherwise the `Updated` state, reporting what `get_block` reads afterwards |
| BlockRepository.BlockRepository.DeleteChildrenRecursively | src/repositories/block_repository.py:397-424 | removes exactly the rows of all descendants of `x` and every edge touching them, nothing else |
| BlockRepository.BlockRepository.DeleteBlock | src/repositories/block_repository.py:345-395 | False, with nothing changed, exactly for an absent or soft-deleted block; otherwise the `Deleted` state, with the invariant and acyclicity kept |
| BlockRepository.BlockRepository.MoveBlock | src/repositories/block_repository.py:426-509 | None, with nothing changed, exactly when the block or the new parent is absent or soft-deleted; otherwise the `Moved` state, reporting the row under the new parent and position, as `get_block` then reads it |
| WorkspaceRepository.GetById | src/repositories/workspace_repository.py:36-50 | Some exactly for a live workspace, with its columns |
| WorkspaceRepository.WorkspaceViews | src/repositories/workspace_repository.py:20-34 | each id is reported with its row's columns |
| WorkspaceRepository.AllWorkspacesReported | src/repositories/workspace_repository.py:20-34 | live ids, each once and newest first, give exactly the contract of `GetAll` |
| WorkspaceRepository.GetAll | src/repositories/workspace_repository.py:20-34 | every live workspace exactly once, as `get_by_id` reports it, `created_at` non-increasing |
| WorkspaceRepository.WorkspaceCreated | src/repositories/workspace_repository.py:55-67 | definition of the committed state: a live row with `created_at` and `updated_at` the same instant |
| WorkspaceRepository.WorkspaceUpdated | src/repositories/workspace_repository.py:86-101 | definition of the committed state: each None field keeps its stored value, `updated_at` stamped |
| WorkspaceRepository.StampBlocks | src/repositories/workspace_repository.py:119-126 | definition of the UPDATE stamping `deleted_at` on the still-live blocks of the workspace |
| WorkspaceRepository.WorkspaceDeleted | src/repositories/workspace_repository.py:116-137 | definition of the committed state: `StampBlocks`, then the workspace row stamped with the same instant |
| WorkspaceRepository.CreateKeepsValid | src/repositories/workspace_repository.py:52-72 | a committed creation keeps the invariant |
| WorkspaceRepository.CreatedWorkspaceComesFirst | src/repositories/workspace_repository.py:55-67 | the new workspace reads back as given with `created_at == updated_at`, and heads `get_all` |
| WorkspaceRepository.CreateTouchesOnlyItsRow | src/repositories/workspace_repository.py:58-65 | creation leaves blocks, edges and every other workspace as they were |
| WorkspaceRepository.UpdateKeepsValid | src/repositories/workspace_repository.py:74-107 | a committed update keeps the invariant |
| WorkspaceRepository.UpdatedWorkspaceIsReported | src/repositories/workspace_repository.py:82-102 | each given field is replaced and each None field kept; `created_at` kept, `updated_at` later; no other row changes |
| WorkspaceRepository.DescriptionCannotBeCleared | src/repositories/workspace_repository.py:86-89 | a None description keeps the stored one, so a set description cannot be cleared |
| WorkspaceRepository.DeleteStampsLiveBlocksOnly | src/repositories/workspace_repository.py:116-135 | exactly the still-live blocks of the workspace are stamped, with the workspace's instant; other blocks, edges and workspaces are unchanged |
| WorkspaceRepository.DeleteKeepsValid | src/repositories/workspace_repository.py:109-143 | a committed delete keeps the invariant |
| WorkspaceRepository.DeleteHidesWorkspaceBlocks | src/repositories/workspace_repository.py:116-135 | afterwards the workspace is gone from `get_by_id` and `get_all`, and its blocks are gone from `get_block` and from `get_block_children` of any parent. Other workspaces' blocks read as before |
| WorkspaceRepository.DeleteEmptiesTree | src/repositories/workspace_repository.py:116-135 | afterwards `get_blocks_tree` of the workspace is empty from any starting block, and the edges stay acyclic |
| WorkspaceRepository.DeleteIsFinal | src/repositories/workspace_repository.py:112-114 | after the delete the workspace is no longer live, so a second delete reports False |
| WorkspaceRepository.WorkspaceRepository.constructor | src/repositories/workspace_repository.py:10-12 | the repository works on the given shared store |
| WorkspaceRepository.WorkspaceRepository.Create | src/repositories/workspace_repository.py:52-72 | UniqueViolation, with nothing changed, exactly when the id is taken (even by a soft-deleted row); otherwise the `WorkspaceCreated` state, returning the row stamped twice with one instant, as `get_by_id` reads it |
| WorkspaceRepository.WorkspaceRepository.Update | src/repositories/workspace_repository.py:74-107 | None, with nothing changed, exactly for an absent or soft-deleted workspace; otherwise the `WorkspaceUpdated` state, returning what `get_by_id` reads |
| WorkspaceRepository.WorkspaceRepository.Delete | src/repositories/workspace_repository.py:109-143 | False, with nothing changed, exactly for an absent or soft-deleted workspace; otherwise True and the `WorkspaceDeleted` state |

## Left out

- The connection pool, cursors, commits and the Python exception objects are not modelled. Each method is one atomic step on the shared `Database`. The only database errors modelled are the primary and foreign key violations of the INSERTs, as `DbError`. A failed INSERT rolls the transaction back.
- Concurrency between transactions is not modelled.
- `_get_block_position` runs on a separate connection, so it does not see the caller's uncommitted statements. `delete_block` and `move_block` read it before their first write; `update_block` reads it after its commit and changes no edge; so the model reads the current edges.
- `datetime.now()` and `NOW()` become the abstract `clock` of `Tables`. Each committed stamping transaction uses it and then advances it by one.
- IDs drawn with `uuid.uuid4()` in `append_block_child` and workspace `create` are parameters. A collision with an existing row is the UniqueViolation path.
- Block types are stored as a 50-character string. The model uses the closed `BlockType` enum from `src/models/block.py`, so an unknown type string is not representable.
- The 255-character limit on workspace names is not modelled.
- `position` is a 32-bit INTEGER column. Overflow on an insert or a shift (an error and a rollback in the source) is not modelled: positions are unbounded integers.
- JSON values are kept as their text, `Json = string`. A NULL `properties` column, which the source reads as `{}`, is not representable; the column's default is `{}`.
- BlockRepository.BlockRepository.UpdateBlock: the branch that returns the unchanged row when there is nothing to set is dead code, because `updated_at` is always set. It is not modelled.
- BlockRepository.BlockRepository.MoveBlock: no cycle check, as in the source. A move under a descendant is accepted and keeps `Valid`, but not `Acyclic`.
- BlockRepository.BlockRepository.DeleteBlock requires the whole edge table to be acyclic. That is stronger than the source needs: `_delete_children_recursively` walks only down from `id`, so the source loops only on a cycle reachable from `id` (until the interpreter's recursion limit raises an error and the transaction rolls back). One self-parent block, or one move under a descendant, anywhere in the table puts every delete outside this model.
- BlockRepository.GetBlocksTree requires the whole edge table to be acyclic. That is stronger than the source needs: `_get_children_recursive` loops only on a cycle of live blocks of the same workspace below the start.
- BlockRepository.RootTrees: the root query has no ORDER BY, so the order of the roots is left open. Only "each root exactly once" is stated.
- `created_at` and `updated_at` are not part of `BlockView`. The block queries that use `RETURNING *` also return them; the model states them on the stored rows instead.
- Positions that a caller passes out of range (negative, or above the number of children) are accepted, as in the source. The contiguity lemmas require an in-range position.
- Controllers, services, utilities, the object storage and the migrations are not part of this model. The migration's foreign keys (lines 34 and 42-44) and the edge primary key (line 44) are the exception.
- Single parenthood is not a constraint of the schema. It is an invariant that the repository's operations keep, because creation and move insert only the edge of a block without a parent. It is part of `Valid`.
