/**
 * The relational store shared by the block and workspace repositories: the tables
 * `workspaces`, `blocks` and `block_content_association` (the edges), their keys and
 * foreign keys, and a clock standing for the database's notion of "now".
 */
module Store {
  import opened Wrappers

  /** The closed set of block kinds (`BlockTypeEnum`). */
  datatype BlockType =
    | RootBlock | Page | Text | Heading1 | Heading2 | Heading3
    | BulletList | NumberedList | ToDo | Toggle | Code | Image | File

  /** Opaque identifiers; the source uses UUIDs. */
  datatype BlockId = BlockId(uuid: nat)
  datatype WorkspaceId = WorkspaceId(uuid: nat)

  /** Timestamps are abstract: a larger value is a later instant. */
  type Timestamp = nat

  /** A JSON value of the `properties` document, kept as its text. */
  type Json = string

  /** The `properties` JSONB column: a key to value document. */
  type Properties = map<string, Json>

  /** One row of `workspaces`. */
  datatype Workspace = Workspace(
    name: string,
    description: Option<string>,
    createdAt: Timestamp,
    updatedAt: Timestamp,
    deletedAt: Option<Timestamp>)

  /** One row of `blocks`, without its primary key. */
  datatype Block = Block(
    kind: BlockType,
    properties: Properties,
    workspace: WorkspaceId,
    createdAt: Timestamp,
    updatedAt: Timestamp,
    deletedAt: Option<Timestamp>)

  /** The primary key (parent_block_id, child_block_id) of an edge row. */
  datatype Link = Link(parent: BlockId, child: BlockId)

  /**
   * The `block_content_association` table: each edge row's key mapped to its
   * `position`. Keying the map by the pair makes the primary key hold by construction.
   */
  type Edges = map<Link, int>

  /** The whole database; `clock` is the next value `now()` will return. */
  datatype Tables = Tables(
    workspaces: map<WorkspaceId, Workspace>,
    blocks: map<BlockId, Block>,
    edges: Edges,
    clock: Timestamp)

  /** The errors a transaction can raise from the store. */
  datatype DbError =
    | UniqueViolation      // an INSERT repeats a primary key
    | ForeignKeyViolation  // a row refers to a row that does not exist

  /** A block row that exists and is not soft-deleted (`deleted_at IS NULL`). */
  predicate IsLive(t: Tables, id: BlockId) {
    id in t.blocks && t.blocks[id].deletedAt.None?
  }

  /** A workspace row that exists and is not soft-deleted. */
  predicate IsLiveWorkspace(t: Tables, id: WorkspaceId) {
    id in t.workspaces && t.workspaces[id].deletedAt.None?
  }

  /** Both endpoints of every edge exist as block rows (the two foreign keys of the edge table). */
  ghost predicate EdgesReferenceBlocks(t: Tables) {
    forall l :: l in t.edges ==> l.parent in t.blocks && l.child in t.blocks
  }

  /** Every block's workspace exists as a workspace row (the foreign key of `blocks`). */
  ghost predicate BlocksReferenceWorkspaces(t: Tables) {
    forall b :: b in t.blocks ==> t.blocks[b].workspace in t.workspaces
  }

  /** A block has at most one incoming edge: the tables describe a forest, not a DAG. */
  ghost predicate SingleParent(e: Edges) {
    forall l, m :: l in e && m in e && l.child == m.child ==> l == m
  }

  ghost predicate BlockStampedBefore(b: Block, now: Timestamp) {
    b.createdAt < now && b.updatedAt < now && (b.deletedAt.Some? ==> b.deletedAt.value < now)
  }

  ghost predicate WorkspaceStampedBefore(w: Workspace, now: Timestamp) {
    w.createdAt < now && w.updatedAt < now && (w.deletedAt.Some? ==> w.deletedAt.value < now)
  }

  /** Every timestamp stored so far lies before the clock. */
  ghost predicate StampsBeforeClock(t: Tables) {
    && (forall b :: b in t.blocks ==> BlockStampedBefore(t.blocks[b], t.clock))
    && (forall w :: w in t.workspaces ==> WorkspaceStampedBefore(t.workspaces[w], t.clock))
  }

  /** The invariant every committed state satisfies. */
  ghost predicate Valid(t: Tables) {
    && EdgesReferenceBlocks(t)
    && BlocksReferenceWorkspaces(t)
    && SingleParent(t.edges)
    && StampsBeforeClock(t)
  }

  /** The store both repositories share, as the source's repositories share one connection pool. */
  class Database {
    var tables: Tables

    constructor ()
      ensures Valid(tables)
      ensures tables == Tables(map[], map[], map[], 0)
    {
      tables := Tables(map[], map[], map[], 0);
    }
  }
}
