/**
 * The workspace store: lookups of live workspaces, creation, renaming, and the
 * soft delete that stamps `deleted_at` on the workspace and on its still-live blocks,
 * which is what makes the block store's "live only" filters bite.
 */
module WorkspaceRepository {
  import opened Wrappers
  import opened Store
  import opened Ordering
  import Forest
  import Blocks = BlockRepository

  /** The columns every workspace query returns: `id, name, description, created_at, updated_at`. */
  datatype WorkspaceView = WorkspaceView(
    id: WorkspaceId,
    name: string,
    description: Option<string>,
    createdAt: Timestamp,
    updatedAt: Timestamp)

  /** The returned columns of row `w` with key `id`. */
  function ViewOfWorkspace(id: WorkspaceId, w: Workspace): WorkspaceView {
    WorkspaceView(id, w.name, w.description, w.createdAt, w.updatedAt)
  }

  // ---------------------------------------------------------------------------------
  // Readers
  // ---------------------------------------------------------------------------------

  /** `get_by_id`: the row, unless it is absent or soft-deleted. */
  function GetById(t: Tables, id: WorkspaceId): (r: Option<WorkspaceView>)
    ensures r.Some? <==> IsLiveWorkspace(t, id)
    ensures r.Some? ==> r.value.id == id && r.value == ViewOfWorkspace(id, t.workspaces[id])
  {
    if id in t.workspaces && t.workspaces[id].deletedAt.None? then
      Some(ViewOfWorkspace(id, t.workspaces[id]))
    else
      None
  }

  /** The ids `WHERE deleted_at IS NULL` selects. */
  ghost function LiveWorkspaceIds(t: Tables): set<WorkspaceId> {
    set w | w in t.workspaces && t.workspaces[w].deletedAt.None?
  }

  /** The `created_at` column of workspace `id` (0 for an absent row). */
  function WorkspaceCreatedAt(t: Tables, id: WorkspaceId): Timestamp {
    if id in t.workspaces then t.workspaces[id].createdAt else 0
  }

  /** `ORDER BY created_at DESC` as an ascending key. */
  function NewestWorkspaceFirst(t: Tables): WorkspaceId -> int {
    (w: WorkspaceId) => 0 - WorkspaceCreatedAt(t, w)
  }

  /** Each workspace of `ids` as its row reads. */
  function WorkspaceViews(t: Tables, ids: seq<WorkspaceId>): (r: seq<WorkspaceView>)
    requires forall i :: 0 <= i < |ids| ==> ids[i] in t.workspaces
    ensures |r| == |ids|
    ensures forall i :: 0 <= i < |ids| ==> r[i] == ViewOfWorkspace(ids[i], t.workspaces[ids[i]])
  {
    if ids == [] then [] else [ViewOfWorkspace(ids[0], t.workspaces[ids[0]])] + WorkspaceViews(t, ids[1..])
  }

  /** Listing the live ids, each once and newest first, gives the contract of `GetAll`. */
  lemma AllWorkspacesReported(t: Tables, ids: seq<WorkspaceId>, r: seq<WorkspaceView>)
    requires forall i :: 0 <= i < |ids| ==> ids[i] in LiveWorkspaceIds(t)
    requires forall w :: w in LiveWorkspaceIds(t) ==> w in ids
    requires forall i, j :: 0 <= i < j < |ids| ==> ids[i] != ids[j]
    requires forall i, j :: 0 <= i < j < |ids| ==> NewestWorkspaceFirst(t)(ids[i]) <= NewestWorkspaceFirst(t)(ids[j])
    requires |r| == |ids|
    requires forall i :: 0 <= i < |ids| ==> ids[i] in t.workspaces && r[i] == ViewOfWorkspace(ids[i], t.workspaces[ids[i]])
    ensures forall i :: 0 <= i < |r| ==> GetById(t, r[i].id) == Some(r[i])
    ensures forall w :: IsLiveWorkspace(t, w) ==> exists i :: 0 <= i < |r| && r[i].id == w
    ensures forall i, j :: 0 <= i < j < |r| ==> r[i].id != r[j].id
    ensures forall i, j :: 0 <= i < j < |r| ==> r[i].createdAt >= r[j].createdAt
  {
    assert forall i :: 0 <= i < |r| ==> r[i].id == ids[i];
    forall w | IsLiveWorkspace(t, w) ensures exists i :: 0 <= i < |r| && r[i].id == w {
      assert w in LiveWorkspaceIds(t);
      var i :| 0 <= i < |ids| && ids[i] == w;
      assert r[i].id == w;
    }
  }

  /** `get_all`: every live workspace once, newest `created_at` first. */
  ghost function GetAll(t: Tables): (r: seq<WorkspaceView>)
    ensures forall i :: 0 <= i < |r| ==> GetById(t, r[i].id) == Some(r[i])
    ensures forall w :: IsLiveWorkspace(t, w) ==> exists i :: 0 <= i < |r| && r[i].id == w
    ensures forall i, j :: 0 <= i < j < |r| ==> r[i].id != r[j].id
    ensures forall i, j :: 0 <= i < j < |r| ==> r[i].createdAt >= r[j].createdAt
  {
    var ids := SortedBy(LiveWorkspaceIds(t), NewestWorkspaceFirst(t));
    var r := WorkspaceViews(t, ids);
    AllWorkspacesReported(t, ids, r);
    r
  }

  // ---------------------------------------------------------------------------------
  // Transitions
  // ---------------------------------------------------------------------------------

  /** The state `create` commits: a live row stamped twice with the same instant. */
  function WorkspaceCreated(t: Tables, id: WorkspaceId, name: string, description: Option<string>): Tables {
    t.(workspaces := t.workspaces[id := Workspace(name, description, t.clock, t.clock, None)], clock := t.clock + 1)
  }

  /** The state `update` commits: a field given as None keeps its stored value. */
  function WorkspaceUpdated(t: Tables, id: WorkspaceId, name: Option<string>, description: Option<string>): Tables
    requires id in t.workspaces
  {
    var w := t.workspaces[id];
    var newName := if name.Some? then name.value else w.name;
    var newDescription := if description.Some? then description else w.description;
    t.(workspaces := t.workspaces[id := w.(name := newName, description := newDescription, updatedAt := t.clock)],
       clock := t.clock + 1)
  }

  /** `UPDATE blocks SET deleted_at = now WHERE workspace_id = ws AND deleted_at IS NULL` */
  function StampBlocks(blocks: map<BlockId, Block>, ws: WorkspaceId, now: Timestamp): map<BlockId, Block> {
    map b | b in blocks ::
      if blocks[b].workspace == ws && blocks[b].deletedAt.None? then blocks[b].(deletedAt := Some(now)) else blocks[b]
  }

  /** The state `delete` commits for a live workspace: its live blocks and its row stamped. */
  function WorkspaceDeleted(t: Tables, id: WorkspaceId): Tables
    requires id in t.workspaces
  {
    t.(blocks := StampBlocks(t.blocks, id, t.clock),
       workspaces := t.workspaces[id := t.workspaces[id].(deletedAt := Some(t.clock))],
       clock := t.clock + 1)
  }

  // ---------------------------------------------------------------------------------
  // Properties of the transitions
  // ---------------------------------------------------------------------------------

  /** A committed creation keeps every constraint of the schema. */
  lemma CreateKeepsValid(t: Tables, id: WorkspaceId, name: string, description: Option<string>)
    requires Valid(t)
    ensures Valid(WorkspaceCreated(t, id, name, description))
  {
  }

  /**
   * A created workspace is live, reads back as given with `created_at == updated_at`,
   * and, being stamped after every existing row, heads `get_all`.
   */
  lemma CreatedWorkspaceComesFirst(t: Tables, id: WorkspaceId, name: string, description: Option<string>)
    requires Valid(t) && id !in t.workspaces
    ensures var t' := WorkspaceCreated(t, id, name, description);
      && GetById(t', id) == Some(WorkspaceView(id, name, description, t.clock, t.clock))
      && |GetAll(t')| > 0 && GetAll(t')[0].id == id
  {
    var t' := WorkspaceCreated(t, id, name, description);
    var r := GetAll(t');
    assert IsLiveWorkspace(t', id);
  }

  /** Creation touches neither the blocks nor the edges, nor any other workspace. */
  lemma CreateTouchesOnlyItsRow(t: Tables, id: WorkspaceId, name: string, description: Option<string>)
    requires id !in t.workspaces
    ensures var t' := WorkspaceCreated(t, id, name, description);
      && t'.blocks == t.blocks && t'.edges == t.edges
      && (forall w :: w != id ==> GetById(t', w) == GetById(t, w))
  {
  }

  /** A committed update keeps every constraint of the schema. */
  lemma UpdateKeepsValid(t: Tables, id: WorkspaceId, name: Option<string>, description: Option<string>)
    requires Valid(t) && id in t.workspaces
    ensures Valid(WorkspaceUpdated(t, id, name, description))
  {
  }

  /**
   * After an update the workspace reads back with each given field replaced (an empty
   * string included) and each None field kept, `created_at` kept and `updated_at`
   * later than before; no other row changes.
   */
  lemma UpdatedWorkspaceIsReported(t: Tables, id: WorkspaceId, name: Option<string>, description: Option<string>)
    requires Valid(t) && IsLiveWorkspace(t, id)
    ensures var before := GetById(t, id).value;
      var after := GetById(WorkspaceUpdated(t, id, name, description), id);
      && after.Some?
      && after.value.name == (if name.Some? then name.value else before.name)
      && after.value.description == (if description.Some? then description else before.description)
      && after.value.createdAt == before.createdAt
      && after.value.updatedAt > before.updatedAt
    ensures forall w :: w != id ==> GetById(WorkspaceUpdated(t, id, name, description), w) == GetById(t, w)
    ensures WorkspaceUpdated(t, id, name, description).blocks == t.blocks
    ensures WorkspaceUpdated(t, id, name, description).edges == t.edges
  {
  }

  /** A None description keeps the stored one, so once a description is set no update can clear it to NULL. */
  lemma DescriptionCannotBeCleared(t: Tables, id: WorkspaceId, name: Option<string>, description: Option<string>)
    requires IsLiveWorkspace(t, id) && t.workspaces[id].description.Some?
    ensures WorkspaceUpdated(t, id, name, description).workspaces[id].description.Some?
  {
  }

  /**
   * The workspace delete stamps exactly the still-live blocks of the workspace, with
   * the same instant as the workspace row; every other block, and every edge, is as it was.
   */
  lemma DeleteStampsLiveBlocksOnly(t: Tables, id: WorkspaceId)
    requires IsLiveWorkspace(t, id)
    ensures var t' := WorkspaceDeleted(t, id);
      && t'.blocks.Keys == t.blocks.Keys
      && t'.edges == t.edges
      && t'.workspaces[id].deletedAt == Some(t.clock)
      && (forall b :: b in t.blocks && t.blocks[b].workspace == id && t.blocks[b].deletedAt.None? ==>
            t'.blocks[b] == t.blocks[b].(deletedAt := t'.workspaces[id].deletedAt))
      && (forall b :: b in t.blocks && (t.blocks[b].workspace != id || t.blocks[b].deletedAt.Some?) ==>
            t'.blocks[b] == t.blocks[b])
      && (forall w :: w != id ==> w in t.workspaces ==> t'.workspaces[w] == t.workspaces[w])
  {
  }

  /** A committed workspace delete keeps every constraint of the schema. */
  lemma DeleteKeepsValid(t: Tables, id: WorkspaceId)
    requires Valid(t) && IsLiveWorkspace(t, id)
    ensures Valid(WorkspaceDeleted(t, id))
  {
    var t' := WorkspaceDeleted(t, id);
    assert forall b :: b in t'.blocks ==> t'.blocks[b].workspace == t.blocks[b].workspace;
  }

  /**
   * After the delete the workspace is gone from `get_by_id` and `get_all`, and none of
   * its blocks is visible to `get_block`, to `get_block_children` of any parent, or to
   * `get_blocks_tree`; blocks of other workspaces read as before.
   */
  lemma DeleteHidesWorkspaceBlocks(t: Tables, id: WorkspaceId)
    requires Valid(t) && IsLiveWorkspace(t, id)
    ensures var t' := WorkspaceDeleted(t, id);
      && GetById(t', id).None?
      && (forall i :: 0 <= i < |GetAll(t')| ==> GetAll(t')[i].id != id)
      && (forall b :: b in t.blocks && t.blocks[b].workspace == id ==> Blocks.GetBlock(t', b).None?)
      && (forall b :: b in t.blocks && t.blocks[b].workspace != id ==> Blocks.GetBlock(t', b) == Blocks.GetBlock(t, b))
      && (forall p, i :: 0 <= i < |Blocks.GetBlockChildren(t', p)| ==> Blocks.GetBlockChildren(t', p)[i].workspace != id)
  {
    var t' := WorkspaceDeleted(t, id);
    DeleteStampsLiveBlocksOnly(t, id);
    forall b | b in t.blocks && t.blocks[b].workspace != id ensures Blocks.GetBlock(t', b) == Blocks.GetBlock(t, b) {
      assert t'.blocks[b] == t.blocks[b];
    }
  }

  /** Once the workspace is deleted, `get_blocks_tree` finds nothing in it, from any starting block. */
  lemma DeleteEmptiesTree(t: Tables, id: WorkspaceId, parent: Option<BlockId>)
    requires Valid(t) && IsLiveWorkspace(t, id) && Forest.Acyclic(t.edges)
    ensures Forest.Acyclic(WorkspaceDeleted(t, id).edges)
    ensures Blocks.GetBlocksTree(WorkspaceDeleted(t, id), id, parent) == []
  {
    var t' := WorkspaceDeleted(t, id);
    DeleteStampsLiveBlocksOnly(t, id);
    if parent.Some? {
      assert Blocks.LiveChildLinks(t', parent.value, Some(id)) == {};
    } else {
      assert Blocks.Roots(t', id) == {};
    }
  }

  /** After the delete the workspace is no longer live, so a second delete reports False. */
  lemma DeleteIsFinal(t: Tables, id: WorkspaceId)
    requires IsLiveWorkspace(t, id)
    ensures !IsLiveWorkspace(WorkspaceDeleted(t, id), id)
  {
  }

  // ---------------------------------------------------------------------------------
  // The repository: one transaction per method over the shared store
  // ---------------------------------------------------------------------------------

  class WorkspaceRepository {
    const db: Database

    constructor (db: Database)
      ensures this.db == db
    {
      this.db := db;
    }

    /**
     * `create` with the id `uuid4` draws (here the caller's `id`): an id already in the
     * table, even a soft-deleted one, fails the primary key and rolls back.
     */
    method Create(id: WorkspaceId, name: string, description: Option<string>)
      returns (r: Result<WorkspaceView, DbError>)
      requires Valid(db.tables)
      modifies db
      ensures Valid(db.tables)
      ensures r.Failure? <==> id in old(db.tables.workspaces)
      ensures r.Failure? ==> r.error == UniqueViolation && db.tables == old(db.tables)
      ensures r.Success? ==>
        && db.tables == WorkspaceCreated(old(db.tables), id, name, description)
        && r.value == WorkspaceView(id, name, description, old(db.tables.clock), old(db.tables.clock))
        && GetById(db.tables, id) == Some(r.value)
    {
      if id in db.tables.workspaces {
        return Failure(UniqueViolation);
      }
      CreateKeepsValid(db.tables, id, name, description);
      var now := db.tables.clock;
      db.tables := db.tables.(workspaces := db.tables.workspaces[id := Workspace(name, description, now, now, None)]);
      db.tables := db.tables.(clock := now + 1);
      r := Success(WorkspaceView(id, name, description, now, now));
    }

    /**
     * `update`: None for an absent or soft-deleted workspace; otherwise each None
     * argument falls back to the stored value, and the row is rewritten and stamped.
     */
    method Update(id: WorkspaceId, name: Option<string>, description: Option<string>)
      returns (r: Option<WorkspaceView>)
      requires Valid(db.tables)
      modifies db
      ensures Valid(db.tables)
      ensures r.None? <==> !IsLiveWorkspace(old(db.tables), id)
      ensures r.None? ==> db.tables == old(db.tables)
      ensures r.Some? ==>
        && db.tables == WorkspaceUpdated(old(db.tables), id, name, description)
        && r == GetById(db.tables, id)
    {
      var current := GetById(db.tables, id);
      if current.None? {
        return None;
      }
      var newName := if name.Some? then name.value else current.value.name;
      var newDescription := if description.Some? then description else current.value.description;
      UpdateKeepsValid(db.tables, id, name, description);
      var now := db.tables.clock;
      var w := db.tables.workspaces[id];
      db.tables := db.tables.(
        workspaces := db.tables.workspaces[id := w.(name := newName, description := newDescription, updatedAt := now)],
        clock := now + 1);
      r := Some(WorkspaceView(id, newName, newDescription, w.createdAt, now));
    }

    /**
     * `delete`: False for an absent or soft-deleted workspace; otherwise stamp its
     * still-live blocks, then the workspace row, and report whether that row was updated.
     */
    method Delete(id: WorkspaceId) returns (deleted: bool)
      requires Valid(db.tables)
      modifies db
      ensures Valid(db.tables)
      ensures deleted <==> IsLiveWorkspace(old(db.tables), id)
      ensures !deleted ==> db.tables == old(db.tables)
      ensures deleted ==> db.tables == WorkspaceDeleted(old(db.tables), id)
    {
      var current := GetById(db.tables, id);
      if current.None? {
        return false;
      }
      DeleteKeepsValid(db.tables, id);
      var now := db.tables.clock;
      db.tables := db.tables.(blocks := StampBlocks(db.tables.blocks, id, now));
      // UPDATE workspaces SET deleted_at = now WHERE id = ws AND deleted_at IS NULL
      var rowCount := 0;
      if id in db.tables.workspaces && db.tables.workspaces[id].deletedAt.None? {
        db.tables := db.tables.(workspaces := db.tables.workspaces[id := db.tables.workspaces[id].(deletedAt := Some(now))]);
        rowCount := 1;
      }
      db.tables := db.tables.(clock := now + 1);
      deleted := rowCount > 0;
    }
  }
}
