/** `update_data` of the repair-shop dashboard: it turns the grid's pending
    changes into UPDATE, INSERT and DELETE statements on the `repairs` table,
    in that order, and then commits.

    The store is a value here, so `update_data` becomes a pure function from
    (store, snapshot, pending changes) to the store after the commit, written
    as the composition of one function per phase. */
module Reconcile {
  import opened Repairs

  /** One entry of `edited_rows`: a snapshot position and the columns the user
      changed in that row. */
  datatype Edit = Edit(position: nat, delta: Delta)

  /** The grid's pending changes: `edited_rows` (in dict order), `added_rows`
      and `deleted_rows` (snapshot positions). */
  datatype Changes = Changes(edited: seq<Edit>, added: seq<Delta>, deleted: seq<nat>)

  /** The state of the grid right after a load: nothing pending. */
  const NoChanges: Changes := Changes([], [], [])

  /** `edited_rows` is a dict keyed by position, so no position is listed twice. */
  predicate DistinctPositions(edits: seq<Edit>) {
    forall j, k :: 0 <= j < |edits| && 0 <= k < |edits| && j != k ==> edits[j].position != edits[k].position
  }

  predicate EditsInBounds(snap: seq<Row>, edits: seq<Edit>) {
    forall k :: 0 <= k < |edits| ==> edits[k].position < |snap|
  }

  predicate PositionsInBounds(snap: seq<Row>, positions: seq<nat>) {
    forall k :: 0 <= k < |positions| ==> positions[k] < |snap|
  }

  /** Every position the changes mention is a row of the snapshot; for any
      other, `df.iloc[i]` or `df.loc[i, "id"]` raises. */
  predicate InBounds(snap: seq<Row>, c: Changes) {
    EditsInBounds(snap, c.edited) && PositionsInBounds(snap, c.deleted)
  }

  /** `id` is the primary key, so a snapshot of the table lists each id once. */
  predicate UniqueIds(snap: seq<Row>) {
    forall i, j :: 0 <= i < |snap| && 0 <= j < |snap| && i != j ==> snap[i].id != snap[j].id
  }

  /** Every id in the snapshot was handed out by the store at or before the
      high-water mark `bound`; true of any snapshot ever loaded from it. */
  predicate IdsAtMost(snap: seq<Row>, bound: int) {
    forall i :: 0 <= i < |snap| ==> snap[i].id <= bound
  }

  /** `load_data`: the snapshot lists the store's rows, each once, under some
      position index (no particular order of `SELECT *` is assumed). */
  ghost predicate IsSnapshotOf(snap: seq<Row>, s: Store) {
    && UniqueIds(snap)
    && (forall i :: 0 <= i < |snap| ==> snap[i].id in s.rows && s.rows[snap[i].id] == snap[i].cells)
    && (forall id :: id in s.rows ==> exists i :: 0 <= i < |snap| && snap[i].id == id)
  }

  /** `UPDATE repairs SET ... WHERE id = :id`: overwrites the row with that id
      and matches nothing when there is none. */
  function UpdateById(rows: map<int, Cells>, id: int, cells: Cells): (r: map<int, Cells>)
    ensures r.Keys == rows.Keys
    ensures id in rows ==> r[id] == cells
    ensures forall other :: other in rows && other != id ==> r[other] == rows[other]
  {
    if id in rows then rows[id := cells] else rows
  }

  /** Some edit in the list targets the row with this id. */
  ghost predicate EditsId(snap: seq<Row>, edits: seq<Edit>, id: int)
    requires EditsInBounds(snap, edits)
  {
    exists k :: 0 <= k < |edits| && snap[edits[k].position].id == id
  }

  /** Phase 1, the `executemany` UPDATE: each edit merges its delta onto the
      SNAPSHOT row at its position and writes the result over the store row
      carrying that snapshot row's id. No row appears or disappears, and a
      row no edit targets keeps its value. */
  function ApplyEdits(rows: map<int, Cells>, snap: seq<Row>, edits: seq<Edit>): (r: map<int, Cells>)
    requires EditsInBounds(snap, edits)
    ensures r.Keys == rows.Keys
    ensures forall id :: id in rows && !EditsId(snap, edits, id) ==> r[id] == rows[id]
    decreases |edits|
  {
    if |edits| == 0 then rows
    else
      var row := snap[edits[0].position];
      var rest := edits[1..];
      assert forall id :: EditsId(snap, rest, id) ==> EditsId(snap, edits, id) by {
        forall id | EditsId(snap, rest, id)
          ensures EditsId(snap, edits, id)
        {
          var k :| 0 <= k < |rest| && snap[rest[k].position].id == id;
          assert edits[k + 1] == rest[k];
        }
      }
      ApplyEdits(UpdateById(rows, row.id, Merge(row.cells, edits[0].delta)), snap, rest)
  }

  /** Phase 2, the `executemany` INSERT with `id` bound to None: each added
      row, in order, gets the next AUTOINCREMENT id and its missing columns
      as NULL. Existing rows are untouched and exactly the ids above the old
      high-water mark appear. */
  function ApplyInserts(s: Store, added: seq<Delta>): (r: Store)
    requires Valid(s)
    ensures Valid(r)
    ensures r.lastId == s.lastId + |added|
    ensures forall id :: id in r.rows <==> id in s.rows || s.lastId < id <= r.lastId
    ensures forall id :: id in s.rows ==> r.rows[id] == s.rows[id]
    decreases |added|
  {
    if |added| == 0 then s
    else
      var id := NextId(s);
      var next := Store(s.rows[id := Fill(added[0])], id);
      assert Valid(next);
      ApplyInserts(next, added[1..])
  }

  /** The k-th added row is stored under the k-th id after the high-water
      mark, with its missing columns NULL. */
  lemma {:induction false} ApplyInsertsStoresAdded(s: Store, added: seq<Delta>, k: nat)
    requires Valid(s) && k < |added|
    ensures s.lastId + 1 + k in ApplyInserts(s, added).rows
    ensures ApplyInserts(s, added).rows[s.lastId + 1 + k] == Fill(added[k])
    decreases |added|
  {
    var next := Store(s.rows[NextId(s) := Fill(added[0])], NextId(s));
    assert ApplyInserts(s, added) == ApplyInserts(next, added[1..]);
    if k > 0 {
      assert added[1..][k - 1] == added[k];
      ApplyInsertsStoresAdded(next, added[1..], k - 1);
    }
  }

  /** The ids the listed positions carry in the snapshot. */
  ghost function DeletedIds(snap: seq<Row>, positions: seq<nat>): set<int>
    requires PositionsInBounds(snap, positions)
  {
    set k | 0 <= k < |positions| :: snap[positions[k]].id
  }

  /** Phase 3, the `executemany` DELETE: each position is resolved to an id
      through the snapshot, and the row with that id is removed. Together
      they remove exactly the snapshot ids of the listed positions. */
  function ApplyDeletes(rows: map<int, Cells>, snap: seq<Row>, positions: seq<nat>): (r: map<int, Cells>)
    requires PositionsInBounds(snap, positions)
    ensures r == rows - DeletedIds(snap, positions)
    decreases |positions|
  {
    if |positions| == 0 then rows
    else
      var rest := positions[1..];
      assert DeletedIds(snap, positions) == {snap[positions[0]].id} + DeletedIds(snap, rest) by {
        forall id | id in DeletedIds(snap, positions)
          ensures id in {snap[positions[0]].id} + DeletedIds(snap, rest)
        {
          var k :| 0 <= k < |positions| && snap[positions[k]].id == id;
          if k > 0 {
            assert rest[k - 1] == positions[k];
          }
        }
        forall id | id in DeletedIds(snap, rest)
          ensures id in DeletedIds(snap, positions)
        {
          var k :| 0 <= k < |rest| && snap[rest[k]].id == id;
          assert positions[k + 1] == rest[k];
        }
      }
      ApplyDeletes(rows - {snap[positions[0]].id}, snap, rest)
  }

  /** `if changes["edited_rows"]: ...`: the update phase on a store. */
  function EditPhase(s: Store, snap: seq<Row>, c: Changes): (r: Store)
    requires Valid(s) && EditsInBounds(snap, c.edited)
    ensures Valid(r) && r.lastId == s.lastId
    ensures r.rows.Keys == s.rows.Keys
    ensures forall id :: id in s.rows && !EditsId(snap, c.edited, id) ==> r.rows[id] == s.rows[id]
  {
    if |c.edited| > 0 then Store(ApplyEdits(s.rows, snap, c.edited), s.lastId) else s
  }

  /** `if changes["added_rows"]: ...`: the insert phase on a store. */
  function InsertPhase(s: Store, c: Changes): (r: Store)
    requires Valid(s)
    ensures Valid(r) && r.lastId == s.lastId + |c.added|
    ensures forall id :: id in r.rows <==> id in s.rows || s.lastId < id <= r.lastId
    ensures forall id :: id in s.rows ==> r.rows[id] == s.rows[id]
    ensures forall k :: 0 <= k < |c.added| ==> r.rows[s.lastId + 1 + k] == Fill(c.added[k])
  {
    if |c.added| > 0 then
      assert forall k :: 0 <= k < |c.added| ==> ApplyInserts(s, c.added).rows[s.lastId + 1 + k] == Fill(c.added[k]) by {
        forall k | 0 <= k < |c.added| {
          ApplyInsertsStoresAdded(s, c.added, k);
        }
      }
      ApplyInserts(s, c.added)
    else s
  }

  /** `if changes["deleted_rows"]: ...`: the delete phase on a store. */
  function DeletePhase(s: Store, snap: seq<Row>, c: Changes): (r: Store)
    requires Valid(s) && PositionsInBounds(snap, c.deleted)
    ensures Valid(r) && r.lastId == s.lastId
    ensures r.rows == s.rows - DeletedIds(snap, c.deleted)
  {
    if |c.deleted| > 0 then Store(ApplyDeletes(s.rows, snap, c.deleted), s.lastId) else s
  }

  /** `update_data(conn, df, changes)` followed by `conn.commit()`: updates,
      then inserts, then deletes. AUTOINCREMENT spends exactly one id per
      added row. A row of the store survives exactly when its id is not the
      snapshot id of a deleted position; a row no edit targets and no delete
      removes keeps its value; and the only new rows carry freshly issued ids. */
  function UpdateData(s: Store, snap: seq<Row>, c: Changes): (r: Store)
    requires Valid(s) && InBounds(snap, c)
    ensures Valid(r)
    ensures r.lastId == s.lastId + |c.added|
    ensures forall id :: id in s.rows ==> (id in r.rows <==> id !in DeletedIds(snap, c.deleted))
    ensures forall id :: id in s.rows && !EditsId(snap, c.edited, id) && id !in DeletedIds(snap, c.deleted) ==>
              id in r.rows && r.rows[id] == s.rows[id]
    ensures forall id :: id in r.rows && id !in s.rows ==> s.lastId < id <= r.lastId
  {
    DeletePhase(InsertPhase(EditPhase(s, snap, c), c), snap, c)
  }

  /** `any(len(v) for v in st.session_state.repair_table.values())`, which
      enables the "Commit changes" button: true exactly when something is
      pending. */
  function HasUncommittedChanges(c: Changes): (enabled: bool)
    ensures enabled <==> c != NoChanges
  {
    var lengths := [|c.edited|, |c.added|, |c.deleted|];
    assert lengths[0] == |c.edited| && lengths[1] == |c.added| && lengths[2] == |c.deleted|;
    exists k :: 0 <= k < |lengths| && lengths[k] != 0
  }
}
