# Repair-shop inventory: committing the edit grid

A Dafny model of the one piece of logic in the Wrenchman repair-shop
dashboard (`streamlit_app.py`): `update_data`, which turns the pending
changes of the editable `repairs` grid into UPDATE, INSERT and DELETE
statements and commits them. Beside it sit the guard that enables the
"Commit changes" button and the low-stock filter behind the reorder alert.

The model is functional:

- `Repairs` (`repairs.dfy`) holds the table. It has the eight non-key
  columns (`Field`, `Cells`), cell values (`Value`, with `Null` for
  None/NULL), snapshot rows (`Row`) and partial rows (`Delta`). `Merge` is
  `dict.update` and `Fill` is `defaultdict(lambda: None, row)`. The SQLite
  table is a `Store`: a map from `id` to cells, plus the AUTOINCREMENT
  high-water mark. `Valid` says no id is above that mark.
- `Reconcile` (`reconcile.dfy`) holds the pending changes (`Changes`:
  `edited_rows` in dict order, `added_rows`, `deleted_rows`). It has one
  function per phase of `update_data` (`ApplyEdits`, `ApplyInserts`,
  `ApplyDeletes`, each wrapped in the source's `if changes[...]` guard as
  `EditPhase`, `InsertPhase`, `DeletePhase`). `UpdateData` composes them
  in the source's order. `HasUncommittedChanges` is the button guard.
  `IsSnapshotOf` states what `load_data` gives: every store row once,
  under some position.
- `ReconcileProperties` (`reconcile_properties.dfy`) states row by row
  what a commit does. It also proves that the code's phase order gives the
  same table as a delete-first order.
- `Reorder` (`reorder.dfy`) models `need_to_reorder`.

About the phase order and what is not claimed:

- The code runs updates, then inserts, then deletes.
  `ReconcileProperties.DeleteFirstOrderAgrees` proves that deleting
  first, then updating the surviving positions, then inserting leaves the
  same table whenever the snapshot holds only issued ids.
- The code has no rollback, no error result and no explicit rule for a
  position that is both edited and deleted. It runs the statements and
  calls `conn.commit()`. No atomicity is claimed.
- `load_data` runs a bare `SELECT *`. No row order of the snapshot is
  assumed.

## Model

| member | source | states |
|---|---|---|
| Repairs.Merge | streamlit_app.py:109-110 | the merged row takes the delta's value in every column the delta names and the snapshot row's value in every other column |
| Repairs.MergeUnchangedIff | streamlit_app.py:109-110 | merging a delta leaves a row unchanged exactly when every value in the delta already equals the row's value in that column |
| Repairs.Fill | streamlit_app.py:138 | an added row keeps the columns the user filled in; every column left out is NULL, not 0 or "" |
| Repairs.NextId | streamlit_app.py:40 | the id AUTOINCREMENT gives the next insert is not in the table and is above every id present and the high-water mark |
| Reconcile.IsSnapshotOf | streamlit_app.py:72-97 | a loaded snapshot lists each store row once, with its id and cells, under some position |
| ReconcileProperties.LoadedSnapshotIdsAtMost | streamlit_app.py:72-97 | every snapshot loaded from a valid store holds only ids at or below the AUTOINCREMENT high-water mark |
| Reconcile.UpdateById | streamlit_app.py:113-128 | `UPDATE ... WHERE id` replaces only the row with that id, adds no row and matches nothing when the id is absent |
| Reconcile.ApplyEdits | streamlit_app.py:104-128 | the update phase removes or adds no row, and a row whose id no edit's snapshot row carries keeps its value |
| Reconcile.ApplyInserts | streamlit_app.py:130-139 | the insert phase leaves existing rows unchanged, adds exactly the ids above the old high-water mark, and spends one id per added row |
| Reconcile.ApplyInsertsStoresAdded | streamlit_app.py:130-139 | the k-th added row is stored under id `lastId + 1 + k` with NULL in every column it leaves out |
| Reconcile.ApplyDeletes | streamlit_app.py:141-145 | the delete phase removes exactly the rows whose ids the snapshot gives the deleted positions, and nothing else |
| Reconcile.EditPhase | streamlit_app.py:104-128 | the guarded update phase keeps the id set and the high-water mark, and every row no edit targets keeps its value |
| Reconcile.InsertPhase | streamlit_app.py:130-139 | the guarded insert phase adds the added rows under consecutive fresh ids and leaves old rows unchanged |
| Reconcile.DeletePhase | streamlit_app.py:141-145 | the guarded delete phase removes exactly the snapshot ids of the deleted positions |
| Reconcile.UpdateData | streamlit_app.py:100-147 | after a commit, an old row survives iff its id is not the snapshot id of a deleted position; a row neither edited nor deleted is unchanged; only ids above the old high-water mark are new; one id is spent per added row |
| Reconcile.HasUncommittedChanges | streamlit_app.py:205-210 | the commit button is enabled exactly when the pending changes are not all empty |
| ReconcileProperties.ApplyEditsMerged | streamlit_app.py:108-128 | within the update phase, the row an edit targets ends up holding the snapshot row at its position with the delta merged on |
| ReconcileProperties.EditedRowMerged | streamlit_app.py:104-145 | an edited, not deleted position leaves the store row with that snapshot row's id equal to the snapshot row with exactly the delta's columns overridden |
| ReconcileProperties.InsertedRowStored | streamlit_app.py:130-145 | the k-th added row is stored under a fresh id above every earlier id, with NULL in every column it leaves out |
| ReconcileProperties.DeletedRowAbsent | streamlit_app.py:141-145 | a deleted position removes the row whose id the snapshot gives that position |
| ReconcileProperties.EditedAndDeletedIsAbsent | streamlit_app.py:104-145 | a position both edited and deleted is absent after the commit |
| ReconcileProperties.NothingPendingIsNoOp | streamlit_app.py:104-147 | with nothing pending, a commit leaves the table exactly as it was |
| ReconcileProperties.SnapshotRowSurvivesIff | streamlit_app.py:141-145 | against a loaded snapshot, a snapshot row survives iff its position is not deleted |
| ReconcileProperties.UntouchedSnapshotRowKept | streamlit_app.py:104-145 | against a loaded snapshot, a row neither edited nor deleted is still present exactly as loaded |
| ReconcileProperties.CommitAgainstLoadedSnapshot | streamlit_app.py:100-147 | against a loaded snapshot: a position is absent iff deleted, an edited and not deleted position holds its merge, and every other row carries a new id |
| ReconcileProperties.CommitAddsTheAddedRows | streamlit_app.py:130-145 | every added row is stored, in order, under the ids after the old high-water mark |
| ReconcileProperties.EditsCommuteWithRemoval | streamlit_app.py:113-128 | removing rows before or after the update phase gives the same table |
| ReconcileProperties.SkippingDeletedEditsIsHarmless | streamlit_app.py:104-145 | once the deleted rows are gone, dropping the edits of deleted positions does not change the update phase's result |
| ReconcileProperties.InsertsCommuteWithRemoval | streamlit_app.py:130-139 | removing already-issued ids before or after the insert phase gives the same table |
| ReconcileProperties.DeleteFirstOrderAgrees | streamlit_app.py:100-147 | updates then inserts then deletes leave the same table as deletes, then updates of surviving positions, then inserts |
| Reorder.NeedToReorder | streamlit_app.py:228 | every name in the reorder list is the item name of a row with `units_left < reorder_point`, and the list is no longer than the snapshot |
| Reorder.LowPositions | streamlit_app.py:228 | the low-stock positions are increasing, each is low, and every low position is among them |
| Reorder.NeedToReorderIsLowRowNames | streamlit_app.py:228 | the reorder list is exactly the item names of the low rows, in snapshot order |

## Left out

- Page text, `st.image`, `st.info`, `st.toast`, the grid's rendering and the Altair charts are left out. They are presentation only.
- `connect_db` and the database-file existence check are left out. They are filesystem I/O.
- The seed `INSERT` of `initialize_data` is left out. It is sample data. `CREATE TABLE` appears only as the column set and the AUTOINCREMENT id.
- SQL text, `executemany`, and pandas `DataFrame`/`iloc`/`loc` are abstracted as map and sequence operations. The data frame has a default range index, so `df.loc[i, "id"]` is read as position `i`. A position outside the snapshot makes pandas raise, so `InBounds` is a precondition.
- REAL price and cost columns hold an opaque `Number` literal. No floating point is modelled.
- pandas' dtype handling is not modelled. An integer column holding a NULL turns into floats and NaN in `to_dict()`, and those values are written back.
- Reorder.Low: only two integers can be "low". A non-integer `units_left` or `reorder_point` counts as not low. For NULL this matches pandas (NaN compares false). pandas compares REAL values as floats and raises on text; neither is modelled.
- Atomicity and rollback are not claimed. The code only calls `conn.commit()` and handles no errors. A statement that fails part-way is not modelled.
- `load_data`'s bare `except` returning None is left out, and so is any row order of `SELECT *`.
- Rows are read from `st.session_state.repair_table["edited_rows"]` but guarded by `changes["edited_rows"]`. Both are the same session-state entry, so they are modelled as one collection.
- The `id` column is disabled in the editor, so neither an edit nor an added row can carry an `id`. A `Delta` ranges over the eight other columns only, and an added row's `:id` is always None.
- AUTOINCREMENT running out at the largest 64-bit id (SQLITE_FULL) is not modelled. Ids are unbounded integers.
- Concurrent sessions are not modelled. A stale snapshot is covered only as far as `UpdateById` on an id that is gone matching nothing.
