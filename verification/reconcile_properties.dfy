/** What a commit of the grid's pending changes does to the `repairs` table,
    row by row, and why the order of the three phases in `update_data`
    (updates, inserts, deletes) gives the same table as the order
    deletes, updates of surviving rows, inserts. */
module ReconcileProperties {
  import opened Repairs
  import opened Reconcile

  /** Within the update phase, the row an edit targets ends up holding the
      snapshot row at the edit's position with the edit's delta merged on. */
  lemma {:induction false} ApplyEditsMerged(rows: map<int, Cells>, snap: seq<Row>, edits: seq<Edit>, k: nat)
    requires EditsInBounds(snap, edits) && UniqueIds(snap) && DistinctPositions(edits)
    requires k < |edits| && snap[edits[k].position].id in rows
    ensures ApplyEdits(rows, snap, edits)[snap[edits[k].position].id]
         == Merge(snap[edits[k].position].cells, edits[k].delta)
    decreases |edits|
  {
    var row := snap[edits[0].position];
    var next := UpdateById(rows, row.id, Merge(row.cells, edits[0].delta));
    var rest := edits[1..];
    assert ApplyEdits(rows, snap, edits) == ApplyEdits(next, snap, rest);
    if k == 0 {
      forall j | 0 <= j < |rest|
        ensures snap[rest[j].position].id != row.id
      {
        assert rest[j] == edits[j + 1];
      }
      assert !EditsId(snap, rest, row.id);
    } else {
      forall i, j | 0 <= i < |rest| && 0 <= j < |rest| && i != j
        ensures rest[i].position != rest[j].position
      {
        assert rest[i] == edits[i + 1] && rest[j] == edits[j + 1];
      }
      assert rest[k - 1] == edits[k];
      ApplyEditsMerged(next, snap, rest, k - 1);
    }
  }

  /** An edited position that is not also deleted: after the commit, the row
      with the snapshot row's id holds that snapshot row with exactly the
      edited columns overridden; every other column keeps its snapshot value. */
  lemma EditedRowMerged(s: Store, snap: seq<Row>, c: Changes, k: nat)
    requires Valid(s) && InBounds(snap, c) && UniqueIds(snap) && DistinctPositions(c.edited)
    requires k < |c.edited| && c.edited[k].position !in c.deleted
    requires snap[c.edited[k].position].id in s.rows
    ensures snap[c.edited[k].position].id in UpdateData(s, snap, c).rows
    ensures UpdateData(s, snap, c).rows[snap[c.edited[k].position].id]
         == Merge(snap[c.edited[k].position].cells, c.edited[k].delta)
    ensures forall f :: f in c.edited[k].delta ==>
              Get(UpdateData(s, snap, c).rows[snap[c.edited[k].position].id], f) == c.edited[k].delta[f]
    ensures forall f :: f !in c.edited[k].delta ==>
              Get(UpdateData(s, snap, c).rows[snap[c.edited[k].position].id], f)
              == Get(snap[c.edited[k].position].cells, f)
  {
    var e := c.edited[k];
    var row := snap[e.position];
    ApplyEditsMerged(s.rows, snap, c.edited, k);
    var edited := EditPhase(s, snap, c);
    assert edited.rows[row.id] == Merge(row.cells, e.delta);
    var inserted := InsertPhase(edited, c);
    assert inserted.rows[row.id] == Merge(row.cells, e.delta);
    assert row.id !in DeletedIds(snap, c.deleted) by {
      forall q | 0 <= q < |c.deleted|
        ensures snap[c.deleted[q]].id != row.id
      {
        assert c.deleted[q] != e.position;
      }
    }
  }

  /** The k-th added row is stored under a fresh id, one above every id the
      table ever had, with the columns the user left blank set to NULL. */
  lemma InsertedRowStored(s: Store, snap: seq<Row>, c: Changes, k: nat)
    requires Valid(s) && InBounds(snap, c) && IdsAtMost(snap, s.lastId)
    requires k < |c.added|
    ensures s.lastId + 1 + k !in s.rows
    ensures forall other :: other in s.rows ==> other < s.lastId + 1 + k
    ensures s.lastId + 1 + k in UpdateData(s, snap, c).rows
    ensures UpdateData(s, snap, c).rows[s.lastId + 1 + k] == Fill(c.added[k])
    ensures forall f :: f !in c.added[k] ==> Get(UpdateData(s, snap, c).rows[s.lastId + 1 + k], f) == Null
  {
    var id := s.lastId + 1 + k;
    var inserted := InsertPhase(EditPhase(s, snap, c), c);
    assert inserted.rows[id] == Fill(c.added[k]);
    assert id !in DeletedIds(snap, c.deleted);
  }

  /** A deleted position removes the row carrying the SNAPSHOT's id for that
      position, whether or not the position was also edited. */
  lemma DeletedRowAbsent(s: Store, snap: seq<Row>, c: Changes, k: nat)
    requires Valid(s) && InBounds(snap, c) && k < |c.deleted|
    ensures snap[c.deleted[k]].id !in UpdateData(s, snap, c).rows
  {
    var id := snap[c.deleted[k]].id;
    assert id in DeletedIds(snap, c.deleted);
  }

  /** Deletion wins: a position that is both edited and deleted is gone after
      the commit, because the deletes run after the updates. */
  lemma EditedAndDeletedIsAbsent(s: Store, snap: seq<Row>, c: Changes, k: nat)
    requires Valid(s) && InBounds(snap, c) && k < |c.edited| && c.edited[k].position in c.deleted
    ensures snap[c.edited[k].position].id !in UpdateData(s, snap, c).rows
  {
    var q :| 0 <= q < |c.deleted| && c.deleted[q] == c.edited[k].position;
    DeletedRowAbsent(s, snap, c, q);
  }

  /** With nothing pending (the commit button disabled) a commit would leave
      the table exactly as it was. */
  lemma NothingPendingIsNoOp(s: Store, snap: seq<Row>, c: Changes)
    requires Valid(s) && !HasUncommittedChanges(c)
    ensures InBounds(snap, c) && UpdateData(s, snap, c) == s
  {
  }

  /** Every snapshot loaded from a valid store holds only ids the store has
      issued, so the lemmas that ask for `IdsAtMost` apply to it. */
  lemma LoadedSnapshotIdsAtMost(s: Store, snap: seq<Row>)
    requires Valid(s) && IsSnapshotOf(snap, s)
    ensures IdsAtMost(snap, s.lastId)
  {
  }

  /** Against a loaded snapshot, a snapshot row survives the commit exactly
      when its position is not among the deleted ones. */
  lemma SnapshotRowSurvivesIff(s: Store, snap: seq<Row>, c: Changes, i: nat)
    requires Valid(s) && IsSnapshotOf(snap, s) && InBounds(snap, c) && i < |snap|
    ensures snap[i].id in UpdateData(s, snap, c).rows <==> i !in c.deleted
  {
    if i in c.deleted {
      var q :| 0 <= q < |c.deleted| && c.deleted[q] == i;
      DeletedRowAbsent(s, snap, c, q);
    } else {
      forall q | 0 <= q < |c.deleted|
        ensures snap[c.deleted[q]].id != snap[i].id
      {
        assert c.deleted[q] != i;
      }
      assert snap[i].id !in DeletedIds(snap, c.deleted);
    }
  }

  /** Against a loaded snapshot, a row whose position is neither edited nor
      deleted is still there, exactly as it was loaded. */
  lemma UntouchedSnapshotRowKept(s: Store, snap: seq<Row>, c: Changes, i: nat)
    requires Valid(s) && IsSnapshotOf(snap, s) && InBounds(snap, c) && i < |snap|
    requires i !in c.deleted && forall k :: 0 <= k < |c.edited| ==> c.edited[k].position != i
    ensures snap[i].id in UpdateData(s, snap, c).rows
    ensures UpdateData(s, snap, c).rows[snap[i].id] == snap[i].cells
  {
    forall k | 0 <= k < |c.edited|
      ensures snap[c.edited[k].position].id != snap[i].id
    {
      assert c.edited[k].position != i;
    }
    assert !EditsId(snap, c.edited, snap[i].id);
    SnapshotRowSurvivesIff(s, snap, c, i);
  }

  /** The commit as the next load sees it: a deleted position's row is gone,
      every other loaded row is still there, an edited one holds the snapshot
      row with its delta merged on, and every other row is a new one. */
  lemma CommitAgainstLoadedSnapshot(s: Store, snap: seq<Row>, c: Changes)
    requires Valid(s) && IsSnapshotOf(snap, s) && InBounds(snap, c) && DistinctPositions(c.edited)
    ensures forall i :: 0 <= i < |snap| ==> (snap[i].id in UpdateData(s, snap, c).rows <==> i !in c.deleted)
    ensures forall k :: 0 <= k < |c.edited| && c.edited[k].position !in c.deleted ==>
              && snap[c.edited[k].position].id in UpdateData(s, snap, c).rows
              && UpdateData(s, snap, c).rows[snap[c.edited[k].position].id]
                 == Merge(snap[c.edited[k].position].cells, c.edited[k].delta)
    ensures forall id :: id in UpdateData(s, snap, c).rows ==>
              (exists i :: 0 <= i < |snap| && snap[i].id == id) || s.lastId < id <= s.lastId + |c.added|
  {
    forall i | 0 <= i < |snap|
      ensures snap[i].id in UpdateData(s, snap, c).rows <==> i !in c.deleted
    {
      SnapshotRowSurvivesIff(s, snap, c, i);
    }
    forall k | 0 <= k < |c.edited| && c.edited[k].position !in c.deleted
      ensures && snap[c.edited[k].position].id in UpdateData(s, snap, c).rows
              && UpdateData(s, snap, c).rows[snap[c.edited[k].position].id]
                 == Merge(snap[c.edited[k].position].cells, c.edited[k].delta)
    {
      EditedRowMerged(s, snap, c, k);
    }
  }

  /** All added rows at once: they are stored, in order, under the ids that
      follow the old high-water mark. */
  lemma CommitAddsTheAddedRows(s: Store, snap: seq<Row>, c: Changes)
    requires Valid(s) && InBounds(snap, c) && IdsAtMost(snap, s.lastId)
    ensures forall k :: 0 <= k < |c.added| ==>
              && s.lastId + 1 + k in UpdateData(s, snap, c).rows
              && UpdateData(s, snap, c).rows[s.lastId + 1 + k] == Fill(c.added[k])
  {
    var r := UpdateData(s, snap, c);
    forall k | 0 <= k < |c.added|
      ensures s.lastId + 1 + k in r.rows && r.rows[s.lastId + 1 + k] == Fill(c.added[k])
    {
      InsertedRowStored(s, snap, c, k);
    }
  }

  // ---------------------------------------------------------------------------
  // The order of the phases.

  /** The edits whose position is not deleted, in their original order. */
  function Surviving(edits: seq<Edit>, deleted: seq<nat>): (r: seq<Edit>)
    ensures forall k :: 0 <= k < |r| ==> r[k] in edits && r[k].position !in deleted
    ensures forall k :: 0 <= k < |edits| && edits[k].position !in deleted ==> edits[k] in r
    decreases |edits|
  {
    if |edits| == 0 then []
    else
      var rest := Surviving(edits[1..], deleted);
      assert forall k :: 1 <= k < |edits| ==> edits[k] == edits[1..][k - 1];
      if edits[0].position in deleted then rest else [edits[0]] + rest
  }

  /** The same reconciliation in the delete-first order: deletes resolved
      through the snapshot first, then updates of the positions not deleted,
      then inserts. */
  function DeleteFirstReconcile(s: Store, snap: seq<Row>, c: Changes): (r: Store)
    requires Valid(s) && InBounds(snap, c)
    ensures Valid(r) && r.lastId == s.lastId + |c.added|
  {
    var deleted := DeletePhase(s, snap, c);
    var survivors := Surviving(c.edited, c.deleted);
    var updated := Store(ApplyEdits(deleted.rows, snap, survivors), deleted.lastId);
    InsertPhase(updated, c)
  }

  /** Removing rows before or after the updates makes no difference: an update
      of a removed id matches nothing. */
  lemma {:induction false} EditsCommuteWithRemoval(rows: map<int, Cells>, snap: seq<Row>, edits: seq<Edit>, gone: set<int>)
    requires EditsInBounds(snap, edits)
    ensures ApplyEdits(rows - gone, snap, edits) == ApplyEdits(rows, snap, edits) - gone
    decreases |edits|
  {
    if |edits| > 0 {
      var row := snap[edits[0].position];
      var cells := Merge(row.cells, edits[0].delta);
      assert UpdateById(rows - gone, row.id, cells) == UpdateById(rows, row.id, cells) - gone;
      EditsCommuteWithRemoval(UpdateById(rows, row.id, cells), snap, edits[1..], gone);
    }
  }

  /** On a table from which every deleted position's row is already gone,
      skipping the edits of deleted positions changes nothing. */
  lemma {:induction false} SkippingDeletedEditsIsHarmless(rows: map<int, Cells>, snap: seq<Row>, edits: seq<Edit>, deleted: seq<nat>)
    requires EditsInBounds(snap, edits) && PositionsInBounds(snap, deleted)
    requires forall q :: 0 <= q < |deleted| ==> snap[deleted[q]].id !in rows
    ensures EditsInBounds(snap, Surviving(edits, deleted))
    ensures ApplyEdits(rows, snap, Surviving(edits, deleted)) == ApplyEdits(rows, snap, edits)
    decreases |edits|
  {
    if |edits| > 0 {
      var row := snap[edits[0].position];
      var next := UpdateById(rows, row.id, Merge(row.cells, edits[0].delta));
      var rest := edits[1..];
      SkippingDeletedEditsIsHarmless(next, snap, rest, deleted);
      if edits[0].position in deleted {
        assert next == rows;
      } else {
        var survivors := Surviving(edits, deleted);
        assert survivors == [edits[0]] + Surviving(rest, deleted);
        assert survivors[1..] == Surviving(rest, deleted);
      }
    }
  }

  /** Removing old rows before or after the inserts makes no difference: the
      inserted ids lie above every id that could be removed. */
  lemma {:induction false} InsertsCommuteWithRemoval(s: Store, added: seq<Delta>, gone: set<int>)
    requires Valid(s) && forall id :: id in gone ==> id <= s.lastId
    ensures Valid(Store(s.rows - gone, s.lastId))
    ensures ApplyInserts(Store(s.rows - gone, s.lastId), added)
         == Store(ApplyInserts(s, added).rows - gone, s.lastId + |added|)
    decreases |added|
  {
    if |added| > 0 {
      var id := NextId(s);
      var next := Store(s.rows[id := Fill(added[0])], id);
      var nextWithout := Store((s.rows - gone)[id := Fill(added[0])], id);
      assert nextWithout == Store(next.rows - gone, next.lastId) by {
        assert id !in gone;
      }
      assert ApplyInserts(Store(s.rows - gone, s.lastId), added) == ApplyInserts(nextWithout, added[1..]);
      assert ApplyInserts(s, added) == ApplyInserts(next, added[1..]);
      InsertsCommuteWithRemoval(next, added[1..], gone);
    }
  }

  /** The phase order of `update_data` (updates, inserts, deletes) and the
      delete-first order (deletes, updates of surviving positions, inserts)
      leave the same table, provided the snapshot only holds ids the store
      has issued. */
  lemma DeleteFirstOrderAgrees(s: Store, snap: seq<Row>, c: Changes)
    requires Valid(s) && InBounds(snap, c) && IdsAtMost(snap, s.lastId)
    ensures UpdateData(s, snap, c) == DeleteFirstReconcile(s, snap, c)
  {
    var gone := DeletedIds(snap, c.deleted);
    var survivors := Surviving(c.edited, c.deleted);
    assert s.rows - gone == DeletePhase(s, snap, c).rows;
    forall q | 0 <= q < |c.deleted|
      ensures snap[c.deleted[q]].id !in s.rows - gone
    {
      assert snap[c.deleted[q]].id in gone;
    }
    SkippingDeletedEditsIsHarmless(s.rows - gone, snap, c.edited, c.deleted);
    EditsCommuteWithRemoval(s.rows, snap, c.edited, gone);
    var edited := Store(ApplyEdits(s.rows, snap, c.edited), s.lastId);
    assert EditPhase(s, snap, c) == edited;
    InsertsCommuteWithRemoval(edited, c.added, gone);
    assert InsertPhase(Store(edited.rows - gone, s.lastId), c)
        == Store(InsertPhase(edited, c).rows - gone, s.lastId + |c.added|);
  }
}
