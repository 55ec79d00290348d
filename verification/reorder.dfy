/** The low-stock alert: `df[df["units_left"] < df["reorder_point"]]`, keeping
    only the `item_name` column, in snapshot order. */
module Reorder {
  import opened Repairs

  /** `units_left < reorder_point` for one row. Both must be integers; a NULL
      (NaN to pandas) on either side compares false. */
  predicate Low(c: Cells) {
    c.unitsLeft.Int? && c.reorderPoint.Int? && c.unitsLeft.n < c.reorderPoint.n
  }

  /** The names of the rows running low, front to back through the snapshot.
      Every name comes from some low row. */
  function NeedToReorder(snap: seq<Row>): (names: seq<Value>)
    ensures |names| <= |snap|
    ensures forall v :: v in names ==> exists i :: 0 <= i < |snap| && Low(snap[i].cells) && snap[i].cells.itemName == v
    decreases |snap|
  {
    if |snap| == 0 then []
    else
      var rest := NeedToReorder(snap[1..]);
      assert forall i :: 0 <= i < |snap| - 1 ==> snap[1..][i] == snap[i + 1];
      (if Low(snap[0].cells) then [snap[0].cells.itemName] else []) + rest
  }

  /** The positions of the low rows: increasing, each one low, and every low
      position among them. */
  function LowPositions(snap: seq<Row>): (ps: seq<nat>)
    ensures forall k :: 0 <= k < |ps| ==> ps[k] < |snap| && Low(snap[ps[k]].cells)
    ensures forall j, k :: 0 <= j < k < |ps| ==> ps[j] < ps[k]
    ensures forall i :: 0 <= i < |snap| && Low(snap[i].cells) ==> i in ps
    decreases |snap|
  {
    if |snap| == 0 then []
    else
      var last := |snap| - 1;
      var front := LowPositions(snap[..last]);
      assert forall i :: 0 <= i < last ==> snap[..last][i] == snap[i];
      if Low(snap[last].cells) then front + [last] else front
  }

  /** The name column of the rows at the given positions. */
  function NamesAt(snap: seq<Row>, ps: seq<nat>): (names: seq<Value>)
    requires forall k :: 0 <= k < |ps| ==> ps[k] < |snap|
    ensures |names| == |ps|
    ensures forall k :: 0 <= k < |ps| ==> names[k] == snap[ps[k]].cells.itemName
  {
    seq(|ps|, k requires 0 <= k < |ps| => snap[ps[k]].cells.itemName)
  }

  /** Filtering a snapshot with one more row at the end adds that row's name
      at the end when it is low. */
  lemma {:induction false} NeedToReorderSnoc(snap: seq<Row>, row: Row)
    ensures NeedToReorder(snap + [row])
         == NeedToReorder(snap) + (if Low(row.cells) then [row.cells.itemName] else [])
    decreases |snap|
  {
    if |snap| > 0 {
      assert (snap + [row])[1..] == snap[1..] + [row];
      NeedToReorderSnoc(snap[1..], row);
    } else {
      assert (snap + [row])[1..] == [];
    }
  }

  /** The alert list is exactly the names of the low rows, in snapshot order:
      nothing more, nothing less, nothing reordered. */
  lemma {:induction false} NeedToReorderIsLowRowNames(snap: seq<Row>)
    ensures NeedToReorder(snap) == NamesAt(snap, LowPositions(snap))
    decreases |snap|
  {
    if |snap| > 0 {
      var last := |snap| - 1;
      var front := snap[..last];
      assert snap == front + [snap[last]];
      NeedToReorderSnoc(front, snap[last]);
      NeedToReorderIsLowRowNames(front);
      var ps := LowPositions(front);
      assert NamesAt(front, ps) == NamesAt(snap, ps);
      if Low(snap[last].cells) {
        assert NamesAt(snap, ps + [last]) == NamesAt(snap, ps) + [snap[last].cells.itemName];
      }
    }
  }
}
