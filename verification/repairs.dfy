/** The `repairs` table of the shop database: its columns, the values its cells
    hold, the rows of a loaded snapshot, and the SQLite store behind it.

    The store is abstracted as a finite map from the `id` primary key to the
    eight other columns of the row, together with the AUTOINCREMENT high-water
    mark that SQLite keeps in `sqlite_sequence`. */
module Repairs {

  /** The eight columns of `repairs` other than `id`. The grid never edits
      `id` (the column is disabled), so a pending edit can only name these. */
  datatype Field =
    | ItemName | Price | LaborCost | PartsCost
    | UnitsUsed | UnitsLeft | ReorderPoint | Description

  /** A cell value. `Null` is SQL NULL / Python None. REAL columns hold an
      opaque `Number` literal: no arithmetic on prices or costs is modelled. */
  datatype Value = Null | Int(n: int) | Text(s: string) | Number(literal: string)

  /** The non-key columns of one row, named as in the table definition. */
  datatype Cells = Cells(
    itemName: Value,
    price: Value,
    laborCost: Value,
    partsCost: Value,
    unitsUsed: Value,
    unitsLeft: Value,
    reorderPoint: Value,
    description: Value)

  /** One row of a loaded snapshot: the store's `id` and the row's cells. */
  datatype Row = Row(id: int, cells: Cells)

  /** A partial row: the fields a user changed (for an edit) or filled in
      (for an added row), and nothing else. */
  type Delta = map<Field, Value>

  /** The value of one column of a row. */
  function Get(c: Cells, f: Field): Value {
    match f
    case ItemName => c.itemName
    case Price => c.price
    case LaborCost => c.laborCost
    case PartsCost => c.partsCost
    case UnitsUsed => c.unitsUsed
    case UnitsLeft => c.unitsLeft
    case ReorderPoint => c.reorderPoint
    case Description => c.description
  }

  /** Two rows with the same value in every column are the same row. */
  lemma CellsExtensional(a: Cells, b: Cells)
    requires forall f :: Get(a, f) == Get(b, f)
    ensures a == b
  {
    assert Get(a, ItemName) == Get(b, ItemName);
    assert Get(a, Price) == Get(b, Price);
    assert Get(a, LaborCost) == Get(b, LaborCost);
    assert Get(a, PartsCost) == Get(b, PartsCost);
    assert Get(a, UnitsUsed) == Get(b, UnitsUsed);
    assert Get(a, UnitsLeft) == Get(b, UnitsLeft);
    assert Get(a, ReorderPoint) == Get(b, ReorderPoint);
    assert Get(a, Description) == Get(b, Description);
  }

  function Override(base: Cells, delta: Delta, f: Field): Value {
    if f in delta then delta[f] else Get(base, f)
  }

  /** Python's `row_dict.update(delta)` on a full row: every column named in
      the delta takes the delta's value, every other column keeps its own. */
  function Merge(base: Cells, delta: Delta): (r: Cells)
    ensures forall f :: f in delta ==> Get(r, f) == delta[f]
    ensures forall f :: f !in delta ==> Get(r, f) == Get(base, f)
  {
    Cells(
      Override(base, delta, ItemName),
      Override(base, delta, Price),
      Override(base, delta, LaborCost),
      Override(base, delta, PartsCost),
      Override(base, delta, UnitsUsed),
      Override(base, delta, UnitsLeft),
      Override(base, delta, ReorderPoint),
      Override(base, delta, Description))
  }

  /** A merge leaves the row as it was exactly when every value in the delta
      already equals the row's own value in that column. */
  lemma MergeUnchangedIff(base: Cells, delta: Delta)
    ensures Merge(base, delta) == base <==> forall f :: f in delta ==> delta[f] == Get(base, f)
  {
    if forall f :: f in delta ==> delta[f] == Get(base, f) {
      CellsExtensional(Merge(base, delta), base);
    }
  }

  /** The row whose every column is NULL. */
  const NullCells: Cells := Cells(Null, Null, Null, Null, Null, Null, Null, Null)

  /** `defaultdict(lambda: None, row)` for an added row: the columns the user
      filled in keep their values and every other column is explicitly NULL,
      never 0 or the empty string. */
  function Fill(added: Delta): (r: Cells)
    ensures forall f :: f in added ==> Get(r, f) == added[f]
    ensures forall f :: f !in added ==> Get(r, f) == Null
  {
    Merge(NullCells, added)
  }

  /** The `repairs` table: the row of each `id`, and `lastId`, the largest id
      AUTOINCREMENT has ever handed out (0 before the first insert). */
  datatype Store = Store(rows: map<int, Cells>, lastId: int)

  /** SQLite's AUTOINCREMENT bookkeeping: no row has an id above the
      high-water mark, so the next id (one above the larger of the mark and
      the largest id present) is `lastId + 1`. */
  ghost predicate Valid(s: Store) {
    forall id :: id in s.rows ==> id <= s.lastId
  }

  /** The id the next INSERT without an explicit id is given. */
  function NextId(s: Store): (id: int)
    requires Valid(s)
    ensures id !in s.rows
    ensures forall old_id :: old_id in s.rows ==> old_id < id
    ensures id > s.lastId
  {
    s.lastId + 1
  }
}
