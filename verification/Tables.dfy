/** Tables of rows, the write log, and the cell operations the accessor is built from. */
module Tables {
  import opened Wrappers
  import opened Schema

  /** One stored element: a scalar (or null), or the row index a link holds. */
  datatype Slot = Scalar(key: Key) | Link(target: Option<nat>)

  datatype Cell = Absent | One(slot: Slot) | Many(slots: seq<Slot>)

  type Row = map<string, Cell>
  type Group = map<string, seq<Row>>

  /** The instructions core is asked to perform, in order. */
  datatype Write =
    | AddedRow(cls: string)
    | SetCell(cls: string, row: nat, column: string)
    | ListAdded(cls: string, row: nat, column: string)
    | ListSet(cls: string, row: nat, column: string, ndx: nat)
    | ListRemoved(cls: string, row: nat, column: string, ndx: nat)
    | ListCleared(cls: string, row: nat, column: string)

  datatype Store = Store(tables: Group, log: seq<Write>)

  function Rows(t: Group, cls: string): seq<Row> {
    if cls in t then t[cls] else []
  }

  function Size(t: Group, cls: string): nat {
    |Rows(t, cls)|
  }

  function RowAt(t: Group, cls: string, row: nat): Row {
    if row < Size(t, cls) then t[cls][row] else map[]
  }

  function CellIn(r: Row, column: string): Cell {
    if column in r then r[column] else Absent
  }

  function CellAt(t: Group, cls: string, row: nat, column: string): Cell {
    CellIn(RowAt(t, cls, row), column)
  }

  function Elements(c: Cell): seq<Slot> {
    if c.Many? then c.slots else []
  }

  /** The group with one existing row replaced. */
  function Patch(t: Group, cls: string, row: nat, r: Row): Group {
    if row < Size(t, cls) then t[cls := t[cls][row := r]] else t
  }

  function Put(t: Group, cls: string, row: nat, column: string, c: Cell): Group {
    Patch(t, cls, row, RowAt(t, cls, row)[column := c])
  }

  function AddRow(t: Group, cls: string, r: Row): Group {
    t[cls := Rows(t, cls) + [r]]
  }

  /** `Table::find_first`: the first row at or after `from` whose column holds the key. */
  function FindFrom(rows: seq<Row>, column: string, key: Key, from: nat): (r: Option<nat>)
    requires from <= |rows|
    ensures r.Some? ==> from <= r.value < |rows| && CellIn(rows[r.value], column) == One(Scalar(key))
    ensures r.Some? ==> forall j :: from <= j < r.value ==> CellIn(rows[j], column) != One(Scalar(key))
    ensures r.None? ==> forall j :: from <= j < |rows| ==> CellIn(rows[j], column) != One(Scalar(key))
    decreases |rows| - from
  {
    if from == |rows| then None
    else if CellIn(rows[from], column) == One(Scalar(key)) then Some(from)
    else FindFrom(rows, column, key, from + 1)
  }

  function FindFirst(t: Group, cls: string, column: string, key: Key): Option<nat> {
    FindFrom(Rows(t, cls), column, key, 0)
  }

  /** The indices of the first `n` rows that a query matches, in table order.  A query may look at the whole
      group, as one that follows links does. */
  function MatchingBelow(t: Group, n: nat, query: (Group, nat) -> bool): (r: seq<nat>)
    ensures forall q :: q in r <==> 0 <= q < n && query(t, q)
    ensures forall i, j :: 0 <= i < j < |r| ==> r[i] < r[j]
  {
    if n == 0 then []
    else
      var earlier := MatchingBelow(t, n - 1, query);
      assert forall k :: 0 <= k < |earlier| ==> earlier[k] in earlier;
      if query(t, n - 1) then earlier + [n - 1] else earlier
  }

  function Matching(t: Group, cls: string, query: (Group, nat) -> bool): seq<nat> {
    MatchingBelow(t, Size(t, cls), query)
  }

  /** What a fresh row holds: null where allowed, otherwise the type's zero, and empty lists. */
  function DefaultCell(p: Property): Cell {
    if p.isArray then Many([])
    else if p.base.ObjectType? then One(Link(None))
    else if p.nullable then One(Scalar(None))
    else match p.base
      case IntType => One(Scalar(Some(PInt(0))))
      case BoolType => One(Scalar(Some(PBool(false))))
      case StringType => One(Scalar(Some(PText(""))))
      case DataType => One(Scalar(Some(PText(""))))
      case DateType => One(Scalar(Some(PDate(0, 0))))
      case FloatType => One(Scalar(Some(PFloat(0.0))))
      case DoubleType => One(Scalar(Some(PDouble(0.0))))
      case ObjectType => Absent
      case LinkingObjectsType => Absent
  }

  function EmptyRow(props: seq<Property>): (r: Row)
    ensures forall i :: 0 <= i < |props| ==> props[i].name in r
    ensures (forall i, j :: 0 <= i < j < |props| ==> props[i].name != props[j].name) ==>
              forall i :: 0 <= i < |props| ==> r[props[i].name] == DefaultCell(props[i])
  {
    if props == [] then map[]
    else EmptyRow(props[..|props| - 1])[props[|props| - 1].name := DefaultCell(props[|props| - 1])]
  }

  lemma PatchReads(t: Group, cls: string, row: nat, r: Row, c: string, q: nat)
    ensures Size(Patch(t, cls, row, r), c) == Size(t, c)
    ensures (c, q) != (cls, row) ==> RowAt(Patch(t, cls, row, r), c, q) == RowAt(t, c, q)
    ensures row < Size(t, cls) ==> RowAt(Patch(t, cls, row, r), cls, row) == r
  {
  }

  lemma PatchCommutes(t: Group, c1: string, r1: nat, x1: Row, c2: string, r2: nat, x2: Row)
    requires (c1, r1) != (c2, r2)
    ensures Patch(Patch(t, c1, r1, x1), c2, r2, x2) == Patch(Patch(t, c2, r2, x2), c1, r1, x1)
  {
    if r1 < Size(t, c1) && r2 < Size(t, c2) && c1 == c2 {
      assert t[c1][r1 := x1][r2 := x2] == t[c1][r2 := x2][r1 := x1];
    }
  }

  lemma PatchTwice(t: Group, cls: string, row: nat, x: Row, y: Row)
    ensures Patch(Patch(t, cls, row, x), cls, row, y) == Patch(t, cls, row, y)
  {
    if row < Size(t, cls) {
      assert t[cls][row := x][row := y] == t[cls][row := y];
    }
  }

  lemma PatchSame(t: Group, cls: string, row: nat)
    ensures Patch(t, cls, row, RowAt(t, cls, row)) == t
  {
    if row < Size(t, cls) {
      assert t[cls][row := t[cls][row]] == t[cls];
    }
  }

  /** Writes to two different cells commute. */
  lemma PutCommutes(t: Group, c1: string, r1: nat, n1: string, x1: Cell, c2: string, r2: nat, n2: string, x2: Cell)
    requires (c1, r1, n1) != (c2, r2, n2)
    ensures Put(Put(t, c1, r1, n1, x1), c2, r2, n2, x2) == Put(Put(t, c2, r2, n2, x2), c1, r1, n1, x1)
  {
    var a, b := RowAt(t, c1, r1), RowAt(t, c2, r2);
    if (c1, r1) != (c2, r2) {
      PatchReads(t, c1, r1, a[n1 := x1], c2, r2);
      PatchReads(t, c2, r2, b[n2 := x2], c1, r1);
      PatchCommutes(t, c1, r1, a[n1 := x1], c2, r2, b[n2 := x2]);
    } else {
      assert a[n1 := x1][n2 := x2] == a[n2 := x2][n1 := x1];
      PatchTwice(t, c1, r1, a[n1 := x1], a[n1 := x1][n2 := x2]);
      PatchTwice(t, c1, r1, a[n2 := x2], a[n2 := x2][n1 := x1]);
    }
  }

  lemma PutReads(t: Group, cls: string, row: nat, column: string, x: Cell, c: string, q: nat, n: string)
    ensures Size(Put(t, cls, row, column, x), c) == Size(t, c)
    ensures (c, q, n) != (cls, row, column) ==> CellAt(Put(t, cls, row, column, x), c, q, n) == CellAt(t, c, q, n)
    ensures (c, q, n) != (cls, row, column) ==> (n in RowAt(Put(t, cls, row, column, x), c, q) <==> n in RowAt(t, c, q))
    ensures row < Size(t, cls) ==> CellAt(Put(t, cls, row, column, x), cls, row, column) == x
  {
    PatchReads(t, cls, row, RowAt(t, cls, row)[column := x], c, q);
  }

  lemma AddRowPatch(t: Group, cls: string, r: Row, c: string, q: nat, x: Row)
    requires q < Size(t, c)
    ensures AddRow(Patch(t, c, q, x), cls, r) == Patch(AddRow(t, cls, r), c, q, x)
  {
    if c == cls {
      assert t[c][q := x] + [r] == (t[c] + [r])[q := x];
    }
  }

  /** A column the patched row keeps unchanged is searched with the same result. */
  lemma FindPatch(t: Group, cls: string, column: string, key: Key, c: string, q: nat, x: Row)
    requires c == cls ==> CellIn(x, column) == CellAt(t, c, q, column)
    ensures FindFirst(Patch(t, c, q, x), cls, column, key) == FindFirst(t, cls, column, key)
  {
    if c == cls && q < Size(t, c) {
      FindSame(Rows(t, cls), Rows(Patch(t, c, q, x), cls), column, key, 0);
    }
  }

  lemma FindSame(a: seq<Row>, b: seq<Row>, column: string, key: Key, from: nat)
    requires |a| == |b| && from <= |a|
    requires forall i :: 0 <= i < |a| ==> CellIn(a[i], column) == CellIn(b[i], column)
    ensures FindFrom(a, column, key, from) == FindFrom(b, column, key, from)
    decreases |a| - from
  {
  }

  /** The first match stays the first match when rows are added or keep their key column. */
  lemma FindStable(a: seq<Row>, b: seq<Row>, column: string, key: Key)
    requires |a| <= |b|
    requires forall i :: 0 <= i < |a| ==> CellIn(a[i], column) == CellIn(b[i], column)
    ensures FindFrom(a, column, key, 0).Some? ==> FindFrom(b, column, key, 0) == FindFrom(a, column, key, 0)
  {
  }
}
