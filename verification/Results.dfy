/** `Results::set_property_value`: every row that matched when the call began gets the value and no other cell
    changes, whatever the write does to the query's own matches. */
module Results {
  import opened Wrappers
  import opened Schema
  import opened Tables
  import opened ObjectAccessor
  import opened Values
  import opened Invariants
  import opened FlatLists
  import opened Duplicates
  import opened Success

  /** What a column holds of a value that creates nothing. */
  function CellFor(p: Property, x: Value): Cell {
    if p.isArray then Many(if x.Vector? then Slots(x) else [])
    else if p.base.ObjectType? && x.Null? then One(Link(None))
    else One(Stored(x))
  }

  /** The rows of a class after the batch: the listed ones carry the new cell, the rest are as before. */
  ghost predicate BatchWritten(t: Group, t': Group, cls: string, rows: seq<nat>, column: string, c: Cell) {
    && (forall k :: Size(t', k) == Size(t, k))
    && (forall k, q: nat :: q < Size(t, k) ==>
          RowAt(t', k, q) == if k == cls && q in rows then RowAt(t, k, q)[column := c] else RowAt(t, k, q))
  }

  /** Writing one row, in the mode the batch uses. */
  lemma SetsCell(S: Classes, st: Store, cls: string, row: nat, p: Property, x: Value, m: Mode)
    requires ValidSchema(S) && p in Props(S, cls) && row < Size(st.tables, cls) && !m.diff
    requires FlatProperty(p, x) && (p.isArray ==> !x.ManagedList?)
    ensures var r := SetProperty(S, st, cls, row, p, x, m);
            && (r.Done? <==> FitsValue(p, x, Size(st.tables, p.objectType)))
            && (r.Done? ==> r.st.tables == Put(st.tables, cls, row, p.name, CellFor(p, x)))
            && (r.Threw? && !p.isArray ==> r.st == st)
  {
    Valid(S, cls, p);
    if p.isArray {
      if !(p.nullable && x.Null?) {
        assert SetProperty(S, st, cls, row, p, x, m) == Assign(S, st, cls, row, p, x, m);
        if x.Vector? {
          FlatAssign(S, st, cls, row, p, x, m);
        } else {
          OtherListValues(S, st, cls, row, p, x, m);
        }
      }
    } else if !p.base.ObjectType? {
      SetsScalar(S, st, cls, row, p, x, m);
    } else if x.Managed? && x.row < Size(st.tables, p.objectType) {
      SetsLink(S, st, cls, row, p, x.cls, x.row, m);
    } else {
      SetsOtherLinks(S, st, cls, row, p, x, m);
    }
  }

  lemma {:induction false} SetOnRowsWrites(S: Classes, st: Store, cls: string, rows: seq<nat>, p: Property, x: Value,
                                           migration: bool)
    requires ValidSchema(S) && p in Props(S, cls) && FlatProperty(p, x) && (p.isArray ==> !x.ManagedList?)
    requires FitsValue(p, x, Size(st.tables, p.objectType))
    requires forall i :: 0 <= i < |rows| ==> rows[i] < Size(st.tables, cls)
    ensures var r := SetOnRows(S, st, cls, rows, p, x, migration);
            r.Done? && BatchWritten(st.tables, r.st.tables, cls, rows, p.name, CellFor(p, x))
    decreases |rows|
  {
    if rows != [] {
      var m := Mode(true, false, migration);
      SetsCell(S, st, cls, rows[0], p, x, m);
      var one := SetProperty(S, st, cls, rows[0], p, x, m);
      PutWritten(st.tables, cls, rows[0], p.name, CellFor(p, x));
      SetOnRowsWrites(S, one.st, cls, rows[1..], p, x, migration);
      BatchAppend(st.tables, one.st.tables, SetOnRows(S, one.st, cls, rows[1..], p, x, migration).st.tables,
                  cls, rows, p.name, CellFor(p, x));
    }
  }

  lemma PutWritten(t: Group, cls: string, row: nat, column: string, c: Cell)
    requires row < Size(t, cls)
    ensures BatchWritten(t, Put(t, cls, row, column, c), cls, [row], column, c)
  {
    forall k, q: nat
      ensures Size(Put(t, cls, row, column, c), k) == Size(t, k)
      ensures q < Size(t, k) ==>
                RowAt(Put(t, cls, row, column, c), k, q) ==
                if k == cls && q in [row] then RowAt(t, k, q)[column := c] else RowAt(t, k, q)
    {
      PatchReads(t, cls, row, RowAt(t, cls, row)[column := c], k, q);
    }
  }

  lemma BatchAppend(a: Group, b: Group, c: Group, cls: string, rows: seq<nat>, column: string, cell: Cell)
    requires rows != []
    requires BatchWritten(a, b, cls, [rows[0]], column, cell) && BatchWritten(b, c, cls, rows[1..], column, cell)
    ensures BatchWritten(a, c, cls, rows, column, cell)
  {
    forall k, q: nat | q < Size(a, k)
      ensures RowAt(c, k, q) == if k == cls && q in rows then RowAt(a, k, q)[column := cell] else RowAt(a, k, q)
    {
      var r := RowAt(a, k, q);
      assert Size(b, k) == Size(a, k);
      assert RowAt(b, k, q) == if k == cls && q in [rows[0]] then r[column := cell] else r;
      assert RowAt(c, k, q) == if k == cls && q in rows[1..] then RowAt(b, k, q)[column := cell] else RowAt(b, k, q);
      assert r[column := cell][column := cell] == r[column := cell];
      assert q in rows <==> q == rows[0] || q in rows[1..];
    }
  }

  /** The batch update meets its promise for every query, including one the write itself falsifies;
      it fails exactly when some row matches and the value does not fit, and then a scalar or link column keeps all it
      held.  The value is one that creates nothing, and not a handle on a list. */
  lemma SetOnMatching(S: Classes, st: Store, cls: string, query: (Group, nat) -> bool, p: Property, x: Value,
                      migration: bool)
    requires ValidSchema(S) && p in Props(S, cls) && (p.isPrimary ==> migration)
    requires FlatProperty(p, x) && (p.isArray ==> !x.ManagedList?)
    ensures var matching := Matching(st.tables, cls, query);
            var r := SetOnSnapshot(S, st, cls, matching, p.name, x, migration);
            if matching == [] || FitsValue(p, x, Size(st.tables, p.objectType)) then
              && r.Done?
              && (forall k :: Size(r.st.tables, k) == Size(st.tables, k))
              && (forall k, q: nat :: q < Size(st.tables, k) ==>
                    RowAt(r.st.tables, k, q) ==
                    var before := RowAt(st.tables, k, q);
                    if k == cls && query(st.tables, q) then before[p.name := CellFor(p, x)] else before)
            else r.Threw? && (!p.isArray ==> r.st == st)
  {
    var matching := Matching(st.tables, cls, query);
    var found := PropertyForName(Props(S, cls), p.name);
    SameName(S, cls, p, found.value);
    if matching != [] {
      assert forall i :: 0 <= i < |matching| ==> matching[i] in matching;
      SetsCell(S, st, cls, matching[0], p, x, Mode(true, false, migration));
      if FitsValue(p, x, Size(st.tables, p.objectType)) {
        SetOnRowsWrites(S, st, cls, matching, p, x, migration);
      }
    } else {
      assert forall q: nat :: q < Size(st.tables, cls) ==> q !in matching;
    }
  }

  /** Its two own errors, each exactly in its case, rows or no rows, and with nothing written. */
  lemma BatchRefuses(S: Classes, st: Store, cls: string, rows: seq<nat>, name: string, x: Value, migration: bool)
    requires ValidSchema(S)
    ensures var r := SetOnSnapshot(S, st, cls, rows, name, x, migration);
            && (Throws(r, InvalidProperty) <==> forall p :: p in Props(S, cls) ==> p.name != name)
            && (Throws(r, ModifyPrimaryKey) <==>
                  !migration && exists p :: p in Props(S, cls) && p.name == name && p.isPrimary)
            && (Throws(r, InvalidProperty) || Throws(r, ModifyPrimaryKey) ==> r.st == st)
  {
    var found := PropertyForName(Props(S, cls), name);
    if found.Some? {
      RowsSpare(S, st, cls, rows, found.value, x, migration, InvalidProperty);
      RowsSpare(S, st, cls, rows, found.value, x, migration, ModifyPrimaryKey);
      forall p | p in Props(S, cls) && p.name == name
        ensures p == found.value
      {
        SameName(S, cls, p, found.value);
      }
    }
  }

  lemma {:induction false} RowsSpare(S: Classes, st: Store, cls: string, rows: seq<nat>, p: Property, x: Value,
                                     migration: bool, e: Error)
    requires Foreign(Mode(true, false, migration), e)
    ensures !Throws(SetOnRows(S, st, cls, rows, p, x, migration), e)
    decreases |rows|
  {
    if rows != [] {
      var m := Mode(true, false, migration);
      SetPropertySpares(S, st, cls, rows[0], p, x, m, e);
      RowsSpare(S, SetProperty(S, st, cls, rows[0], p, x, m).st, cls, rows[1..], p, x, migration, e);
    }
  }
}
