/** What a create can reach: the cells its value names.  Any other cell is neither written nor read, so
    replacing its contents commutes with the whole create. */
module Frame {
  import opened Wrappers
  import opened Schema
  import opened Tables
  import opened ObjectAccessor
  import opened Invariants

  /** A cell named by class, primary key and column. */
  type Touch = (string, Key, string)

  /** The columns the value supplies, the primary key aside. */
  ghost function OwnColumns(S: Classes, cls: string, v: Value): set<string> {
    if v.Dict? then set p | p in Props(S, cls) && !p.isPrimary && p.name in v.fields :: p.name else {}
  }

  ghost function OwnTouches(S: Classes, cls: string, v: Value): set<Touch> {
    match PrimaryKey(S, cls)
    case None => {}
    case Some(pk) =>
      match KeyOf(pk, v)
      case KeyError(_) => {}
      case KeyOk(key) => set column | column in OwnColumns(S, cls, v) :: (cls, key, column)
  }

  /** The cells of keyed objects that creating `v` as a `cls` can reach. */
  ghost function Touches(S: Classes, cls: string, v: Value): set<Touch>
    decreases v, 2, 0
  {
    OwnTouches(S, cls, v) + if v.Dict? then TouchesFrom(S, cls, v, 0) else {}
  }

  ghost function TouchesFrom(S: Classes, cls: string, v: Value, i: nat): set<Touch>
    requires v.Dict? && i <= |Props(S, cls)|
    decreases v, 1, |Props(S, cls)| - i
  {
    if i == |Props(S, cls)| then {} else TouchesAt(S, v, Props(S, cls)[i]) + TouchesFrom(S, cls, v, i + 1)
  }

  ghost function TouchesAt(S: Classes, v: Value, p: Property): set<Touch>
    requires v.Dict?
    decreases v, 0, 0
  {
    if p.name in v.fields then TouchesProperty(S, p, v.fields[p.name]) else {}
  }

  ghost function TouchesProperty(S: Classes, p: Property, x: Value): set<Touch>
    decreases x, 5, 0
  {
    if p.isArray then (if x.Vector? then TouchesElements(S, p, x, 0) else {}) else TouchesElement(S, p, x)
  }

  ghost function TouchesElements(S: Classes, p: Property, x: Value, i: nat): set<Touch>
    requires x.Vector? && i <= |x.elems|
    decreases x, 4, |x.elems| - i
  {
    if i == |x.elems| then {} else TouchesElement(S, p, x.elems[i]) + TouchesElements(S, p, x, i + 1)
  }

  ghost function TouchesElement(S: Classes, p: Property, e: Value): set<Touch>
    decreases e, 3, 0
  {
    if !p.base.ObjectType? || e.Managed? then {} else Touches(S, p.objectType, e)
  }

  lemma TouchesAtIn(S: Classes, cls: string, v: Value, i: nat, j: nat)
    requires v.Dict? && i <= j < |Props(S, cls)|
    ensures TouchesAt(S, v, Props(S, cls)[j]) <= TouchesFrom(S, cls, v, i)
    decreases j - i
  {
    if i < j {
      TouchesAtIn(S, cls, v, i + 1, j);
    }
  }

  lemma TouchesElementIn(S: Classes, p: Property, x: Value, i: nat, j: nat)
    requires x.Vector? && i <= j < |x.elems|
    ensures TouchesElement(S, p, x.elems[j]) <= TouchesElements(S, p, x, i)
    decreases j - i
  {
    if i < j {
      TouchesElementIn(S, p, x, i + 1, j);
    }
  }

  /** The row's key together with the column is among the cells named. */
  ghost predicate Reached(S: Classes, t: Group, cls: string, row: nat, column: string, touched: set<Touch>) {
    match PrimaryKey(S, cls)
    case None => false
    case Some(pk) =>
      var c := CellAt(t, cls, row, pk.name);
      c.One? && c.slot.Scalar? && (cls, c.slot.key, column) in touched
  }

  /** A cell and contents to put there. */
  datatype Spot = Spot(cls: string, row: nat, column: string, cell: Cell)

  function PatchStore(st: Store, w: Spot): Store {
    Store(Put(st.tables, w.cls, w.row, w.column, w.cell), st.log)
  }

  function PatchStep<T>(s: Step<T>, w: Spot): Step<T> {
    match s
    case Done(value, st) => Done(value, PatchStore(st, w))
    case Threw(error, st) => Threw(error, PatchStore(st, w))
  }

  /** A cell other than the spot, and other than the key of the spot's row. */
  ghost predicate Beside(S: Classes, w: Spot, cls: string, row: nat, column: string) {
    cls == w.cls && row == w.row ==>
      column != w.column && (PrimaryKey(S, cls).Some? ==> column != PrimaryKey(S, cls).value.name)
  }

  /** The spot exists, its contents keep the key, and it is none of the cells named. */
  ghost predicate Apart(S: Classes, t: Group, w: Spot, touched: set<Touch>) {
    && w.row < Size(t, w.cls)
    && (PrimaryKey(S, w.cls).Some? && PrimaryKey(S, w.cls).value.name == w.column ==>
          w.cell == CellAt(t, w.cls, w.row, w.column))
    && !Reached(S, t, w.cls, w.row, w.column, touched)
  }

  ghost predicate Kept(S: Classes, t: Group, t': Group, w: Spot) {
    && w.row < Size(t', w.cls)
    && CellAt(t', w.cls, w.row, w.column) == CellAt(t, w.cls, w.row, w.column)
    && (w.column in RowAt(t', w.cls, w.row) <==> w.column in RowAt(t, w.cls, w.row))
    && (PrimaryKey(S, w.cls).Some? ==>
          var key := PrimaryKey(S, w.cls).value.name; CellAt(t', w.cls, w.row, key) == CellAt(t, w.cls, w.row, key))
  }

  lemma ReachedLater(S: Classes, t: Group, t': Group, cls: string, row: nat, column: string, touched: set<Touch>)
    requires KeysKept(S, t, t') && row < Size(t, cls)
    ensures Reached(S, t', cls, row, column, touched) <==> Reached(S, t, cls, row, column, touched)
  {
    if PrimaryKey(S, cls).Some? {
      var key := PrimaryKey(S, cls).value.name;
      assert CellAt(t', cls, row, key) == CellAt(t, cls, row, key);
    }
  }

  lemma WrittenCommutes(S: Classes, st: Store, cls: string, row: nat, column: string, c: Cell, i: Write, w: Spot)
    requires Beside(S, w, cls, row, column) && w.row < Size(st.tables, w.cls)
    ensures Written(PatchStore(st, w), cls, row, column, c, i) == PatchStore(Written(st, cls, row, column, c, i), w)
    ensures Kept(S, st.tables, Written(st, cls, row, column, c, i).tables, w)
  {
    PutCommutes(st.tables, w.cls, w.row, w.column, w.cell, cls, row, column, c);
    PutReads(st.tables, cls, row, column, c, w.cls, w.row, w.column);
  }

  lemma AddEmptyRowCommutes(S: Classes, st: Store, cls: string, w: Spot)
    requires w.row < Size(st.tables, w.cls)
    ensures AddEmptyRow(S, PatchStore(st, w), cls) == PatchStore(AddEmptyRow(S, st, cls), w)
    ensures Kept(S, st.tables, AddEmptyRow(S, st, cls).tables, w)
  {
    AddRowPatch(st.tables, cls, EmptyRow(Props(S, cls)), w.cls, w.row,
                RowAt(st.tables, w.cls, w.row)[w.column := w.cell]);
  }

  lemma AddKeyedRowCommutes(S: Classes, st: Store, cls: string, column: string, k: Key, w: Spot)
    requires w.row < Size(st.tables, w.cls)
    ensures AddKeyedRow(S, PatchStore(st, w), cls, column, k) == PatchStore(AddKeyedRow(S, st, cls, column, k), w)
    ensures Kept(S, st.tables, AddKeyedRow(S, st, cls, column, k).tables, w)
  {
    AddEmptyRowCommutes(S, st, cls, w);
    var n := Size(st.tables, cls);
    PutReads(st.tables, w.cls, w.row, w.column, w.cell, cls, n, column);
    WrittenCommutes(S, AddEmptyRow(S, st, cls), cls, n, column, One(Scalar(k)), SetCell(cls, n, column), w);
  }

  /** The spot's contents keep its row's key, so every key is looked up with the same result. */
  lemma LookupCommutes(S: Classes, t: Group, cls: string, pk: Property, k: Key, w: Spot)
    requires PrimaryKey(S, cls) == Some(pk) && Apart(S, t, w, {})
    ensures FindFirst(Put(t, w.cls, w.row, w.column, w.cell), cls, pk.name, k) == FindFirst(t, cls, pk.name, k)
  {
    FindPatch(t, cls, pk.name, k, w.cls, w.row, RowAt(t, w.cls, w.row)[w.column := w.cell]);
  }

  /** What a located row is to the spot: elsewhere, or an existing row found by the value's key. */
  ghost predicate Located(S: Classes, t: Group, cls: string, v: Value, target: Target, w: Spot) {
    cls == w.cls && target.row == w.row ==>
      && target.skipPrimary && PrimaryKey(S, cls).Some?
      && var pk := PrimaryKey(S, cls).value;
         KeyOf(pk, v).KeyOk? && CellAt(t, cls, target.row, pk.name) == One(Scalar(KeyOf(pk, v).key))
  }

  lemma LocateKeyedCommutes(S: Classes, st: Store, cls: string, pk: Property, v: Value, m: Mode, w: Spot)
    requires PrimaryKey(S, cls) == Some(pk) && Apart(S, st.tables, w, {})
    ensures LocateKeyed(S, PatchStore(st, w), cls, pk, v, m) == PatchStep(LocateKeyed(S, st, cls, pk, v, m), w)
    ensures Kept(S, st.tables, LocateKeyed(S, st, cls, pk, v, m).st.tables, w)
    ensures var l := LocateKeyed(S, st, cls, pk, v, m); l.Done? ==> Located(S, st.tables, cls, v, l.value, w)
  {
    PutReads(st.tables, w.cls, w.row, w.column, w.cell, cls, 0, pk.name);
    if KeyOf(pk, v).KeyOk? {
      var k := KeyOf(pk, v).key;
      LookupCommutes(S, st.tables, cls, pk, k, w);
      AddEmptyRowCommutes(S, st, cls, w);
      AddKeyedRowCommutes(S, st, cls, pk.name, k, w);
    }
  }

  lemma LocateCommutes(S: Classes, st: Store, cls: string, v: Value, m: Mode, current: Option<nat>, w: Spot)
    requires Apart(S, st.tables, w, {})
    requires PrimaryKey(S, w.cls).Some? || PrimaryKey(S, cls).Some? || current.None? || !m.diff
    ensures Locate(S, PatchStore(st, w), cls, v, m, current) == PatchStep(Locate(S, st, cls, v, m, current), w)
    ensures Kept(S, st.tables, Locate(S, st, cls, v, m, current).st.tables, w)
    ensures var l := Locate(S, st, cls, v, m, current); l.Done? ==> Located(S, st.tables, cls, v, l.value, w)
  {
    match PrimaryKey(S, cls)
    case None =>
      AddEmptyRowCommutes(S, st, cls, w);
      PutReads(st.tables, w.cls, w.row, w.column, w.cell, cls, 0, "");
    case Some(pk) =>
      LocateKeyedCommutes(S, st, cls, pk, v, m, w);
  }

  /** Replacing a cell the value does not name commutes with creating it, whatever the value, the mode and
      the exit.  A cell of an unkeyed object has no name; it is safe unless diffing may update one in place. */
  lemma {:induction false} CreateCommutes(S: Classes, st: Store, cls: string, v: Value, m: Mode, current: Option<nat>,
                                          w: Spot)
    requires ValidSchema(S) && Apart(S, st.tables, w, Touches(S, cls, v))
    requires PrimaryKey(S, w.cls).Some? || !m.diff ||
             (KeyedValue(S, cls, v) && (PrimaryKey(S, cls).Some? || current.None?))
    ensures Create(S, PatchStore(st, w), cls, v, m, current) == PatchStep(Create(S, st, cls, v, m, current), w)
    ensures Kept(S, st.tables, Create(S, st, cls, v, m, current).st.tables, w)
    decreases v, 3, 0
  {
    LocateCommutes(S, st, cls, v, m, current, w);
    var l := Locate(S, st, cls, v, m, current);
    if l.Done? {
      forall j | 0 <= j < |Props(S, cls)|
        ensures PopulatesBeside(S, cls, l.value, v, Props(S, cls)[j], w)
      {
        OwnColumnsBeside(S, st.tables, cls, v, l.value, Props(S, cls)[j], w);
      }
      PopulateCommutes(S, l.st, cls, l.value, v, m, 0, w);
    }
  }

  /** Populating the property, if it is supplied, writes beside the spot. */
  ghost predicate PopulatesBeside(S: Classes, cls: string, target: Target, v: Value, p: Property, w: Spot) {
    (!target.skipPrimary || !p.isPrimary) && v.Dict? && p.name in v.fields ==> Beside(S, w, cls, target.row, p.name)
  }

  lemma OwnColumnsBeside(S: Classes, t: Group, cls: string, v: Value, target: Target, p: Property, w: Spot)
    requires ValidSchema(S) && p in Props(S, cls)
    requires Located(S, t, cls, v, target, w) && Apart(S, t, w, OwnTouches(S, cls, v))
    ensures PopulatesBeside(S, cls, target, v, p, w)
  {
    Valid(S, cls, p);
    if cls == w.cls && target.row == w.row && !p.isPrimary && v.Dict? && p.name in v.fields {
      assert p.name in OwnColumns(S, cls, v);
      assert (cls, KeyOf(PrimaryKey(S, cls).value, v).key, p.name) in OwnTouches(S, cls, v);
    }
  }

  lemma {:induction false} PopulateCommutes(S: Classes, st: Store, cls: string, target: Target, v: Value, m: Mode,
                                            i: nat, w: Spot)
    requires ValidSchema(S) && i <= |Props(S, cls)|
    requires forall j :: i <= j < |Props(S, cls)| ==> PopulatesBeside(S, cls, target, v, Props(S, cls)[j], w)
    requires Apart(S, st.tables, w, if v.Dict? then TouchesFrom(S, cls, v, i) else {})
    requires PrimaryKey(S, w.cls).Some? || !m.diff || KeyedValue(S, cls, v)
    ensures Populate(S, PatchStore(st, w), cls, target, v, m, i) == PatchStep(Populate(S, st, cls, target, v, m, i), w)
    ensures Kept(S, st.tables, Populate(S, st, cls, target, v, m, i).st.tables, w)
    decreases v, 2, |Props(S, cls)| - i
  {
    if i < |Props(S, cls)| {
      var p := Props(S, cls)[i];
      PopulateOneCommutes(S, st, cls, target, v, m, p, w);
      var one := PopulateOne(S, st, cls, target, v, m, p);
      if one.Done? {
        PopulateCommutes(S, one.st, cls, target, v, m, i + 1, w);
      }
    }
  }

  lemma {:induction false} PopulateOneCommutes(S: Classes, st: Store, cls: string, target: Target, v: Value, m: Mode,
                                               p: Property, w: Spot)
    requires ValidSchema(S) && p in Props(S, cls) && PopulatesBeside(S, cls, target, v, p, w)
    requires Apart(S, st.tables, w, if v.Dict? then TouchesAt(S, v, p) else {})
    requires PrimaryKey(S, w.cls).Some? || !m.diff || KeyedValue(S, cls, v)
    ensures PopulateOne(S, PatchStore(st, w), cls, target, v, m, p) ==
            PatchStep(PopulateOne(S, st, cls, target, v, m, p), w)
    ensures Kept(S, st.tables, PopulateOne(S, st, cls, target, v, m, p).st.tables, w)
    decreases v, 1, 0
  {
    if (!target.skipPrimary || !p.isPrimary) && v.Dict? && p.name in v.fields {
      SetPropertyCommutes(S, st, cls, target.row, p, v.fields[p.name], m, w);
    }
  }

  lemma {:induction false} SetPropertyCommutes(S: Classes, st: Store, cls: string, row: nat, p: Property, x: Value,
                                               m: Mode, w: Spot)
    requires ValidSchema(S) && p in Props(S, cls) && Beside(S, w, cls, row, p.name)
    requires Apart(S, st.tables, w, TouchesProperty(S, p, x))
    requires PrimaryKey(S, w.cls).Some? || !m.diff || KeyedProperty(S, p, x)
    ensures SetProperty(S, PatchStore(st, w), cls, row, p, x, m) == PatchStep(SetProperty(S, st, cls, row, p, x, m), w)
    ensures Kept(S, st.tables, SetProperty(S, st, cls, row, p, x, m).st.tables, w)
    decreases x, 6, 0
  {
    if p.nullable && x.Null? {
      PutReads(st.tables, w.cls, w.row, w.column, w.cell, cls, row, p.name);
      WrittenCommutes(S, st, cls, row, p.name, One(NullSlot(p)), SetCell(cls, row, p.name), w);
    } else if p.isArray {
      AssignCommutes(S, st, cls, row, p, x, m, w);
    } else {
      UpdateCommutes(S, st, cls, row, p, x, m, w);
    }
  }

  lemma {:induction false} UpdateCommutes(S: Classes, st: Store, cls: string, row: nat, p: Property, x: Value,
                                          m: Mode, w: Spot)
    requires ValidSchema(S) && p in Props(S, cls) && Beside(S, w, cls, row, p.name)
    requires Apart(S, st.tables, w, TouchesElement(S, p, x))
    requires PrimaryKey(S, w.cls).Some? || !m.diff || KeyedElement(S, p, x)
    ensures Update(S, PatchStore(st, w), cls, row, p, x, m) == PatchStep(Update(S, st, cls, row, p, x, m), w)
    ensures Kept(S, st.tables, Update(S, st, cls, row, p, x, m).st.tables, w)
    decreases x, 5, 0
  {
    var cell := CellAt(st.tables, cls, row, p.name);
    PutReads(st.tables, w.cls, w.row, w.column, w.cell, cls, row, p.name);
    UnboxCommutes(S, st, cls, p, x, m, CurrentLink(cell), w);
    var u := Unbox(S, st, p, x, m, CurrentLink(cell));
    if u.Done? {
      StoreIfDifferentCommutes(S, u.st, cls, row, p, cell, u.value, m, w);
    }
  }

  lemma StoreIfDifferentCommutes(S: Classes, st: Store, cls: string, row: nat, p: Property, before: Cell, u: Unboxed,
                                 m: Mode, w: Spot)
    requires Beside(S, w, cls, row, p.name) && w.row < Size(st.tables, w.cls)
    ensures StoreIfDifferent(PatchStore(st, w), cls, row, p, before, u, m) ==
            PatchStep(StoreIfDifferent(st, cls, row, p, before, u, m), w)
    ensures Kept(S, st.tables, StoreIfDifferent(st, cls, row, p, before, u, m).st.tables, w)
  {
    StoreValueCommutes(S, st, cls, row, p, u, w);
  }

  lemma StoreValueCommutes(S: Classes, st: Store, cls: string, row: nat, p: Property, u: Unboxed, w: Spot)
    requires Beside(S, w, cls, row, p.name) && w.row < Size(st.tables, w.cls)
    ensures StoreValue(PatchStore(st, w), cls, row, p, u) == PatchStep(StoreValue(st, cls, row, p, u), w)
    ensures Kept(S, st.tables, StoreValue(st, cls, row, p, u).st.tables, w)
  {
    PutReads(st.tables, w.cls, w.row, w.column, w.cell, p.objectType, 0, "");
    WrittenCommutes(S, st, cls, row, p.name, One(ToSlot(u)), SetCell(cls, row, p.name), w);
  }

  lemma {:induction false} UnboxCommutes(S: Classes, st: Store, cls: string, p: Property, x: Value, m: Mode,
                                         current: Option<nat>, w: Spot)
    requires ValidSchema(S) && p in Props(S, cls)
    requires Apart(S, st.tables, w, TouchesElement(S, p, x))
    requires PrimaryKey(S, w.cls).Some? || !m.diff || KeyedElement(S, p, x)
    ensures Unbox(S, PatchStore(st, w), p, x, m, current) == PatchStep(Unbox(S, st, p, x, m, current), w)
    ensures Kept(S, st.tables, Unbox(S, st, p, x, m, current).st.tables, w)
    decreases x, 4, 0
  {
    if p.base.ObjectType? && !x.Managed? {
      CreateCommutes(S, st, p.objectType, x, m, current, w);
    }
  }

  lemma {:induction false} AssignCommutes(S: Classes, st: Store, cls: string, row: nat, p: Property, x: Value, m: Mode,
                                          w: Spot)
    requires ValidSchema(S) && p in Props(S, cls) && p.isArray && Beside(S, w, cls, row, p.name)
    requires Apart(S, st.tables, w, TouchesProperty(S, p, x))
    requires PrimaryKey(S, w.cls).Some? || !m.diff || KeyedProperty(S, p, x)
    ensures Assign(S, PatchStore(st, w), cls, row, p, x, m) == PatchStep(Assign(S, st, cls, row, p, x, m), w)
    ensures Kept(S, st.tables, Assign(S, st, cls, row, p, x, m).st.tables, w)
    decreases x, 5, 1
  {
    PutReads(st.tables, w.cls, w.row, w.column, w.cell, cls, row, p.name);
    WrittenCommutes(S, st, cls, row, p.name, Many([]), ListCleared(cls, row, p.name), w);
    if x.Vector? {
      var size := |Elements(CellAt(st.tables, cls, row, p.name))|;
      if m.diff {
        AssignFromCommutes(S, st, cls, row, p, x, 0, size, m, w);
        var a := AssignFrom(S, st, cls, row, p, x, 0, size, m);
        if a.Done? {
          TrimToCommutes(S, a.st, cls, row, p.name, |x.elems|, size, w);
        }
      } else {
        AssignFromCommutes(S, Clear(st, cls, row, p.name), cls, row, p, x, 0, 0, m, w);
      }
    }
  }

  lemma {:induction false} AssignFromCommutes(S: Classes, st: Store, cls: string, row: nat, p: Property, x: Value,
                                              i: nat, size: nat, m: Mode, w: Spot)
    requires ValidSchema(S) && p in Props(S, cls) && p.isArray && Beside(S, w, cls, row, p.name)
    requires x.Vector? && i <= |x.elems|
    requires Apart(S, st.tables, w, TouchesElements(S, p, x, i))
    requires PrimaryKey(S, w.cls).Some? || (!m.diff && size == 0) || KeyedProperty(S, p, x)
    ensures AssignFrom(S, PatchStore(st, w), cls, row, p, x, i, size, m) ==
            PatchStep(AssignFrom(S, st, cls, row, p, x, i, size, m), w)
    ensures Kept(S, st.tables, AssignFrom(S, st, cls, row, p, x, i, size, m).st.tables, w)
    decreases x, 5, 0, |x.elems| - i
  {
    if i < |x.elems| {
      AssignElementCommutes(S, st, cls, row, p, x.elems[i], i, size, m, w);
      var one := AssignElement(S, st, cls, row, p, x.elems[i], i, size, m);
      if one.Done? {
        AssignFromCommutes(S, one.st, cls, row, p, x, i + 1, size, m, w);
      }
    }
  }

  lemma {:induction false} AssignElementCommutes(S: Classes, st: Store, cls: string, row: nat, p: Property, e: Value,
                                                 i: nat, size: nat, m: Mode, w: Spot)
    requires ValidSchema(S) && p in Props(S, cls) && Beside(S, w, cls, row, p.name)
    requires Apart(S, st.tables, w, TouchesElement(S, p, e))
    requires PrimaryKey(S, w.cls).Some? || (!m.diff && size == 0) || KeyedElement(S, p, e)
    ensures AssignElement(S, PatchStore(st, w), cls, row, p, e, i, size, m) ==
            PatchStep(AssignElement(S, st, cls, row, p, e, i, size, m), w)
    ensures Kept(S, st.tables, AssignElement(S, st, cls, row, p, e, i, size, m).st.tables, w)
    decreases e, 5, 1, 0
  {
    if i < size {
      SetIfDifferentCommutes(S, st, cls, row, p, e, i, m, w);
    } else {
      UnboxCommutes(S, st, cls, p, e, m.(diff := false), None, w);
      var u := Unbox(S, st, p, e, m.(diff := false), None);
      if u.Done? {
        ListAddCommutes(S, u.st, cls, row, p, u.value, w);
      }
    }
  }

  lemma {:induction false} SetIfDifferentCommutes(S: Classes, st: Store, cls: string, row: nat, p: Property, e: Value,
                                                  i: nat, m: Mode, w: Spot)
    requires ValidSchema(S) && p in Props(S, cls) && Beside(S, w, cls, row, p.name)
    requires Apart(S, st.tables, w, TouchesElement(S, p, e))
    requires PrimaryKey(S, w.cls).Some? || KeyedElement(S, p, e)
    ensures SetIfDifferent(S, PatchStore(st, w), cls, row, p, e, i, m) ==
            PatchStep(SetIfDifferent(S, st, cls, row, p, e, i, m), w)
    ensures Kept(S, st.tables, SetIfDifferent(S, st, cls, row, p, e, i, m).st.tables, w)
    decreases e, 5, 0, 0
  {
    PutReads(st.tables, w.cls, w.row, w.column, w.cell, cls, row, p.name);
    var slots := Elements(CellAt(st.tables, cls, row, p.name));
    if i < |slots| {
      var current := CurrentLink(One(slots[i]));
      UnboxCommutes(S, st, cls, p, e, m.(diff := true), current, w);
      var u := Unbox(S, st, p, e, m.(diff := true), current);
      if u.Done? {
        PutIfDifferentCommutes(S, u.st, cls, row, p, slots[i], u.value, i, w);
      }
    }
  }

  lemma PutIfDifferentCommutes(S: Classes, st: Store, cls: string, row: nat, p: Property, before: Slot, u: Unboxed,
                               i: nat, w: Spot)
    requires Beside(S, w, cls, row, p.name) && w.row < Size(st.tables, w.cls)
    ensures PutIfDifferent(PatchStore(st, w), cls, row, p, before, u, i) ==
            PatchStep(PutIfDifferent(st, cls, row, p, before, u, i), w)
    ensures Kept(S, st.tables, PutIfDifferent(st, cls, row, p, before, u, i).st.tables, w)
  {
    ListPutCommutes(S, st, cls, row, p, u, i, w);
  }

  lemma RefusalCommutes(st: Store, p: Property, u: Unboxed, w: Spot)
    ensures ListRefuses(PatchStore(st, w).tables, p, u) == ListRefuses(st.tables, p, u)
  {
    if u.RowValue? {
      PutReads(st.tables, w.cls, w.row, w.column, w.cell, u.cls, 0, "");
    }
  }

  lemma ListPutCommutes(S: Classes, st: Store, cls: string, row: nat, p: Property, u: Unboxed, i: nat, w: Spot)
    requires Beside(S, w, cls, row, p.name) && w.row < Size(st.tables, w.cls)
    ensures ListPut(PatchStore(st, w), cls, row, p, u, i) == PatchStep(ListPut(st, cls, row, p, u, i), w)
    ensures Kept(S, st.tables, ListPut(st, cls, row, p, u, i).st.tables, w)
  {
    PutReads(st.tables, w.cls, w.row, w.column, w.cell, cls, row, p.name);
    RefusalCommutes(st, p, u, w);
    var slots := Elements(CellAt(st.tables, cls, row, p.name));
    if i < |slots| {
      WrittenCommutes(S, st, cls, row, p.name, Many(slots[i := ToSlot(u)]), ListSet(cls, row, p.name, i), w);
    }
  }

  lemma ListAddCommutes(S: Classes, st: Store, cls: string, row: nat, p: Property, u: Unboxed, w: Spot)
    requires Beside(S, w, cls, row, p.name) && w.row < Size(st.tables, w.cls)
    ensures ListAdd(PatchStore(st, w), cls, row, p, u) == PatchStep(ListAdd(st, cls, row, p, u), w)
    ensures Kept(S, st.tables, ListAdd(st, cls, row, p, u).st.tables, w)
  {
    RefusalCommutes(st, p, u, w);
    AppendedCommutes(S, st, cls, row, p, ToSlot(u), w);
    AppendedCommutes(S, st, cls, row, p, DefaultSlot(p), w);
  }

  lemma AppendedCommutes(S: Classes, st: Store, cls: string, row: nat, p: Property, slot: Slot, w: Spot)
    requires Beside(S, w, cls, row, p.name) && w.row < Size(st.tables, w.cls)
    ensures Appended(PatchStore(st, w), cls, row, p, slot) == PatchStore(Appended(st, cls, row, p, slot), w)
    ensures Kept(S, st.tables, Appended(st, cls, row, p, slot).tables, w)
  {
    PutReads(st.tables, w.cls, w.row, w.column, w.cell, cls, row, p.name);
    var slots := Elements(CellAt(st.tables, cls, row, p.name));
    WrittenCommutes(S, st, cls, row, p.name, Many(slots + [slot]), ListAdded(cls, row, p.name), w);
  }

  lemma {:induction false} TrimToCommutes(S: Classes, st: Store, cls: string, row: nat, column: string, index: nat,
                                          size: nat, w: Spot)
    requires Beside(S, w, cls, row, column) && w.row < Size(st.tables, w.cls)
    ensures TrimTo(PatchStore(st, w), cls, row, column, index, size) ==
            PatchStep(TrimTo(st, cls, row, column, index, size), w)
    ensures Kept(S, st.tables, TrimTo(st, cls, row, column, index, size).st.tables, w)
    decreases size
  {
    PutReads(st.tables, w.cls, w.row, w.column, w.cell, cls, row, column);
    var slots := Elements(CellAt(st.tables, cls, row, column));
    if index < size && size - 1 < |slots| {
      var i := size - 1;
      WrittenCommutes(S, st, cls, row, column, Many(slots[..i] + slots[i + 1..]), ListRemoved(cls, row, column, i), w);
      TrimToCommutes(S, ListRemove(st, cls, row, column, i).st, cls, row, column, index, i, w);
    }
  }
}
