/** What every accessor call keeps, on success and on every exception: cells have their column's type,
    links target existing rows, rows never move, keys never change and stay unique. */
module Invariants {
  import opened Wrappers
  import opened Schema
  import opened Tables
  import opened ObjectAccessor

  ghost predicate SlotOk(t: Group, p: Property, slot: Slot) {
    if p.base.ObjectType? then
      && slot.Link?
      && (slot.target.None? ==> !p.isArray)
      && (slot.target.Some? ==> slot.target.value < Size(t, p.objectType))
    else
      && slot.Scalar?
      && (slot.key.None? ==> p.nullable)
      && (slot.key.Some? ==> Matches(p.base, slot.key.value))
  }

  ghost predicate CellOk(t: Group, p: Property, c: Cell) {
    if p.isArray then c.Many? && forall i :: 0 <= i < |c.slots| ==> SlotOk(t, p, c.slots[i])
    else c.One? && SlotOk(t, p, c.slot)
  }

  ghost predicate RowOk(S: Classes, t: Group, cls: string, r: Row) {
    forall p :: p in Props(S, cls) ==> CellOk(t, p, CellIn(r, p.name))
  }

  ghost predicate Typed(S: Classes, t: Group) {
    forall cls, row: nat :: cls in S && row < Size(t, cls) ==> RowOk(S, t, cls, RowAt(t, cls, row))
  }

  ghost predicate UniqueKeys(S: Classes, t: Group) {
    forall cls, i: nat, j: nat ::
      cls in S && PrimaryKey(S, cls).Some? && i < j < Size(t, cls) ==>
        CellAt(t, cls, i, PrimaryKey(S, cls).value.name) != CellAt(t, cls, j, PrimaryKey(S, cls).value.name)
  }

  /** Duplicate keys are tolerated only while a migration runs. */
  ghost predicate Invariant(S: Classes, t: Group, migration: bool) {
    Typed(S, t) && (!migration ==> UniqueKeys(S, t))
  }

  ghost predicate Grows(t: Group, t': Group) {
    forall cls :: Size(t, cls) <= Size(t', cls)
  }

  ghost predicate KeysKept(S: Classes, t: Group, t': Group) {
    forall cls, row: nat ::
      PrimaryKey(S, cls).Some? && row < Size(t, cls) ==>
        CellAt(t', cls, row, PrimaryKey(S, cls).value.name) == CellAt(t, cls, row, PrimaryKey(S, cls).value.name)
  }

  /** The second group continues the first: valid, no row gone, no key changed. */
  ghost predicate Continues(S: Classes, t: Group, t': Group, migration: bool) {
    Invariant(S, t', migration) && Grows(t, t') && KeysKept(S, t, t')
  }

  /** The same, except that the key of one row may have changed if `rekeyed`. */
  ghost predicate ContinuesBut(S: Classes, t: Group, t': Group, migration: bool, cls: string, row: nat, rekeyed: bool) {
    && Invariant(S, t', migration) && Grows(t, t')
    && forall k, q: nat ::
         PrimaryKey(S, k).Some? && q < Size(t, k) && !(rekeyed && k == cls && q == row) ==>
           CellAt(t', k, q, PrimaryKey(S, k).value.name) == CellAt(t, k, q, PrimaryKey(S, k).value.name)
  }

  lemma ContinuesTransitive(S: Classes, a: Group, b: Group, c: Group, migration: bool)
    requires Continues(S, a, b, migration) && Continues(S, b, c, migration)
    ensures Continues(S, a, c, migration)
  {
  }

  lemma ContinuesButTransitive(S: Classes, a: Group, b: Group, c: Group, migration: bool, cls: string, row: nat,
                               rekeyed: bool)
    requires ContinuesBut(S, a, b, migration, cls, row, rekeyed) && ContinuesBut(S, b, c, migration, cls, row, rekeyed)
    ensures ContinuesBut(S, a, c, migration, cls, row, rekeyed)
  {
    forall k, q: nat | PrimaryKey(S, k).Some? && q < Size(a, k) && !(rekeyed && k == cls && q == row)
      ensures CellAt(c, k, q, PrimaryKey(S, k).value.name) == CellAt(a, k, q, PrimaryKey(S, k).value.name)
    {
      assert Size(a, k) <= Size(b, k);
    }
  }

  /** A key that was found is found at the same row ever after. */
  lemma LookupLater(S: Classes, t: Group, t': Group, cls: string, pk: Property, key: Key)
    requires PrimaryKey(S, cls) == Some(pk) && Grows(t, t') && KeysKept(S, t, t')
    requires FindFirst(t, cls, pk.name, key).Some?
    ensures FindFirst(t', cls, pk.name, key) == FindFirst(t, cls, pk.name, key)
  {
    forall i | 0 <= i < Size(t, cls)
      ensures CellIn(Rows(t, cls)[i], pk.name) == CellIn(Rows(t', cls)[i], pk.name)
    {
      assert CellAt(t', cls, i, pk.name) == CellAt(t, cls, i, pk.name);
    }
    assert Size(t, cls) <= Size(t', cls);
    FindStable(Rows(t, cls), Rows(t', cls), pk.name, key);
  }

  lemma SameName(S: Classes, cls: string, p: Property, q: Property)
    requires ValidSchema(S) && p in Props(S, cls) && q in Props(S, cls) && p.name == q.name
    ensures p == q
  {
    var i :| 0 <= i < |Props(S, cls)| && Props(S, cls)[i] == p;
    var j :| 0 <= j < |Props(S, cls)| && Props(S, cls)[j] == q;
    assert ValidObjectSchema(S, S[cls]);
  }

  lemma Valid(S: Classes, cls: string, p: Property)
    requires ValidSchema(S) && p in Props(S, cls)
    ensures cls in S && ValidProperty(S, S[cls], p)
    ensures p.isPrimary <==> PrimaryKey(S, cls) == Some(p)
    ensures !p.isPrimary && PrimaryKey(S, cls).Some? ==> PrimaryKey(S, cls).value.name != p.name
  {
    assert ValidObjectSchema(S, S[cls]);
    var i :| 0 <= i < |Props(S, cls)| && Props(S, cls)[i] == p;
    if p.isPrimary {
      SameName(S, cls, p, PrimaryKey(S, cls).value);
    }
  }

  lemma RowOkGrows(S: Classes, t: Group, t': Group, cls: string, r: Row)
    requires RowOk(S, t, cls, r) && Grows(t, t')
    ensures RowOk(S, t', cls, r)
  {
    forall p | p in Props(S, cls)
      ensures CellOk(t', p, CellIn(r, p.name))
    {
      assert CellOk(t, p, CellIn(r, p.name));
    }
  }

  lemma PutRowOk(S: Classes, t: Group, cls: string, r: Row, p: Property, c: Cell)
    requires ValidSchema(S) && p in Props(S, cls)
    requires RowOk(S, t, cls, r) && CellOk(t, p, c)
    ensures RowOk(S, t, cls, r[p.name := c])
  {
    forall q | q in Props(S, cls)
      ensures CellOk(t, q, CellIn(r[p.name := c], q.name))
    {
      if q.name == p.name {
        SameName(S, cls, p, q);
      } else {
        assert CellOk(t, q, CellIn(r, q.name));
      }
    }
  }

  /** Writing a well-typed cell continues the group, unless it is a key being changed in a migration. */
  lemma WrittenContinues(S: Classes, st: Store, cls: string, row: nat, p: Property, c: Cell, i: Write, migration: bool)
    requires ValidSchema(S) && p in Props(S, cls)
    requires Invariant(S, st.tables, migration) && row < Size(st.tables, cls)
    requires CellOk(st.tables, p, c) && (p.isPrimary ==> migration)
    ensures ContinuesBut(S, st.tables, Written(st, cls, row, p.name, c, i).tables, migration, cls, row, p.isPrimary)
    ensures !p.isPrimary ==> Continues(S, st.tables, Written(st, cls, row, p.name, c, i).tables, migration)
  {
    var t, t' := st.tables, Written(st, cls, row, p.name, c, i).tables;
    var r := RowAt(t, cls, row);
    assert Grows(t, t');
    Valid(S, cls, p);
    PutRowOk(S, t, cls, r, p, c);
    forall k, q: nat | k in S && q < Size(t', k)
      ensures RowOk(S, t', k, RowAt(t', k, q))
    {
      PatchReads(t, cls, row, r[p.name := c], k, q);
      RowOkGrows(S, t, t', k, RowAt(t', k, q));
    }
    forall k, q: nat | PrimaryKey(S, k).Some? && q < Size(t, k) && !(p.isPrimary && k == cls && q == row)
      ensures CellAt(t', k, q, PrimaryKey(S, k).value.name) == CellAt(t, k, q, PrimaryKey(S, k).value.name)
    {
      PatchReads(t, cls, row, r[p.name := c], k, q);
    }
  }

  lemma EmptyRowOk(S: Classes, t: Group, cls: string)
    requires ValidSchema(S)
    ensures RowOk(S, t, cls, EmptyRow(Props(S, cls)))
  {
    if cls in S {
      assert ValidObjectSchema(S, S[cls]);
    }
    forall p | p in Props(S, cls)
      ensures CellOk(t, p, CellIn(EmptyRow(Props(S, cls)), p.name))
    {
      Valid(S, cls, p);
    }
  }

  lemma AddedReads(t: Group, cls: string, r: Row, k: string, q: nat)
    ensures Size(AddRow(t, cls, r), k) == Size(t, k) + if k == cls then 1 else 0
    ensures q < Size(t, k) ==> RowAt(AddRow(t, cls, r), k, q) == RowAt(t, k, q)
    ensures RowAt(AddRow(t, cls, r), cls, Size(t, cls)) == r
  {
  }

  lemma AddedTyped(S: Classes, t: Group, cls: string, r: Row)
    requires Typed(S, t) && RowOk(S, t, cls, r)
    ensures Typed(S, AddRow(t, cls, r)) && Grows(t, AddRow(t, cls, r))
  {
    var t' := AddRow(t, cls, r);
    assert Grows(t, t');
    forall k, q: nat | k in S && q < Size(t', k)
      ensures RowOk(S, t', k, RowAt(t', k, q))
    {
      AddedReads(t, cls, r, k, q);
      RowOkGrows(S, t, t', k, RowAt(t', k, q));
    }
  }

  /** Appending a well-typed row whose key is new continues the group. */
  lemma AddedContinues(S: Classes, t: Group, cls: string, r: Row, migration: bool)
    requires ValidSchema(S) && Invariant(S, t, migration) && RowOk(S, t, cls, r)
    requires PrimaryKey(S, cls).Some? && !migration ==>
               var column := PrimaryKey(S, cls).value.name;
               forall i: nat :: i < Size(t, cls) ==> CellAt(t, cls, i, column) != CellIn(r, column)
    ensures Continues(S, t, AddRow(t, cls, r), migration)
  {
    var t' := AddRow(t, cls, r);
    AddedTyped(S, t, cls, r);
    if !migration {
      forall k, i: nat, j: nat | k in S && PrimaryKey(S, k).Some? && i < j < Size(t', k)
        ensures CellAt(t', k, i, PrimaryKey(S, k).value.name) != CellAt(t', k, j, PrimaryKey(S, k).value.name)
      {
        AddedReads(t, cls, r, k, i);
        AddedReads(t, cls, r, k, j);
        var column := PrimaryKey(S, k).value.name;
        if j < Size(t, k) {
          assert CellAt(t, k, i, column) != CellAt(t, k, j, column);
        } else {
          assert k == cls && RowAt(t', k, j) == r;
          assert CellAt(t, cls, i, column) != CellIn(r, column);
          assert CellAt(t', k, i, column) == CellAt(t, k, i, column);
        }
      }
    }
  }

  lemma AddKeyedRowIs(S: Classes, st: Store, cls: string, column: string, k: Key)
    ensures AddKeyedRow(S, st, cls, column, k).tables ==
            AddRow(st.tables, cls, EmptyRow(Props(S, cls))[column := One(Scalar(k))])
  {
    var rows, e := Rows(st.tables, cls), EmptyRow(Props(S, cls));
    var r := e[column := One(Scalar(k))];
    AddedReads(st.tables, cls, e, cls, 0);
    assert (rows + [e])[|rows| := r] == rows + [r];
  }

  lemma KeyOfOk(S: Classes, cls: string, pk: Property, v: Value, t: Group)
    requires ValidSchema(S) && PrimaryKey(S, cls) == Some(pk) && KeyOf(pk, v).KeyOk?
    ensures CellOk(t, pk, One(Scalar(KeyOf(pk, v).key)))
  {
    Valid(S, cls, pk);
  }

  lemma LocateKeyedContinues(S: Classes, st: Store, cls: string, pk: Property, v: Value, m: Mode)
    requires ValidSchema(S) && Invariant(S, st.tables, m.migration) && PrimaryKey(S, cls) == Some(pk)
    ensures Continues(S, st.tables, LocateKeyed(S, st, cls, pk, v, m).st.tables, m.migration)
    ensures var l := LocateKeyed(S, st, cls, pk, v, m);
            l.Done? ==>
              && l.value.row < Size(l.st.tables, cls)
              && (l.value.skipPrimary || (m.migration && l.value.row == Size(st.tables, cls)))
  {
    var e := EmptyRow(Props(S, cls));
    EmptyRowOk(S, st.tables, cls);
    if KeyOf(pk, v).KeyOk? {
      var k := KeyOf(pk, v).key;
      if FindFirst(st.tables, cls, pk.name, k).None? {
        KeyOfOk(S, cls, pk, v, st.tables);
        PutRowOk(S, st.tables, cls, e, pk, One(Scalar(k)));
        AddedContinues(S, st.tables, cls, e[pk.name := One(Scalar(k))], m.migration);
        AddKeyedRowIs(S, st, cls, pk.name, k);
      } else if m.migration {
        AddedContinues(S, st.tables, cls, e, m.migration);
      }
    }
  }

  lemma LocateContinues(S: Classes, st: Store, cls: string, v: Value, m: Mode, current: Option<nat>)
    requires ValidSchema(S) && Invariant(S, st.tables, m.migration)
    requires current.Some? ==> current.value < Size(st.tables, cls)
    ensures Continues(S, st.tables, Locate(S, st, cls, v, m, current).st.tables, m.migration)
    ensures var l := Locate(S, st, cls, v, m, current);
            l.Done? ==>
              && l.value.row < Size(l.st.tables, cls)
              && (l.value.skipPrimary || (m.migration && l.value.row == Size(st.tables, cls)))
  {
    match PrimaryKey(S, cls)
    case None =>
      EmptyRowOk(S, st.tables, cls);
      AddedContinues(S, st.tables, cls, EmptyRow(Props(S, cls)), m.migration);
    case Some(pk) =>
      LocateKeyedContinues(S, st, cls, pk, v, m);
  }

  /** `Object::create` continues the group whatever it is given and however it exits, in a migration too: there
      it may give the row it adds a key that is taken, but it changes the key of no existing row. */
  lemma {:induction false} CreateContinues(S: Classes, st: Store, cls: string, v: Value, m: Mode, current: Option<nat>)
    requires ValidSchema(S) && Invariant(S, st.tables, m.migration)
    requires current.Some? ==> current.value < Size(st.tables, cls)
    ensures Continues(S, st.tables, Create(S, st, cls, v, m, current).st.tables, m.migration)
    ensures var r := Create(S, st, cls, v, m, current); r.Done? ==> r.value < Size(r.st.tables, cls)
    decreases v, 3, 0
  {
    LocateContinues(S, st, cls, v, m, current);
    var l := Locate(S, st, cls, v, m, current);
    if l.Done? {
      PopulateContinues(S, l.st, cls, l.value, v, m, 0);
    }
  }

  lemma {:induction false} PopulateContinues(S: Classes, st: Store, cls: string, target: Target, v: Value, m: Mode,
                                             i: nat)
    requires ValidSchema(S) && Invariant(S, st.tables, m.migration)
    requires i <= |Props(S, cls)| && target.row < Size(st.tables, cls) && (target.skipPrimary || m.migration)
    ensures ContinuesBut(S, st.tables, Populate(S, st, cls, target, v, m, i).st.tables, m.migration, cls, target.row,
                         !target.skipPrimary)
    decreases v, 2, |Props(S, cls)| - i
  {
    if i < |Props(S, cls)| {
      var p := Props(S, cls)[i];
      var one := PopulateOne(S, st, cls, target, v, m, p);
      PopulateOneContinues(S, st, cls, target, v, m, p);
      if one.Done? {
        assert Size(st.tables, cls) <= Size(one.st.tables, cls);
        PopulateContinues(S, one.st, cls, target, v, m, i + 1);
        ContinuesButTransitive(S, st.tables, one.st.tables, Populate(S, one.st, cls, target, v, m, i + 1).st.tables,
                               m.migration, cls, target.row, !target.skipPrimary);
      }
    }
  }

  lemma {:induction false} PopulateOneContinues(S: Classes, st: Store, cls: string, target: Target, v: Value, m: Mode,
                                                p: Property)
    requires ValidSchema(S) && Invariant(S, st.tables, m.migration)
    requires p in Props(S, cls) && target.row < Size(st.tables, cls) && (target.skipPrimary || m.migration)
    ensures ContinuesBut(S, st.tables, PopulateOne(S, st, cls, target, v, m, p).st.tables, m.migration, cls, target.row,
                         !target.skipPrimary)
    ensures target.skipPrimary ==>
            Continues(S, st.tables, PopulateOne(S, st, cls, target, v, m, p).st.tables, m.migration)
    decreases v, 1, 0
  {
    if (!target.skipPrimary || !p.isPrimary) && v.Dict? && p.name in v.fields {
      SetPropertyContinues(S, st, cls, target.row, p, v.fields[p.name], m);
    }
  }

  lemma {:induction false} SetPropertyContinues(S: Classes, st: Store, cls: string, row: nat, p: Property, x: Value,
                                                m: Mode)
    requires ValidSchema(S) && Invariant(S, st.tables, m.migration)
    requires p in Props(S, cls) && row < Size(st.tables, cls) && (p.isPrimary ==> m.migration)
    ensures ContinuesBut(S, st.tables, SetProperty(S, st, cls, row, p, x, m).st.tables, m.migration, cls, row,
                         p.isPrimary)
    ensures !p.isPrimary ==> Continues(S, st.tables, SetProperty(S, st, cls, row, p, x, m).st.tables, m.migration)
    decreases x, 6, 0
  {
    if p.nullable && x.Null? {
      if !p.isArray {
        WrittenContinues(S, st, cls, row, p, One(NullSlot(p)), SetCell(cls, row, p.name), m.migration);
      }
    } else if p.isArray {
      AssignContinues(S, st, cls, row, p, x, m);
    } else {
      UpdateContinues(S, st, cls, row, p, x, m);
    }
  }

  /** The row a well-typed cell links to exists. */
  lemma CurrentLinkOk(S: Classes, st: Store, cls: string, row: nat, p: Property, slot: Slot)
    requires ValidSchema(S) && Typed(S, st.tables) && p in Props(S, cls) && row < Size(st.tables, cls)
    requires slot in Elements(CellAt(st.tables, cls, row, p.name)) || CellAt(st.tables, cls, row, p.name) == One(slot)
    ensures SlotOk(st.tables, p, slot)
  {
    assert RowOk(S, st.tables, cls, RowAt(st.tables, cls, row));
    assert CellOk(st.tables, p, CellAt(st.tables, cls, row, p.name));
  }

  lemma {:induction false} UpdateContinues(S: Classes, st: Store, cls: string, row: nat, p: Property, x: Value, m: Mode)
    requires ValidSchema(S) && Invariant(S, st.tables, m.migration)
    requires p in Props(S, cls) && row < Size(st.tables, cls) && (p.isPrimary ==> m.migration) && !p.isArray
    ensures ContinuesBut(S, st.tables, Update(S, st, cls, row, p, x, m).st.tables, m.migration, cls, row, p.isPrimary)
    ensures !p.isPrimary ==> Continues(S, st.tables, Update(S, st, cls, row, p, x, m).st.tables, m.migration)
    decreases x, 5, 0
  {
    var cell := CellAt(st.tables, cls, row, p.name);
    if CurrentLink(cell).Some? {
      CurrentLinkOk(S, st, cls, row, p, cell.slot);
    }
    UnboxContinues(S, st, cls, p, x, m, CurrentLink(cell));
    var u := Unbox(S, st, p, x, m, CurrentLink(cell));
    if u.Done? {
      StoreIfDifferentContinues(S, u.st, cls, row, p, cell, u.value, m);
      ContinuesButTransitive(S, st.tables, u.st.tables, StoreIfDifferent(u.st, cls, row, p, cell, u.value, m).st.tables,
                             m.migration, cls, row, p.isPrimary);
    }
  }

  lemma StoreIfDifferentContinues(S: Classes, st: Store, cls: string, row: nat, p: Property, before: Cell, u: Unboxed,
                                  m: Mode)
    requires ValidSchema(S) && Invariant(S, st.tables, m.migration) && UnboxedOk(p, u)
    requires p in Props(S, cls) && row < Size(st.tables, cls) && (p.isPrimary ==> m.migration) && !p.isArray
    ensures ContinuesBut(S, st.tables, StoreIfDifferent(st, cls, row, p, before, u, m).st.tables, m.migration, cls, row,
                         p.isPrimary)
  {
    StoreValueContinues(S, st, cls, row, p, u, m.migration);
  }

  lemma StoreValueContinues(S: Classes, st: Store, cls: string, row: nat, p: Property, u: Unboxed, migration: bool)
    requires ValidSchema(S) && Invariant(S, st.tables, migration) && UnboxedOk(p, u)
    requires p in Props(S, cls) && row < Size(st.tables, cls) && (p.isPrimary ==> migration) && !p.isArray
    ensures ContinuesBut(S, st.tables, StoreValue(st, cls, row, p, u).st.tables, migration, cls, row, p.isPrimary)
    ensures !p.isPrimary ==> Continues(S, st.tables, StoreValue(st, cls, row, p, u).st.tables, migration)
  {
    if StoreValue(st, cls, row, p, u).Done? {
      WrittenContinues(S, st, cls, row, p, One(ToSlot(u)), SetCell(cls, row, p.name), migration);
    }
  }

  /** An unboxed value has its property's type. */
  ghost predicate UnboxedOk(p: Property, u: Unboxed) {
    if p.base.ObjectType? then u.RowValue? else u.PrimValue? && (u.key.Some? ==> Matches(p.base, u.key.value))
  }

  lemma {:induction false} UnboxContinues(S: Classes, st: Store, cls: string, p: Property, x: Value, m: Mode,
                                          current: Option<nat>)
    requires ValidSchema(S) && Invariant(S, st.tables, m.migration) && p in Props(S, cls)
    requires p.base.ObjectType? && current.Some? ==> current.value < Size(st.tables, p.objectType)
    ensures Continues(S, st.tables, Unbox(S, st, p, x, m, current).st.tables, m.migration)
    ensures var u := Unbox(S, st, p, x, m, current); u.Done? ==> UnboxedOk(p, u.value)
    decreases x, 4, 0
  {
    if p.base.ObjectType? && !x.Managed? {
      CreateContinues(S, st, p.objectType, x, m, current);
    }
  }

  lemma {:induction false} AssignContinues(S: Classes, st: Store, cls: string, row: nat, p: Property, x: Value, m: Mode)
    requires ValidSchema(S) && Invariant(S, st.tables, m.migration)
    requires p in Props(S, cls) && row < Size(st.tables, cls) && p.isArray
    ensures Continues(S, st.tables, Assign(S, st, cls, row, p, x, m).st.tables, m.migration)
    decreases x, 5, 1
  {
    Valid(S, cls, p);
    WrittenContinues(S, st, cls, row, p, Many([]), ListCleared(cls, row, p.name), m.migration);
    if x.Vector? {
      if m.diff {
        var size := |Elements(CellAt(st.tables, cls, row, p.name))|;
        AssignFromContinues(S, st, cls, row, p, x, 0, size, m);
        var a := AssignFrom(S, st, cls, row, p, x, 0, size, m);
        if a.Done? {
          TrimToContinues(S, a.st, cls, row, p, |x.elems|, size, m.migration);
        }
      } else {
        AssignFromContinues(S, Clear(st, cls, row, p.name), cls, row, p, x, 0, 0, m);
      }
    }
  }

  lemma {:induction false} AssignFromContinues(S: Classes, st: Store, cls: string, row: nat, p: Property, x: Value,
                                               i: nat, size: nat, m: Mode)
    requires ValidSchema(S) && Invariant(S, st.tables, m.migration)
    requires p in Props(S, cls) && row < Size(st.tables, cls) && p.isArray
    requires x.Vector? && i <= |x.elems|
    ensures Continues(S, st.tables, AssignFrom(S, st, cls, row, p, x, i, size, m).st.tables, m.migration)
    decreases x, 5, 0, |x.elems| - i
  {
    var Inv := (s: Store) => Continues(S, st.tables, s.tables, m.migration);
    forall s, j: nat | i <= j < |x.elems| && Inv(s)
      ensures Inv(AssignElement(S, s, cls, row, p, x.elems[j], j, size, m).st)
    {
      assert Size(st.tables, cls) <= Size(s.tables, cls);
      AssignElementContinues(S, s, cls, row, p, x.elems[j], j, size, m);
      ContinuesTransitive(S, st.tables, s.tables,
                          AssignElement(S, s, cls, row, p, x.elems[j], j, size, m).st.tables, m.migration);
    }
    AssignFromAlways(S, st, cls, row, p, x, i, size, m, Inv);
  }

  lemma {:induction false} AssignElementContinues(S: Classes, st: Store, cls: string, row: nat, p: Property, e: Value,
                                                  i: nat, size: nat, m: Mode)
    requires ValidSchema(S) && Invariant(S, st.tables, m.migration)
    requires p in Props(S, cls) && row < Size(st.tables, cls) && p.isArray
    ensures Continues(S, st.tables, AssignElement(S, st, cls, row, p, e, i, size, m).st.tables, m.migration)
    decreases e, 5, 1, 0
  {
    if i < size {
      SetIfDifferentContinues(S, st, cls, row, p, e, i, m);
    } else {
      UnboxContinues(S, st, cls, p, e, m.(diff := false), None);
      var u := Unbox(S, st, p, e, m.(diff := false), None);
      if u.Done? {
        ListAddContinues(S, u.st, cls, row, p, u.value, m.migration);
        ContinuesTransitive(S, st.tables, u.st.tables, ListAdd(u.st, cls, row, p, u.value).st.tables, m.migration);
      }
    }
  }

  lemma {:induction false} SetIfDifferentContinues(S: Classes, st: Store, cls: string, row: nat, p: Property, e: Value,
                                                   i: nat, m: Mode)
    requires ValidSchema(S) && Invariant(S, st.tables, m.migration)
    requires p in Props(S, cls) && row < Size(st.tables, cls) && p.isArray
    ensures Continues(S, st.tables, SetIfDifferent(S, st, cls, row, p, e, i, m).st.tables, m.migration)
    decreases e, 5, 0, 0
  {
    var slots := Elements(CellAt(st.tables, cls, row, p.name));
    if i < |slots| {
      CurrentLinkOk(S, st, cls, row, p, slots[i]);
      var current := CurrentLink(One(slots[i]));
      UnboxContinues(S, st, cls, p, e, m.(diff := true), current);
      var u := Unbox(S, st, p, e, m.(diff := true), current);
      if u.Done? {
        PutIfDifferentContinues(S, u.st, cls, row, p, slots[i], u.value, i, m.migration);
        ContinuesTransitive(S, st.tables, u.st.tables,
                            PutIfDifferent(u.st, cls, row, p, slots[i], u.value, i).st.tables, m.migration);
      }
    }
  }

  lemma PutIfDifferentContinues(S: Classes, st: Store, cls: string, row: nat, p: Property, before: Slot, u: Unboxed,
                                i: nat, migration: bool)
    requires ValidSchema(S) && Invariant(S, st.tables, migration)
    requires p in Props(S, cls) && row < Size(st.tables, cls) && p.isArray && UnboxedOk(p, u)
    ensures Continues(S, st.tables, PutIfDifferent(st, cls, row, p, before, u, i).st.tables, migration)
  {
    ListPutContinues(S, st, cls, row, p, u, i, migration);
  }

  lemma SlotsOk(S: Classes, st: Store, cls: string, row: nat, p: Property)
    requires ValidSchema(S) && Typed(S, st.tables)
    requires p in Props(S, cls) && row < Size(st.tables, cls) && p.isArray
    ensures CellOk(st.tables, p, CellAt(st.tables, cls, row, p.name))
    ensures CellAt(st.tables, cls, row, p.name) == Many(Elements(CellAt(st.tables, cls, row, p.name)))
    ensures !p.isPrimary
  {
    Valid(S, cls, p);
    assert RowOk(S, st.tables, cls, RowAt(st.tables, cls, row));
  }

  lemma ListPutContinues(S: Classes, st: Store, cls: string, row: nat, p: Property, u: Unboxed, i: nat, migration: bool)
    requires ValidSchema(S) && Invariant(S, st.tables, migration)
    requires p in Props(S, cls) && row < Size(st.tables, cls) && p.isArray && UnboxedOk(p, u)
    ensures Continues(S, st.tables, ListPut(st, cls, row, p, u, i).st.tables, migration)
  {
    SlotsOk(S, st, cls, row, p);
    var slots := Elements(CellAt(st.tables, cls, row, p.name));
    if ListRefuses(st.tables, p, u).None? && i < |slots| {
      WrittenContinues(S, st, cls, row, p, Many(slots[i := ToSlot(u)]), ListSet(cls, row, p.name, i), migration);
    }
  }

  lemma ListAddContinues(S: Classes, st: Store, cls: string, row: nat, p: Property, u: Unboxed, migration: bool)
    requires ValidSchema(S) && Invariant(S, st.tables, migration)
    requires p in Props(S, cls) && row < Size(st.tables, cls) && p.isArray && UnboxedOk(p, u)
    ensures Continues(S, st.tables, ListAdd(st, cls, row, p, u).st.tables, migration)
  {
    var slots := Elements(CellAt(st.tables, cls, row, p.name));
    SlotsOk(S, st, cls, row, p);
    if ListRefuses(st.tables, p, u).None? {
      AppendedContinues(S, st, cls, row, p, ToSlot(u), migration);
    } else if u.PrimValue? {
      AppendedContinues(S, st, cls, row, p, DefaultSlot(p), migration);
    }
  }

  lemma AppendedContinues(S: Classes, st: Store, cls: string, row: nat, p: Property, slot: Slot, migration: bool)
    requires ValidSchema(S) && Invariant(S, st.tables, migration)
    requires p in Props(S, cls) && row < Size(st.tables, cls) && p.isArray && SlotOk(st.tables, p, slot)
    ensures Continues(S, st.tables, Appended(st, cls, row, p, slot).tables, migration)
  {
    SlotsOk(S, st, cls, row, p);
    var slots := Elements(CellAt(st.tables, cls, row, p.name));
    WrittenContinues(S, st, cls, row, p, Many(slots + [slot]), ListAdded(cls, row, p.name), migration);
  }

  lemma ListRemoveContinues(S: Classes, st: Store, cls: string, row: nat, p: Property, i: nat, migration: bool)
    requires ValidSchema(S) && Invariant(S, st.tables, migration)
    requires p in Props(S, cls) && row < Size(st.tables, cls) && p.isArray
    ensures Continues(S, st.tables, ListRemove(st, cls, row, p.name, i).st.tables, migration)
    ensures row < Size(ListRemove(st, cls, row, p.name, i).st.tables, cls)
  {
    SlotsOk(S, st, cls, row, p);
    var slots := Elements(CellAt(st.tables, cls, row, p.name));
    if i < |slots| {
      RemovedOk(st.tables, p, slots, i);
      WrittenContinues(S, st, cls, row, p, Many(slots[..i] + slots[i + 1..]), ListRemoved(cls, row, p.name, i),
                       migration);
    }
  }

  lemma RemovedOk(t: Group, p: Property, slots: seq<Slot>, i: nat)
    requires p.isArray && CellOk(t, p, Many(slots)) && i < |slots|
    ensures CellOk(t, p, Many(slots[..i] + slots[i + 1..]))
  {
  }

  lemma TrimToContinues(S: Classes, st: Store, cls: string, row: nat, p: Property, index: nat, size: nat,
                        migration: bool)
    requires ValidSchema(S) && Invariant(S, st.tables, migration)
    requires p in Props(S, cls) && row < Size(st.tables, cls) && p.isArray
    ensures Continues(S, st.tables, TrimTo(st, cls, row, p.name, index, size).st.tables, migration)
  {
    var Inv := (s: Store) => Continues(S, st.tables, s.tables, migration);
    forall s, n: nat | Inv(s)
      ensures Inv(ListRemove(s, cls, row, p.name, n).st)
    {
      assert Size(st.tables, cls) <= Size(s.tables, cls);
      ListRemoveContinues(S, s, cls, row, p, n, migration);
      ContinuesTransitive(S, st.tables, s.tables, ListRemove(s, cls, row, p.name, n).st.tables, migration);
    }
    TrimToKeeps(st, cls, row, p.name, index, size, Inv);
  }

  ghost predicate InTable(t: Group, cls: string, rows: seq<nat>) {
    forall i :: 0 <= i < |rows| ==> rows[i] < Size(t, cls)
  }

  lemma {:induction false} SetOnRowsContinues(S: Classes, st: Store, cls: string, rows: seq<nat>, p: Property, x: Value,
                                              migration: bool)
    requires ValidSchema(S) && Invariant(S, st.tables, migration)
    requires p in Props(S, cls) && (p.isPrimary ==> migration)
    requires InTable(st.tables, cls, rows)
    ensures Invariant(S, SetOnRows(S, st, cls, rows, p, x, migration).st.tables, migration)
    ensures Grows(st.tables, SetOnRows(S, st, cls, rows, p, x, migration).st.tables)
    ensures !p.isPrimary ==> KeysKept(S, st.tables, SetOnRows(S, st, cls, rows, p, x, migration).st.tables)
    decreases |rows|
  {
    if rows != [] {
      var m := Mode(true, false, migration);
      SetPropertyContinues(S, st, cls, rows[0], p, x, m);
      var one := SetProperty(S, st, cls, rows[0], p, x, m);
      if one.Done? {
        assert Size(st.tables, cls) <= Size(one.st.tables, cls) && InTable(one.st.tables, cls, rows[1..]);
        SetOnRowsContinues(S, one.st, cls, rows[1..], p, x, migration);
      }
    }
  }

  /** A call a client can make inside one write transaction. */
  datatype Call =
    | CreateCall(cls: string, value: Value, update: bool, diff: bool)
    | SetCall(cls: string, row: nat, name: string, value: Value, update: bool)
    | BatchCall(cls: string, rows: seq<nat>, name: string, value: Value)

  /** The store a call leaves, thrown or not; a call on rows that do not exist is not made. */
  ghost function After(S: Classes, st: Store, c: Call): Store {
    match c
    case CreateCall(cls, v, update, diff) => Create(S, st, cls, v, Mode(update, diff, false), None).st
    case SetCall(cls, row, name, v, update) =>
      if row < Size(st.tables, cls) then SetPropertyValue(S, st, cls, row, name, v, update, false).st else st
    case BatchCall(cls, rows, name, v) =>
      if InTable(st.tables, cls, rows) then SetOnSnapshot(S, st, cls, rows, name, v, false).st else st
  }

  ghost function Run(S: Classes, st: Store, calls: seq<Call>): Store
    decreases |calls|
  {
    if calls == [] then st else Run(S, After(S, st, calls[0]), calls[1..])
  }

  lemma SetPropertyValueContinues(S: Classes, st: Store, cls: string, row: nat, name: string, v: Value, update: bool)
    requires ValidSchema(S) && Invariant(S, st.tables, false) && row < Size(st.tables, cls)
    ensures Continues(S, st.tables, SetPropertyValue(S, st, cls, row, name, v, update, false).st.tables, false)
  {
    var p := PropertyForName(Props(S, cls), name);
    if p.Some? && !p.value.isPrimary {
      SetPropertyContinues(S, st, cls, row, p.value, v, Mode(update, false, false));
    }
  }

  lemma SetOnSnapshotContinues(S: Classes, st: Store, cls: string, rows: seq<nat>, name: string, v: Value)
    requires ValidSchema(S) && Invariant(S, st.tables, false)
    requires InTable(st.tables, cls, rows)
    ensures Continues(S, st.tables, SetOnSnapshot(S, st, cls, rows, name, v, false).st.tables, false)
  {
    var p := PropertyForName(Props(S, cls), name);
    if p.Some? && !p.value.isPrimary {
      SetOnRowsContinues(S, st, cls, rows, p.value, v, false);
    }
  }

  lemma AfterContinues(S: Classes, st: Store, c: Call)
    requires ValidSchema(S) && Invariant(S, st.tables, false)
    ensures Continues(S, st.tables, After(S, st, c).tables, false)
  {
    match c {
      case CreateCall(cls, v, update, diff) =>
        CreateContinues(S, st, cls, v, Mode(update, diff, false), None);
      case SetCall(cls, row, name, v, update) =>
        if row < Size(st.tables, cls) {
          SetPropertyValueContinues(S, st, cls, row, name, v, update);
        }
      case BatchCall(cls, rows, name, v) =>
        if InTable(st.tables, cls, rows) {
          SetOnSnapshotContinues(S, st, cls, rows, name, v);
        }
    }
  }

  /** Over any run outside migration: cells stay typed, links target existing rows, keys stay unique,
      and every row that ever existed is still at its index with its key. */
  lemma {:induction false} RunContinues(S: Classes, st: Store, calls: seq<Call>)
    requires ValidSchema(S) && Invariant(S, st.tables, false)
    ensures Continues(S, st.tables, Run(S, st, calls).tables, false)
    decreases |calls|
  {
    if calls != [] {
      var next := After(S, st, calls[0]);
      AfterContinues(S, st, calls[0]);
      RunContinues(S, next, calls[1..]);
      ContinuesTransitive(S, st.tables, next.tables, Run(S, next, calls[1..]).tables, false);
    }
  }
}
