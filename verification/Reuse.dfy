/** When diffing adds the same objects as overwriting: every unkeyed object of the value goes where no object is
    linked yet.  The condition speaks of the store before the create; it stays true while other parts of the value
    are created. */
module Reuse {
  import opened Wrappers
  import opened Schema
  import opened Tables
  import opened ObjectAccessor
  import opened Frame
  import opened Invariants
  import opened FreshRows

  /** No property of a (class, key) is supplied twice anywhere in the value. */
  ghost predicate Distinct(S: Classes, cls: string, v: Value)
    decreases v, 2
  {
    v.Dict? ==>
      && OwnTouches(S, cls, v) !! TouchesFrom(S, cls, v, 0)
      && (forall i, j :: 0 <= i < j < |Props(S, cls)| ==>
            TouchesAt(S, v, Props(S, cls)[i]) !! TouchesAt(S, v, Props(S, cls)[j]))
      && (forall p :: p in Props(S, cls) && p.name in v.fields ==> DistinctProperty(S, p, v.fields[p.name]))
  }

  ghost predicate DistinctProperty(S: Classes, p: Property, x: Value)
    decreases x, 4
  {
    if p.isArray then
      x.Vector? ==>
        && (forall i, j :: 0 <= i < j < |x.elems| ==>
              TouchesElement(S, p, x.elems[i]) !! TouchesElement(S, p, x.elems[j]))
        && (forall i :: 0 <= i < |x.elems| ==> DistinctElement(S, p, x.elems[i]))
    else DistinctElement(S, p, x)
  }

  ghost predicate DistinctElement(S: Classes, p: Property, e: Value)
    decreases e, 3
  {
    p.base.ObjectType? && !e.Managed? ==> Distinct(S, p.objectType, e)
  }

  /** The cell of the object the value's key finds; absent if it finds none or there is no key. */
  ghost function KeyedCell(S: Classes, t: Group, cls: string, v: Value, column: string): Cell {
    match PrimaryKey(S, cls)
    case None => Absent
    case Some(pk) =>
      match KeyOf(pk, v)
      case KeyError(_) => Absent
      case KeyOk(key) =>
        match FindFirst(t, cls, pk.name, key)
        case None => Absent
        case Some(row) => CellAt(t, cls, row, column)
  }

  /** No unkeyed object of the value meets an object already linked where it goes. */
  ghost predicate AddsOnly(S: Classes, t: Group, cls: string, v: Value)
    decreases v, 2
  {
    v.Dict? ==> forall p :: p in Props(S, cls) && p.name in v.fields ==>
                  AddsOnlyProperty(S, t, p, v.fields[p.name], KeyedCell(S, t, cls, v, p.name))
  }

  ghost predicate AddsOnlyProperty(S: Classes, t: Group, p: Property, x: Value, c: Cell)
    decreases x, 4
  {
    if p.nullable && x.Null? then true
    else if p.isArray then x.Vector? ==> AddsOnlyElements(S, t, p, x, 0, |Elements(c)|)
    else AddsOnlyElement(S, t, p, x, CurrentLink(c).Some?)
  }

  /** The elements from the `i`-th on, of which the first `size` positions are in use. */
  ghost predicate AddsOnlyElements(S: Classes, t: Group, p: Property, x: Value, i: nat, size: nat)
    requires x.Vector? && i <= |x.elems|
    decreases x, 4, 0
  {
    forall j :: i <= j < |x.elems| ==> AddsOnlyElement(S, t, p, x.elems[j], j < size)
  }

  ghost predicate AddsOnlyElement(S: Classes, t: Group, p: Property, e: Value, used: bool)
    decreases e, 3
  {
    p.base.ObjectType? && !e.Managed? ==>
      (PrimaryKey(S, p.objectType).None? ==> !used) && AddsOnly(S, t, p.objectType, e)
  }

  /** The value creates keyed objects only below itself, or supplies nothing twice. */
  ghost predicate Separate(S: Classes, cls: string, v: Value) {
    KeyedValue(S, cls, v) || Distinct(S, cls, v)
  }

  ghost predicate SeparateProperty(S: Classes, p: Property, x: Value) {
    KeyedProperty(S, p, x) || DistinctProperty(S, p, x)
  }

  ghost predicate SeparateElement(S: Classes, p: Property, e: Value) {
    KeyedElement(S, p, e) || DistinctElement(S, p, e)
  }

  /** A value that creates keyed objects only below itself meets the condition in every store. */
  lemma {:induction false} KeyedAddsOnly(S: Classes, t: Group, cls: string, v: Value)
    requires KeyedValue(S, cls, v)
    ensures AddsOnly(S, t, cls, v)
    decreases v, 2
  {
    if v.Dict? {
      forall p | p in Props(S, cls) && p.name in v.fields
        ensures AddsOnlyProperty(S, t, p, v.fields[p.name], KeyedCell(S, t, cls, v, p.name))
      {
        KeyedAddsOnlyProperty(S, t, p, v.fields[p.name], KeyedCell(S, t, cls, v, p.name));
      }
    }
  }

  lemma {:induction false} KeyedAddsOnlyProperty(S: Classes, t: Group, p: Property, x: Value, c: Cell)
    requires KeyedProperty(S, p, x)
    ensures AddsOnlyProperty(S, t, p, x, c)
    decreases x, 4
  {
    if !(p.nullable && x.Null?) {
      if !p.isArray {
        KeyedAddsOnlyElement(S, t, p, x, CurrentLink(c).Some?);
      } else if x.Vector? {
        forall j | 0 <= j < |x.elems|
          ensures AddsOnlyElement(S, t, p, x.elems[j], j < |Elements(c)|)
        {
          KeyedAddsOnlyElement(S, t, p, x.elems[j], j < |Elements(c)|);
        }
      }
    }
  }

  lemma {:induction false} KeyedAddsOnlyElement(S: Classes, t: Group, p: Property, e: Value, used: bool)
    requires KeyedElement(S, p, e)
    ensures AddsOnlyElement(S, t, p, e, used)
    decreases e, 3
  {
    if p.base.ObjectType? && !e.Managed? {
      KeyedAddsOnly(S, t, p.objectType, e);
    }
  }

  /** The named cells are as they were, or unused in a row added since. */
  ghost predicate Steady(S: Classes, t: Group, t': Group, touched: set<Touch>) {
    forall c, q: nat, n :: q < Size(t', c) && Reached(S, t', c, q, n, touched) ==>
      if q < Size(t, c) then CellAt(t', c, q, n) == CellAt(t, c, q, n) else Unused(CellAt(t', c, q, n))
  }

  /** No more of the cell is in use. */
  predicate NoMoreUsed(c: Cell, c': Cell) {
    (CurrentLink(c').Some? ==> CurrentLink(c).Some?) && |Elements(c')| <= |Elements(c)|
  }

  lemma SteadyLess(S: Classes, t: Group, t': Group, touched: set<Touch>, less: set<Touch>)
    requires Steady(S, t, t', touched) && less <= touched
    ensures Steady(S, t, t', less)
  {
    forall c, q: nat, n | q < Size(t', c) && Reached(S, t', c, q, n, less)
      ensures if q < Size(t, c) then CellAt(t', c, q, n) == CellAt(t, c, q, n) else Unused(CellAt(t', c, q, n))
    {
      assert Reached(S, t', c, q, n, touched);
    }
  }

  /** The condition stays true while the cells the value names stay. */
  lemma {:induction false} AddsOnlyStable(S: Classes, t: Group, t': Group, cls: string, v: Value)
    requires Grows(t, t') && KeysKept(S, t, t') && Steady(S, t, t', Touches(S, cls, v))
    requires ValidSchema(S) && AddsOnly(S, t, cls, v)
    ensures AddsOnly(S, t', cls, v)
    decreases v, 2
  {
    if v.Dict? {
      forall p | p in Props(S, cls) && p.name in v.fields
        ensures AddsOnlyProperty(S, t', p, v.fields[p.name], KeyedCell(S, t', cls, v, p.name))
      {
        var j :| 0 <= j < |Props(S, cls)| && Props(S, cls)[j] == p;
        Valid(S, cls, p);
        if !p.isPrimary {
          TouchesAtIn(S, cls, v, 0, j);
          SteadyLess(S, t, t', Touches(S, cls, v), TouchesProperty(S, p, v.fields[p.name]));
          KeyedCellStable(S, t, t', cls, v, p);
          AddsOnlyPropertyStable(S, t, t', p, v.fields[p.name], KeyedCell(S, t, cls, v, p.name),
                                 KeyedCell(S, t', cls, v, p.name));
        }
      }
    }
  }

  lemma KeyedCellStable(S: Classes, t: Group, t': Group, cls: string, v: Value, p: Property)
    requires Grows(t, t') && KeysKept(S, t, t') && Steady(S, t, t', Touches(S, cls, v))
    requires v.Dict? && p in Props(S, cls) && !p.isPrimary && p.name in v.fields
    ensures NoMoreUsed(KeyedCell(S, t, cls, v, p.name), KeyedCell(S, t', cls, v, p.name))
  {
    if PrimaryKey(S, cls).Some? && KeyOf(PrimaryKey(S, cls).value, v).KeyOk? {
      var pk := PrimaryKey(S, cls).value;
      var key := KeyOf(pk, v).key;
      assert p.name in OwnColumns(S, cls, v);
      assert (cls, key, p.name) in OwnTouches(S, cls, v);
      var before, after := FindFirst(t, cls, pk.name, key), FindFirst(t', cls, pk.name, key);
      if before.Some? {
        LookupLater(S, t, t', cls, pk, key);
      } else {
        NotFoundBefore(S, t, t', cls, pk, key);
      }
      if after.Some? {
        assert Reached(S, t', cls, after.value, p.name, Touches(S, cls, v));
      }
    }
  }

  /** A key that was not found is not found later in a row there before. */
  lemma NotFoundBefore(S: Classes, t: Group, t': Group, cls: string, pk: Property, key: Key)
    requires Grows(t, t') && KeysKept(S, t, t') && PrimaryKey(S, cls) == Some(pk)
    requires FindFirst(t, cls, pk.name, key).None?
    ensures FindFirst(t', cls, pk.name, key).Some? ==> FindFirst(t', cls, pk.name, key).value >= Size(t, cls)
  {
    assert Size(t, cls) <= Size(t', cls);
    forall i: nat | i < Size(t, cls)
      ensures CellIn(Rows(t', cls)[i], pk.name) != One(Scalar(key))
    {
      assert CellAt(t', cls, i, pk.name) == CellAt(t, cls, i, pk.name);
      assert CellIn(Rows(t, cls)[i], pk.name) != One(Scalar(key));
    }
  }

  lemma {:induction false} AddsOnlyPropertyStable(S: Classes, t: Group, t': Group, p: Property, x: Value, c: Cell,
                                                  c': Cell)
    requires Grows(t, t') && KeysKept(S, t, t') && Steady(S, t, t', TouchesProperty(S, p, x))
    requires ValidSchema(S) && NoMoreUsed(c, c') && AddsOnlyProperty(S, t, p, x, c)
    ensures AddsOnlyProperty(S, t', p, x, c')
    decreases x, 4
  {
    if !(p.nullable && x.Null?) {
      if !p.isArray {
        AddsOnlyElementStable(S, t, t', p, x, CurrentLink(c).Some?, CurrentLink(c').Some?);
      } else if x.Vector? {
        forall j | 0 <= j < |x.elems|
          ensures AddsOnlyElement(S, t', p, x.elems[j], j < |Elements(c')|)
        {
          TouchesElementIn(S, p, x, 0, j);
          SteadyLess(S, t, t', TouchesElements(S, p, x, 0), TouchesElement(S, p, x.elems[j]));
          AddsOnlyElementStable(S, t, t', p, x.elems[j], j < |Elements(c)|, j < |Elements(c')|);
        }
      }
    }
  }

  lemma {:induction false} AddsOnlyElementStable(S: Classes, t: Group, t': Group, p: Property, e: Value, used: bool,
                                                 used': bool)
    requires Grows(t, t') && KeysKept(S, t, t') && Steady(S, t, t', TouchesElement(S, p, e))
    requires ValidSchema(S) && (used' ==> used) && AddsOnlyElement(S, t, p, e, used)
    ensures AddsOnlyElement(S, t', p, e, used')
    decreases e, 3
  {
    if p.base.ObjectType? && !e.Managed? {
      AddsOnlyStable(S, t, t', p.objectType, e);
    }
  }

  /** Only cells `touched` names, and the given one, are changed in the keyed rows of `t`. */
  ghost predicate KeyedOnly(S: Classes, t: Group, t': Group, touched: set<Touch>, cls: string, row: nat,
                            column: string) {
    forall c, q: nat, n ::
      PrimaryKey(S, c).Some? && q < Size(t, c) && (c, q, n) != (cls, row, column) &&
        !Reached(S, t, c, q, n, touched) ==>
        CellAt(t', c, q, n) == CellAt(t, c, q, n)
  }

  /** What reaches only `a`, and one cell outside, keeps the cells `b` names. */
  lemma SteadyFrom(S: Classes, t: Group, t': Group, a: set<Touch>, b: set<Touch>, cls: string, row: nat, column: string)
    requires Grows(t, t') && KeysKept(S, t, t') && KeyedOnly(S, t, t', a, cls, row, column) && NewUnused(S, t, t', a)
    requires a !! b && !Reached(S, t, cls, row, column, b)
    ensures Steady(S, t, t', b)
  {
    forall c, q: nat, n | q < Size(t', c) && Reached(S, t', c, q, n, b)
      ensures if q < Size(t, c) then CellAt(t', c, q, n) == CellAt(t, c, q, n) else Unused(CellAt(t', c, q, n))
    {
      assert !Reached(S, t', c, q, n, a);
      if q < Size(t, c) {
        ReachedLater(S, t, t', c, q, n, a);
        ReachedLater(S, t, t', c, q, n, b);
      }
    }
  }

  lemma PopulateOneSteady(S: Classes, st: Store, cls: string, target: Target, v: Value, m: Mode, p: Property,
                          b: set<Touch>)
    requires ValidSchema(S) && Invariant(S, st.tables, m.migration) && ReusesKeys(m) && v.Dict?
    requires p in Props(S, cls) && target.skipPrimary && target.row < Size(st.tables, cls)
    requires TouchesAt(S, v, p) !! b && !Reached(S, st.tables, cls, target.row, p.name, b)
    ensures Steady(S, st.tables, PopulateOne(S, st, cls, target, v, m, p).st.tables, b)
  {
    var t' := PopulateOne(S, st, cls, target, v, m, p).st.tables;
    Valid(S, cls, p);
    PopulateOneUnused(S, st, cls, target, v, m, p);
    PopulateOneContinues(S, st, cls, target, v, m, p);
    forall c, q: nat, n | PrimaryKey(S, c).Some? && q < Size(st.tables, c) && (c, q, n) != (cls, target.row, p.name) &&
                          !Reached(S, st.tables, c, q, n, TouchesAt(S, v, p))
      ensures CellAt(t', c, q, n) == CellAt(st.tables, c, q, n)
    {
      PopulateOneCommutes(S, st, cls, target, v, m, p, Spot(c, q, n, CellAt(st.tables, c, q, n)));
    }
    SteadyFrom(S, st.tables, t', TouchesAt(S, v, p), b, cls, target.row, p.name);
  }

  lemma AssignElementSteady(S: Classes, st: Store, cls: string, row: nat, p: Property, e: Value, i: nat, size: nat,
                            m: Mode, b: set<Touch>)
    requires ValidSchema(S) && Invariant(S, st.tables, m.migration) && ReusesKeys(m)
    requires p in Props(S, cls) && p.isArray && row < Size(st.tables, cls)
    requires TouchesElement(S, p, e) !! b && !Reached(S, st.tables, cls, row, p.name, b)
    ensures Steady(S, st.tables, AssignElement(S, st, cls, row, p, e, i, size, m).st.tables, b)
  {
    var t' := AssignElement(S, st, cls, row, p, e, i, size, m).st.tables;
    Valid(S, cls, p);
    AssignElementUnused(S, st, cls, row, p, e, i, size, m);
    AssignElementContinues(S, st, cls, row, p, e, i, size, m);
    forall c, q: nat, n | PrimaryKey(S, c).Some? && q < Size(st.tables, c) && (c, q, n) != (cls, row, p.name) &&
                          !Reached(S, st.tables, c, q, n, TouchesElement(S, p, e))
      ensures CellAt(t', c, q, n) == CellAt(st.tables, c, q, n)
    {
      AssignElementCommutes(S, st, cls, row, p, e, i, size, m, Spot(c, q, n, CellAt(st.tables, c, q, n)));
    }
    SteadyFrom(S, st.tables, t', TouchesElement(S, p, e), b, cls, row, p.name);
  }

  /** Locating changes no row that was there, and what it adds is unused. */
  lemma LocateSteady(S: Classes, st: Store, cls: string, v: Value, m: Mode, current: Option<nat>, b: set<Touch>)
    requires ValidSchema(S) && Invariant(S, st.tables, m.migration)
    requires current.Some? ==> current.value < Size(st.tables, cls)
    ensures Steady(S, st.tables, Locate(S, st, cls, v, m, current).st.tables, b)
  {
    var t' := Locate(S, st, cls, v, m, current).st.tables;
    LocateUnused(S, st, cls, v, m, current);
    LocateContinues(S, st, cls, v, m, current);
    forall c, q: nat, n | PrimaryKey(S, c).Some? && q < Size(st.tables, c)
      ensures CellAt(t', c, q, n) == CellAt(st.tables, c, q, n)
    {
      LocateCommutes(S, st, cls, v, m, current, Spot(c, q, n, CellAt(st.tables, c, q, n)));
    }
    forall c, q: nat, n | q < Size(t', c) && Reached(S, t', c, q, n, b)
      ensures if q < Size(st.tables, c) then CellAt(t', c, q, n) == CellAt(st.tables, c, q, n)
              else Unused(CellAt(t', c, q, n))
    {
      assert !Reached(S, t', c, q, n, {});
    }
  }

  /** The row holds the value's key, if the class has one. */
  ghost predicate HoldsKey(S: Classes, t: Group, cls: string, row: nat, v: Value) {
    match PrimaryKey(S, cls)
    case None => true
    case Some(pk) => KeyOf(pk, v).KeyOk? && CellAt(t, cls, row, pk.name) == One(Scalar(KeyOf(pk, v).key))
  }

  /** The condition for the properties from the `i`-th on, the row having been located. */
  ghost predicate AddsOnlyFrom(S: Classes, t: Group, cls: string, row: nat, v: Value, i: nat)
    requires v.Dict? && i <= |Props(S, cls)|
  {
    forall j :: i <= j < |Props(S, cls)| && Props(S, cls)[j].name in v.fields ==>
      var p := Props(S, cls)[j]; AddsOnlyProperty(S, t, p, v.fields[p.name], CellAt(t, cls, row, p.name))
  }

  /** Locating for overwriting keeps the condition. */
  lemma LocatedAddsOnly(S: Classes, st: Store, cls: string, v: Value, m: Mode, current: Option<nat>)
    requires ValidSchema(S) && Invariant(S, st.tables, m.migration) && ReusesKeys(m) && !m.diff
    requires current.Some? ==> current.value < Size(st.tables, cls)
    requires v.Dict? && AddsOnly(S, st.tables, cls, v) && Locate(S, st, cls, v, m, current).Done?
    ensures var l := Locate(S, st, cls, v, m, current);
            AddsOnlyFrom(S, l.st.tables, cls, l.value.row, v, 0) && HoldsKey(S, l.st.tables, cls, l.value.row, v)
  {
    var l := Locate(S, st, cls, v, m, current);
    var t, t' := st.tables, l.st.tables;
    LocateContinues(S, st, cls, v, m, current);
    LocatedCells(S, st, cls, v, m, current);
    forall j | 0 <= j < |Props(S, cls)| && Props(S, cls)[j].name in v.fields
      ensures var p := Props(S, cls)[j];
              AddsOnlyProperty(S, t', p, v.fields[p.name], CellAt(t', cls, l.value.row, p.name))
    {
      var p := Props(S, cls)[j];
      LocateSteady(S, st, cls, v, m, current, TouchesProperty(S, p, v.fields[p.name]));
      AddsOnlyPropertyStable(S, t, t', p, v.fields[p.name], KeyedCell(S, t, cls, v, p.name),
                             CellAt(t', cls, l.value.row, p.name));
    }
  }

  /** The located row is the one its key found before, or a new one with nothing in use. */
  lemma LocatedCells(S: Classes, st: Store, cls: string, v: Value, m: Mode, current: Option<nat>)
    requires ReusesKeys(m) && !m.diff && Locate(S, st, cls, v, m, current).Done?
    ensures var l := Locate(S, st, cls, v, m, current);
            HoldsKey(S, l.st.tables, cls, l.value.row, v) &&
            forall n :: NoMoreUsed(KeyedCell(S, st.tables, cls, v, n), CellAt(l.st.tables, cls, l.value.row, n))
  {
    var l := Locate(S, st, cls, v, m, current);
    var e := EmptyRow(Props(S, cls));
    if PrimaryKey(S, cls).Some? {
      var pk := PrimaryKey(S, cls).value;
      AddKeyedRowIs(S, st, cls, pk.name, KeyOf(pk, v).key);
    }
    forall n
      ensures NoMoreUsed(KeyedCell(S, st.tables, cls, v, n), CellAt(l.st.tables, cls, l.value.row, n))
    {
      EmptyRowUnused(Props(S, cls), n);
    }
  }

  /** Populating one property keeps the condition for the later ones. */
  lemma RestAddsOnly(S: Classes, st: Store, cls: string, target: Target, v: Value, m: Mode, i: nat)
    requires ValidSchema(S) && Invariant(S, st.tables, m.migration) && ReusesKeys(m) && !m.diff && v.Dict?
    requires i < |Props(S, cls)| && target.skipPrimary && target.row < Size(st.tables, cls)
    requires HoldsKey(S, st.tables, cls, target.row, v) && AddsOnlyFrom(S, st.tables, cls, target.row, v, i)
    requires Separate(S, cls, v)
    ensures var one := PopulateOne(S, st, cls, target, v, m, Props(S, cls)[i]);
            HoldsKey(S, one.st.tables, cls, target.row, v) && AddsOnlyFrom(S, one.st.tables, cls, target.row, v, i + 1)
  {
    var t, t' := st.tables, PopulateOne(S, st, cls, target, v, m, Props(S, cls)[i]).st.tables;
    PopulateOneContinues(S, st, cls, target, v, m, Props(S, cls)[i]);
    if PrimaryKey(S, cls).Some? {
      var key := PrimaryKey(S, cls).value.name;
      assert CellAt(t', cls, target.row, key) == CellAt(t, cls, target.row, key);
    }
    forall j | i < j < |Props(S, cls)| && Props(S, cls)[j].name in v.fields
      ensures var p := Props(S, cls)[j];
              AddsOnlyProperty(S, t', p, v.fields[p.name], CellAt(t', cls, target.row, p.name))
    {
      LaterAddsOnly(S, st, cls, target, v, m, i, j);
    }
  }

  lemma LaterAddsOnly(S: Classes, st: Store, cls: string, target: Target, v: Value, m: Mode, i: nat, j: nat)
    requires ValidSchema(S) && Invariant(S, st.tables, m.migration) && ReusesKeys(m) && !m.diff && v.Dict?
    requires i < j < |Props(S, cls)| && target.skipPrimary && target.row < Size(st.tables, cls)
    requires HoldsKey(S, st.tables, cls, target.row, v) && Props(S, cls)[j].name in v.fields
    requires var p := Props(S, cls)[j];
             AddsOnlyProperty(S, st.tables, p, v.fields[p.name], CellAt(st.tables, cls, target.row, p.name))
    requires Separate(S, cls, v)
    ensures var t', p := PopulateOne(S, st, cls, target, v, m, Props(S, cls)[i]).st.tables, Props(S, cls)[j];
            AddsOnlyProperty(S, t', p, v.fields[p.name], CellAt(t', cls, target.row, p.name))
  {
    var q, p, row := Props(S, cls)[i], Props(S, cls)[j], target.row;
    var t, t', x := st.tables, PopulateOne(S, st, cls, target, v, m, q).st.tables, v.fields[p.name];
    Valid(S, cls, p);
    if KeyedValue(S, cls, v) {
      KeyedAddsOnlyProperty(S, t', p, x, CellAt(t', cls, row, p.name));
    } else if !p.isPrimary && !q.isPrimary && q.name in v.fields {
      PopulateOneContinues(S, st, cls, target, v, m, q);
      OwnCellUnreached(S, st.tables, cls, target.row, v, i, j);
      PopulateOneSteady(S, st, cls, target, v, m, q, TouchesProperty(S, p, x));
      OtherCellKept(S, st, cls, target, v, m, i, j);
      AddsOnlyPropertyStable(S, t, t', p, x, CellAt(t, cls, row, p.name), CellAt(t', cls, row, p.name));
    }
  }

  /** In a value without repetitions no property reaches another's cell in the value's own row. */
  lemma OwnCellUnreached(S: Classes, t: Group, cls: string, row: nat, v: Value, i: nat, j: nat)
    requires ValidSchema(S) && v.Dict? && Distinct(S, cls, v) && HoldsKey(S, t, cls, row, v)
    requires i < |Props(S, cls)| && j < |Props(S, cls)| && i != j
    requires Props(S, cls)[i].name in v.fields && !Props(S, cls)[i].isPrimary
    ensures !Reached(S, t, cls, row, Props(S, cls)[i].name, TouchesAt(S, v, Props(S, cls)[j]))
  {
    var p := Props(S, cls)[i];
    TouchesAtIn(S, cls, v, 0, j);
    if PrimaryKey(S, cls).Some? {
      assert p.name in OwnColumns(S, cls, v);
      assert (cls, KeyOf(PrimaryKey(S, cls).value, v).key, p.name) in OwnTouches(S, cls, v);
    }
  }

  lemma OtherCellKept(S: Classes, st: Store, cls: string, target: Target, v: Value, m: Mode, i: nat, j: nat)
    requires ValidSchema(S) && v.Dict? && Distinct(S, cls, v) && HoldsKey(S, st.tables, cls, target.row, v)
    requires target.skipPrimary && target.row < Size(st.tables, cls) && !m.diff
    requires i < |Props(S, cls)| && j < |Props(S, cls)| && i != j
    requires Props(S, cls)[j].name in v.fields && !Props(S, cls)[j].isPrimary
    ensures CellAt(PopulateOne(S, st, cls, target, v, m, Props(S, cls)[i]).st.tables, cls, target.row,
                   Props(S, cls)[j].name)
            == CellAt(st.tables, cls, target.row, Props(S, cls)[j].name)
  {
    var q, p := Props(S, cls)[i], Props(S, cls)[j];
    Valid(S, cls, p);
    Valid(S, cls, q);
    assert ValidObjectSchema(S, S[cls]);
    OwnCellUnreached(S, st.tables, cls, target.row, v, j, i);
    PopulateOneCommutes(S, st, cls, target, v, m, q,
                        Spot(cls, target.row, p.name, CellAt(st.tables, cls, target.row, p.name)));
  }

  /** Assigning one element keeps the condition for the later ones, `size` positions being in use. */
  lemma RestElementsAddOnly(S: Classes, st: Store, cls: string, row: nat, p: Property, x: Value, i: nat, size: nat,
                            m: Mode)
    requires ValidSchema(S) && Invariant(S, st.tables, m.migration) && ReusesKeys(m)
    requires p in Props(S, cls) && p.isArray && row < Size(st.tables, cls)
    requires x.Vector? && i < |x.elems| && AddsOnlyElements(S, st.tables, p, x, i, size)
    requires SeparateProperty(S, p, x)
    requires !Reached(S, st.tables, cls, row, p.name, TouchesElements(S, p, x, i))
    ensures AddsOnlyElements(S, AssignElement(S, st, cls, row, p, x.elems[i], i, size, m).st.tables, p, x, i + 1, size)
  {
    var t' := AssignElement(S, st, cls, row, p, x.elems[i], i, size, m).st.tables;
    AssignElementContinues(S, st, cls, row, p, x.elems[i], i, size, m);
    forall j | i < j < |x.elems|
      ensures AddsOnlyElement(S, t', p, x.elems[j], j < size)
    {
      if KeyedProperty(S, p, x) {
        KeyedAddsOnlyElement(S, t', p, x.elems[j], j < size);
      } else {
        TouchesElementIn(S, p, x, i, j);
        AssignElementSteady(S, st, cls, row, p, x.elems[i], i, size, m, TouchesElement(S, p, x.elems[j]));
        AddsOnlyElementStable(S, st.tables, t', p, x.elems[j], j < size, j < size);
      }
    }
  }

  /** Clearing the list keeps it too. */
  lemma ClearedAddsOnly(S: Classes, st: Store, cls: string, row: nat, p: Property, x: Value, migration: bool)
    requires ValidSchema(S) && Invariant(S, st.tables, migration)
    requires p in Props(S, cls) && p.isArray && row < Size(st.tables, cls)
    requires x.Vector? && AddsOnlyElements(S, st.tables, p, x, 0, |Elements(CellAt(st.tables, cls, row, p.name))|)
    requires !Reached(S, st.tables, cls, row, p.name, TouchesElements(S, p, x, 0))
    ensures AddsOnlyElements(S, Clear(st, cls, row, p.name).tables, p, x, 0, 0)
  {
    var t, t' := st.tables, Clear(st, cls, row, p.name).tables;
    Valid(S, cls, p);
    WrittenContinues(S, st, cls, row, p, Many([]), ListCleared(cls, row, p.name), migration);
    forall j | 0 <= j < |x.elems|
      ensures AddsOnlyElement(S, t', p, x.elems[j], j < 0)
    {
      TouchesElementIn(S, p, x, 0, j);
      forall c, q: nat, n | q < Size(t', c) && Reached(S, t', c, q, n, TouchesElement(S, p, x.elems[j]))
        ensures CellAt(t', c, q, n) == CellAt(t, c, q, n)
      {
        ReachedLater(S, t, t', c, q, n, TouchesElement(S, p, x.elems[j]));
        PutReads(t, cls, row, p.name, Many([]), c, q, n);
      }
      AddsOnlyElementStable(S, t, t', p, x.elems[j], j < |Elements(CellAt(t, cls, row, p.name))|, j < 0);
    }
  }
}
