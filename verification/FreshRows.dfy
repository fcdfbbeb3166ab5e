/** What a create leaves in the keyed rows it adds: links null and lists empty wherever its value does not reach. */
module FreshRows {
  import opened Wrappers
  import opened Schema
  import opened Tables
  import opened ObjectAccessor
  import opened Frame
  import opened Invariants

  /** No link and no list element. */
  predicate Unused(c: Cell) {
    CurrentLink(c).None? && Elements(c) == []
  }

  /** In the keyed rows of `t'` past those of `t`, the cells not named are unused. */
  ghost predicate NewUnused(S: Classes, t: Group, t': Group, touched: set<Touch>) {
    forall c, q: nat, n ::
      PrimaryKey(S, c).Some? && Size(t, c) <= q < Size(t', c) && !Reached(S, t', c, q, n, touched) ==>
        Unused(CellAt(t', c, q, n))
  }

  /** The keyed rows added between `a` and `b` keep, up to `c`, their cells that are not named. */
  ghost predicate NewKept(S: Classes, a: Group, b: Group, c: Group, touched: set<Touch>) {
    forall k, q: nat, n ::
      PrimaryKey(S, k).Some? && Size(a, k) <= q < Size(b, k) && !Reached(S, b, k, q, n, touched) ==>
        CellAt(c, k, q, n) == CellAt(b, k, q, n)
  }

  lemma NewUnusedTransitive(S: Classes, a: Group, b: Group, c: Group, first: set<Touch>, second: set<Touch>,
                            touched: set<Touch>)
    requires NewUnused(S, a, b, first) && NewUnused(S, b, c, second) && NewKept(S, a, b, c, second)
    requires Grows(b, c) && KeysKept(S, b, c) && first <= touched && second <= touched
    ensures NewUnused(S, a, c, touched)
  {
    forall k, q: nat, n |
      PrimaryKey(S, k).Some? && Size(a, k) <= q < Size(c, k) && !Reached(S, c, k, q, n, touched)
      ensures Unused(CellAt(c, k, q, n))
    {
      if q < Size(b, k) {
        ReachedLater(S, b, c, k, q, n, touched);
        assert !Reached(S, b, k, q, n, first) && !Reached(S, b, k, q, n, second);
      } else {
        assert !Reached(S, c, k, q, n, second);
      }
    }
  }

  lemma {:induction false} EmptyRowUnused(props: seq<Property>, n: string)
    ensures Unused(CellIn(EmptyRow(props), n))
    decreases |props|
  {
    if props != [] {
      EmptyRowUnused(props[..|props| - 1], n);
    }
  }

  lemma AddedUnused(S: Classes, t: Group, cls: string, r: Row, touched: set<Touch>)
    requires forall n :: Unused(CellIn(r, n))
    ensures NewUnused(S, t, AddRow(t, cls, r), touched)
  {
    forall c, q: nat, n | Size(t, c) <= q < Size(AddRow(t, cls, r), c)
      ensures Unused(CellAt(AddRow(t, cls, r), c, q, n))
    {
      AddedReads(t, cls, r, c, q);
    }
  }

  lemma LocateUnused(S: Classes, st: Store, cls: string, v: Value, m: Mode, current: Option<nat>)
    ensures NewUnused(S, st.tables, Locate(S, st, cls, v, m, current).st.tables, {})
  {
    var e := EmptyRow(Props(S, cls));
    forall n
      ensures Unused(CellIn(e, n))
    {
      EmptyRowUnused(Props(S, cls), n);
    }
    AddedUnused(S, st.tables, cls, e, {});
    if PrimaryKey(S, cls).Some? && KeyOf(PrimaryKey(S, cls).value, v).KeyOk? {
      var pk, k := PrimaryKey(S, cls).value, KeyOf(PrimaryKey(S, cls).value, v).key;
      AddKeyedRowIs(S, st, cls, pk.name, k);
      var keyed := e[pk.name := One(Scalar(k))];
      forall n
        ensures Unused(CellIn(keyed, n))
      {
        EmptyRowUnused(Props(S, cls), n);
      }
      AddedUnused(S, st.tables, cls, keyed, {});
    }
  }

  lemma {:induction false} CreateUnused(S: Classes, st: Store, cls: string, v: Value, m: Mode, current: Option<nat>)
    requires ValidSchema(S) && Invariant(S, st.tables, m.migration) && ReusesKeys(m)
    requires current.Some? ==> current.value < Size(st.tables, cls)
    ensures NewUnused(S, st.tables, Create(S, st, cls, v, m, current).st.tables, Touches(S, cls, v))
    decreases v, 3, 0
  {
    var l := Locate(S, st, cls, v, m, current);
    LocateUnused(S, st, cls, v, m, current);
    LocateContinues(S, st, cls, v, m, current);
    if l.Done? {
      var end := Populate(S, l.st, cls, l.value, v, m, 0);
      var below := if v.Dict? then TouchesFrom(S, cls, v, 0) else {};
      PopulateUnused(S, l.st, cls, l.value, v, m, 0);
      PopulateContinues(S, l.st, cls, l.value, v, m, 0);
      LocatedKeepsNew(S, st, cls, v, m, current);
      NewUnusedTransitive(S, st.tables, l.st.tables, end.st.tables, {}, Touches(S, cls, v), Touches(S, cls, v));
    }
  }

  /** Populating a located row reaches, in the row added for it, only the columns the value supplies. */
  lemma LocatedKeepsNew(S: Classes, st: Store, cls: string, v: Value, m: Mode, current: Option<nat>)
    requires ValidSchema(S) && ReusesKeys(m) && Locate(S, st, cls, v, m, current).Done?
    ensures var l := Locate(S, st, cls, v, m, current);
            NewKept(S, st.tables, l.st.tables, Populate(S, l.st, cls, l.value, v, m, 0).st.tables, Touches(S, cls, v))
  {
    var l := Locate(S, st, cls, v, m, current);
    var end := Populate(S, l.st, cls, l.value, v, m, 0);
    forall k, q: nat, n |
      PrimaryKey(S, k).Some? && Size(st.tables, k) <= q < Size(l.st.tables, k) &&
      !Reached(S, l.st.tables, k, q, n, Touches(S, cls, v))
      ensures CellAt(end.st.tables, k, q, n) == CellAt(l.st.tables, k, q, n)
    {
      var w := Spot(k, q, n, CellAt(l.st.tables, k, q, n));
      LocatedAtKey(S, st, cls, v, m, current, w);
      forall j | 0 <= j < |Props(S, cls)|
        ensures PopulatesBeside(S, cls, l.value, v, Props(S, cls)[j], w)
      {
        OwnColumnsBeside(S, l.st.tables, cls, v, l.value, Props(S, cls)[j], w);
      }
      PopulateCommutes(S, l.st, cls, l.value, v, m, 0, w);
    }
  }

  lemma LocatedAtKey(S: Classes, st: Store, cls: string, v: Value, m: Mode, current: Option<nat>, w: Spot)
    requires ReusesKeys(m) && Locate(S, st, cls, v, m, current).Done? && PrimaryKey(S, w.cls).Some?
    ensures var l := Locate(S, st, cls, v, m, current); Located(S, l.st.tables, cls, v, l.value, w)
  {
    if PrimaryKey(S, cls).Some? && KeyOf(PrimaryKey(S, cls).value, v).KeyOk? {
      AddKeyedRowIs(S, st, cls, PrimaryKey(S, cls).value.name, KeyOf(PrimaryKey(S, cls).value, v).key);
    }
  }

  lemma {:induction false} PopulateUnused(S: Classes, st: Store, cls: string, target: Target, v: Value, m: Mode, i: nat)
    requires ValidSchema(S) && Invariant(S, st.tables, m.migration) && ReusesKeys(m)
    requires i <= |Props(S, cls)| && target.row < Size(st.tables, cls) && target.skipPrimary
    ensures NewUnused(S, st.tables, Populate(S, st, cls, target, v, m, i).st.tables,
                      if v.Dict? then TouchesFrom(S, cls, v, i) else {})
    decreases v, 2, |Props(S, cls)| - i
  {
    if i < |Props(S, cls)| {
      var p := Props(S, cls)[i];
      var one, end := PopulateOne(S, st, cls, target, v, m, p), Populate(S, st, cls, target, v, m, i);
      PopulateStep(S, st, cls, target, v, m, i);
      PopulateOneUnused(S, st, cls, target, v, m, p);
      PopulateOneContinues(S, st, cls, target, v, m, p);
      if one.Done? {
        assert Size(st.tables, cls) <= Size(one.st.tables, cls);
        PopulateUnused(S, one.st, cls, target, v, m, i + 1);
        PopulateContinues(S, one.st, cls, target, v, m, i + 1);
        RestKeepsNew(S, st.tables, one.st, cls, target, v, m, i + 1);
        NewUnusedTransitive(S, st.tables, one.st.tables, end.st.tables,
                            if v.Dict? then TouchesAt(S, v, p) else {},
                            if v.Dict? then TouchesFrom(S, cls, v, i + 1) else {},
                            if v.Dict? then TouchesFrom(S, cls, v, i) else {});
      }
    }
  }

  lemma RestKeepsNew(S: Classes, t: Group, st: Store, cls: string, target: Target, v: Value, m: Mode, i: nat)
    requires ValidSchema(S) && i <= |Props(S, cls)| && target.row < Size(t, cls)
    ensures NewKept(S, t, st.tables, Populate(S, st, cls, target, v, m, i).st.tables,
                    if v.Dict? then TouchesFrom(S, cls, v, i) else {})
  {
    var touched := if v.Dict? then TouchesFrom(S, cls, v, i) else {};
    forall k, q: nat, n |
      PrimaryKey(S, k).Some? && Size(t, k) <= q < Size(st.tables, k) && !Reached(S, st.tables, k, q, n, touched)
      ensures CellAt(Populate(S, st, cls, target, v, m, i).st.tables, k, q, n) == CellAt(st.tables, k, q, n)
    {
      PopulateCommutes(S, st, cls, target, v, m, i, Spot(k, q, n, CellAt(st.tables, k, q, n)));
    }
  }

  lemma {:induction false} PopulateOneUnused(S: Classes, st: Store, cls: string, target: Target, v: Value, m: Mode,
                                             p: Property)
    requires ValidSchema(S) && Invariant(S, st.tables, m.migration) && ReusesKeys(m)
    requires p in Props(S, cls) && target.row < Size(st.tables, cls) && target.skipPrimary
    ensures NewUnused(S, st.tables, PopulateOne(S, st, cls, target, v, m, p).st.tables,
                      if v.Dict? then TouchesAt(S, v, p) else {})
    decreases v, 1, 0
  {
    if !p.isPrimary && v.Dict? && p.name in v.fields {
      SetPropertyUnused(S, st, cls, target.row, p, v.fields[p.name], m);
    }
  }

  lemma {:induction false} SetPropertyUnused(S: Classes, st: Store, cls: string, row: nat, p: Property, x: Value,
                                             m: Mode)
    requires ValidSchema(S) && Invariant(S, st.tables, m.migration) && ReusesKeys(m)
    requires p in Props(S, cls) && row < Size(st.tables, cls)
    ensures NewUnused(S, st.tables, SetProperty(S, st, cls, row, p, x, m).st.tables, TouchesProperty(S, p, x))
    decreases x, 6, 0
  {
    if p.nullable && x.Null? {
    } else if p.isArray {
      AssignUnused(S, st, cls, row, p, x, m);
    } else {
      UpdateUnused(S, st, cls, row, p, x, m);
    }
  }

  lemma {:induction false} UpdateUnused(S: Classes, st: Store, cls: string, row: nat, p: Property, x: Value, m: Mode)
    requires ValidSchema(S) && Invariant(S, st.tables, m.migration) && ReusesKeys(m)
    requires p in Props(S, cls) && row < Size(st.tables, cls) && !p.isArray
    ensures NewUnused(S, st.tables, Update(S, st, cls, row, p, x, m).st.tables, TouchesElement(S, p, x))
    decreases x, 5, 0
  {
    var cell := CellAt(st.tables, cls, row, p.name);
    var current := CurrentLink(cell);
    if cell.One? {
      CurrentLinkOk(S, st, cls, row, p, cell.slot);
    }
    UnboxUnused(S, st, cls, p, x, m, current);
    var u := Unbox(S, st, p, x, m, current);
    if u.Done? {
      OwnWriteUnused(S, st.tables, u.st.tables, StoreIfDifferent(u.st, cls, row, p, cell, u.value, m).st.tables,
                     cls, row, TouchesElement(S, p, x));
    }
  }

  /** What changes only one row that was there before keeps the rows added since as they are. */
  lemma OwnWriteUnused(S: Classes, t: Group, a: Group, b: Group, cls: string, row: nat, touched: set<Touch>)
    requires NewUnused(S, t, a, touched) && row < Size(t, cls)
    requires b == a || exists r :: b == Patch(a, cls, row, r)
    ensures NewUnused(S, t, b, touched)
  {
    if b != a {
      var r :| b == Patch(a, cls, row, r);
      forall c, q: nat, n |
        PrimaryKey(S, c).Some? && Size(t, c) <= q < Size(b, c) && !Reached(S, b, c, q, n, touched)
        ensures Unused(CellAt(b, c, q, n))
      {
        PatchReads(a, cls, row, r, c, q);
        assert RowAt(b, c, q) == RowAt(a, c, q) && !Reached(S, a, c, q, n, touched);
        assert Unused(CellAt(a, c, q, n));
      }
    }
  }

  lemma {:induction false} UnboxUnused(S: Classes, st: Store, cls: string, p: Property, x: Value, m: Mode,
                                       current: Option<nat>)
    requires ValidSchema(S) && Invariant(S, st.tables, m.migration) && ReusesKeys(m) && p in Props(S, cls)
    requires p.base.ObjectType? && current.Some? ==> current.value < Size(st.tables, p.objectType)
    ensures NewUnused(S, st.tables, Unbox(S, st, p, x, m, current).st.tables, TouchesElement(S, p, x))
    decreases x, 4, 0
  {
    if p.base.ObjectType? && !x.Managed? {
      CreateUnused(S, st, p.objectType, x, m, current);
    }
  }

  lemma {:induction false} AssignUnused(S: Classes, st: Store, cls: string, row: nat, p: Property, x: Value, m: Mode)
    requires ValidSchema(S) && Invariant(S, st.tables, m.migration) && ReusesKeys(m)
    requires p in Props(S, cls) && row < Size(st.tables, cls) && p.isArray
    ensures NewUnused(S, st.tables, Assign(S, st, cls, row, p, x, m).st.tables, TouchesProperty(S, p, x))
    decreases x, 5, 1
  {
    if x.Vector? {
      if m.diff {
        var size := |Elements(CellAt(st.tables, cls, row, p.name))|;
        var a := AssignFrom(S, st, cls, row, p, x, 0, size, m);
        AssignFromUnused(S, st, cls, row, p, x, 0, size, m);
        TrimUnused(S, st.tables, a.st, cls, row, p.name, |x.elems|, size, TouchesElements(S, p, x, 0));
      } else {
        var s0 := Clear(st, cls, row, p.name);
        var end := AssignFrom(S, s0, cls, row, p, x, 0, 0, m);
        Valid(S, cls, p);
        WrittenContinues(S, st, cls, row, p, Many([]), ListCleared(cls, row, p.name), m.migration);
        AssignFromUnused(S, s0, cls, row, p, x, 0, 0, m);
        SameSizes(S, st.tables, s0.tables, end.st.tables, TouchesElements(S, p, x, 0));
      }
    }
  }

  lemma SameSizes(S: Classes, t: Group, s: Group, t': Group, touched: set<Touch>)
    requires (forall c :: Size(s, c) == Size(t, c)) && NewUnused(S, s, t', touched)
    ensures NewUnused(S, t, t', touched)
  {
  }

  lemma TrimUnused(S: Classes, t: Group, st: Store, cls: string, row: nat, column: string, index: nat, size: nat,
                   touched: set<Touch>)
    requires NewUnused(S, t, st.tables, touched) && row < Size(t, cls)
    ensures NewUnused(S, t, TrimTo(st, cls, row, column, index, size).st.tables, touched)
  {
    var Inv := (s: Store) => NewUnused(S, t, s.tables, touched);
    forall s, n: nat | Inv(s)
      ensures Inv(ListRemove(s, cls, row, column, n).st)
    {
      OwnWriteUnused(S, t, s.tables, ListRemove(s, cls, row, column, n).st.tables, cls, row, touched);
    }
    TrimToKeeps(st, cls, row, column, index, size, Inv);
  }

  lemma {:induction false} AssignFromUnused(S: Classes, st: Store, cls: string, row: nat, p: Property, x: Value,
                                            i: nat, size: nat, m: Mode)
    requires ValidSchema(S) && Invariant(S, st.tables, m.migration) && ReusesKeys(m)
    requires p in Props(S, cls) && row < Size(st.tables, cls) && p.isArray
    requires x.Vector? && i <= |x.elems|
    ensures NewUnused(S, st.tables, AssignFrom(S, st, cls, row, p, x, i, size, m).st.tables,
                      TouchesElements(S, p, x, i))
    decreases x, 5, 0, |x.elems| - i
  {
    if i < |x.elems| {
      var one := AssignElement(S, st, cls, row, p, x.elems[i], i, size, m);
      var end := AssignFrom(S, st, cls, row, p, x, i, size, m);
      AssignFromStep(S, st, cls, row, p, x, i, size, m);
      AssignElementUnused(S, st, cls, row, p, x.elems[i], i, size, m);
      AssignElementContinues(S, st, cls, row, p, x.elems[i], i, size, m);
      if one.Done? {
        assert Size(st.tables, cls) <= Size(one.st.tables, cls);
        AssignFromUnused(S, one.st, cls, row, p, x, i + 1, size, m);
        AssignFromContinues(S, one.st, cls, row, p, x, i + 1, size, m);
        ElementsKeepNew(S, st.tables, one.st, cls, row, p, x, i + 1, size, m);
        NewUnusedTransitive(S, st.tables, one.st.tables, end.st.tables, TouchesElement(S, p, x.elems[i]),
                            TouchesElements(S, p, x, i + 1), TouchesElements(S, p, x, i));
      }
    }
  }

  lemma ElementsKeepNew(S: Classes, t: Group, st: Store, cls: string, row: nat, p: Property, x: Value, i: nat,
                        size: nat, m: Mode)
    requires ValidSchema(S) && p in Props(S, cls) && p.isArray && row < Size(t, cls) && x.Vector? && i <= |x.elems|
    ensures NewKept(S, t, st.tables, AssignFrom(S, st, cls, row, p, x, i, size, m).st.tables,
                    TouchesElements(S, p, x, i))
  {
    forall k, q: nat, n |
      PrimaryKey(S, k).Some? && Size(t, k) <= q < Size(st.tables, k) &&
      !Reached(S, st.tables, k, q, n, TouchesElements(S, p, x, i))
      ensures CellAt(AssignFrom(S, st, cls, row, p, x, i, size, m).st.tables, k, q, n) == CellAt(st.tables, k, q, n)
    {
      AssignFromCommutes(S, st, cls, row, p, x, i, size, m, Spot(k, q, n, CellAt(st.tables, k, q, n)));
    }
  }

  lemma {:induction false} AssignElementUnused(S: Classes, st: Store, cls: string, row: nat, p: Property, e: Value,
                                               i: nat, size: nat, m: Mode)
    requires ValidSchema(S) && Invariant(S, st.tables, m.migration) && ReusesKeys(m)
    requires p in Props(S, cls) && row < Size(st.tables, cls) && p.isArray
    ensures NewUnused(S, st.tables, AssignElement(S, st, cls, row, p, e, i, size, m).st.tables, TouchesElement(S, p, e))
    decreases e, 5, 1, 0
  {
    var slots := Elements(CellAt(st.tables, cls, row, p.name));
    var end := AssignElement(S, st, cls, row, p, e, i, size, m);
    AssignElementStep(S, st, cls, row, p, e, i, size, m);
    if i >= size || i < |slots| {
      var current := if i < size then CurrentLink(One(slots[i])) else None;
      if i < size {
        CurrentLinkOk(S, st, cls, row, p, slots[i]);
      }
      var u := Unbox(S, st, p, e, m.(diff := i < size), current);
      UnboxUnused(S, st, cls, p, e, m.(diff := i < size), current);
      if u.Done? {
        ListWriteUnused(S, st.tables, u.st, cls, row, p, if i < size then slots[i] else Link(None), u.value, i,
                        TouchesElement(S, p, e));
      }
    }
  }

  /** Adding or setting an element changes only the owner's row. */
  lemma ListWriteUnused(S: Classes, t: Group, st: Store, cls: string, row: nat, p: Property, before: Slot, u: Unboxed,
                        i: nat, touched: set<Touch>)
    requires NewUnused(S, t, st.tables, touched) && row < Size(t, cls)
    ensures NewUnused(S, t, PutIfDifferent(st, cls, row, p, before, u, i).st.tables, touched)
    ensures NewUnused(S, t, ListAdd(st, cls, row, p, u).st.tables, touched)
  {
    OwnWriteUnused(S, t, st.tables, PutIfDifferent(st, cls, row, p, before, u, i).st.tables, cls, row, touched);
    OwnWriteUnused(S, t, st.tables, ListAdd(st, cls, row, p, u).st.tables, cls, row, touched);
  }
}
