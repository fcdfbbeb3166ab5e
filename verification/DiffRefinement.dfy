/** Writing only the differences ends in the same tables as overwriting everything, provided no unkeyed object of
    the value goes where one is linked already, and no property of an object is supplied again inside itself. */
module DiffRefinement {
  import opened Wrappers
  import opened Schema
  import opened Tables
  import opened ObjectAccessor
  import opened Frame
  import opened Invariants
  import opened ListTrimming
  import opened Reuse

  /** The cell the value itself supplies in this column is among those named. */
  ghost predicate NamesItself(S: Classes, cls: string, v: Value, column: string, touched: set<Touch>) {
    match PrimaryKey(S, cls)
    case None => false
    case Some(pk) => KeyOf(pk, v).KeyOk? && (cls, KeyOf(pk, v).key, column) in touched
  }

  /** No property supplied for a (class, key) is supplied for it again inside its own value.  The object may
      recur there otherwise: to link an object to itself, its key alone is given again. */
  ghost predicate NoRecursion(S: Classes, cls: string, v: Value)
    decreases v, 2
  {
    v.Dict? ==> forall p :: p in Props(S, cls) && p.name in v.fields ==>
                  && !NamesItself(S, cls, v, p.name, TouchesProperty(S, p, v.fields[p.name]))
                  && NoRecursionProperty(S, p, v.fields[p.name])
  }

  ghost predicate NoRecursionProperty(S: Classes, p: Property, x: Value)
    decreases x, 4
  {
    if p.isArray then x.Vector? ==> forall i :: 0 <= i < |x.elems| ==> NoRecursionElement(S, p, x.elems[i])
    else NoRecursionElement(S, p, x)
  }

  ghost predicate NoRecursionElement(S: Classes, p: Property, e: Value)
    decreases e, 3
  {
    p.base.ObjectType? && !e.Managed? ==> NoRecursion(S, p.objectType, e)
  }

  /** Same result and same tables, or the same exception.  The logs, and the tables an exception leaves,
      may differ. */
  ghost predicate Agree<T(!new)>(f: Step<T>, d: Step<T>) {
    match f
    case Done(value, st) => d.Done? && d.value == value && d.st.tables == st.tables
    case Threw(error, _) => d.Threw? && d.error == error
  }

  ghost predicate Pair(f: Mode, d: Mode) {
    !f.diff && f.update == d.update && f.migration == d.migration && ReusesKeys(f)
  }

  /** No property from the `i`-th on reaches its own cell of the row. */
  ghost predicate OwnCellsFree(S: Classes, t: Group, cls: string, row: nat, v: Value, i: nat)
    requires v.Dict? && i <= |Props(S, cls)|
  {
    forall j :: i <= j < |Props(S, cls)| ==>
                  !Reached(S, t, cls, row, Props(S, cls)[j].name, TouchesAt(S, v, Props(S, cls)[j]))
  }

  lemma LocateKeyedAgrees(S: Classes, f: Store, d: Store, cls: string, pk: Property, v: Value, mf: Mode, md: Mode)
    requires f.tables == d.tables && Pair(mf, md) && PrimaryKey(S, cls) == Some(pk)
    ensures Agree(LocateKeyed(S, f, cls, pk, v, mf), LocateKeyed(S, d, cls, pk, v, md))
    ensures var l := LocateKeyed(S, f, cls, pk, v, mf);
            l.Done? ==> l.value.skipPrimary && KeyOf(pk, v).KeyOk? &&
                        CellAt(l.st.tables, cls, l.value.row, pk.name) == One(Scalar(KeyOf(pk, v).key))
  {
    if KeyOf(pk, v).KeyOk? {
      AddKeyedRowIs(S, f, cls, pk.name, KeyOf(pk, v).key);
      AddKeyedRowIs(S, d, cls, pk.name, KeyOf(pk, v).key);
    }
  }

  /** The row to populate is the same either way and, when keyed, carries the value's own key. */
  lemma LocateAgrees(S: Classes, f: Store, d: Store, cls: string, v: Value, mf: Mode, md: Mode,
                     cf: Option<nat>, cd: Option<nat>)
    requires f.tables == d.tables && Pair(mf, md)
    requires PrimaryKey(S, cls).Some? || (cf.None? && cd.None?)
    ensures Agree(Locate(S, f, cls, v, mf, cf), Locate(S, d, cls, v, md, cd))
    ensures var l := Locate(S, f, cls, v, mf, cf);
            l.Done? ==>
              && l.value.skipPrimary
              && (NoRecursion(S, cls, v) && v.Dict? ==> OwnCellsFree(S, l.st.tables, cls, l.value.row, v, 0))
  {
    match PrimaryKey(S, cls)
    case None =>
    case Some(pk) =>
      LocateKeyedAgrees(S, f, d, cls, pk, v, mf, md);
  }

  /** `create` with `update_only_diff` refines `create` without it. */
  lemma {:induction false} CreateAgrees(S: Classes, f: Store, d: Store, cls: string, v: Value, mf: Mode, md: Mode,
                                        cf: Option<nat>, cd: Option<nat>)
    requires ValidSchema(S) && Invariant(S, f.tables, mf.migration)
    requires f.tables == d.tables && Pair(mf, md)
    requires PrimaryKey(S, cls).Some? || (cf.None? && cd.None?)
    requires cf.Some? ==> cf.value < Size(f.tables, cls)
    requires AddsOnly(S, f.tables, cls, v) && Separate(S, cls, v) && NoRecursion(S, cls, v)
    ensures Agree(Create(S, f, cls, v, mf, cf), Create(S, d, cls, v, md, cd))
    decreases v, 3, 0
  {
    LocateAgrees(S, f, d, cls, v, mf, md, cf, cd);
    LocateContinues(S, f, cls, v, mf, cf);
    var lf, ld := Locate(S, f, cls, v, mf, cf), Locate(S, d, cls, v, md, cd);
    if lf.Done? {
      if v.Dict? {
        LocatedAddsOnly(S, f, cls, v, mf, cf);
      }
      PopulateAgrees(S, lf.st, ld.st, cls, lf.value, v, mf, md, 0);
    }
  }

  /** The top-level form: two creates from one store that differ only in `update_only_diff`. */
  lemma DiffRefinesOverwrite(S: Classes, st: Store, cls: string, v: Value, update: bool, migration: bool)
    requires ValidSchema(S) && Invariant(S, st.tables, migration) && (migration ==> update)
    requires AddsOnly(S, st.tables, cls, v) && Separate(S, cls, v) && NoRecursion(S, cls, v)
    ensures Agree(Create(S, st, cls, v, Mode(update, false, migration), None),
                  Create(S, st, cls, v, Mode(update, true, migration), None))
  {
    CreateAgrees(S, st, st, cls, v, Mode(update, false, migration), Mode(update, true, migration), None, None);
  }

  lemma {:induction false} PopulateAgrees(S: Classes, f: Store, d: Store, cls: string, target: Target, v: Value,
                                          mf: Mode, md: Mode, i: nat)
    requires ValidSchema(S) && Invariant(S, f.tables, mf.migration)
    requires f.tables == d.tables && Pair(mf, md)
    requires i <= |Props(S, cls)| && target.skipPrimary && target.row < Size(f.tables, cls)
    requires Separate(S, cls, v) && NoRecursion(S, cls, v)
    requires v.Dict? ==> OwnCellsFree(S, f.tables, cls, target.row, v, i)
    requires v.Dict? ==> HoldsKey(S, f.tables, cls, target.row, v) && AddsOnlyFrom(S, f.tables, cls, target.row, v, i)
    ensures Agree(Populate(S, f, cls, target, v, mf, i), Populate(S, d, cls, target, v, md, i))
    decreases v, 2, |Props(S, cls)| - i
  {
    if i < |Props(S, cls)| {
      var p := Props(S, cls)[i];
      PopulateOneAgrees(S, f, d, cls, target, v, mf, md, p);
      PopulateOneContinues(S, f, cls, target, v, mf, p);
      var of, od := PopulateOne(S, f, cls, target, v, mf, p), PopulateOne(S, d, cls, target, v, md, p);
      if of.Done? {
        if v.Dict? {
          RestAddsOnly(S, f, cls, target, v, mf, i);
          forall j | i < j < |Props(S, cls)|
            ensures !Reached(S, of.st.tables, cls, target.row, Props(S, cls)[j].name, TouchesAt(S, v, Props(S, cls)[j]))
          {
            ReachedLater(S, f.tables, of.st.tables, cls, target.row, Props(S, cls)[j].name,
                         TouchesAt(S, v, Props(S, cls)[j]));
          }
        }
        PopulateAgrees(S, of.st, od.st, cls, target, v, mf, md, i + 1);
      }
    }
  }

  lemma {:induction false} PopulateOneAgrees(S: Classes, f: Store, d: Store, cls: string, target: Target, v: Value,
                                             mf: Mode, md: Mode, p: Property)
    requires ValidSchema(S) && Invariant(S, f.tables, mf.migration)
    requires f.tables == d.tables && Pair(mf, md)
    requires p in Props(S, cls) && target.skipPrimary && target.row < Size(f.tables, cls)
    requires Separate(S, cls, v) && NoRecursion(S, cls, v)
    requires v.Dict? && p.name in v.fields ==>
               AddsOnlyProperty(S, f.tables, p, v.fields[p.name], CellAt(f.tables, cls, target.row, p.name))
    requires v.Dict? ==> !Reached(S, f.tables, cls, target.row, p.name, TouchesAt(S, v, p))
    ensures Agree(PopulateOne(S, f, cls, target, v, mf, p), PopulateOne(S, d, cls, target, v, md, p))
    decreases v, 1, 0
  {
    if !p.isPrimary && v.Dict? && p.name in v.fields {
      SetPropertyAgrees(S, f, d, cls, target.row, p, v.fields[p.name], mf, md);
    }
  }

  lemma {:induction false} SetPropertyAgrees(S: Classes, f: Store, d: Store, cls: string, row: nat, p: Property,
                                             x: Value, mf: Mode, md: Mode)
    requires ValidSchema(S) && Invariant(S, f.tables, mf.migration)
    requires f.tables == d.tables && Pair(mf, md)
    requires p in Props(S, cls) && !p.isPrimary && row < Size(f.tables, cls)
    requires SeparateProperty(S, p, x) && NoRecursionProperty(S, p, x)
    requires AddsOnlyProperty(S, f.tables, p, x, CellAt(f.tables, cls, row, p.name))
    requires !Reached(S, f.tables, cls, row, p.name, TouchesProperty(S, p, x))
    ensures Agree(SetProperty(S, f, cls, row, p, x, mf), SetProperty(S, d, cls, row, p, x, md))
    decreases x, 6, 0
  {
    if p.nullable && x.Null? {
      if CellAt(f.tables, cls, row, p.name) == One(NullSlot(p)) {
        PutSame(f.tables, cls, row, p.name);
      }
    } else if p.isArray {
      AssignAgrees(S, f, d, cls, row, p, x, mf, md);
    } else {
      UpdateAgrees(S, f, d, cls, row, p, x, mf, md);
    }
  }

  lemma {:induction false} UpdateAgrees(S: Classes, f: Store, d: Store, cls: string, row: nat, p: Property, x: Value,
                                        mf: Mode, md: Mode)
    requires ValidSchema(S) && Invariant(S, f.tables, mf.migration)
    requires f.tables == d.tables && Pair(mf, md)
    requires p in Props(S, cls) && !p.isPrimary && !p.isArray && row < Size(f.tables, cls)
    requires SeparateElement(S, p, x) && NoRecursionElement(S, p, x)
    requires AddsOnlyElement(S, f.tables, p, x, CurrentLink(CellAt(f.tables, cls, row, p.name)).Some?)
    requires !Reached(S, f.tables, cls, row, p.name, TouchesElement(S, p, x))
    ensures Agree(Update(S, f, cls, row, p, x, mf), Update(S, d, cls, row, p, x, md))
    decreases x, 5, 0
  {
    var cell := CellAt(f.tables, cls, row, p.name);
    var current := CurrentLink(cell);
    if cell.One? {
      CurrentLinkOk(S, f, cls, row, p, cell.slot);
    }
    UnboxAgrees(S, f, d, cls, p, x, mf, md, current, current);
    UnboxContinues(S, f, cls, p, x, mf, current);
    UnboxKeepsCell(S, f, cls, row, p, x, mf, current);
    var uf, ud := Unbox(S, f, p, x, mf, current), Unbox(S, d, p, x, md, current);
    if uf.Done? {
      StoreAgrees(S, uf.st, ud.st, cls, row, p, uf.value, mf, md);
    }
  }

  /** Storing a value agrees with storing it only where it differs. */
  lemma StoreAgrees(S: Classes, f: Store, d: Store, cls: string, row: nat, p: Property, u: Unboxed, mf: Mode, md: Mode)
    requires ValidSchema(S) && Typed(S, f.tables) && f.tables == d.tables && Pair(mf, md)
    requires p in Props(S, cls) && row < Size(f.tables, cls)
    ensures var before := CellAt(f.tables, cls, row, p.name);
            Agree(StoreIfDifferent(f, cls, row, p, before, u, mf), StoreIfDifferent(d, cls, row, p, before, u, md))
  {
    if CellAt(f.tables, cls, row, p.name) == One(ToSlot(u)) {
      StoreSame(S, f, cls, row, p, u);
    }
  }

  /** Unboxing a value that does not reach the cell leaves it as it is. */
  lemma UnboxKeepsCell(S: Classes, st: Store, cls: string, row: nat, p: Property, x: Value, m: Mode,
                       current: Option<nat>)
    requires ValidSchema(S) && Invariant(S, st.tables, m.migration)
    requires p in Props(S, cls) && !p.isPrimary && row < Size(st.tables, cls)
    requires p.base.ObjectType? && current.Some? ==> current.value < Size(st.tables, p.objectType)
    requires PrimaryKey(S, cls).Some? || !m.diff || KeyedElement(S, p, x)
    requires !Reached(S, st.tables, cls, row, p.name, TouchesElement(S, p, x))
    ensures var u := Unbox(S, st, p, x, m, current);
            && CellAt(u.st.tables, cls, row, p.name) == CellAt(st.tables, cls, row, p.name)
            && row < Size(u.st.tables, cls) && Typed(S, u.st.tables)
  {
    Valid(S, cls, p);
    UnboxContinues(S, st, cls, p, x, m, current);
    UnboxCommutes(S, st, cls, p, x, m, current, Spot(cls, row, p.name, CellAt(st.tables, cls, row, p.name)));
  }

  /** Storing what a well-typed cell already holds succeeds and changes no table. */
  lemma StoreSame(S: Classes, st: Store, cls: string, row: nat, p: Property, u: Unboxed)
    requires ValidSchema(S) && Typed(S, st.tables) && row < Size(st.tables, cls)
    requires p in Props(S, cls) && CellAt(st.tables, cls, row, p.name) == One(ToSlot(u))
    ensures StoreValue(st, cls, row, p, u).Done? && StoreValue(st, cls, row, p, u).st.tables == st.tables
  {
    CurrentLinkOk(S, st, cls, row, p, ToSlot(u));
    PutSame(st.tables, cls, row, p.name);
  }

  lemma {:induction false} UnboxAgrees(S: Classes, f: Store, d: Store, cls: string, p: Property, x: Value, mf: Mode,
                                       md: Mode, cf: Option<nat>, cd: Option<nat>)
    requires ValidSchema(S) && Invariant(S, f.tables, mf.migration) && p in Props(S, cls)
    requires f.tables == d.tables && Pair(mf, md)
    requires p.base.ObjectType? && cf.Some? ==> cf.value < Size(f.tables, p.objectType)
    requires SeparateElement(S, p, x) && NoRecursionElement(S, p, x)
    requires AddsOnlyElement(S, f.tables, p, x, cf.Some? || cd.Some?)
    ensures Agree(Unbox(S, f, p, x, mf, cf), Unbox(S, d, p, x, md, cd))
    decreases x, 4, 0
  {
    if p.base.ObjectType? && !x.Managed? {
      CreateAgrees(S, f, d, p.objectType, x, mf, md, cf, cd);
    }
  }

  /** While a list is assigned, the overwriting side holds the elements done so far and the diffing
      side holds them followed by the old elements not yet reached. */
  ghost predicate Halfway(f: Group, d: Group, cls: string, row: nat, column: string, done: seq<Slot>, rest: seq<Slot>) {
    && row < Size(d, cls)
    && CellAt(d, cls, row, column) == Many(done + rest)
    && f == Put(d, cls, row, column, Many(done))
  }

  /** Both sides finish, `n` elements done and halfway apart, or both throw the same exception. */
  ghost predicate AgreeHalfway(f: Step<()>, d: Step<()>, cls: string, row: nat, column: string, n: nat,
                               rest: seq<Slot>) {
    match f
    case Done(_, st) =>
      && d.Done?
      && |ListAt(st.tables, cls, row, column)| == n
      && Halfway(st.tables, d.st.tables, cls, row, column, ListAt(st.tables, cls, row, column), rest)
    case Threw(error, _) => d.Threw? && d.error == error
  }

  lemma {:induction false} AssignAgrees(S: Classes, f: Store, d: Store, cls: string, row: nat, p: Property, x: Value,
                                        mf: Mode, md: Mode)
    requires ValidSchema(S) && Invariant(S, f.tables, mf.migration)
    requires f.tables == d.tables && Pair(mf, md)
    requires p in Props(S, cls) && p.isArray && row < Size(f.tables, cls)
    requires SeparateProperty(S, p, x) && NoRecursionProperty(S, p, x)
    requires AddsOnlyProperty(S, f.tables, p, x, CellAt(f.tables, cls, row, p.name))
    requires !Reached(S, f.tables, cls, row, p.name, TouchesProperty(S, p, x))
    ensures Agree(Assign(S, f, cls, row, p, x, mf), Assign(S, d, cls, row, p, x, md))
    decreases x, 5, 1
  {
    if x.Vector? {
      if md.diff {
        DiffAssignAgrees(S, f, d, cls, row, p, x, mf, md);
      } else {
        SlotsOk(S, f, cls, row, p);
        WrittenContinues(S, f, cls, row, p, Many([]), ListCleared(cls, row, p.name), mf.migration);
        ClearedAddsOnly(S, f, cls, row, p, x, mf.migration);
        ReachedLater(S, f.tables, Clear(f, cls, row, p.name).tables, cls, row, p.name, TouchesElements(S, p, x, 0));
        AssignFromSame(S, Clear(f, cls, row, p.name), Clear(d, cls, row, p.name), cls, row, p, x, mf, md);
      }
    }
  }

  lemma {:induction false} DiffAssignAgrees(S: Classes, f: Store, d: Store, cls: string, row: nat, p: Property,
                                            x: Value, mf: Mode, md: Mode)
    requires ValidSchema(S) && Invariant(S, f.tables, mf.migration)
    requires f.tables == d.tables && Pair(mf, md) && md.diff
    requires p in Props(S, cls) && p.isArray && row < Size(f.tables, cls)
    requires x.Vector? && SeparateProperty(S, p, x) && NoRecursionProperty(S, p, x)
    requires AddsOnlyElements(S, f.tables, p, x, 0, |ListAt(f.tables, cls, row, p.name)|)
    requires !Reached(S, f.tables, cls, row, p.name, TouchesElements(S, p, x, 0))
    ensures Agree(Assign(S, f, cls, row, p, x, mf), Assign(S, d, cls, row, p, x, md))
    decreases x, 5, 0, |x.elems| + 1
  {
    SlotsOk(S, d, cls, row, p);
    var slots := ListAt(d.tables, cls, row, p.name);
    var f0 := Clear(f, cls, row, p.name);
    PutReads(d.tables, cls, row, p.name, Many([]), cls, row, p.name);
    assert [] + slots == slots;
    AssignFromAgrees(S, f0, d, cls, row, p, x, 0, mf, md, slots);
    var af, ad := AssignFrom(S, f0, cls, row, p, x, 0, 0, mf), AssignFrom(S, d, cls, row, p, x, 0, |slots|, md);
    if af.Done? {
      TrimToDrops(ad.st, cls, row, p.name, ListAt(af.st.tables, cls, row, p.name), Rest(slots, |x.elems|), |slots|);
    }
  }

  /** The two assignments halfway apart at the `n`-th element, and what its turn needs. */
  ghost predicate HalfwayAt(S: Classes, f: Store, d: Store, cls: string, row: nat, p: Property, x: Value, n: nat,
                            slots: seq<Slot>, migration: bool) {
    && x.Vector? && n <= |x.elems|
    && Invariant(S, d.tables, migration) && AddsOnlyElements(S, d.tables, p, x, n, |slots|)
    && !Reached(S, d.tables, cls, row, p.name, TouchesElements(S, p, x, n))
    && |ListAt(f.tables, cls, row, p.name)| == n
    && Halfway(f.tables, d.tables, cls, row, p.name, ListAt(f.tables, cls, row, p.name), Rest(slots, n))
  }

  lemma {:induction false} AssignFromAgrees(S: Classes, f: Store, d: Store, cls: string, row: nat, p: Property,
                                            x: Value, i: nat, mf: Mode, md: Mode, slots: seq<Slot>)
    requires ValidSchema(S) && Pair(mf, md) && p in Props(S, cls) && p.isArray && x.Vector?
    requires SeparateProperty(S, p, x) && NoRecursionProperty(S, p, x)
    requires HalfwayAt(S, f, d, cls, row, p, x, i, slots, mf.migration)
    ensures ApartAt(S, AssignFrom(S, f, cls, row, p, x, i, 0, mf), AssignFrom(S, d, cls, row, p, x, i, |slots|, md),
                    cls, row, p, x, |x.elems|, slots, mf.migration)
    decreases x, 5, 0, 0
  {
    var Rel := (n: nat, a: Store, b: Store) => HalfwayAt(S, a, b, cls, row, p, x, n, slots, mf.migration);
    forall n: nat, a, b | i <= n < |x.elems| && Rel(n, a, b)
      ensures Related(AssignElement(S, a, cls, row, p, x.elems[n], n, 0, mf),
                      AssignElement(S, b, cls, row, p, x.elems[n], n, |slots|, md), n + 1, Rel)
    {
      HalfwayStepped(S, a, b, cls, row, p, x, n, mf, md, slots, Rel);
    }
    AssignFromPaired(S, f, d, cls, row, p, x, i, 0, |slots|, mf, md, Rel);
    HalfwayRelated(S, AssignFrom(S, f, cls, row, p, x, i, 0, mf), AssignFrom(S, d, cls, row, p, x, i, |slots|, md),
                   cls, row, p, x, |x.elems|, slots, mf.migration, Rel);
  }

  /** Both steps finish halfway apart at the `n`-th element, or both throw the same exception. */
  ghost predicate ApartAt(S: Classes, of: Step<()>, od: Step<()>, cls: string, row: nat, p: Property, x: Value, n: nat,
                          slots: seq<Slot>, migration: bool) {
    if of.Done? then od.Done? && HalfwayAt(S, of.st, od.st, cls, row, p, x, n, slots, migration)
    else od.Threw? && od.error == of.error
  }

  lemma HalfwayRelated(S: Classes, of: Step<()>, od: Step<()>, cls: string, row: nat, p: Property, x: Value, n: nat,
                       slots: seq<Slot>, migration: bool, Rel: (nat, Store, Store) -> bool)
    requires forall k, a, b :: Rel(k, a, b) <==> HalfwayAt(S, a, b, cls, row, p, x, k, slots, migration)
    ensures Related(of, od, n, Rel) <==> ApartAt(S, of, od, cls, row, p, x, n, slots, migration)
  {
  }

  lemma {:induction false} HalfwayStepped(S: Classes, f: Store, d: Store, cls: string, row: nat, p: Property, x: Value,
                                          n: nat, mf: Mode, md: Mode, slots: seq<Slot>,
                                          Rel: (nat, Store, Store) -> bool)
    requires ValidSchema(S) && Pair(mf, md) && p in Props(S, cls) && p.isArray && x.Vector? && n < |x.elems|
    requires SeparateProperty(S, p, x) && NoRecursionProperty(S, p, x) && Rel(n, f, d)
    requires forall k, a, b :: Rel(k, a, b) <==> HalfwayAt(S, a, b, cls, row, p, x, k, slots, mf.migration)
    ensures Related(AssignElement(S, f, cls, row, p, x.elems[n], n, 0, mf),
                    AssignElement(S, d, cls, row, p, x.elems[n], n, |slots|, md), n + 1, Rel)
    decreases x, 4, 2
  {
    HalfwayNext(S, f, d, cls, row, p, x, n, mf, md, slots);
    HalfwayRelated(S, AssignElement(S, f, cls, row, p, x.elems[n], n, 0, mf),
                   AssignElement(S, d, cls, row, p, x.elems[n], n, |slots|, md), cls, row, p, x, n + 1, slots,
                   mf.migration, Rel);
  }

  lemma {:induction false} HalfwayNext(S: Classes, f: Store, d: Store, cls: string, row: nat, p: Property, x: Value,
                                       n: nat, mf: Mode, md: Mode, slots: seq<Slot>)
    requires ValidSchema(S) && Pair(mf, md) && p in Props(S, cls) && p.isArray && x.Vector? && n < |x.elems|
    requires SeparateProperty(S, p, x) && NoRecursionProperty(S, p, x)
    requires HalfwayAt(S, f, d, cls, row, p, x, n, slots, mf.migration)
    ensures ApartAt(S, AssignElement(S, f, cls, row, p, x.elems[n], n, 0, mf),
                    AssignElement(S, d, cls, row, p, x.elems[n], n, |slots|, md), cls, row, p, x, n + 1, slots,
                    mf.migration)
    decreases x, 4, 1
  {
    AssignElementAgrees(S, f, d, cls, row, p, x.elems[n], n, mf, md, ListAt(f.tables, cls, row, p.name), slots);
    NextElementReady(S, d, cls, row, p, x, n, |slots|, md);
  }

  /** What assigning the next element starts from. */
  lemma NextElementReady(S: Classes, d: Store, cls: string, row: nat, p: Property, x: Value, i: nat, size: nat, m: Mode)
    requires ValidSchema(S) && Invariant(S, d.tables, m.migration) && ReusesKeys(m)
    requires p in Props(S, cls) && p.isArray && row < Size(d.tables, cls)
    requires x.Vector? && i < |x.elems| && SeparateProperty(S, p, x)
    requires AddsOnlyElements(S, d.tables, p, x, i, size)
    requires !Reached(S, d.tables, cls, row, p.name, TouchesElements(S, p, x, i))
    ensures var t' := AssignElement(S, d, cls, row, p, x.elems[i], i, size, m).st.tables;
            && Invariant(S, t', m.migration) && AddsOnlyElements(S, t', p, x, i + 1, size)
            && !Reached(S, t', cls, row, p.name, TouchesElements(S, p, x, i + 1))
  {
    var t' := AssignElement(S, d, cls, row, p, x.elems[i], i, size, m).st.tables;
    AssignElementContinues(S, d, cls, row, p, x.elems[i], i, size, m);
    ReachedLater(S, d.tables, t', cls, row, p.name, TouchesElements(S, p, x, i + 1));
    RestElementsAddOnly(S, d, cls, row, p, x, i, size, m);
  }

  lemma {:induction false} AssignElementAgrees(S: Classes, f: Store, d: Store, cls: string, row: nat, p: Property,
                                               e: Value, i: nat, mf: Mode, md: Mode, done: seq<Slot>, slots: seq<Slot>)
    requires ValidSchema(S) && Invariant(S, d.tables, mf.migration)
    requires Pair(mf, md) && p in Props(S, cls) && p.isArray
    requires |done| == i && Halfway(f.tables, d.tables, cls, row, p.name, done, Rest(slots, i))
    requires SeparateElement(S, p, e) && NoRecursionElement(S, p, e)
    requires AddsOnlyElement(S, d.tables, p, e, i < |slots|)
    requires !Reached(S, d.tables, cls, row, p.name, TouchesElement(S, p, e))
    ensures AgreeHalfway(AssignElement(S, f, cls, row, p, e, i, 0, mf),
                         AssignElement(S, d, cls, row, p, e, i, |slots|, md),
                         cls, row, p.name, i + 1, Rest(slots, i + 1))
    decreases e, 5, 1, 0
  {
    var rest, size := Rest(slots, i), |slots|;
    SlotsOk(S, d, cls, row, p);
    assert Rest(rest, 1) == Rest(slots, i + 1);
    var current := if i < size then CurrentLink(One((done + rest)[i])) else None;
    var me := md.(diff := i < size);
    AssignElementStep(S, f, cls, row, p, e, i, 0, mf);
    AssignElementStep(S, d, cls, row, p, e, i, size, md);
    UnboxHalfway(S, f, d, cls, row, p, e, mf, me, current, done, rest);
    var uf, ud := Unbox(S, f, p, e, mf.(diff := false), None), Unbox(S, d, p, e, me, current);
    if uf.Done? {
      StoreHalfway(S, uf.st, ud.st, cls, row, p, uf.value, i, size, done, rest);
    }
  }

  /** Unboxing keeps the two sides halfway apart and gives both the same value. */
  lemma {:induction false} UnboxHalfway(S: Classes, f: Store, d: Store, cls: string, row: nat, p: Property, e: Value,
                                        mf: Mode, me: Mode, current: Option<nat>, done: seq<Slot>, rest: seq<Slot>)
    requires ValidSchema(S) && Invariant(S, d.tables, mf.migration)
    requires Pair(mf, me) && p in Props(S, cls) && p.isArray
    requires Halfway(f.tables, d.tables, cls, row, p.name, done, rest)
    requires p.base.ObjectType? && current.Some? ==> current.value < Size(d.tables, p.objectType)
    requires SeparateElement(S, p, e) && NoRecursionElement(S, p, e)
    requires AddsOnlyElement(S, d.tables, p, e, current.Some?)
    requires !Reached(S, d.tables, cls, row, p.name, TouchesElement(S, p, e))
    ensures var uf, ud := Unbox(S, f, p, e, mf, None), Unbox(S, d, p, e, me, current);
            && (uf.Done? <==> ud.Done?)
            && (uf.Threw? ==> uf.error == ud.error)
            && (uf.Done? ==>
                  && uf.value == ud.value && UnboxedOk(p, uf.value)
                  && Halfway(uf.st.tables, ud.st.tables, cls, row, p.name, done, rest)
                  && Invariant(S, ud.st.tables, mf.migration))
    decreases e, 4, 1
  {
    var f' := Store(d.tables, f.log);
    var w := Spot(cls, row, p.name, Many(done));
    Valid(S, cls, p);
    assert PatchStore(f', w) == f;
    UnboxAgrees(S, f', d, cls, p, e, mf, me, None, current);
    UnboxCommutes(S, f', cls, p, e, mf, None, w);
    UnboxContinues(S, f', cls, p, e, mf, None);
  }

  /** Storing the next element on both sides: added on one; set in place, skipped or added on the other. */
  lemma StoreHalfway(S: Classes, f: Store, d: Store, cls: string, row: nat, p: Property, u: Unboxed, i: nat, size: nat,
                     done: seq<Slot>, rest: seq<Slot>)
    requires ValidSchema(S) && Typed(S, d.tables)
    requires p in Props(S, cls) && p.isArray && UnboxedOk(p, u)
    requires Halfway(f.tables, d.tables, cls, row, p.name, done, rest)
    requires |done| == i && |rest| == if i < size then size - i else 0
    ensures AgreeHalfway(ListAdd(f, cls, row, p, u),
                         if i >= size then ListAdd(d, cls, row, p, u)
                           else PutIfDifferent(d, cls, row, p, (done + rest)[i], u, i),
                         cls, row, p.name, i + 1, Rest(rest, 1))
  {
    RefusesAlike(f.tables, d.tables, cls, row, p, u, done, rest);
    if i < size {
      PutHalfway(S, f, d, cls, row, p, u, i, done, rest);
    } else {
      assert done + rest + [ToSlot(u)] == done + [ToSlot(u)] + Rest(rest, 1);
      HalfwayStep(f.tables, d.tables, cls, row, p.name, done, rest, ToSlot(u));
    }
  }

  lemma RefusesAlike(f: Group, d: Group, cls: string, row: nat, p: Property, u: Unboxed, done: seq<Slot>,
                     rest: seq<Slot>)
    requires Halfway(f, d, cls, row, p.name, done, rest)
    ensures ListRefuses(f, p, u) == ListRefuses(d, p, u)
  {
    PutReads(d, cls, row, p.name, Many(done), if u.RowValue? then u.cls else cls, 0, p.name);
  }

  lemma PutHalfway(S: Classes, f: Store, d: Store, cls: string, row: nat, p: Property, u: Unboxed, i: nat,
                   done: seq<Slot>, rest: seq<Slot>)
    requires ValidSchema(S) && Typed(S, d.tables)
    requires p in Props(S, cls) && p.isArray && UnboxedOk(p, u)
    requires Halfway(f.tables, d.tables, cls, row, p.name, done, rest)
    requires |done| == i && |rest| > 0 && ListRefuses(f.tables, p, u) == ListRefuses(d.tables, p, u)
    ensures AgreeHalfway(ListAdd(f, cls, row, p, u), PutIfDifferent(d, cls, row, p, (done + rest)[i], u, i),
                         cls, row, p.name, i + 1, Rest(rest, 1))
  {
    var slot := ToSlot(u);
    assert (done + rest)[i := slot] == done + [slot] + Rest(rest, 1);
    if (done + rest)[i] == slot {
      assert (done + rest)[i := slot] == done + rest;
      CurrentLinkOk(S, d, cls, row, p, slot);
    }
    HalfwayStep(f.tables, d.tables, cls, row, p.name, done, rest, slot);
  }

  /** The halfway relation one element on, whether or not the diffing side writes the cell. */
  lemma HalfwayStep(f: Group, d: Group, cls: string, row: nat, column: string, done: seq<Slot>, rest: seq<Slot>,
                    slot: Slot)
    requires Halfway(f, d, cls, row, column, done, rest)
    ensures ListAt(f, cls, row, column) == done
    ensures var f' := Put(f, cls, row, column, Many(done + [slot]));
            var whole := done + [slot] + Rest(rest, 1);
            && ListAt(f', cls, row, column) == done + [slot]
            && Halfway(f', Put(d, cls, row, column, Many(whole)), cls, row, column, done + [slot], Rest(rest, 1))
            && (done + rest == whole ==> Halfway(f', d, cls, row, column, done + [slot], Rest(rest, 1)))
  {
    var whole := Many(done + [slot] + Rest(rest, 1));
    PutTwice(d, cls, row, column, Many(done), Many(done + [slot]));
    PutTwice(d, cls, row, column, whole, Many(done + [slot]));
    PutTwice(f, cls, row, column, Many(done + [slot]), whole);
  }

  /** Two overwriting assignments at the `n`-th element, in the same tables, and what its turn needs. */
  ghost predicate SameAt(S: Classes, f: Store, d: Store, cls: string, row: nat, p: Property, x: Value, n: nat,
                         migration: bool) {
    && x.Vector? && n <= |x.elems| && f.tables == d.tables
    && Invariant(S, f.tables, migration) && row < Size(f.tables, cls) && AddsOnlyElements(S, f.tables, p, x, n, 0)
    && !Reached(S, f.tables, cls, row, p.name, TouchesElements(S, p, x, n))
  }

  /** They differ only in their logs. */
  lemma {:induction false} AssignFromSame(S: Classes, f: Store, d: Store, cls: string, row: nat, p: Property, x: Value,
                                          mf: Mode, md: Mode)
    requires ValidSchema(S) && Pair(mf, md) && p in Props(S, cls) && p.isArray && x.Vector?
    requires SeparateProperty(S, p, x) && NoRecursionProperty(S, p, x)
    requires SameAt(S, f, d, cls, row, p, x, 0, mf.migration)
    ensures Agree(AssignFrom(S, f, cls, row, p, x, 0, 0, mf), AssignFrom(S, d, cls, row, p, x, 0, 0, md))
    decreases x, 5, 0, 0
  {
    var Rel := (n: nat, a: Store, b: Store) => SameAt(S, a, b, cls, row, p, x, n, mf.migration);
    forall n: nat, a, b | 0 <= n < |x.elems| && Rel(n, a, b)
      ensures Related(AssignElement(S, a, cls, row, p, x.elems[n], n, 0, mf),
                      AssignElement(S, b, cls, row, p, x.elems[n], n, 0, md), n + 1, Rel)
    {
      SameStepped(S, a, b, cls, row, p, x, n, mf, md, Rel);
    }
    AssignFromPaired(S, f, d, cls, row, p, x, 0, 0, 0, mf, md, Rel);
  }

  lemma {:induction false} SameStepped(S: Classes, f: Store, d: Store, cls: string, row: nat, p: Property, x: Value,
                                       n: nat, mf: Mode, md: Mode, Rel: (nat, Store, Store) -> bool)
    requires ValidSchema(S) && Pair(mf, md) && p in Props(S, cls) && p.isArray && x.Vector? && n < |x.elems|
    requires SeparateProperty(S, p, x) && NoRecursionProperty(S, p, x) && Rel(n, f, d)
    requires forall k, a, b :: Rel(k, a, b) <==> SameAt(S, a, b, cls, row, p, x, k, mf.migration)
    ensures Related(AssignElement(S, f, cls, row, p, x.elems[n], n, 0, mf),
                    AssignElement(S, d, cls, row, p, x.elems[n], n, 0, md), n + 1, Rel)
    decreases x, 4, 2
  {
    var of, od := AssignElement(S, f, cls, row, p, x.elems[n], n, 0, mf), AssignElement(S, d, cls, row, p, x.elems[n],
                                                                                        n, 0, md);
    AddElementSame(S, f, d, cls, row, p, x.elems[n], n, mf, md);
    NextSame(S, f, cls, row, p, x, n, mf);
    if of.Done? {
      assert SameAt(S, of.st, od.st, cls, row, p, x, n + 1, mf.migration);
    }
  }

  lemma NextSame(S: Classes, f: Store, cls: string, row: nat, p: Property, x: Value, n: nat, m: Mode)
    requires ValidSchema(S) && ReusesKeys(m) && p in Props(S, cls) && p.isArray && x.Vector? && n < |x.elems|
    requires SeparateProperty(S, p, x) && SameAt(S, f, f, cls, row, p, x, n, m.migration)
    ensures var end := AssignElement(S, f, cls, row, p, x.elems[n], n, 0, m);
            SameAt(S, end.st, end.st, cls, row, p, x, n + 1, m.migration)
  {
    var end := AssignElement(S, f, cls, row, p, x.elems[n], n, 0, m);
    AssignElementContinues(S, f, cls, row, p, x.elems[n], n, 0, m);
    assert Size(f.tables, cls) <= Size(end.st.tables, cls);
    NextElementReady(S, f, cls, row, p, x, n, 0, m);
  }

  lemma {:induction false} AddElementSame(S: Classes, f: Store, d: Store, cls: string, row: nat, p: Property, e: Value,
                                          n: nat, mf: Mode, md: Mode)
    requires ValidSchema(S) && Invariant(S, f.tables, mf.migration) && f.tables == d.tables && Pair(mf, md)
    requires p in Props(S, cls) && p.isArray
    requires SeparateElement(S, p, e) && NoRecursionElement(S, p, e) && AddsOnlyElement(S, f.tables, p, e, false)
    ensures Agree(AssignElement(S, f, cls, row, p, e, n, 0, mf), AssignElement(S, d, cls, row, p, e, n, 0, md))
    decreases e, 5, 0, 0
  {
    UnboxAgrees(S, f, d, cls, p, e, mf.(diff := false), md.(diff := false), None, None);
    AssignElementStep(S, f, cls, row, p, e, n, 0, mf);
    AssignElementStep(S, d, cls, row, p, e, n, 0, md);
  }
}
