/** When a create reports a taken primary key: never while updating or migrating, and at the top level, with
    nothing written, exactly when the key is there. */
module Duplicates {
  import opened Wrappers
  import opened Schema
  import opened Tables
  import opened ObjectAccessor
  import opened Invariants
  import opened Upsert

  predicate Throws<T>(s: Step<T>, e: Error) {
    s.Threw? && s.error == e
  }

  predicate Refused<T>(s: Step<T>) {
    Throws(s, DuplicateKey)
  }

  predicate Tolerant(m: Mode) {
    m.update || m.migration
  }

  /** No create, at any depth, refuses a key while updating or migrating. */
  lemma CreateTolerates(S: Classes, st: Store, cls: string, v: Value, m: Mode, current: Option<nat>)
    requires Tolerant(m)
    ensures !Refused(Create(S, st, cls, v, m, current))
  {
    CreateSpares(S, st, cls, v, m, current, DuplicateKey);
  }

  /** Errors that population never throws: the setter's own and, while updating or migrating, a taken key. */
  predicate Foreign(m: Mode, e: Error) {
    e == ModifyPrimaryKey || e == InvalidProperty || e == MissingPrimaryKey || (e == DuplicateKey && Tolerant(m))
  }

  lemma {:induction false} CreateSpares(S: Classes, st: Store, cls: string, v: Value, m: Mode, current: Option<nat>,
                                        e: Error)
    requires Foreign(m, e)
    ensures !Throws(Create(S, st, cls, v, m, current), e)
    decreases v, 3, 0
  {
    var l := Locate(S, st, cls, v, m, current);
    if l.Done? {
      PopulateSpares(S, l.st, cls, l.value, v, m, 0, e);
    }
  }

  lemma {:induction false} PopulateSpares(S: Classes, st: Store, cls: string, target: Target, v: Value, m: Mode, i: nat,
                                          e: Error)
    requires Foreign(m, e) && i <= |Props(S, cls)|
    ensures !Throws(Populate(S, st, cls, target, v, m, i), e)
    decreases v, 2, |Props(S, cls)| - i
  {
    PopulateStep(S, st, cls, target, v, m, i);
    if i < |Props(S, cls)| {
      var p := Props(S, cls)[i];
      if v.Dict? && p.name in v.fields {
        SetPropertySpares(S, st, cls, target.row, p, v.fields[p.name], m, e);
      }
      PopulateSpares(S, PopulateOne(S, st, cls, target, v, m, p).st, cls, target, v, m, i + 1, e);
    }
  }

  lemma {:induction false} SetPropertySpares(S: Classes, st: Store, cls: string, row: nat, p: Property, x: Value,
                                             m: Mode, e: Error)
    requires Foreign(m, e)
    ensures !Throws(SetProperty(S, st, cls, row, p, x, m), e)
    decreases x, 5, 1
  {
    if !p.isArray {
      UnboxSpares(S, st, p, x, m, CurrentLink(CellAt(st.tables, cls, row, p.name)), e);
    } else if x.Vector? {
      var size := |Elements(CellAt(st.tables, cls, row, p.name))|;
      AssignFromSpares(S, st, cls, row, p, x, 0, size, m, e);
      TrimToSpares(AssignFrom(S, st, cls, row, p, x, 0, size, m).st, cls, row, p.name, |x.elems|, size, e);
      AssignFromSpares(S, Clear(st, cls, row, p.name), cls, row, p, x, 0, 0, m, e);
    }
  }

  lemma {:induction false} UnboxSpares(S: Classes, st: Store, p: Property, x: Value, m: Mode, current: Option<nat>,
                                       e: Error)
    requires Foreign(m, e)
    ensures !Throws(Unbox(S, st, p, x, m, current), e)
    decreases x, 4, 0
  {
    if p.base.ObjectType? && !x.Managed? {
      CreateSpares(S, st, p.objectType, x, m, current, e);
    }
  }

  lemma {:induction false} AssignFromSpares(S: Classes, st: Store, cls: string, row: nat, p: Property, x: Value, i: nat,
                                            size: nat, m: Mode, e: Error)
    requires Foreign(m, e) && x.Vector? && i <= |x.elems|
    ensures !Throws(AssignFrom(S, st, cls, row, p, x, i, size, m), e)
    decreases x, 5, 0, |x.elems| - i
  {
    AssignFromStep(S, st, cls, row, p, x, i, size, m);
    if i < |x.elems| {
      AssignElementSpares(S, st, cls, row, p, x.elems[i], i, size, m, e);
      AssignFromSpares(S, AssignElement(S, st, cls, row, p, x.elems[i], i, size, m).st, cls, row, p, x, i + 1, size, m,
                       e);
    }
  }

  lemma {:induction false} AssignElementSpares(S: Classes, st: Store, cls: string, row: nat, p: Property, x: Value,
                                               i: nat, size: nat, m: Mode, e: Error)
    requires Foreign(m, e)
    ensures !Throws(AssignElement(S, st, cls, row, p, x, i, size, m), e)
    decreases x, 5, 0, 0
  {
    var slots := Elements(CellAt(st.tables, cls, row, p.name));
    AssignElementStep(S, st, cls, row, p, x, i, size, m);
    UnboxSpares(S, st, p, x, m.(diff := false), None, e);
    if i < size && i < |slots| {
      UnboxSpares(S, st, p, x, m.(diff := true), CurrentLink(One(slots[i])), e);
    }
  }

  lemma {:induction false} TrimToSpares(st: Store, cls: string, row: nat, column: string, index: nat, size: nat,
                                        e: Error)
    requires e != OutOfBounds
    ensures !Throws(TrimTo(st, cls, row, column, index, size), e)
    decreases size
  {
    TrimToStep(st, cls, row, column, index, size);
    if index < size {
      TrimToSpares(ListRemove(st, cls, row, column, size - 1).st, cls, row, column, index, size - 1, e);
    }
  }

  /** What an insertion does: a taken key stops it, or updating would have done the same. */
  predicate StopsOrEquals<T(==)>(insert: Step<T>, update: Step<T>) {
    Refused(insert) || insert == update
  }

  /** Outside a migration the flag for updating decides about taken keys only: a create without it reports one, at
      some depth, or does exactly what a create with it does. */
  lemma {:induction false} InsertStopsOrEquals(S: Classes, st: Store, cls: string, v: Value, diff: bool,
                                               current: Option<nat>)
    ensures StopsOrEquals(Create(S, st, cls, v, Mode(false, diff, false), current),
                          Create(S, st, cls, v, Mode(true, diff, false), current))
    decreases v, 3, 0
  {
    var l := Locate(S, st, cls, v, Mode(false, diff, false), current);
    if l.Done? {
      PopulateStopsOrEquals(S, l.st, cls, l.value, v, diff, 0);
    }
  }

  lemma {:induction false} PopulateStopsOrEquals(S: Classes, st: Store, cls: string, target: Target, v: Value,
                                                 diff: bool, i: nat)
    requires i <= |Props(S, cls)|
    ensures StopsOrEquals(Populate(S, st, cls, target, v, Mode(false, diff, false), i),
                          Populate(S, st, cls, target, v, Mode(true, diff, false), i))
    decreases v, 2, |Props(S, cls)| - i
  {
    PopulateStep(S, st, cls, target, v, Mode(false, diff, false), i);
    PopulateStep(S, st, cls, target, v, Mode(true, diff, false), i);
    if i < |Props(S, cls)| {
      var p := Props(S, cls)[i];
      if v.Dict? && p.name in v.fields {
        SetPropertyStopsOrEquals(S, st, cls, target.row, p, v.fields[p.name], diff);
      }
      var one := PopulateOne(S, st, cls, target, v, Mode(false, diff, false), p);
      assert StopsOrEquals(one, PopulateOne(S, st, cls, target, v, Mode(true, diff, false), p));
      if one.Done? {
        PopulateStopsOrEquals(S, one.st, cls, target, v, diff, i + 1);
      }
    }
  }

  lemma {:induction false} SetPropertyStopsOrEquals(S: Classes, st: Store, cls: string, row: nat, p: Property,
                                                    x: Value, diff: bool)
    ensures StopsOrEquals(SetProperty(S, st, cls, row, p, x, Mode(false, diff, false)),
                          SetProperty(S, st, cls, row, p, x, Mode(true, diff, false)))
    decreases x, 5, 1
  {
    if !p.isArray {
      UnboxStopsOrEquals(S, st, p, x, diff, CurrentLink(CellAt(st.tables, cls, row, p.name)));
    } else if x.Vector? && !p.base.LinkingObjectsType? {
      var size := |Elements(CellAt(st.tables, cls, row, p.name))|;
      AssignSteps(S, st, cls, row, p, x, Mode(false, diff, false));
      AssignSteps(S, st, cls, row, p, x, Mode(true, diff, false));
      AssignFromStopsOrEquals(S, st, cls, row, p, x, 0, size, diff);
      AssignFromStopsOrEquals(S, Clear(st, cls, row, p.name), cls, row, p, x, 0, 0, diff);
    }
  }

  lemma {:induction false} UnboxStopsOrEquals(S: Classes, st: Store, p: Property, x: Value, diff: bool,
                                              current: Option<nat>)
    ensures StopsOrEquals(Unbox(S, st, p, x, Mode(false, diff, false), current),
                          Unbox(S, st, p, x, Mode(true, diff, false), current))
    decreases x, 4, 0
  {
    if p.base.ObjectType? && !x.Managed? {
      InsertStopsOrEquals(S, st, p.objectType, x, diff, current);
    }
  }

  lemma {:induction false} AssignFromStopsOrEquals(S: Classes, st: Store, cls: string, row: nat, p: Property, x: Value,
                                                   i: nat, size: nat, diff: bool)
    requires x.Vector? && i <= |x.elems|
    ensures StopsOrEquals(AssignFrom(S, st, cls, row, p, x, i, size, Mode(false, diff, false)),
                          AssignFrom(S, st, cls, row, p, x, i, size, Mode(true, diff, false)))
    decreases x, 5, 0, |x.elems| - i
  {
    AssignFromStep(S, st, cls, row, p, x, i, size, Mode(false, diff, false));
    AssignFromStep(S, st, cls, row, p, x, i, size, Mode(true, diff, false));
    if i < |x.elems| {
      AssignElementStopsOrEquals(S, st, cls, row, p, x.elems[i], i, size, diff);
      var one := AssignElement(S, st, cls, row, p, x.elems[i], i, size, Mode(false, diff, false));
      if one.Done? {
        AssignFromStopsOrEquals(S, one.st, cls, row, p, x, i + 1, size, diff);
      }
    }
  }

  lemma {:induction false} AssignElementStopsOrEquals(S: Classes, st: Store, cls: string, row: nat, p: Property,
                                                      e: Value, i: nat, size: nat, diff: bool)
    ensures StopsOrEquals(AssignElement(S, st, cls, row, p, e, i, size, Mode(false, diff, false)),
                          AssignElement(S, st, cls, row, p, e, i, size, Mode(true, diff, false)))
    decreases e, 5, 0, 0
  {
    var slots := Elements(CellAt(st.tables, cls, row, p.name));
    AssignElementStep(S, st, cls, row, p, e, i, size, Mode(false, diff, false));
    AssignElementStep(S, st, cls, row, p, e, i, size, Mode(true, diff, false));
    UnboxStopsOrEquals(S, st, p, e, false, None);
    if i < size && i < |slots| {
      UnboxStopsOrEquals(S, st, p, e, true, CurrentLink(One(slots[i])));
    }
  }

  /** The value's key is taken: looking it up finds a row. */
  ghost predicate Taken(S: Classes, st: Store, cls: string, v: Value) {
    && PrimaryKey(S, cls).Some?
    && var pk := PrimaryKey(S, cls).value;
       && v.Dict? && (pk.name in v.fields || pk.nullable)
       && GetForPrimaryKey(S, st, cls, GivenKey(pk, v)).Done?
       && GetForPrimaryKey(S, st, cls, GivenKey(pk, v)).value.Some?
  }

  /** A create is refused as a duplicate with the store untouched exactly when it neither updates nor migrates
      and its key is taken; a duplicate further down is refused only after something was written. */
  lemma DuplicateRejected(S: Classes, st: Store, cls: string, v: Value, m: Mode, current: Option<nat>)
    requires ValidSchema(S) && Invariant(S, st.tables, m.migration)
    requires current.Some? ==> PrimaryKey(S, cls).Some? && current.value < Size(st.tables, cls)
    ensures Create(S, st, cls, v, m, current) == Threw(DuplicateKey, st) <==>
            cls in S && !Tolerant(m) && Taken(S, st, cls, v)
  {
    var l := Locate(S, st, cls, v, m, current);
    if l.Done? {
      LocateContinues(S, st, cls, v, m, current);
      PopulateContinues(S, l.st, cls, l.value, v, m, 0);
      var end := Populate(S, l.st, cls, l.value, v, m, 0);
      if l.value.created {
        assert Size(end.st.tables, cls) > Size(st.tables, cls);
      } else {
        CreateTolerates(S, st, cls, v, m, current);
      }
    }
  }

  /** Whenever finding the row throws, nothing has been written. */
  lemma NothingBeforeLocate(S: Classes, st: Store, cls: string, v: Value, m: Mode, current: Option<nat>)
    requires Locate(S, st, cls, v, m, current).Threw?
    ensures Create(S, st, cls, v, m, current) == Threw(Locate(S, st, cls, v, m, current).error, st)
  {
  }
}
