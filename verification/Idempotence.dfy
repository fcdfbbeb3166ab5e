/** Creating again, in diff mode, what the tables already hold: the tables stay as they are, and the only
    writes are the clears issued for lists given as null. */
module Idempotence {
  import opened Wrappers
  import opened Schema
  import opened Tables
  import opened ObjectAccessor
  import opened Values
  import opened Invariants
  import opened ListTrimming
  import opened Reuse
  import opened ReadBack
  import opened Upsert

  /** How many list properties the value gives as null; each is cleared unconditionally. */
  ghost function NullLists(S: Classes, cls: string, v: Value): nat
    decreases v, 2, 0
  {
    if v.Dict? then NullListsFrom(S, cls, v, 0) else 0
  }

  ghost function NullListsFrom(S: Classes, cls: string, v: Value, i: nat): nat
    requires v.Dict? && i <= |Props(S, cls)|
    decreases v, 1, |Props(S, cls)| - i
  {
    if i == |Props(S, cls)| then 0
    else
      var p := Props(S, cls)[i];
      (if !p.isPrimary && p.name in v.fields then NullListsIn(S, p, v.fields[p.name]) else 0) +
      NullListsFrom(S, cls, v, i + 1)
  }

  ghost function NullListsIn(S: Classes, p: Property, x: Value): nat
    decreases x, 5, 0
  {
    if p.nullable && x.Null? then 0
    else if !p.isArray then NullListsBelow(S, p, x)
    else if x.Null? then 1
    else if x.Vector? then NullListsAmong(S, p, x, 0)
    else 0
  }

  ghost function NullListsAmong(S: Classes, p: Property, x: Value, i: nat): nat
    requires x.Vector? && i <= |x.elems|
    decreases x, 4, |x.elems| - i
  {
    if i == |x.elems| then 0 else NullListsBelow(S, p, x.elems[i]) + NullListsAmong(S, p, x, i + 1)
  }

  ghost function NullListsBelow(S: Classes, p: Property, e: Value): nat
    decreases e, 3, 0
  {
    if !p.base.ObjectType? || e.Managed? then 0 else NullLists(S, p.objectType, e)
  }

  /** Same tables, and a log that grew by exactly `n` entries. */
  ghost predicate Quiet(st: Store, st': Store, n: nat) {
    st'.tables == st.tables && st.log <= st'.log && |st'.log| == |st.log| + n
  }

  const DIFF := Mode(true, true, false)

  /** Creating what a row holds finds that row and leaves the tables; an unkeyed object is found as the
      current row. */
  lemma {:induction false} CreateQuiet(S: Classes, from: Floors, st: Store, cls: string, v: Value, current: Option<nat>,
                                       row: nat)
    requires ValidSchema(S) && Typed(S, st.tables)
    requires cls in S && (PrimaryKey(S, cls).Some? || current == Some(row)) && Reflects(S, from, st.tables, cls, v, row)
    ensures var r := Create(S, st, cls, v, DIFF, current);
            r.Done? && r.value == row && Quiet(st, r.st, NullLists(S, cls, v))
    decreases v, 3, 0
  {
    if v.Dict? {
      PopulateQuiet(S, from, st, cls, Target(row, false, true), v, 0);
    }
  }

  lemma {:induction false} PopulateQuiet(S: Classes, from: Floors, st: Store, cls: string, target: Target, v: Value,
                                         i: nat)
    requires ValidSchema(S) && Typed(S, st.tables)
    requires cls in S && v.Dict? && Reflects(S, from, st.tables, cls, v, target.row)
    requires i <= |Props(S, cls)| && !target.created && target.skipPrimary
    ensures var r := Populate(S, st, cls, target, v, DIFF, i); r.Done? && Quiet(st, r.st, NullListsFrom(S, cls, v, i))
    decreases v, 2, |Props(S, cls)| - i
  {
    PopulateStep(S, st, cls, target, v, DIFF, i);
    if i < |Props(S, cls)| {
      var p := Props(S, cls)[i];
      PopulateOneQuiet(S, from, st, cls, target, v, p);
      var one := PopulateOne(S, st, cls, target, v, DIFF, p);
      PopulateQuiet(S, from, one.st, cls, target, v, i + 1);
    }
  }

  lemma {:induction false} PopulateOneQuiet(S: Classes, from: Floors, st: Store, cls: string, target: Target, v: Value,
                                            p: Property)
    requires ValidSchema(S) && Typed(S, st.tables)
    requires p in Props(S, cls) && v.Dict? && Reflects(S, from, st.tables, cls, v, target.row)
    requires !target.created && target.skipPrimary
    ensures var r := PopulateOne(S, st, cls, target, v, DIFF, p);
            r.Done? &&
            Quiet(st, r.st, if !p.isPrimary && p.name in v.fields then NullListsIn(S, p, v.fields[p.name]) else 0)
    decreases v, 1, 0
  {
    Valid(S, cls, p);
    if !p.isPrimary && p.name in v.fields {
      SetPropertyQuiet(S, Inside(S, from, cls, target.row), st, cls, target.row, p, v.fields[p.name]);
    }
  }

  lemma {:induction false} SetPropertyQuiet(S: Classes, from: Floors, st: Store, cls: string, row: nat, p: Property,
                                            x: Value)
    requires ValidSchema(S) && Typed(S, st.tables)
    requires p in Props(S, cls) && row < Size(st.tables, cls) && PropertyReflects(S, from, st.tables, cls, row, p, x)
    ensures var r := SetProperty(S, st, cls, row, p, x, DIFF); r.Done? && Quiet(st, r.st, NullListsIn(S, p, x))
    decreases x, 6, 0
  {
    Valid(S, cls, p);
    var c := CellAt(st.tables, cls, row, p.name);
    if p.nullable && x.Null? {
    } else if !p.isArray {
      UnboxQuiet(S, from, st, cls, p, x, c.slot);
    } else if x.Null? {
      PutSame(st.tables, cls, row, p.name);
    } else if x.Vector? {
      AssignFromQuiet(S, from, st, cls, row, p, x, 0);
    }
  }

  lemma {:induction false} UnboxQuiet(S: Classes, from: Floors, st: Store, cls: string, p: Property, e: Value,
                                      slot: Slot)
    requires ValidSchema(S) && Typed(S, st.tables)
    requires p in Props(S, cls) && ElementReflects(S, from, st.tables, p, e, slot)
    ensures var u := Unbox(S, st, p, e, DIFF, CurrentLink(One(slot)));
            && u.Done? && ToSlot(u.value) == slot && Quiet(st, u.st, NullListsBelow(S, p, e))
            && (p.isArray && u.value.RowValue? ==> u.value.cls == p.objectType)
    decreases e, 4, 0
  {
    Valid(S, cls, p);
    if !p.base.ObjectType? {
      CastsUnbox(p, e);
    }
    if p.base.ObjectType? && !e.Managed? {
      CreateQuiet(S, from, st, p.objectType, e, slot.target, slot.target.value);
    }
  }

  lemma {:induction false} AssignFromQuiet(S: Classes, from: Floors, st: Store, cls: string, row: nat, p: Property,
                                           x: Value, i: nat)
    requires ValidSchema(S) && Typed(S, st.tables)
    requires p in Props(S, cls) && x.Vector? && i <= |x.elems|
    requires CellAt(st.tables, cls, row, p.name).Many? && |ListAt(st.tables, cls, row, p.name)| == |x.elems|
    requires ElementsReflect(S, from, st.tables, p, x, ListAt(st.tables, cls, row, p.name), |x.elems|)
    ensures var r := AssignFrom(S, st, cls, row, p, x, i, |x.elems|, DIFF);
            r.Done? && Quiet(st, r.st, NullListsAmong(S, p, x, i))
    decreases x, 5, 0, |x.elems| - i
  {
    AssignFromStep(S, st, cls, row, p, x, i, |x.elems|, DIFF);
    if i < |x.elems| {
      var slot := ListAt(st.tables, cls, row, p.name)[i];
      assert ElementReflects(S, from, st.tables, p, x.elems[i], slot);
      Valid(S, cls, p);
      UnboxQuiet(S, from, st, cls, p, x.elems[i], slot);
      var one := AssignElement(S, st, cls, row, p, x.elems[i], i, |x.elems|, DIFF);
      AssignElementStep(S, st, cls, row, p, x.elems[i], i, |x.elems|, DIFF);
      AssignFromQuiet(S, from, one.st, cls, row, p, x, i + 1);
    }
  }

  /** After a successful create, creating the same value again in diff mode finds the same row and leaves
      the tables as they are.  It writes nothing at all exactly when no list in the value is null. */
  lemma CreateAgain(S: Classes, st: Store, cls: string, v: Value, m: Mode)
    requires ValidSchema(S) && Invariant(S, st.tables, m.migration) && ReusesKeys(m)
    requires PrimaryKey(S, cls).Some? && Distinct(S, cls, v) && (!m.diff || AddsOnly(S, st.tables, cls, v))
    requires Create(S, st, cls, v, m, None).Done?
    ensures var first := Create(S, st, cls, v, m, None);
            var again := Create(S, first.st, cls, v, DIFF, None);
            && again.Done? && again.value == first.value
            && again.st.tables == first.st.tables
            && |again.st.log| == |first.st.log| + NullLists(S, cls, v)
            && (again.st == first.st <==> NullLists(S, cls, v) == 0)
  {
    var first := Create(S, st, cls, v, m, None);
    CreateContinues(S, st, cls, v, m, None);
    CreateReflects(S, map[], st, cls, v, m, None);
    CreateQuiet(S, map[], first.st, cls, v, None, first.value);
  }

  /** For a flat value no condition is left. */
  lemma FlatAgain(S: Classes, st: Store, cls: string, v: Value, m: Mode)
    requires ValidSchema(S) && Invariant(S, st.tables, m.migration) && ReusesKeys(m)
    requires PrimaryKey(S, cls).Some? && Flat(S, cls, v) && Create(S, st, cls, v, m, None).Done?
    ensures var first := Create(S, st, cls, v, m, None);
            var again := Create(S, first.st, cls, v, DIFF, None);
            again.Done? && again.value == first.value && (again.st == first.st <==> NullLists(S, cls, v) == 0)
  {
    FlatIsDistinct(S, cls, v);
    FlatIsKeyed(S, cls, v);
    KeyedAddsOnly(S, st.tables, cls, v);
    CreateAgain(S, st, cls, v, m);
  }
}
