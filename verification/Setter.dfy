/** `Object::set_property_value`: when it succeeds, what the getter then returns, and what else can change. */
module Setter {
  import opened Wrappers
  import opened Schema
  import opened Tables
  import opened ObjectAccessor
  import opened Values
  import opened Invariants
  import opened ListTrimming
  import opened FlatLists
  import opened Keys
  import opened Frame
  import opened Reuse
  import opened ReadBack
  import opened Duplicates
  import opened Success

  /** Its two own errors, each exactly in its case and with nothing written. */
  lemma SetterRefuses(S: Classes, st: Store, cls: string, row: nat, name: string, x: Value, update: bool,
                      migration: bool)
    requires ValidSchema(S)
    ensures var r := SetPropertyValue(S, st, cls, row, name, x, update, migration);
            && (Throws(r, InvalidProperty) <==> forall p :: p in Props(S, cls) ==> p.name != name)
            && (Throws(r, ModifyPrimaryKey) <==>
                  !migration && exists p :: p in Props(S, cls) && p.name == name && p.isPrimary)
            && (Throws(r, InvalidProperty) || Throws(r, ModifyPrimaryKey) ==> r.st == st)
  {
    var found := PropertyForName(Props(S, cls), name);
    if found.Some? {
      var m := Mode(update, false, migration);
      SetPropertySpares(S, st, cls, row, found.value, x, m, InvalidProperty);
      SetPropertySpares(S, st, cls, row, found.value, x, m, ModifyPrimaryKey);
      forall p | p in Props(S, cls) && p.name == name
        ensures p == found.value
      {
        SameName(S, cls, p, found.value);
      }
    }
  }

  /** Otherwise it writes the property of that name. */
  lemma SetterWrites(S: Classes, st: Store, cls: string, row: nat, p: Property, x: Value, update: bool, migration: bool)
    requires ValidSchema(S) && p in Props(S, cls) && (p.isPrimary ==> migration)
    ensures SetPropertyValue(S, st, cls, row, p.name, x, update, migration) ==
            SetProperty(S, st, cls, row, p, x, Mode(update, false, migration))
  {
    SameName(S, cls, p, PropertyForName(Props(S, cls), p.name).value);
  }

  /** No row comes or goes and no other cell changes. */
  ghost predicate OnlyCell(t: Group, t': Group, cls: string, row: nat, column: string) {
    && (forall c :: Size(t', c) == Size(t, c))
    && forall c, q: nat, n :: (c, q, n) != (cls, row, column) ==> CellAt(t', c, q, n) == CellAt(t, c, q, n)
  }

  lemma PutOnlyCell(t: Group, cls: string, row: nat, column: string, x: Cell)
    ensures OnlyCell(t, Put(t, cls, row, column, x), cls, row, column)
  {
    forall c, q: nat, n
      ensures Size(Put(t, cls, row, column, x), c) == Size(t, c)
      ensures (c, q, n) != (cls, row, column) ==> CellAt(Put(t, cls, row, column, x), c, q, n) == CellAt(t, c, q, n)
    {
      PutReads(t, cls, row, column, x, c, q, n);
    }
  }

  /** A scalar is set exactly when it fits; the getter returns it then, and otherwise nothing is written. */
  lemma SetterScalar(S: Classes, st: Store, cls: string, row: nat, p: Property, x: Value, update: bool, migration: bool)
    requires ValidSchema(S) && Typed(S, st.tables) && p in Props(S, cls) && row < Size(st.tables, cls)
    requires !p.isArray && !p.base.ObjectType? && (p.isPrimary ==> migration)
    ensures var r := SetPropertyValue(S, st, cls, row, p.name, x, update, migration);
            && (r.Done? <==> FitsScalar(p, x))
            && (r.Done? ==>
                  GetPropertyValue(r.st.tables, cls, row, p) == x && OnlyCell(st.tables, r.st.tables, cls, row, p.name))
            && (r.Threw? ==> r.st == st)
  {
    var c := One(Scalar(if x.Boxed? then Some(x.prim) else None));
    Valid(S, cls, p);
    KeyCellTyped(S, st, cls, row, p);
    SetterWrites(S, st, cls, row, p, x, update, migration);
    SetsScalar(S, st, cls, row, p, x, Mode(update, false, migration));
    PutOnlyCell(st.tables, cls, row, p.name, c);
    PutReads(st.tables, cls, row, p.name, c, cls, row, p.name);
    GetterReads(Put(st.tables, cls, row, p.name, c), cls, row, p);
  }

  /** A link is set to null, or to any row of its table and to no other; the getter returns that. */
  lemma SetterLink(S: Classes, st: Store, cls: string, row: nat, p: Property, x: Value, update: bool, migration: bool)
    requires ValidSchema(S) && Typed(S, st.tables) && p in Props(S, cls) && row < Size(st.tables, cls)
    requires !p.isArray && p.base.ObjectType? && (x.Managed? || x.Null?)
    ensures var r := SetPropertyValue(S, st, cls, row, p.name, x, update, migration);
            && (r.Done? <==> x.Null? || x.row < Size(st.tables, p.objectType))
            && (r.Done? ==>
                  && GetPropertyValue(r.st.tables, cls, row, p) ==
                     (if x.Null? then Null else Managed(p.objectType, x.row))
                  && OnlyCell(st.tables, r.st.tables, cls, row, p.name))
            && (r.Threw? ==> r.st == st && r.error == LinkOutOfRange)
  {
    var c := One(Link(if x.Managed? then Some(x.row) else None));
    var m := Mode(update, false, migration);
    Valid(S, cls, p);
    SetterWrites(S, st, cls, row, p, x, update, migration);
    if x.Managed? && x.row < Size(st.tables, p.objectType) {
      SetsLink(S, st, cls, row, p, x.cls, x.row, m);
    } else {
      SetsOtherLinks(S, st, cls, row, p, x, m);
    }
    PutOnlyCell(st.tables, cls, row, p.name, c);
    PutReads(st.tables, cls, row, p.name, c, cls, row, p.name);
    GetterReads(Put(st.tables, cls, row, p.name, c), cls, row, p);
  }

  /** A list, of primitives or of managed objects, is assigned exactly when what is given fits; it holds the elements
      then, nothing if given null, and what it held if given itself. */
  lemma SetterList(S: Classes, st: Store, cls: string, row: nat, p: Property, x: Value, update: bool, migration: bool)
    requires ValidSchema(S) && Typed(S, st.tables) && p in Props(S, cls) && row < Size(st.tables, cls)
    requires p.isArray && FlatProperty(p, x)
    ensures var r := SetPropertyValue(S, st, cls, row, p.name, x, update, migration);
            && (r.Done? <==> FitsFlat(cls, row, p, x, Size(st.tables, p.objectType)))
            && (r.Done? ==>
                  && GetPropertyValue(r.st.tables, cls, row, p) == ManagedList(cls, row, p.name)
                  && OnlyCell(st.tables, r.st.tables, cls, row, p.name)
                  && HoldsList(CellAt(r.st.tables, cls, row, p.name), CellAt(st.tables, cls, row, p.name), x))
  {
    var m := Mode(update, false, migration);
    Valid(S, cls, p);
    SetterWrites(S, st, cls, row, p, x, update, migration);
    SetsFlatList(S, st, cls, row, p, x, m);
    if !(p.nullable && x.Null?) {
      assert SetProperty(S, st, cls, row, p, x, m) == Assign(S, st, cls, row, p, x, m);
      if x.Vector? {
        FlatAssign(S, st, cls, row, p, x, m);
        if Assign(S, st, cls, row, p, x, m).Done? {
          ListHolds(S, st, cls, row, p, x, m);
        }
        PutOnlyCell(st.tables, cls, row, p.name, Many(Slots(x)));
      } else {
        OtherListValues(S, st, cls, row, p, x, m);
        PutOnlyCell(st.tables, cls, row, p.name, Many([]));
        PutReads(st.tables, cls, row, p.name, Many([]), cls, row, p.name);
      }
    }
  }

  ghost predicate HoldsList(c: Cell, before: Cell, x: Value) {
    if x.Vector? then
      && c.Many? && |c.slots| == |x.elems|
      && forall k :: 0 <= k < |x.elems| ==>
           match x.elems[k]
           case Boxed(prim) => c.slots[k] == Scalar(Some(prim))
           case Null => c.slots[k] == Scalar(None)
           case Managed(_, q) => c.slots[k] == Link(Some(q))
           case _ => false
    else if x.Null? then c == Many([])
    else c == before
  }

  /** A value that creates objects: while updating or migrating it is enough that it fits. */
  lemma SetterCreates(S: Classes, st: Store, cls: string, row: nat, p: Property, x: Value, update: bool,
                      migration: bool)
    requires ValidSchema(S) && Invariant(S, st.tables, migration) && p in Props(S, cls) && row < Size(st.tables, cls)
    requires !p.isPrimary && (update || migration) && FitsProperty(S, st.tables, p, x, update)
    ensures SetPropertyValue(S, st, cls, row, p.name, x, update, migration).Done?
  {
    SetterWrites(S, st, cls, row, p, x, update, migration);
    FitsSets(S, st.tables, st, cls, row, p, x, Mode(update, false, migration));
  }

  /** Having succeeded, the property holds the value to every depth, where no property of an object is supplied
      twice nor this one again; unkeyed objects of this class below it are in new rows. */
  lemma SetterHolds(S: Classes, st: Store, cls: string, row: nat, p: Property, x: Value, update: bool, migration: bool)
    requires ValidSchema(S) && Invariant(S, st.tables, migration) && p in Props(S, cls) && row < Size(st.tables, cls)
    requires !p.isPrimary && (migration ==> update)
    requires DistinctProperty(S, p, x) && !Reached(S, st.tables, cls, row, p.name, TouchesProperty(S, p, x))
    requires SetPropertyValue(S, st, cls, row, p.name, x, update, migration).Done?
    ensures var t' := SetPropertyValue(S, st, cls, row, p.name, x, update, migration).st.tables;
            PropertyReflects(S, map[cls := Size(st.tables, cls)], t', cls, row, p, x)
  {
    SetterWrites(S, st, cls, row, p, x, update, migration);
    SetPropertyReflects(S, map[cls := Size(st.tables, cls)], st, cls, row, p, x, Mode(update, false, migration));
  }

  /** On every exit, whatever the value, no other cell changes but those it names. */
  lemma SetterOnlyTouches(S: Classes, st: Store, cls: string, row: nat, p: Property, x: Value, update: bool,
                          migration: bool)
    requires ValidSchema(S) && p in Props(S, cls) && !p.isPrimary
    ensures var t' := SetPropertyValue(S, st, cls, row, p.name, x, update, migration).st.tables;
            OnlyTouches(S, st.tables, t', TouchesProperty(S, p, x), cls, row, p.name)
  {
    SetterWrites(S, st, cls, row, p, x, update, migration);
    SetPropertyOnlyTouches(S, st, cls, row, p, x, Mode(update, false, migration));
  }
}
