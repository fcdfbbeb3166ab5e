/** When a create succeeds: for flat values exactly, for nested ones under a condition on the value and the rows
    there before. */
module Success {
  import opened Wrappers
  import opened Schema
  import opened Tables
  import opened ObjectAccessor
  import opened Values
  import opened Invariants
  import opened ListTrimming
  import opened FlatLists
  import opened Keys
  import opened Frame
  import opened Reuse
  import opened DiffRefinement
  import opened ReadBack
  import opened Upsert
  import opened Duplicates

  /** A row already has the key the value gives. */
  ghost predicate KeyThere(S: Classes, t: Group, cls: string, v: Value) {
    && PrimaryKey(S, cls).Some?
    && var pk := PrimaryKey(S, cls).value;
       exists row: nat ::
         row < Size(t, cls) && CellAt(t, cls, row, pk.name) == One(Scalar(SuppliedKey(pk, v)))
  }

  ghost predicate UpdatesRow(S: Classes, t: Group, cls: string, v: Value, m: Mode) {
    KeyThere(S, t, cls, v) && m.update
  }

  /** The size of a table once the value's row has been found or added. */
  ghost function SizeThen(S: Classes, t: Group, cls: string, v: Value, m: Mode, c: string): nat {
    Size(t, c) + if c == cls && !UpdatesRow(S, t, cls, v, m) then 1 else 0
  }

  /** The row is the one the value's key finds first, or the next one of the table. */
  ghost predicate IsRow(S: Classes, t: Group, cls: string, v: Value, m: Mode, row: nat) {
    if UpdatesRow(S, t, cls, v, m) then
      var pk := PrimaryKey(S, cls).value; FirstWith(t, cls, pk.name, SuppliedKey(pk, v), Some(row))
    else row == Size(t, cls)
  }

  /** What a property takes when nothing is to be created below it, `n` being the size of the table it links to: a
      list takes null unless its elements are nullable, or a vector whose every element fits. */
  ghost predicate FitsValue(p: Property, x: Value, n: nat) {
    if p.isArray then
      || (x.Null? && !p.nullable)
      || (x.Vector? && forall k :: 0 <= k < |x.elems| ==> FitsItem(p, x.elems[k], n))
    else if p.base.ObjectType? then (x.Null? && p.nullable) || (x.Managed? && x.row < n)
    else FitsScalar(p, x)
  }

  /** A list takes itself as well. */
  ghost predicate FitsFlat(cls: string, row: nat, p: Property, x: Value, n: nat) {
    FitsValue(p, x, n) || (p.isArray && x == ManagedList(cls, row, p.name))
  }

  /** The key fits and is free or to be updated, every supplied property fits, and a new row gets all it requires. */
  ghost predicate FitsCreate(S: Classes, t: Group, cls: string, v: Value, m: Mode, row: nat) {
    && cls in S && v.Dict?
    && (PrimaryKey(S, cls).Some? ==>
          FitsKey(PrimaryKey(S, cls).value, v) && (KeyThere(S, t, cls, v) ==> m.update || m.migration))
    && forall p :: p in Props(S, cls) && !p.isPrimary ==>
         if p.name in v.fields then FitsFlat(cls, row, p, v.fields[p.name], SizeThen(S, t, cls, v, m, p.objectType))
         else p.nullable || p.isArray || UpdatesRow(S, t, cls, v, m)
  }

  /** A link given null or a managed object, or a list of them, or a primitive property: nothing is created. */
  predicate FlatProperty(p: Property, x: Value) {
    p.base.ObjectType? ==>
      if p.isArray then x.Vector? ==> FlatVector(p, x) else x.Managed? || x.Null?
  }

  /** Writing such a value succeeds exactly when it fits, and adds no row. */
  lemma SetsFlat(S: Classes, st: Store, cls: string, row: nat, p: Property, x: Value, m: Mode)
    requires ValidSchema(S) && Typed(S, st.tables) && p in Props(S, cls) && row < Size(st.tables, cls)
    requires FlatProperty(p, x)
    ensures var r := SetProperty(S, st, cls, row, p, x, m);
            && (r.Done? <==> FitsFlat(cls, row, p, x, Size(st.tables, p.objectType)))
            && (r.Done? ==> forall c :: Size(r.st.tables, c) == Size(st.tables, c))
  {
    var r := SetProperty(S, st, cls, row, p, x, m);
    Valid(S, cls, p);
    if p.isArray {
      SetsFlatList(S, st, cls, row, p, x, m);
    } else if p.base.ObjectType? {
      if x.Managed? && x.row < Size(st.tables, p.objectType) {
        SetsLink(S, st, cls, row, p, x.cls, x.row, m);
      } else {
        LinkInTable(S, st, cls, row, p, x);
        SetsOtherLinks(S, st, cls, row, p, x, m);
      }
    } else {
      KeyCellTyped(S, st, cls, row, p);
      SetsScalar(S, st, cls, row, p, x, m);
    }
  }

  /** A link held targets a row of the table. */
  lemma LinkInTable(S: Classes, st: Store, cls: string, row: nat, p: Property, x: Value)
    requires ValidSchema(S) && Typed(S, st.tables) && p in Props(S, cls) && row < Size(st.tables, cls)
    requires p.base.ObjectType? && !p.isArray
    requires x.Managed? ==> x.row >= Size(st.tables, p.objectType)
    ensures x.Managed? ==> CellAt(st.tables, cls, row, p.name) != One(Link(Some(x.row)))
  {
    if x.Managed? && CellAt(st.tables, cls, row, p.name) == One(Link(Some(x.row))) {
      CurrentLinkOk(S, st, cls, row, p, Link(Some(x.row)));
    }
  }

  lemma SetsFlatList(S: Classes, st: Store, cls: string, row: nat, p: Property, x: Value, m: Mode)
    requires ValidSchema(S) && Typed(S, st.tables) && p in Props(S, cls) && row < Size(st.tables, cls)
    requires p.isArray && FlatProperty(p, x)
    ensures var r := SetProperty(S, st, cls, row, p, x, m);
            && (r.Done? <==> FitsFlat(cls, row, p, x, Size(st.tables, p.objectType)))
            && (r.Done? ==> forall c :: Size(r.st.tables, c) == Size(st.tables, c))
  {
    Valid(S, cls, p);
    if !(p.nullable && x.Null?) {
      assert SetProperty(S, st, cls, row, p, x, m) == Assign(S, st, cls, row, p, x, m);
      if x.Vector? {
        FlatAssign(S, st, cls, row, p, x, m);
      } else {
        OtherListValues(S, st, cls, row, p, x, m);
      }
    }
  }

  /** A row found needs no write; one added is one write, or two where its key is set with it. */
  ghost function LocateWrites(S: Classes, t: Group, cls: string, v: Value, m: Mode): seq<Write> {
    if UpdatesRow(S, t, cls, v, m) then []
    else if PrimaryKey(S, cls).None? || KeyThere(S, t, cls, v) then [AddedRow(cls)]
    else [AddedRow(cls), SetCell(cls, Size(t, cls), PrimaryKey(S, cls).value.name)]
  }

  lemma KeyThereFound(S: Classes, t: Group, cls: string, v: Value)
    requires PrimaryKey(S, cls).Some?
    ensures var pk := PrimaryKey(S, cls).value;
            var found := FindFirst(t, cls, pk.name, SuppliedKey(pk, v));
            && (found.Some? <==> KeyThere(S, t, cls, v))
            && FirstWith(t, cls, pk.name, SuppliedKey(pk, v), found)
  {
    FirstIsFirst(t, cls, PrimaryKey(S, cls).value.name, SuppliedKey(PrimaryKey(S, cls).value, v));
  }

  /** Locating succeeds exactly on a known class and, where there is a key, on one that fits and is free or to be
      updated or, in a migration, doubled. */
  lemma Locates(S: Classes, st: Store, cls: string, v: Value, m: Mode)
    requires ValidSchema(S)
    ensures var l := Locate(S, st, cls, v, m, None);
            && (l.Done? <==>
                  && cls in S
                  && (PrimaryKey(S, cls).Some? ==>
                        && FitsKey(PrimaryKey(S, cls).value, v)
                        && (KeyThere(S, st.tables, cls, v) ==> m.update || m.migration)))
            && (l.Done? ==>
                  && IsRow(S, st.tables, cls, v, m, l.value.row)
                  && (l.value.created <==> !UpdatesRow(S, st.tables, cls, v, m))
                  && (forall c :: Size(l.st.tables, c) == SizeThen(S, st.tables, cls, v, m, c))
                  && l.st.log == st.log + LocateWrites(S, st.tables, cls, v, m))
  {
    if PrimaryKey(S, cls).Some? {
      KeyOfFits(S, cls, PrimaryKey(S, cls).value, v);
      KeyThereFound(S, st.tables, cls, v);
    }
    if Locate(S, st, cls, v, m, None).Done? {
      LocateAdds(S, st, cls, v, m);
      LocateLogs(S, st, cls, v, m);
    }
  }

  /** What locating adds: a row or none. */
  lemma LocateAdds(S: Classes, st: Store, cls: string, v: Value, m: Mode)
    requires ValidSchema(S) && Locate(S, st, cls, v, m, None).Done?
    ensures forall c :: Size(Locate(S, st, cls, v, m, None).st.tables, c) == SizeThen(S, st.tables, cls, v, m, c)
  {
    if PrimaryKey(S, cls).Some? {
      var pk := PrimaryKey(S, cls).value;
      KeyOfFits(S, cls, pk, v);
      KeyThereFound(S, st.tables, cls, v);
      AddKeyedRowIs(S, st, cls, pk.name, SuppliedKey(pk, v));
    }
  }

  lemma LocateLogs(S: Classes, st: Store, cls: string, v: Value, m: Mode)
    requires ValidSchema(S) && Locate(S, st, cls, v, m, None).Done?
    ensures Locate(S, st, cls, v, m, None).st.log == st.log + LocateWrites(S, st.tables, cls, v, m)
  {
    if PrimaryKey(S, cls).Some? {
      var pk := PrimaryKey(S, cls).value;
      KeyOfFits(S, cls, pk, v);
      KeyThereFound(S, st.tables, cls, v);
      KeyedRowLogs(S, st, cls, pk.name, SuppliedKey(pk, v));
    }
  }

  lemma KeyedRowLogs(S: Classes, st: Store, cls: string, column: string, k: Key)
    ensures AddKeyedRow(S, st, cls, column, k).log ==
            st.log + [AddedRow(cls), SetCell(cls, Size(st.tables, cls), column)]
  {
    assert st.log + [AddedRow(cls)] + [SetCell(cls, Size(st.tables, cls), column)] ==
           st.log + [AddedRow(cls), SetCell(cls, Size(st.tables, cls), column)];
  }

  /** Otherwise nothing is written, and the error says why. */
  lemma LocateErrors(S: Classes, st: Store, cls: string, v: Value, m: Mode)
    requires ValidSchema(S) && Locate(S, st, cls, v, m, None).Threw?
    ensures var l := Locate(S, st, cls, v, m, None);
            && l.st == st
            && l.error == if cls !in S then UnknownClass
                          else if !v.Dict? then BadCast
                          else
                            var pk := PrimaryKey(S, cls).value;
                            if pk.name !in v.fields && !pk.nullable then MissingPropertyValue
                            else if pk.name in v.fields && v.fields[pk.name].Null? && !pk.nullable then InvalidNullKey
                            else if !FitsKey(pk, v) then BadCast
                            else DuplicateKey
  {
    if PrimaryKey(S, cls).Some? {
      KeyOfFits(S, cls, PrimaryKey(S, cls).value, v);
    }
  }

  /** One turn of the loop on a flat value. */
  ghost predicate FitsTurn(cls: string, target: Target, v: Value, p: Property, n: nat)
    requires v.Dict?
  {
    (target.skipPrimary && p.isPrimary) ||
    if p.name in v.fields then FitsFlat(cls, target.row, p, v.fields[p.name], n)
    else !target.created || p.nullable || p.isArray
  }

  lemma PopulatesOneFlat(S: Classes, st: Store, cls: string, target: Target, v: Value, m: Mode, p: Property)
    requires ValidSchema(S) && Typed(S, st.tables) && p in Props(S, cls) && target.row < Size(st.tables, cls)
    requires v.Dict? && (p.name in v.fields ==> FlatProperty(p, v.fields[p.name]))
    ensures var r := PopulateOne(S, st, cls, target, v, m, p);
            && (r.Done? <==> FitsTurn(cls, target, v, p, Size(st.tables, p.objectType)))
            && (r.Done? ==> forall c :: Size(r.st.tables, c) == Size(st.tables, c))
  {
    Valid(S, cls, p);
    if !(target.skipPrimary && p.isPrimary) && p.name in v.fields {
      SetsFlat(S, st, cls, target.row, p, v.fields[p.name], m);
    }
  }

  /** The error of a turn that fails; within a list it is that of an element. */
  lemma TurnErrors(S: Classes, st: Store, cls: string, target: Target, v: Value, m: Mode, p: Property)
    requires ValidSchema(S) && Typed(S, st.tables) && p in Props(S, cls) && target.row < Size(st.tables, cls)
    requires v.Dict? && (p.name in v.fields ==> FlatProperty(p, v.fields[p.name]))
    requires PopulateOne(S, st, cls, target, v, m, p).Threw?
    ensures var r := PopulateOne(S, st, cls, target, v, m, p);
            if p.name !in v.fields then r == Threw(MissingPropertyValue, st)
            else
              var x := v.fields[p.name];
              if x.Null? then r == Threw(if p.isArray then NullForNullableList else MissingPropertyValue, st)
              else if p.isArray then x.Vector? || r.error == BadCast
              else r == Threw(if p.base.ObjectType? then LinkOutOfRange else BadCast, st)
  {
    Valid(S, cls, p);
    if p.name in v.fields && !(v.fields[p.name].Null? && !p.nullable && !p.isArray) {
      var x := v.fields[p.name];
      if p.isArray {
        SetsFlatList(S, st, cls, target.row, p, x, m);
        if !x.Vector? {
          OtherListValues(S, st, cls, target.row, p, x, m);
        }
      } else if p.base.ObjectType? {
        SetsFlat(S, st, cls, target.row, p, x, m);
        LinkInTable(S, st, cls, target.row, p, x);
        SetsOtherLinks(S, st, cls, target.row, p, x, m);
      } else {
        KeyCellTyped(S, st, cls, target.row, p);
        SetsScalar(S, st, cls, target.row, p, x, m);
      }
    }
  }

  /** The turns from the `i`-th on. */
  ghost predicate FitsTurns(S: Classes, t: Group, cls: string, target: Target, v: Value, i: nat)
    requires v.Dict?
  {
    forall j :: i <= j < |Props(S, cls)| ==>
      FitsTurn(cls, target, v, Props(S, cls)[j], Size(t, Props(S, cls)[j].objectType))
  }

  lemma FitsTurnsStep(S: Classes, t: Group, t': Group, cls: string, target: Target, v: Value, i: nat)
    requires v.Dict? && i < |Props(S, cls)| && forall c :: Size(t', c) == Size(t, c)
    ensures FitsTurns(S, t, cls, target, v, i) <==>
            && FitsTurn(cls, target, v, Props(S, cls)[i], Size(t, Props(S, cls)[i].objectType))
            && FitsTurns(S, t', cls, target, v, i + 1)
  {
    forall j | i < j < |Props(S, cls)|
      ensures FitsTurn(cls, target, v, Props(S, cls)[j], Size(t, Props(S, cls)[j].objectType)) <==>
              FitsTurn(cls, target, v, Props(S, cls)[j], Size(t', Props(S, cls)[j].objectType))
    {
      assert Size(t', Props(S, cls)[j].objectType) == Size(t, Props(S, cls)[j].objectType);
    }
  }

  lemma {:induction false} PopulatesFlat(S: Classes, st: Store, cls: string, target: Target, v: Value, m: Mode, i: nat)
    requires ValidSchema(S) && Invariant(S, st.tables, m.migration) && i <= |Props(S, cls)|
    requires target.row < Size(st.tables, cls) && (target.skipPrimary || m.migration)
    requires v.Dict?
    requires forall p :: p in Props(S, cls) && p.name in v.fields ==> FlatProperty(p, v.fields[p.name])
    ensures Populate(S, st, cls, target, v, m, i).Done? <==> FitsTurns(S, st.tables, cls, target, v, i)
    decreases |Props(S, cls)| - i
  {
    PopulateStep(S, st, cls, target, v, m, i);
    if i < |Props(S, cls)| {
      var p := Props(S, cls)[i];
      var one := PopulateOne(S, st, cls, target, v, m, p);
      PopulatesOneFlat(S, st, cls, target, v, m, p);
      PopulateOneContinues(S, st, cls, target, v, m, p);
      if one.Done? {
        FitsTurnsStep(S, st.tables, one.st.tables, cls, target, v, i);
        PopulatesFlat(S, one.st, cls, target, v, m, i + 1);
      } else {
        FitsTurnsStep(S, st.tables, st.tables, cls, target, v, i);
      }
    }
  }

  /** A flat value is created exactly when it fits: in every mode, migrations included. */
  lemma FlatCreates(S: Classes, st: Store, cls: string, v: Value, m: Mode, row: nat)
    requires ValidSchema(S) && Invariant(S, st.tables, m.migration)
    requires Flat(S, cls, v) && IsRow(S, st.tables, cls, v, m, row)
    ensures Create(S, st, cls, v, m, None).Done? <==> FitsCreate(S, st.tables, cls, v, m, row)
    ensures Create(S, st, cls, v, m, None).Done? ==> Create(S, st, cls, v, m, None).value == row
  {
    var l := Locate(S, st, cls, v, m, None);
    Locates(S, st, cls, v, m);
    LocateContinues(S, st, cls, v, m, None);
    if l.Done? {
      SameIsRow(S, st.tables, cls, v, m, row, l.value.row);
      PopulatesFlat(S, l.st, cls, l.value, v, m, 0);
      TurnsFit(S, st, cls, v, m);
    }
  }

  lemma SameIsRow(S: Classes, t: Group, cls: string, v: Value, m: Mode, a: nat, b: nat)
    requires IsRow(S, t, cls, v, m, a) && IsRow(S, t, cls, v, m, b)
    ensures a == b
  {
  }

  /** The turns of the loop fit exactly when the properties do; the key of a row a migration inserts fits anyway. */
  lemma TurnsFit(S: Classes, st: Store, cls: string, v: Value, m: Mode)
    requires ValidSchema(S) && Flat(S, cls, v) && Locate(S, st, cls, v, m, None).Done?
    ensures var l := Locate(S, st, cls, v, m, None);
            FitsCreate(S, st.tables, cls, v, m, l.value.row) <==> FitsTurns(S, l.st.tables, cls, l.value, v, 0)
  {
    var l := Locate(S, st, cls, v, m, None);
    Locates(S, st, cls, v, m);
    forall j | 0 <= j < |Props(S, cls)|
      ensures Props(S, cls)[j] in Props(S, cls)
      ensures Props(S, cls)[j].isPrimary ==>
                FitsTurn(cls, l.value, v, Props(S, cls)[j], Size(l.st.tables, Props(S, cls)[j].objectType))
      ensures Props(S, cls)[j].isPrimary ==> PrimaryKey(S, cls) == Some(Props(S, cls)[j])
    {
      Valid(S, cls, Props(S, cls)[j]);
    }
  }

  /** Every part of a value, at every depth, fits the tables there before: its keys and properties fit, its managed
      objects exist, and every object gets what it requires unless it is an update of the row with its key. */
  ghost predicate Fits(S: Classes, t: Group, cls: string, v: Value, update: bool)
    decreases v, 2
  {
    && cls in S && v.Dict?
    && (PrimaryKey(S, cls).Some? ==> FitsKey(PrimaryKey(S, cls).value, v))
    && forall p :: p in Props(S, cls) && !p.isPrimary ==>
         if p.name in v.fields then FitsProperty(S, t, p, v.fields[p.name], update)
         else p.nullable || p.isArray || (update && KeyThere(S, t, cls, v))
  }

  ghost predicate FitsProperty(S: Classes, t: Group, p: Property, x: Value, update: bool)
    decreases x, 4
  {
    if p.isArray then
      || (x.Null? && !p.nullable)
      || (x.Vector? && forall k :: 0 <= k < |x.elems| ==> FitsElement(S, t, p, x.elems[k], update))
    else if p.base.ObjectType? && x.Managed? then x.row < Size(t, p.objectType)
    else (x.Null? && p.nullable) || FitsElement(S, t, p, x, update)
  }

  ghost predicate FitsElement(S: Classes, t: Group, p: Property, e: Value, update: bool)
    decreases e, 3
  {
    if p.base.ObjectType? && !e.Managed? then Fits(S, t, p.objectType, e, update)
    else FitsItem(p, e, Size(t, p.objectType))
  }

  /** A valid store later than the tables the value was judged on. */
  ghost predicate Since(S: Classes, t: Group, st: Store, m: Mode) {
    Invariant(S, st.tables, m.migration) && Later(S, t, st.tables)
  }

  /** A value that fits is created, at any depth, updating or migrating and overwriting. */
  lemma {:induction false} FitsCreates(S: Classes, t: Group, st: Store, cls: string, v: Value, m: Mode,
                                       current: Option<nat>)
    requires ValidSchema(S) && Tolerant(m) && !m.diff && Since(S, t, st, m) && Fits(S, t, cls, v, m.update)
    requires current.Some? ==> current.value < Size(st.tables, cls)
    ensures Create(S, st, cls, v, m, current).Done?
    decreases v, 3, 0
  {
    var l := Locate(S, st, cls, v, m, current);
    assert l == Locate(S, st, cls, v, m, None);
    Locates(S, st, cls, v, m);
    LocateContinues(S, st, cls, v, m, current);
    SinceThen(S, t, st, l.st, m);
    if KeyThere(S, t, cls, v) {
      KeyStaysThere(S, t, st, cls, v, m);
    }
    assert Size(t, cls) <= Size(st.tables, cls);
    FitsPopulates(S, t, l.st, cls, l.value, v, m, 0);
  }

  lemma SinceThen(S: Classes, t: Group, st: Store, st': Store, m: Mode)
    requires Since(S, t, st, m) && Continues(S, st.tables, st'.tables, m.migration)
    ensures Since(S, t, st', m)
  {
    forall cls
      ensures Size(t, cls) <= Size(st'.tables, cls)
    {
      assert Size(t, cls) <= Size(st.tables, cls);
    }
  }

  /** The same where a row that is not among them may have got another key. */
  lemma SinceThenBut(S: Classes, t: Group, st: Store, st': Store, m: Mode, cls: string, row: nat, rekeyed: bool)
    requires Since(S, t, st, m) && ContinuesBut(S, st.tables, st'.tables, m.migration, cls, row, rekeyed)
    requires rekeyed ==> row >= Size(t, cls)
    ensures Since(S, t, st', m)
  {
    forall c
      ensures Size(t, c) <= Size(st'.tables, c)
    {
      assert Size(t, c) <= Size(st.tables, c);
    }
    forall c, q: nat | PrimaryKey(S, c).Some? && q < Size(t, c)
      ensures CellAt(st'.tables, c, q, PrimaryKey(S, c).value.name) == CellAt(t, c, q, PrimaryKey(S, c).value.name)
    {
      assert Size(t, c) <= Size(st.tables, c);
      assert CellAt(st.tables, c, q, PrimaryKey(S, c).value.name) == CellAt(t, c, q, PrimaryKey(S, c).value.name);
    }
  }

  lemma KeyStaysThere(S: Classes, t: Group, st: Store, cls: string, v: Value, m: Mode)
    requires Since(S, t, st, m) && KeyThere(S, t, cls, v)
    ensures KeyThere(S, st.tables, cls, v)
  {
    var pk := PrimaryKey(S, cls).value;
    var row: nat :| row < Size(t, cls) && CellAt(t, cls, row, pk.name) == One(Scalar(SuppliedKey(pk, v)));
    assert Size(t, cls) <= Size(st.tables, cls);
    assert CellAt(st.tables, cls, row, pk.name) == CellAt(t, cls, row, pk.name);
  }

  lemma {:induction false} FitsPopulates(S: Classes, t: Group, st: Store, cls: string, target: Target, v: Value,
                                         m: Mode, i: nat)
    requires ValidSchema(S) && Tolerant(m) && !m.diff && Since(S, t, st, m) && Fits(S, t, cls, v, m.update)
    requires target.row < Size(st.tables, cls) && i <= |Props(S, cls)|
    requires target.skipPrimary || (m.migration && target.row >= Size(t, cls))
    requires target.created ==> !(m.update && KeyThere(S, t, cls, v))
    ensures Populate(S, st, cls, target, v, m, i).Done?
    decreases v, 2, |Props(S, cls)| - i
  {
    PopulateStep(S, st, cls, target, v, m, i);
    if i < |Props(S, cls)| {
      var p := Props(S, cls)[i];
      var one := PopulateOne(S, st, cls, target, v, m, p);
      PopulateOneContinues(S, st, cls, target, v, m, p);
      SinceThenBut(S, t, st, one.st, m, cls, target.row, !target.skipPrimary);
      if p.isPrimary {
        FitsKeyTurn(S, st, cls, target, v, m, p);
      } else if p.name in v.fields {
        FitsSets(S, t, st, cls, target.row, p, v.fields[p.name], m);
      }
      assert Size(st.tables, cls) <= Size(one.st.tables, cls);
      FitsPopulates(S, t, one.st, cls, target, v, m, i + 1);
    }
  }

  /** A key that fits is skipped, or set in a row a migration inserts. */
  lemma FitsKeyTurn(S: Classes, st: Store, cls: string, target: Target, v: Value, m: Mode, p: Property)
    requires ValidSchema(S) && Typed(S, st.tables) && p in Props(S, cls) && target.row < Size(st.tables, cls)
    requires p.isPrimary && FitsKey(p, v)
    ensures PopulateOne(S, st, cls, target, v, m, p).Done?
  {
    Valid(S, cls, p);
    if !target.skipPrimary && p.name in v.fields {
      KeyCellTyped(S, st, cls, target.row, p);
      SetsScalar(S, st, cls, target.row, p, v.fields[p.name], m);
    }
  }

  lemma {:induction false} FitsSets(S: Classes, t: Group, st: Store, cls: string, row: nat, p: Property, x: Value,
                                    m: Mode)
    requires ValidSchema(S) && Tolerant(m) && !m.diff && Since(S, t, st, m) && FitsProperty(S, t, p, x, m.update)
    requires p in Props(S, cls) && row < Size(st.tables, cls)
    ensures SetProperty(S, st, cls, row, p, x, m).Done?
    ensures x.Null? && !p.nullable ==> p.isArray
    decreases x, 6, 0
  {
    Valid(S, cls, p);
    assert Size(t, p.objectType) <= Size(st.tables, p.objectType);
    if p.isArray {
      if x.Vector? {
        FitsAssigns(S, t, st, cls, row, p, x, m);
      } else {
        OtherListValues(S, st, cls, row, p, x, m);
      }
    } else if p.base.ObjectType? && !(p.nullable && x.Null?) {
      FitsUpdates(S, t, st, cls, row, p, x, m);
    } else if !p.base.ObjectType? {
      KeyCellTyped(S, st, cls, row, p);
      SetsScalar(S, st, cls, row, p, x, m);
    }
  }

  lemma {:induction false} FitsUpdates(S: Classes, t: Group, st: Store, cls: string, row: nat, p: Property, x: Value,
                                       m: Mode)
    requires ValidSchema(S) && Tolerant(m) && !m.diff && Since(S, t, st, m) && FitsProperty(S, t, p, x, m.update)
    requires p in Props(S, cls) && row < Size(st.tables, cls)
    requires !p.isArray && p.base.ObjectType? && !(p.nullable && x.Null?)
    ensures SetProperty(S, st, cls, row, p, x, m).Done?
    decreases x, 5, 0
  {
    assert Size(t, p.objectType) <= Size(st.tables, p.objectType);
    if x.Managed? {
      SetsLink(S, st, cls, row, p, x.cls, x.row, m);
    } else {
      var cell := CellAt(st.tables, cls, row, p.name);
      if CurrentLink(cell).Some? {
        CurrentLinkOk(S, st, cls, row, p, cell.slot);
      }
      FitsCreates(S, t, st, p.objectType, x, m, CurrentLink(cell));
      CreateContinues(S, st, p.objectType, x, m, CurrentLink(cell));
      assert SetProperty(S, st, cls, row, p, x, m) == Update(S, st, cls, row, p, x, m);
      assert Unbox(S, st, p, x, m, CurrentLink(cell)).Done?;
    }
  }

  lemma {:induction false} FitsAssigns(S: Classes, t: Group, st: Store, cls: string, row: nat, p: Property, x: Value,
                                       m: Mode)
    requires ValidSchema(S) && Tolerant(m) && !m.diff && Since(S, t, st, m) && FitsProperty(S, t, p, x, m.update)
    requires p in Props(S, cls) && row < Size(st.tables, cls) && p.isArray && x.Vector?
    ensures SetProperty(S, st, cls, row, p, x, m).Done?
    decreases x, 5, 1
  {
    Valid(S, cls, p);
    var s0 := Clear(st, cls, row, p.name);
    WrittenContinues(S, st, cls, row, p, Many([]), ListCleared(cls, row, p.name), m.migration);
    SinceThen(S, t, st, s0, m);
    var Inv := (n: nat, s: Store) => Since(S, s0.tables, s, m) && Since(S, t, s, m);
    assert Since(S, s0.tables, s0, m);
    forall n: nat, s | 0 <= n < |x.elems| && Inv(n, s)
      ensures AssignElement(S, s, cls, row, p, x.elems[n], n, 0, m).Done?
      ensures Inv(n + 1, AssignElement(S, s, cls, row, p, x.elems[n], n, 0, m).st)
    {
      assert Size(s0.tables, cls) <= Size(s.tables, cls);
      AssignElementContinues(S, s, cls, row, p, x.elems[n], n, 0, m);
      SinceThen(S, s0.tables, s, AssignElement(S, s, cls, row, p, x.elems[n], n, 0, m).st, m);
      SinceThen(S, t, s, AssignElement(S, s, cls, row, p, x.elems[n], n, 0, m).st, m);
      FitsAdds(S, t, s, cls, row, p, x.elems[n], n, m);
    }
    AssignFromRuns(S, s0, cls, row, p, x, 0, 0, m, Inv);
    AssignSteps(S, st, cls, row, p, x, m);
  }

  lemma {:induction false} FitsAdds(S: Classes, t: Group, st: Store, cls: string, row: nat, p: Property, e: Value,
                                    n: nat, m: Mode)
    requires ValidSchema(S) && Tolerant(m) && !m.diff && Since(S, t, st, m) && FitsElement(S, t, p, e, m.update)
    requires p in Props(S, cls) && row < Size(st.tables, cls) && p.isArray
    ensures AssignElement(S, st, cls, row, p, e, n, 0, m).Done?
    decreases e, 5, 1
  {
    Valid(S, cls, p);
    AssignElementStep(S, st, cls, row, p, e, n, 0, m);
    assert Size(t, p.objectType) <= Size(st.tables, p.objectType);
    if p.base.ObjectType? && !e.Managed? {
      FitsCreates(S, t, st, p.objectType, e, m, None);
      CreateContinues(S, st, p.objectType, e, m, None);
      assert m.(diff := false) == m;
    } else {
      SlotsOk(S, st, cls, row, p);
      ElementEffect(S, st, cls, row, p, e, n, 0, m);
    }
  }

  /** A value of any depth that fits is created while updating or migrating: overwriting always, and writing
      differences where that agrees. */
  lemma NestedCreates(S: Classes, st: Store, cls: string, v: Value, m: Mode)
    requires ValidSchema(S) && Invariant(S, st.tables, m.migration) && Tolerant(m)
    requires Fits(S, st.tables, cls, v, m.update)
    requires m.diff ==>
               ReusesKeys(m) && AddsOnly(S, st.tables, cls, v) && Separate(S, cls, v) && NoRecursion(S, cls, v)
    ensures Create(S, st, cls, v, m, None).Done?
  {
    var f := m.(diff := false);
    FitsCreates(S, st.tables, st, cls, v, f, None);
    if m.diff {
      CreateAgrees(S, st, st, cls, v, f, m, None, None);
    }
  }

  /** Inserting a value that fits succeeds as well, or reports that a key is taken. */
  lemma NestedInserts(S: Classes, st: Store, cls: string, v: Value, diff: bool)
    requires ValidSchema(S) && Invariant(S, st.tables, false) && Fits(S, st.tables, cls, v, true)
    requires diff ==> AddsOnly(S, st.tables, cls, v) && Separate(S, cls, v) && NoRecursion(S, cls, v)
    ensures var r := Create(S, st, cls, v, Mode(false, diff, false), None); r.Done? || r.error == DuplicateKey
  {
    NestedCreates(S, st, cls, v, Mode(true, diff, false));
    InsertStopsOrEquals(S, st, cls, v, diff, None);
  }
}
