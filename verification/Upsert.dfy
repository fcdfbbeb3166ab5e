/** What a client sees of `Object::create`: read-back, frame, defaults, lookup and duplicate rejection. */
module Upsert {
  import opened Wrappers
  import opened Schema
  import opened Tables
  import opened ObjectAccessor
  import opened Values
  import opened Frame
  import opened Invariants
  import opened Reuse
  import opened DiffRefinement
  import opened ReadBack

  /** The row's cells can be changed only where the value names them: always for a keyed object; for an unkeyed
      one unless diffing may update it in place. */
  ghost predicate Guarded(S: Classes, cls: string, v: Value, m: Mode, c: string) {
    PrimaryKey(S, c).Some? || !m.diff || KeyedValue(S, cls, v)
  }

  /** Exceptions included, only cells the value names are changed; a row with none of them is the same row. */
  lemma CreateUntouched(S: Classes, st: Store, cls: string, v: Value, m: Mode)
    requires ValidSchema(S)
    ensures var t' := Create(S, st, cls, v, m, None).st.tables;
            forall c, q: nat, n ::
              q < Size(st.tables, c) && Guarded(S, cls, v, m, c) &&
                !Reached(S, st.tables, c, q, n, Touches(S, cls, v)) ==>
                CellAt(t', c, q, n) == CellAt(st.tables, c, q, n)
    ensures var t' := Create(S, st, cls, v, m, None).st.tables;
            forall c, q: nat ::
              q < Size(st.tables, c) && Guarded(S, cls, v, m, c) && RowApart(S, st.tables, c, q, Touches(S, cls, v)) ==>
                RowAt(t', c, q) == RowAt(st.tables, c, q)
  {
    var t' := Create(S, st, cls, v, m, None).st.tables;
    forall c, q: nat, n |
      q < Size(st.tables, c) && Guarded(S, cls, v, m, c) && !Reached(S, st.tables, c, q, n, Touches(S, cls, v))
      ensures CellAt(t', c, q, n) == CellAt(st.tables, c, q, n)
    {
      CreateKeepsCell(S, st, cls, v, m, c, q, n);
    }
    forall c, q: nat |
      q < Size(st.tables, c) && Guarded(S, cls, v, m, c) && RowApart(S, st.tables, c, q, Touches(S, cls, v))
      ensures RowAt(t', c, q) == RowAt(st.tables, c, q)
    {
      CreateKeepsRow(S, st, cls, v, m, c, q);
    }
  }

  /** None of the row's cells is named. */
  ghost predicate RowApart(S: Classes, t: Group, cls: string, row: nat, touched: set<Touch>) {
    forall n :: !Reached(S, t, cls, row, n, touched)
  }

  lemma CreateKeepsRow(S: Classes, st: Store, cls: string, v: Value, m: Mode, c: string, q: nat)
    requires ValidSchema(S) && q < Size(st.tables, c) && Guarded(S, cls, v, m, c)
    requires RowApart(S, st.tables, c, q, Touches(S, cls, v))
    ensures RowAt(Create(S, st, cls, v, m, None).st.tables, c, q) == RowAt(st.tables, c, q)
  {
    var before, after := RowAt(st.tables, c, q), RowAt(Create(S, st, cls, v, m, None).st.tables, c, q);
    forall n
      ensures CellIn(after, n) == CellIn(before, n) && (n in after <==> n in before)
    {
      CreateKeepsCell(S, st, cls, v, m, c, q, n);
    }
    SameRow(before, after);
  }

  lemma CreateKeepsCell(S: Classes, st: Store, cls: string, v: Value, m: Mode, c: string, q: nat, column: string)
    requires ValidSchema(S) && q < Size(st.tables, c) && Guarded(S, cls, v, m, c)
    requires !Reached(S, st.tables, c, q, column, Touches(S, cls, v))
    ensures var t' := Create(S, st, cls, v, m, None).st.tables;
            && CellAt(t', c, q, column) == CellAt(st.tables, c, q, column)
            && (column in RowAt(t', c, q) <==> column in RowAt(st.tables, c, q))
  {
    CreateCommutes(S, st, cls, v, m, None, Spot(c, q, column, CellAt(st.tables, c, q, column)));
  }

  lemma SameRow(a: Row, b: Row)
    requires forall n :: CellIn(a, n) == CellIn(b, n) && (n in a <==> n in b)
    ensures a == b
  {
    forall n | n in a
      ensures a[n] == b[n]
    {
      assert CellIn(a, n) == CellIn(b, n);
    }
  }

  /** Populating leaves alone every column of the row that the value neither supplies nor names below. */
  lemma PopulateKeepsMissing(S: Classes, st: Store, cls: string, target: Target, v: Value, m: Mode, column: string)
    requires ValidSchema(S) && v.Dict? && Guarded(S, cls, v, m, cls)
    requires target.skipPrimary && target.row < Size(st.tables, cls)
    requires column !in OwnColumns(S, cls, v) &&
             !Reached(S, st.tables, cls, target.row, column, TouchesFrom(S, cls, v, 0))
    ensures CellAt(Populate(S, st, cls, target, v, m, 0).st.tables, cls, target.row, column) ==
            CellAt(st.tables, cls, target.row, column)
  {
    var w := Spot(cls, target.row, column, CellAt(st.tables, cls, target.row, column));
    forall j | 0 <= j < |Props(S, cls)|
      ensures PopulatesBeside(S, cls, target, v, Props(S, cls)[j], w)
    {
      var p := Props(S, cls)[j];
      Valid(S, cls, p);
      if !p.isPrimary && p.name in v.fields {
        assert p.name in OwnColumns(S, cls, v);
      }
    }
    PopulateCommutes(S, st, cls, target, v, m, 0, w);
  }

  lemma {:induction false} PopulateNeedsRequired(S: Classes, st: Store, cls: string, target: Target, v: Value, m: Mode,
                                                 i: nat, p: Property)
    requires i <= |Props(S, cls)| && p in Props(S, cls)[i..]
    requires target.created && !p.isPrimary && !p.nullable && !p.isArray
    requires Populate(S, st, cls, target, v, m, i).Done?
    ensures v.Dict? && p.name in v.fields && !v.fields[p.name].Null?
    decreases |Props(S, cls)| - i
  {
    if Props(S, cls)[i] != p {
      var one := PopulateOne(S, st, cls, target, v, m, Props(S, cls)[i]);
      PopulateNeedsRequired(S, one.st, cls, target, v, m, i + 1, p);
    }
  }

  /** What a create makes of its row: an existing row keeps every column the value neither supplies nor names
      below, a new row reads the default there, and nothing required was missing or null. */
  ghost predicate Filled(S: Classes, t: Group, t': Group, cls: string, v: Value, row: nat)
    requires v.Dict?
  {
    && row <= Size(t, cls)
    && (row < Size(t, cls) ==>
          forall column ::
            column !in OwnColumns(S, cls, v) && !Reached(S, t, cls, row, column, TouchesFrom(S, cls, v, 0)) ==>
              CellAt(t', cls, row, column) == CellAt(t, cls, row, column))
    && (row == Size(t, cls) ==>
          forall p :: p in Props(S, cls) && !p.isPrimary ==>
            && (p.name !in v.fields && !Reached(S, t', cls, row, p.name, TouchesFrom(S, cls, v, 0)) ==>
                  CellAt(t', cls, row, p.name) == DefaultCell(p))
            && (!p.nullable && !p.isArray ==> p.name in v.fields && !v.fields[p.name].Null?))
  }

  lemma CreateFills(S: Classes, st: Store, cls: string, v: Value, m: Mode)
    requires ValidSchema(S) && Invariant(S, st.tables, m.migration) && ReusesKeys(m)
    requires v.Dict? && Guarded(S, cls, v, m, cls) && Create(S, st, cls, v, m, None).Done?
    ensures var r := Create(S, st, cls, v, m, None); Filled(S, st.tables, r.st.tables, cls, v, r.value)
  {
    var l, r := Locate(S, st, cls, v, m, None), Create(S, st, cls, v, m, None);
    var row := l.value.row;
    LocateContinues(S, st, cls, v, m, None);
    LocateFinds(S, st, cls, v, m, None);
    PopulateContinues(S, l.st, cls, l.value, v, m, 0);
    if l.value.created {
      forall p | p in Props(S, cls) && !p.isPrimary
        ensures p.name !in v.fields && !Reached(S, r.st.tables, cls, row, p.name, TouchesFrom(S, cls, v, 0)) ==>
                  CellAt(r.st.tables, cls, row, p.name) == DefaultCell(p)
        ensures !p.nullable && !p.isArray ==> p.name in v.fields && !v.fields[p.name].Null?
      {
        if p.name !in v.fields && !Reached(S, r.st.tables, cls, row, p.name, TouchesFrom(S, cls, v, 0)) {
          NewRowDefault(S, st, cls, v, m, p);
        }
        if !p.nullable && !p.isArray {
          PopulateNeedsRequired(S, l.st, cls, l.value, v, m, 0, p);
        }
      }
    } else {
      forall column |
        column !in OwnColumns(S, cls, v) && !Reached(S, st.tables, cls, row, column, TouchesFrom(S, cls, v, 0))
        ensures CellAt(r.st.tables, cls, row, column) == CellAt(st.tables, cls, row, column)
      {
        PopulateKeepsMissing(S, l.st, cls, l.value, v, m, column);
      }
    }
  }

  /** A successful create, of any depth: the row is filled, and it holds the value if nothing is supplied twice.
      Diffing needs, for an unkeyed class, that it adds only, and for the value held likewise. */
  lemma CreateSucceeds(S: Classes, st: Store, cls: string, v: Value, m: Mode)
    requires ValidSchema(S) && Invariant(S, st.tables, m.migration) && ReusesKeys(m)
    requires v.Dict? && Create(S, st, cls, v, m, None).Done?
    requires PrimaryKey(S, cls).Some? || !m.diff ||
             (AddsOnly(S, st.tables, cls, v) && Separate(S, cls, v) && NoRecursion(S, cls, v))
    ensures var r := Create(S, st, cls, v, m, None); Filled(S, st.tables, r.st.tables, cls, v, r.value)
    ensures Distinct(S, cls, v) && (!m.diff || AddsOnly(S, st.tables, cls, v)) ==>
              var r := Create(S, st, cls, v, m, None); Reflects(S, map[], r.st.tables, cls, v, r.value)
  {
    if Distinct(S, cls, v) && (!m.diff || AddsOnly(S, st.tables, cls, v)) {
      CreateReflects(S, map[], st, cls, v, m, None);
    }
    if Guarded(S, cls, v, m, cls) {
      CreateFills(S, st, cls, v, m);
    } else {
      CreateAgrees(S, st, st, cls, v, m.(diff := false), m, None, None);
      CreateFills(S, st, cls, v, m.(diff := false));
    }
  }

  /** A column of a created row is at its default where the value does not reach. */
  lemma NewRowDefault(S: Classes, st: Store, cls: string, v: Value, m: Mode, p: Property)
    requires ValidSchema(S) && Invariant(S, st.tables, m.migration) && ReusesKeys(m) && v.Dict?
    requires Guarded(S, cls, v, m, cls) && p in Props(S, cls) && !p.isPrimary && p.name !in v.fields
    requires Create(S, st, cls, v, m, None).Done? && Locate(S, st, cls, v, m, None).value.created
    requires var r := Create(S, st, cls, v, m, None);
             !Reached(S, r.st.tables, cls, r.value, p.name, TouchesFrom(S, cls, v, 0))
    ensures var r := Create(S, st, cls, v, m, None); CellAt(r.st.tables, cls, r.value, p.name) == DefaultCell(p)
  {
    var l, r := Locate(S, st, cls, v, m, None), Create(S, st, cls, v, m, None);
    FreshRow(S, st, cls, v, m, p);
    LocateContinues(S, st, cls, v, m, None);
    PopulateContinues(S, l.st, cls, l.value, v, m, 0);
    ReachedLater(S, l.st.tables, r.st.tables, cls, r.value, p.name, TouchesFrom(S, cls, v, 0));
    PopulateKeepsMissing(S, l.st, cls, l.value, v, m, p.name);
  }

  /** Reading a property the row reflects returns what was supplied: primitives and null as they were, a
      managed object of the link's class as the same handle, and for a nested value a handle on a row
      that holds it. */
  lemma PropertyReadsBack(S: Classes, from: Floors, t: Group, cls: string, row: nat, p: Property, x: Value)
    requires ValidSchema(S) && Typed(S, t) && p in Props(S, cls) && row < Size(t, cls)
    requires !p.isArray && PropertyReflects(S, from, t, cls, row, p, x)
    ensures var got := GetPropertyValue(t, cls, row, p);
            if !p.base.ObjectType? || x.Null? then got == x
            else if x.Managed? then got == Managed(p.objectType, x.row)
            else got.Managed? && got.cls == p.objectType && Reflects(S, from, t, p.objectType, x, got.row)
  {
    Valid(S, cls, p);
    assert RowOk(S, t, cls, RowAt(t, cls, row));
    assert CellOk(t, p, CellAt(t, cls, row, p.name));
  }

  /** A created row starts with every other column at its default. */
  lemma FreshRow(S: Classes, st: Store, cls: string, v: Value, m: Mode, p: Property)
    requires ValidSchema(S) && ReusesKeys(m) && p in Props(S, cls) && !p.isPrimary
    requires Locate(S, st, cls, v, m, None).Done? && Locate(S, st, cls, v, m, None).value.created
    ensures var l := Locate(S, st, cls, v, m, None); CellAt(l.st.tables, cls, l.value.row, p.name) == DefaultCell(p)
  {
    var i :| 0 <= i < |Props(S, cls)| && Props(S, cls)[i] == p;
    assert ValidObjectSchema(S, S[cls]);
    Valid(S, cls, p);
    match PrimaryKey(S, cls)
    case None =>
      AddedReads(st.tables, cls, EmptyRow(Props(S, cls)), cls, 0);
    case Some(pk) =>
      var key := KeyOf(pk, v).key;
      AddKeyedRowIs(S, st, cls, pk.name, key);
      AddedReads(st.tables, cls, EmptyRow(Props(S, cls))[pk.name := One(Scalar(key))], cls, 0);
  }

  /** A value whose links are null or already managed. */
  ghost predicate Flat(S: Classes, cls: string, v: Value) {
    v.Dict? && forall p :: p in Props(S, cls) && p.name in v.fields && p.base.ObjectType? ==>
      var x := v.fields[p.name];
      && (!p.isArray ==> x.Managed? || x.Null?)
      && (p.isArray && x.Vector? ==> forall i :: 0 <= i < |x.elems| ==> x.elems[i].Managed?)
  }

  lemma {:induction false} FlatElements(S: Classes, p: Property, x: Value, i: nat)
    requires x.Vector? && i <= |x.elems|
    requires forall k :: 0 <= k < |x.elems| ==> TouchesElement(S, p, x.elems[k]) == {}
    ensures TouchesElements(S, p, x, i) == {}
    decreases |x.elems| - i
  {
    if i < |x.elems| {
      FlatElements(S, p, x, i + 1);
    }
  }

  lemma {:induction false} FlatFrom(S: Classes, cls: string, v: Value, i: nat)
    requires Flat(S, cls, v) && i <= |Props(S, cls)|
    ensures TouchesFrom(S, cls, v, i) == {}
    ensures forall j :: i <= j < |Props(S, cls)| ==> TouchesAt(S, v, Props(S, cls)[j]) == {}
    decreases |Props(S, cls)| - i
  {
    if i < |Props(S, cls)| {
      FlatFrom(S, cls, v, i + 1);
      var p := Props(S, cls)[i];
      if p.name in v.fields {
        var x := v.fields[p.name];
        if p.isArray && x.Vector? {
          FlatElements(S, p, x, 0);
        } else if p.base.ObjectType? && x.Null? {
          NullTouches(S, p);
        }
        assert TouchesProperty(S, p, x) == {};
      }
    }
  }

  lemma NullTouches(S: Classes, p: Property)
    ensures TouchesElement(S, p, Null) == {}
  {
  }

  lemma FlatIsDistinct(S: Classes, cls: string, v: Value)
    requires Flat(S, cls, v)
    ensures Distinct(S, cls, v) && Touches(S, cls, v) == OwnTouches(S, cls, v) && TouchesFrom(S, cls, v, 0) == {}
  {
    FlatFrom(S, cls, v, 0);
    forall p | p in Props(S, cls) && p.name in v.fields
      ensures DistinctProperty(S, p, v.fields[p.name])
    {
      var x := v.fields[p.name];
      if p.isArray && x.Vector? {
        assert forall i :: 0 <= i < |x.elems| ==> DistinctElement(S, p, x.elems[i]);
      }
    }
  }

  /** A flat value creates nothing below itself. */
  lemma FlatIsKeyed(S: Classes, cls: string, v: Value)
    requires ValidSchema(S) && Flat(S, cls, v)
    ensures KeyedValue(S, cls, v)
  {
    forall p | p in Props(S, cls) && p.name in v.fields
      ensures KeyedProperty(S, p, v.fields[p.name])
    {
      Valid(S, cls, p);
      var x := v.fields[p.name];
      if p.isArray && x.Vector? {
        assert forall i :: 0 <= i < |x.elems| ==> KeyedElement(S, p, x.elems[i]);
      }
    }
  }

  /** A successful flat create changes no existing row but the one it returns, in a migration too. */
  lemma FlatChangesOneRow(S: Classes, st: Store, cls: string, v: Value, m: Mode)
    requires ValidSchema(S) && Flat(S, cls, v) && Create(S, st, cls, v, m, None).Done?
    ensures var r := Create(S, st, cls, v, m, None);
            forall c, q: nat :: q < Size(st.tables, c) && (c, q) != (cls, r.value) ==>
                                  RowAt(r.st.tables, c, q) == RowAt(st.tables, c, q)
  {
    var l, r := Locate(S, st, cls, v, m, None), Create(S, st, cls, v, m, None);
    FlatIsDistinct(S, cls, v);
    FlatIsKeyed(S, cls, v);
    forall c, q: nat | q < Size(st.tables, c) && (c, q) != (cls, r.value)
      ensures RowAt(r.st.tables, c, q) == RowAt(st.tables, c, q)
    {
      forall n
        ensures CellAt(r.st.tables, c, q, n) == CellAt(st.tables, c, q, n)
        ensures n in RowAt(r.st.tables, c, q) <==> n in RowAt(st.tables, c, q)
      {
        var w := Spot(c, q, n, CellAt(st.tables, c, q, n));
        LocateCommutes(S, st, cls, v, m, None, w);
        PopulateCommutes(S, l.st, cls, l.value, v, m, 0, w);
      }
      SameRow(RowAt(st.tables, c, q), RowAt(r.st.tables, c, q));
    }
  }

  /** A successful flat create, whatever the mode and the schema: the row holds the value and every column the
      value does not supply is as it was, or at its default in a new row. */
  lemma FlatSucceeds(S: Classes, st: Store, cls: string, v: Value, m: Mode)
    requires ValidSchema(S) && Invariant(S, st.tables, m.migration) && ReusesKeys(m)
    requires Flat(S, cls, v) && Create(S, st, cls, v, m, None).Done?
    ensures var r := Create(S, st, cls, v, m, None);
            var t, t', row := st.tables, r.st.tables, r.value;
            && Reflects(S, map[], t', cls, v, row)
            && (row < Size(t, cls) ==>
                  forall column :: column !in v.fields ==> CellAt(t', cls, row, column) == CellAt(t, cls, row, column))
            && (row >= Size(t, cls) ==>
                  forall p :: p in Props(S, cls) && !p.isPrimary && p.name !in v.fields ==>
                                CellAt(t', cls, row, p.name) == DefaultCell(p))
  {
    var r := Create(S, st, cls, v, m, None);
    FlatIsDistinct(S, cls, v);
    FlatIsKeyed(S, cls, v);
    KeyedAddsOnly(S, st.tables, cls, v);
    CreateFills(S, st, cls, v, m);
    CreateReflects(S, map[], st, cls, v, m, None);
    forall column | column !in v.fields && r.value < Size(st.tables, cls)
      ensures CellAt(r.st.tables, cls, r.value, column) == CellAt(st.tables, cls, r.value, column)
    {
      assert !Reached(S, st.tables, cls, r.value, column, TouchesFrom(S, cls, v, 0));
    }
    forall p | p in Props(S, cls) && !p.isPrimary && p.name !in v.fields && r.value >= Size(st.tables, cls)
      ensures CellAt(r.st.tables, cls, r.value, p.name) == DefaultCell(p)
    {
      assert !Reached(S, r.st.tables, cls, r.value, p.name, TouchesFrom(S, cls, v, 0));
    }
  }

  /** The key a value gives, null if it gives none. */
  function GivenKey(pk: Property, v: Value): Value {
    if v.Dict? && pk.name in v.fields then v.fields[pk.name] else Null
  }

  /** Looking up the key a create was given finds the row it returned, for every value and mode, except exactly
      where a migration inserts under a key that is taken: there the older row is found. */
  lemma LookupAfterCreate(S: Classes, st: Store, cls: string, v: Value, m: Mode, current: Option<nat>)
    requires ValidSchema(S) && Invariant(S, st.tables, m.migration) && PrimaryKey(S, cls).Some?
    requires current.Some? ==> current.value < Size(st.tables, cls)
    requires Create(S, st, cls, v, m, current).Done?
    ensures var r, given := Create(S, st, cls, v, m, current), GivenKey(PrimaryKey(S, cls).value, v);
            var before, after := GetForPrimaryKey(S, st, cls, given), GetForPrimaryKey(S, r.st, cls, given);
            && before.Done? && after.Done? && after.value.Some?
            && (after.value == Some(r.value) <==> ReusesKeys(m) || before.value.None?)
            && (before.value.Some? ==> after.value == before.value)
  {
    var l, r := Locate(S, st, cls, v, m, current), Create(S, st, cls, v, m, current);
    var pk := PrimaryKey(S, cls).value;
    var key := KeyOf(pk, v).key;
    LocateContinues(S, st, cls, v, m, current);
    CreateContinues(S, st, cls, v, m, current);
    if FindFirst(st.tables, cls, pk.name, key).Some? {
      LookupLater(S, st.tables, r.st.tables, cls, pk, key);
    } else {
      AddKeyedRowIs(S, st, cls, pk.name, key);
      FindAppended(Rows(st.tables, cls), EmptyRow(Props(S, cls))[pk.name := One(Scalar(key))], pk.name, key);
      PopulateContinues(S, l.st, cls, l.value, v, m, 0);
      LookupLater(S, l.st.tables, r.st.tables, cls, pk, key);
    }
  }
}
