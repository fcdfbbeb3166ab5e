/** Inserting a nested value: it succeeds exactly when no key in it is taken or occurs twice, and it changes no row
    that was there. */
module Insertion {
  import opened Wrappers
  import opened Schema
  import opened Tables
  import opened ObjectAccessor
  import opened Values
  import opened Invariants
  import opened ListTrimming
  import opened FlatLists
  import opened Keys
  import opened ReadBack
  import opened Duplicates
  import opened Success

  const INSERT := Mode(false, false, false)

  /** An object as its class and key. */
  type Named = (string, Key)

  ghost predicate Has(S: Classes, t: Group, k: Named) {
    PrimaryKey(S, k.0).Some? &&
    exists row: nat :: row < Size(t, k.0) && CellAt(t, k.0, row, PrimaryKey(S, k.0).value.name) == One(Scalar(k.1))
  }

  ghost predicate NoneOf(S: Classes, t: Group, keys: set<Named>) {
    forall k :: k in keys ==> !Has(S, t, k)
  }

  /** Exactly these keys have come to those there before. */
  ghost predicate Gains(S: Classes, t: Group, t': Group, keys: set<Named>) {
    forall k :: Has(S, t', k) <==> Has(S, t, k) || k in keys
  }

  ghost function OwnKey(S: Classes, cls: string, v: Value): set<Named> {
    if PrimaryKey(S, cls).Some? then {(cls, SuppliedKey(PrimaryKey(S, cls).value, v))} else {}
  }

  /** The keys of the objects a value describes, itself and below. */
  ghost function NewKeys(S: Classes, cls: string, v: Value): set<Named>
    decreases v, 3, 0
  {
    OwnKey(S, cls, v) + if v.Dict? then NewKeysFrom(S, cls, v, 0) else {}
  }

  ghost function NewKeysFrom(S: Classes, cls: string, v: Value, i: nat): set<Named>
    requires v.Dict? && i <= |Props(S, cls)|
    decreases v, 2, |Props(S, cls)| - i
  {
    if i == |Props(S, cls)| then {} else NewKeysAt(S, v, Props(S, cls)[i]) + NewKeysFrom(S, cls, v, i + 1)
  }

  ghost function NewKeysAt(S: Classes, v: Value, p: Property): set<Named>
    requires v.Dict?
    decreases v, 1, 0
  {
    if !p.isPrimary && p.name in v.fields then NewKeysProperty(S, p, v.fields[p.name]) else {}
  }

  ghost function NewKeysProperty(S: Classes, p: Property, x: Value): set<Named>
    decreases x, 6, 0
  {
    if p.nullable && x.Null? then {}
    else if !p.isArray then NewKeysElement(S, p, x)
    else if x.Vector? then NewKeysElements(S, p, x, 0)
    else {}
  }

  ghost function NewKeysElements(S: Classes, p: Property, x: Value, i: nat): set<Named>
    requires x.Vector? && i <= |x.elems|
    decreases x, 5, |x.elems| - i
  {
    if i == |x.elems| then {} else NewKeysElement(S, p, x.elems[i]) + NewKeysElements(S, p, x, i + 1)
  }

  ghost function NewKeysElement(S: Classes, p: Property, e: Value): set<Named>
    decreases e, 4, 0
  {
    if p.base.ObjectType? && !e.Managed? then NewKeys(S, p.objectType, e) else {}
  }

  /** No key occurs twice in the value. */
  ghost predicate KeysDiffer(S: Classes, cls: string, v: Value)
    decreases v, 3, 0
  {
    v.Dict? ==> OwnKey(S, cls, v) !! NewKeysFrom(S, cls, v, 0) && KeysDifferFrom(S, cls, v, 0)
  }

  ghost predicate KeysDifferFrom(S: Classes, cls: string, v: Value, i: nat)
    requires v.Dict? && i <= |Props(S, cls)|
    decreases v, 2, |Props(S, cls)| - i
  {
    i < |Props(S, cls)| ==>
      && KeysDifferAt(S, v, Props(S, cls)[i]) && KeysDifferFrom(S, cls, v, i + 1)
      && NewKeysAt(S, v, Props(S, cls)[i]) !! NewKeysFrom(S, cls, v, i + 1)
  }

  ghost predicate KeysDifferAt(S: Classes, v: Value, p: Property)
    requires v.Dict?
    decreases v, 1, 0
  {
    !p.isPrimary && p.name in v.fields ==> KeysDifferProperty(S, p, v.fields[p.name])
  }

  ghost predicate KeysDifferProperty(S: Classes, p: Property, x: Value)
    decreases x, 6, 0
  {
    if p.nullable && x.Null? then true
    else if !p.isArray then KeysDifferElement(S, p, x)
    else x.Vector? ==> KeysDifferElements(S, p, x, 0)
  }

  ghost predicate KeysDifferElements(S: Classes, p: Property, x: Value, i: nat)
    requires x.Vector? && i <= |x.elems|
    decreases x, 5, |x.elems| - i
  {
    i < |x.elems| ==>
      && KeysDifferElement(S, p, x.elems[i]) && KeysDifferElements(S, p, x, i + 1)
      && NewKeysElement(S, p, x.elems[i]) !! NewKeysElements(S, p, x, i + 1)
  }

  ghost predicate KeysDifferElement(S: Classes, p: Property, e: Value)
    decreases e, 4, 0
  {
    p.base.ObjectType? && !e.Managed? ==> KeysDiffer(S, p.objectType, e)
  }

  /** A step that inserts exactly these keys, if it succeeds, and does so exactly if it may. */
  ghost predicate Inserts<T>(S: Classes, t: Group, r: Step<T>, keys: set<Named>, differ: bool) {
    && (r.Done? <==> differ && NoneOf(S, t, keys))
    && (r.Done? ==> Gains(S, t, r.st.tables, keys))
  }

  lemma InsertsBoth<A, B>(S: Classes, t: Group, a: Step<A>, b: Step<B>, ka: set<Named>, kb: set<Named>, da: bool,
                          db: bool)
    requires Inserts(S, t, a, ka, da)
    requires a.Done? ==> Inserts(S, a.st.tables, b, kb, db)
    requires a.Threw? ==> b.Threw?
    ensures Inserts(S, t, b, ka + kb, da && db && ka !! kb)
  {
    if a.Done? {
      assert NoneOf(S, a.st.tables, kb) <==> NoneOf(S, t, kb) && ka !! kb by {
        if !(ka !! kb) {
          var k :| k in ka && k in kb;
          assert Has(S, a.st.tables, k);
        }
        if !NoneOf(S, t, kb) {
          var k :| k in kb && Has(S, t, k);
          assert Has(S, a.st.tables, k);
        }
      }
    }
    assert NoneOf(S, t, ka + kb) <==> NoneOf(S, t, ka) && NoneOf(S, t, kb) by {
      assert forall k :: k in ka || k in kb ==> k in ka + kb;
    }
  }

  /** Writing a column other than the key. */
  lemma WritesNoKey(S: Classes, t: Group, cls: string, row: nat, p: Property, c: Cell)
    requires ValidSchema(S) && p in Props(S, cls) && !p.isPrimary
    ensures Gains(S, t, Put(t, cls, row, p.name, c), {})
  {
    Valid(S, cls, p);
    var t' := Put(t, cls, row, p.name, c);
    forall k: Named, q: nat | PrimaryKey(S, k.0).Some?
      ensures Size(t', k.0) == Size(t, k.0)
      ensures CellAt(t', k.0, q, PrimaryKey(S, k.0).value.name) == CellAt(t, k.0, q, PrimaryKey(S, k.0).value.name)
    {
      PutReads(t, cls, row, p.name, c, k.0, q, PrimaryKey(S, k.0).value.name);
    }
  }

  /** A new row brings its own key and no other. */
  lemma AddsOwnKey(S: Classes, t: Group, cls: string, r: Row, keys: set<Named>)
    requires forall k: Named :: k in keys <==>
               PrimaryKey(S, cls).Some? && k.0 == cls && CellIn(r, PrimaryKey(S, cls).value.name) == One(Scalar(k.1))
    ensures Gains(S, t, AddRow(t, cls, r), keys)
  {
    var t' := AddRow(t, cls, r);
    forall k: Named
      ensures Has(S, t', k) <==> Has(S, t, k) || k in keys
    {
      if Has(S, t, k) {
        var q: nat :| q < Size(t, k.0) && CellAt(t, k.0, q, PrimaryKey(S, k.0).value.name) == One(Scalar(k.1));
        AddedReads(t, cls, r, k.0, q);
        assert CellAt(t', k.0, q, PrimaryKey(S, k.0).value.name) == One(Scalar(k.1));
      }
      if k in keys {
        AddedReads(t, cls, r, cls, Size(t, cls));
        assert CellAt(t', k.0, Size(t, cls), PrimaryKey(S, k.0).value.name) == One(Scalar(k.1));
      }
      if Has(S, t', k) {
        var q: nat :| q < Size(t', k.0) && CellAt(t', k.0, q, PrimaryKey(S, k.0).value.name) == One(Scalar(k.1));
        AddedReads(t, cls, r, k.0, q);
        AddedReads(t, cls, r, cls, Size(t, cls));
        if q < Size(t, k.0) {
          assert CellAt(t, k.0, q, PrimaryKey(S, k.0).value.name) == One(Scalar(k.1));
        }
      }
    }
  }

  lemma InsertLocates(S: Classes, st: Store, cls: string, v: Value)
    requires ValidSchema(S) && cls in S && (PrimaryKey(S, cls).Some? ==> FitsKey(PrimaryKey(S, cls).value, v))
    ensures Inserts(S, st.tables, Locate(S, st, cls, v, INSERT, None), OwnKey(S, cls, v), true)
    ensures var l := Locate(S, st, cls, v, INSERT, None);
            l.Done? ==> l.value.skipPrimary && !KeyThere(S, st.tables, cls, v)
  {
    var l, e := Locate(S, st, cls, v, INSERT, None), EmptyRow(Props(S, cls));
    Locates(S, st, cls, v, INSERT);
    if PrimaryKey(S, cls).Some? {
      var pk := PrimaryKey(S, cls).value;
      var key := SuppliedKey(pk, v);
      assert KeyThere(S, st.tables, cls, v) <==> Has(S, st.tables, (cls, key));
      KeyOfFits(S, cls, pk, v);
      AddKeyedRowIs(S, st, cls, pk.name, key);
      AddsOwnKey(S, st.tables, cls, e[pk.name := One(Scalar(key))], OwnKey(S, cls, v));
    } else {
      AddsOwnKey(S, st.tables, cls, e, {});
    }
  }

  /** A value that fits is inserted exactly when none of its keys is there and none occurs twice; then those are the
      keys added. */
  lemma {:induction false} InsertsNested(S: Classes, t: Group, st: Store, cls: string, v: Value, current: Option<nat>)
    requires ValidSchema(S) && Since(S, t, st, INSERT) && Fits(S, t, cls, v, true)
    requires current.Some? ==> current.value < Size(st.tables, cls)
    ensures Inserts(S, st.tables, Create(S, st, cls, v, INSERT, current), NewKeys(S, cls, v), KeysDiffer(S, cls, v))
    decreases v, 3, 0
  {
    var l := Locate(S, st, cls, v, INSERT, current);
    assert l == Locate(S, st, cls, v, INSERT, None);
    InsertLocates(S, st, cls, v);
    LocateContinues(S, st, cls, v, INSERT, current);
    if l.Done? {
      SinceThen(S, t, st, l.st, INSERT);
      if KeyThere(S, t, cls, v) {
        KeyStaysThere(S, t, st, cls, v, INSERT);
      }
      InsertsFrom(S, t, l.st, cls, l.value, v, 0);
    }
    InsertsBoth(S, st.tables, l, Create(S, st, cls, v, INSERT, current), OwnKey(S, cls, v), NewKeysFrom(S, cls, v, 0),
                true, KeysDifferFrom(S, cls, v, 0));
  }

  lemma {:induction false} InsertsFrom(S: Classes, t: Group, st: Store, cls: string, target: Target, v: Value, i: nat)
    requires ValidSchema(S) && Since(S, t, st, INSERT) && Fits(S, t, cls, v, true) && !KeyThere(S, t, cls, v)
    requires target.skipPrimary && target.row < Size(st.tables, cls) && i <= |Props(S, cls)|
    ensures Inserts(S, st.tables, Populate(S, st, cls, target, v, INSERT, i), NewKeysFrom(S, cls, v, i),
                    KeysDifferFrom(S, cls, v, i))
    decreases v, 2, |Props(S, cls)| - i
  {
    PopulateStep(S, st, cls, target, v, INSERT, i);
    if i < |Props(S, cls)| {
      var p := Props(S, cls)[i];
      var one := PopulateOne(S, st, cls, target, v, INSERT, p);
      InsertsOne(S, t, st, cls, target, v, p);
      PopulateOneContinues(S, st, cls, target, v, INSERT, p);
      if one.Done? {
        SinceThen(S, t, st, one.st, INSERT);
        assert Size(st.tables, cls) <= Size(one.st.tables, cls);
        InsertsFrom(S, t, one.st, cls, target, v, i + 1);
      }
      InsertsBoth(S, st.tables, one, Populate(S, st, cls, target, v, INSERT, i), NewKeysAt(S, v, p),
                  NewKeysFrom(S, cls, v, i + 1), KeysDifferAt(S, v, p), KeysDifferFrom(S, cls, v, i + 1));
    }
  }

  lemma {:induction false} InsertsOne(S: Classes, t: Group, st: Store, cls: string, target: Target, v: Value,
                                      p: Property)
    requires ValidSchema(S) && Since(S, t, st, INSERT) && Fits(S, t, cls, v, true) && !KeyThere(S, t, cls, v)
    requires target.skipPrimary && target.row < Size(st.tables, cls) && p in Props(S, cls)
    ensures Inserts(S, st.tables, PopulateOne(S, st, cls, target, v, INSERT, p), NewKeysAt(S, v, p),
                    KeysDifferAt(S, v, p))
    decreases v, 1, 0
  {
    Valid(S, cls, p);
    if !p.isPrimary && p.name in v.fields {
      FitsNull(S, t, p, v.fields[p.name]);
      InsertsProperty(S, t, st, cls, target.row, p, v.fields[p.name]);
    }
  }

  lemma FitsNull(S: Classes, t: Group, p: Property, x: Value)
    requires FitsProperty(S, t, p, x, true)
    ensures x.Null? && !p.nullable ==> p.isArray
  {
  }

  lemma {:induction false} InsertsProperty(S: Classes, t: Group, st: Store, cls: string, row: nat, p: Property,
                                           x: Value)
    requires ValidSchema(S) && Since(S, t, st, INSERT) && FitsProperty(S, t, p, x, true)
    requires p in Props(S, cls) && !p.isPrimary && row < Size(st.tables, cls)
    ensures Inserts(S, st.tables, SetProperty(S, st, cls, row, p, x, INSERT), NewKeysProperty(S, p, x),
                    KeysDifferProperty(S, p, x))
    decreases x, 6, 0
  {
    Valid(S, cls, p);
    if p.isArray && x.Vector? {
      InsertsList(S, t, st, cls, row, p, x);
    } else if !p.isArray && p.base.ObjectType? && !x.Managed? && !x.Null? {
      InsertsLink(S, t, st, cls, row, p, x);
    } else {
      InsertsNothing(S, t, st, cls, row, p, x);
    }
  }

  /** Null, primitives and managed objects bring no key. */
  lemma InsertsNothing(S: Classes, t: Group, st: Store, cls: string, row: nat, p: Property, x: Value)
    requires ValidSchema(S) && Since(S, t, st, INSERT) && FitsProperty(S, t, p, x, true)
    requires p in Props(S, cls) && !p.isPrimary && row < Size(st.tables, cls)
    requires x.Null? || x.Managed? || (!p.isArray && !p.base.ObjectType?)
    ensures var r := SetProperty(S, st, cls, row, p, x, INSERT); r.Done? && Gains(S, st.tables, r.st.tables, {})
    ensures NewKeysProperty(S, p, x) == {} && KeysDifferProperty(S, p, x)
  {
    Valid(S, cls, p);
    assert Size(t, p.objectType) <= Size(st.tables, p.objectType);
    if p.isArray {
      OtherListValues(S, st, cls, row, p, x, INSERT);
      WritesNoKey(S, st.tables, cls, row, p, Many([]));
    } else if p.base.ObjectType? {
      if x.Managed? {
        SetsLink(S, st, cls, row, p, x.cls, x.row, INSERT);
      } else {
        SetsOtherLinks(S, st, cls, row, p, x, INSERT);
      }
      WritesNoKey(S, st.tables, cls, row, p, One(Link(if x.Managed? then Some(x.row) else None)));
    } else {
      KeyCellTyped(S, st, cls, row, p);
      SetsScalar(S, st, cls, row, p, x, INSERT);
      WritesNoKey(S, st.tables, cls, row, p, One(Scalar(if x.Boxed? then Some(x.prim) else None)));
    }
  }

  lemma {:induction false} InsertsLink(S: Classes, t: Group, st: Store, cls: string, row: nat, p: Property, x: Value)
    requires ValidSchema(S) && Since(S, t, st, INSERT) && FitsProperty(S, t, p, x, true)
    requires p in Props(S, cls) && !p.isPrimary && row < Size(st.tables, cls)
    requires !p.isArray && p.base.ObjectType? && !x.Managed? && !x.Null?
    ensures Inserts(S, st.tables, SetProperty(S, st, cls, row, p, x, INSERT), NewKeys(S, p.objectType, x),
                    KeysDiffer(S, p.objectType, x))
    decreases x, 5, 0
  {
    var cell := CellAt(st.tables, cls, row, p.name);
    if CurrentLink(cell).Some? {
      CurrentLinkOk(S, st, cls, row, p, cell.slot);
    }
    var c := Create(S, st, p.objectType, x, INSERT, CurrentLink(cell));
    InsertsNested(S, t, st, p.objectType, x, CurrentLink(cell));
    CreateContinues(S, st, p.objectType, x, INSERT, CurrentLink(cell));
    assert SetProperty(S, st, cls, row, p, x, INSERT) == Update(S, st, cls, row, p, x, INSERT);
    if c.Done? {
      assert Unbox(S, st, p, x, INSERT, CurrentLink(cell)) == Done(RowValue(p.objectType, c.value), c.st);
      WritesNoKey(S, c.st.tables, cls, row, p, One(Link(Some(c.value))));
    } else {
      assert Unbox(S, st, p, x, INSERT, CurrentLink(cell)).Threw?;
    }
  }

  lemma {:induction false} InsertsList(S: Classes, t: Group, st: Store, cls: string, row: nat, p: Property, x: Value)
    requires ValidSchema(S) && Since(S, t, st, INSERT) && FitsProperty(S, t, p, x, true)
    requires p in Props(S, cls) && !p.isPrimary && row < Size(st.tables, cls) && p.isArray && x.Vector?
    ensures Inserts(S, st.tables, SetProperty(S, st, cls, row, p, x, INSERT), NewKeysElements(S, p, x, 0),
                    KeysDifferElements(S, p, x, 0))
    decreases x, 5, |x.elems| + 1
  {
    Valid(S, cls, p);
    var s0 := Clear(st, cls, row, p.name);
    WrittenContinues(S, st, cls, row, p, Many([]), ListCleared(cls, row, p.name), false);
    SinceThen(S, t, st, s0, INSERT);
    WritesNoKey(S, st.tables, cls, row, p, Many([]));
    InsertsElements(S, t, s0, cls, row, p, x, 0);
    AssignSteps(S, st, cls, row, p, x, INSERT);
    assert SetProperty(S, st, cls, row, p, x, INSERT) == AssignFrom(S, s0, cls, row, p, x, 0, 0, INSERT);
  }

  lemma {:induction false} InsertsElements(S: Classes, t: Group, st: Store, cls: string, row: nat, p: Property,
                                           x: Value, i: nat)
    requires ValidSchema(S) && Since(S, t, st, INSERT) && FitsProperty(S, t, p, x, true)
    requires p in Props(S, cls) && row < Size(st.tables, cls) && p.isArray && x.Vector? && i <= |x.elems|
    ensures Inserts(S, st.tables, AssignFrom(S, st, cls, row, p, x, i, 0, INSERT), NewKeysElements(S, p, x, i),
                    KeysDifferElements(S, p, x, i))
    decreases x, 5, |x.elems| - i
  {
    AssignFromStep(S, st, cls, row, p, x, i, 0, INSERT);
    if i < |x.elems| {
      var e := x.elems[i];
      var one := AssignElement(S, st, cls, row, p, e, i, 0, INSERT);
      InsertsElement(S, t, st, cls, row, p, e, i);
      AssignElementContinues(S, st, cls, row, p, e, i, 0, INSERT);
      if one.Done? {
        SinceThen(S, t, st, one.st, INSERT);
        assert Size(st.tables, cls) <= Size(one.st.tables, cls);
        InsertsElements(S, t, one.st, cls, row, p, x, i + 1);
      }
      InsertsBoth(S, st.tables, one, AssignFrom(S, st, cls, row, p, x, i, 0, INSERT), NewKeysElement(S, p, e),
                  NewKeysElements(S, p, x, i + 1), KeysDifferElement(S, p, e), KeysDifferElements(S, p, x, i + 1));
    }
  }

  lemma {:induction false} InsertsElement(S: Classes, t: Group, st: Store, cls: string, row: nat, p: Property, e: Value,
                                          n: nat)
    requires ValidSchema(S) && Since(S, t, st, INSERT) && FitsElement(S, t, p, e, true)
    requires p in Props(S, cls) && row < Size(st.tables, cls) && p.isArray
    ensures Inserts(S, st.tables, AssignElement(S, st, cls, row, p, e, n, 0, INSERT), NewKeysElement(S, p, e),
                    KeysDifferElement(S, p, e))
    decreases e, 4, 0
  {
    Valid(S, cls, p);
    SlotsOk(S, st, cls, row, p);
    assert Size(t, p.objectType) <= Size(st.tables, p.objectType);
    if p.base.ObjectType? && !e.Managed? {
      InsertsNested(S, t, st, p.objectType, e, None);
      CreateContinues(S, st, p.objectType, e, INSERT, None);
      InsertedAdds(S, st, cls, row, p, e, n);
    } else {
      ElementEffect(S, st, cls, row, p, e, n, 0, INSERT);
      WritesNoKey(S, st.tables, cls, row, p, Many(ListAt(st.tables, cls, row, p.name) + [Stored(e)]));
    }
  }

  /** A new object is added to the list whenever it could be created, and that adds no further key. */
  lemma InsertedAdds(S: Classes, st: Store, cls: string, row: nat, p: Property, e: Value, n: nat)
    requires ValidSchema(S) && Invariant(S, st.tables, false)
    requires p in Props(S, cls) && row < Size(st.tables, cls) && !p.isPrimary
    requires p.isArray && p.base.ObjectType? && !e.Managed?
    ensures var c := Create(S, st, p.objectType, e, INSERT, None);
            var r := AssignElement(S, st, cls, row, p, e, n, 0, INSERT);
            (r.Done? <==> c.Done?) && (r.Done? ==> Gains(S, c.st.tables, r.st.tables, {}))
  {
    var c := Create(S, st, p.objectType, e, INSERT, None);
    AssignElementStep(S, st, cls, row, p, e, n, 0, INSERT);
    CreateContinues(S, st, p.objectType, e, INSERT, None);
    if c.Done? {
      WritesNoKey(S, c.st.tables, cls, row, p, Many(ListAt(c.st.tables, cls, row, p.name) + [Link(Some(c.value))]));
    }
  }

  /** At the top: a value that fits is inserted exactly when its keys differ and none is taken, and otherwise a taken
      key is reported; the keys there afterwards are those there before and the value's. */
  lemma InsertSucceeds(S: Classes, st: Store, cls: string, v: Value)
    requires ValidSchema(S) && Invariant(S, st.tables, false) && Fits(S, st.tables, cls, v, true)
    ensures var r := Create(S, st, cls, v, INSERT, None);
            if KeysDiffer(S, cls, v) && NoneOf(S, st.tables, NewKeys(S, cls, v)) then
              r.Done? && Gains(S, st.tables, r.st.tables, NewKeys(S, cls, v))
            else r.Threw? && r.error == DuplicateKey
  {
    InsertsNested(S, st.tables, st, cls, v, None);
    NestedInserts(S, st, cls, v, false);
  }

  /** Every row there before is there with its contents. */
  ghost predicate Extends(t: Group, t': Group) {
    Grows(t, t') && forall c, q: nat :: q < Size(t, c) ==> RowAt(t', c, q) == RowAt(t, c, q)
  }

  lemma PutExtends(t: Group, now: Group, cls: string, row: nat, column: string, x: Cell)
    requires Extends(t, now) && row >= Size(t, cls)
    ensures Extends(t, Put(now, cls, row, column, x))
  {
    forall c, q: nat
      ensures Size(Put(now, cls, row, column, x), c) == Size(now, c)
      ensures (c, q) != (cls, row) ==> RowAt(Put(now, cls, row, column, x), c, q) == RowAt(now, c, q)
    {
      PatchReads(now, cls, row, RowAt(now, cls, row)[column := x], c, q);
    }
  }

  lemma AddExtends(t: Group, now: Group, cls: string, r: Row)
    requires Extends(t, now)
    ensures Extends(t, AddRow(now, cls, r))
  {
    forall c, q: nat
      ensures Size(AddRow(now, cls, r), c) >= Size(now, c)
      ensures q < Size(now, c) ==> RowAt(AddRow(now, cls, r), c, q) == RowAt(now, c, q)
    {
      AddedReads(now, cls, r, c, q);
    }
    forall c, q: nat | q < Size(t, c)
      ensures RowAt(AddRow(now, cls, r), c, q) == RowAt(t, c, q)
    {
      assert Size(t, c) <= Size(now, c) && RowAt(now, c, q) == RowAt(t, c, q);
    }
  }

  lemma LocateExtends(S: Classes, t: Group, st: Store, cls: string, v: Value, current: Option<nat>)
    requires Extends(t, st.tables)
    ensures var l := Locate(S, st, cls, v, INSERT, current);
            Extends(t, l.st.tables) && (l.Done? ==> l.value.row >= Size(t, cls))
  {
    var e := EmptyRow(Props(S, cls));
    assert Size(t, cls) <= Size(st.tables, cls);
    AddExtends(t, st.tables, cls, e);
    if PrimaryKey(S, cls).Some? && KeyOf(PrimaryKey(S, cls).value, v).KeyOk? {
      var pk := PrimaryKey(S, cls).value;
      var key := KeyOf(pk, v).key;
      AddKeyedRowIs(S, st, cls, pk.name, key);
      AddExtends(t, st.tables, cls, e[pk.name := One(Scalar(key))]);
    }
  }

  /** An insertion that overwrites leaves every row there before as it was, whatever the value and the exit. */
  lemma {:induction false} InsertKeepsRows(S: Classes, t: Group, st: Store, cls: string, v: Value, current: Option<nat>)
    requires Extends(t, st.tables)
    ensures Extends(t, Create(S, st, cls, v, INSERT, current).st.tables)
    decreases v, 3, 0
  {
    var l := Locate(S, st, cls, v, INSERT, current);
    LocateExtends(S, t, st, cls, v, current);
    if l.Done? {
      PopulateKeepsRows(S, t, l.st, cls, l.value, v, 0);
    }
  }

  lemma {:induction false} PopulateKeepsRows(S: Classes, t: Group, st: Store, cls: string, target: Target, v: Value,
                                             i: nat)
    requires Extends(t, st.tables) && target.row >= Size(t, cls) && i <= |Props(S, cls)|
    ensures Extends(t, Populate(S, st, cls, target, v, INSERT, i).st.tables)
    decreases v, 2, |Props(S, cls)| - i
  {
    PopulateStep(S, st, cls, target, v, INSERT, i);
    if i < |Props(S, cls)| {
      var p := Props(S, cls)[i];
      if v.Dict? && p.name in v.fields {
        PropertyKeepsRows(S, t, st, cls, target.row, p, v.fields[p.name]);
      }
      PopulateKeepsRows(S, t, PopulateOne(S, st, cls, target, v, INSERT, p).st, cls, target, v, i + 1);
    }
  }

  lemma {:induction false} PropertyKeepsRows(S: Classes, t: Group, st: Store, cls: string, row: nat, p: Property,
                                             x: Value)
    requires Extends(t, st.tables) && row >= Size(t, cls)
    ensures Extends(t, SetProperty(S, st, cls, row, p, x, INSERT).st.tables)
    decreases x, 6, 0
  {
    if p.nullable && x.Null? {
      PutExtends(t, st.tables, cls, row, p.name, One(NullSlot(p)));
    } else if p.isArray {
      ListKeepsRows(S, t, st, cls, row, p, x);
    } else {
      var current := CurrentLink(CellAt(st.tables, cls, row, p.name));
      var u := Unbox(S, st, p, x, INSERT, current);
      UnboxKeepsRows(S, t, st, p, x, current);
      assert SetProperty(S, st, cls, row, p, x, INSERT) == Update(S, st, cls, row, p, x, INSERT);
      if u.Done? {
        PutExtends(t, u.st.tables, cls, row, p.name, One(ToSlot(u.value)));
      }
    }
  }

  lemma {:induction false} UnboxKeepsRows(S: Classes, t: Group, st: Store, p: Property, x: Value, current: Option<nat>)
    requires Extends(t, st.tables)
    ensures Extends(t, Unbox(S, st, p, x, INSERT, current).st.tables)
    decreases x, 4, 0
  {
    if p.base.ObjectType? && !x.Managed? {
      InsertKeepsRows(S, t, st, p.objectType, x, current);
    }
  }

  lemma {:induction false} ListKeepsRows(S: Classes, t: Group, st: Store, cls: string, row: nat, p: Property, x: Value)
    requires Extends(t, st.tables) && row >= Size(t, cls) && p.isArray
    ensures Extends(t, Assign(S, st, cls, row, p, x, INSERT).st.tables)
    decreases x, 5, 1
  {
    var s0 := Clear(st, cls, row, p.name);
    PutExtends(t, st.tables, cls, row, p.name, Many([]));
    if x.Vector? && !p.base.LinkingObjectsType? {
      var Inv := (s: Store) => Extends(t, s.tables);
      forall s, j: nat | 0 <= j < |x.elems| && Inv(s)
        ensures Inv(AssignElement(S, s, cls, row, p, x.elems[j], j, 0, INSERT).st)
      {
        ElementKeepsRows(S, t, s, cls, row, p, x.elems[j], j);
      }
      AssignFromAlways(S, s0, cls, row, p, x, 0, 0, INSERT, Inv);
      AssignSteps(S, st, cls, row, p, x, INSERT);
    }
  }

  lemma {:induction false} ElementKeepsRows(S: Classes, t: Group, st: Store, cls: string, row: nat, p: Property,
                                            e: Value, n: nat)
    requires Extends(t, st.tables) && row >= Size(t, cls)
    ensures Extends(t, AssignElement(S, st, cls, row, p, e, n, 0, INSERT).st.tables)
    decreases e, 5, 0
  {
    var u := Unbox(S, st, p, e, INSERT, None);
    AssignElementStep(S, st, cls, row, p, e, n, 0, INSERT);
    UnboxKeepsRows(S, t, st, p, e, None);
    if u.Done? {
      var now := ListAt(u.st.tables, cls, row, p.name);
      PutExtends(t, u.st.tables, cls, row, p.name, Many(now + [ToSlot(u.value)]));
      PutExtends(t, u.st.tables, cls, row, p.name, Many(now + [DefaultSlot(p)]));
    }
  }
}
