/** Which key a create and a lookup mean: the one given. */
module Keys {
  import opened Wrappers
  import opened Schema
  import opened Tables
  import opened ObjectAccessor
  import opened Invariants
  import opened Values

  /** Looking up a primitive of the key's type gives the first row whose key it is, and none exactly when there is
      no such row. */
  lemma LookupFinds(S: Classes, st: Store, cls: string, pk: Property, prim: Prim)
    requires PrimaryKey(S, cls) == Some(pk) && OfType(pk.base, prim)
    ensures var r := GetForPrimaryKey(S, st, cls, Boxed(prim));
            r.Done? && r.st == st && FirstWith(st.tables, cls, pk.name, Some(prim), r.value)
  {
    PrimUnboxes(pk, Boxed(prim));
    FirstIsFirst(st.tables, cls, pk.name, Some(prim));
  }

  lemma LookupFindsNull(S: Classes, st: Store, cls: string, pk: Property)
    requires ValidSchema(S) && PrimaryKey(S, cls) == Some(pk) && pk.nullable
    ensures var r := GetForPrimaryKey(S, st, cls, Null);
            r.Done? && r.st == st && FirstWith(st.tables, cls, pk.name, None, r.value)
  {
    Valid(S, cls, pk);
    PrimUnboxes(pk, Null);
    NullUnboxes(pk);
    FirstIsFirst(st.tables, cls, pk.name, None);
  }

  /** Every other lookup is refused, for the reason it is. */
  lemma LookupRefuses(S: Classes, st: Store, cls: string, kv: Value)
    requires PrimaryKey(S, cls).Some? ==>
               var pk := PrimaryKey(S, cls).value;
               !(kv.Boxed? && OfType(pk.base, kv.prim)) && !(kv.Null? && pk.nullable)
    ensures GetForPrimaryKey(S, st, cls, kv) ==
            Threw(if PrimaryKey(S, cls).None? then MissingPrimaryKey
                  else if kv.Null? then InvalidNullKey
                  else BadCast, st)
  {
    if PrimaryKey(S, cls).Some? {
      PrimUnboxes(PrimaryKey(S, cls).value, kv);
    }
  }

  /** A key a dictionary may give: a primitive of the type, or none or null where it is nullable. */
  predicate FitsKey(pk: Property, v: Value) {
    v.Dict? &&
    if pk.name in v.fields then FitsScalar(pk, v.fields[pk.name]) else pk.nullable
  }

  /** The key a dictionary gives, none standing for null. */
  function SuppliedKey(pk: Property, v: Value): Key {
    if v.Dict? && pk.name in v.fields && v.fields[pk.name].Boxed? then Some(v.fields[pk.name].prim) else None
  }

  lemma KeyOfFits(S: Classes, cls: string, pk: Property, v: Value)
    requires ValidSchema(S) && PrimaryKey(S, cls) == Some(pk)
    ensures KeyOf(pk, v).KeyOk? <==> FitsKey(pk, v)
    ensures KeyOf(pk, v).KeyOk? ==> KeyOf(pk, v).key == SuppliedKey(pk, v)
  {
    Valid(S, cls, pk);
    NullUnboxes(pk);
    PrimUnboxes(pk, Null);
    if v.Dict? && pk.name in v.fields {
      PrimUnboxes(pk, v.fields[pk.name]);
    }
  }

  /** After a successful create, in a migration too, the key column of its row holds the key given. */
  lemma CreatedKey(S: Classes, st: Store, cls: string, v: Value, m: Mode, current: Option<nat>)
    requires ValidSchema(S) && Invariant(S, st.tables, m.migration) && PrimaryKey(S, cls).Some?
    requires current.Some? ==> current.value < Size(st.tables, cls)
    requires Create(S, st, cls, v, m, current).Done?
    ensures var r, pk := Create(S, st, cls, v, m, current), PrimaryKey(S, cls).value;
            var c := CellAt(r.st.tables, cls, r.value, pk.name);
            && v.Dict?
            && if pk.name !in v.fields then c == One(Scalar(None))
               else match v.fields[pk.name]
                 case Null => c == One(Scalar(None))
                 case Boxed(prim) => c == One(Scalar(Some(prim)))
                 case _ => false
  {
    var l, pk := Locate(S, st, cls, v, m, current), PrimaryKey(S, cls).value;
    KeyOfFits(S, cls, pk, v);
    LocateContinues(S, st, cls, v, m, current);
    if l.value.skipPrimary {
      LocatedKey(S, st, cls, v, m, current);
      PopulateContinues(S, l.st, cls, l.value, v, m, 0);
      var t' := Populate(S, l.st, cls, l.value, v, m, 0).st.tables;
      assert CellAt(t', cls, l.value.row, pk.name) == CellAt(l.st.tables, cls, l.value.row, pk.name);
    } else {
      MigratedKey(S, st, cls, v, m, current);
    }
  }

  /** A located row that keeps its key has the one given. */
  lemma LocatedKey(S: Classes, st: Store, cls: string, v: Value, m: Mode, current: Option<nat>)
    requires PrimaryKey(S, cls).Some? && Locate(S, st, cls, v, m, current).Done?
    ensures var l, pk := Locate(S, st, cls, v, m, current), PrimaryKey(S, cls).value;
            KeyOf(pk, v).KeyOk? &&
            (l.value.skipPrimary ==> CellAt(l.st.tables, cls, l.value.row, pk.name) == One(Scalar(KeyOf(pk, v).key)))
  {
    var pk := PrimaryKey(S, cls).value;
    AddKeyedRowIs(S, st, cls, pk.name, KeyOf(pk, v).key);
  }

  /** The property loop sets the key of a row a migration inserts, and leaves it from then on. */
  lemma MigratedKey(S: Classes, st: Store, cls: string, v: Value, m: Mode, current: Option<nat>)
    requires ValidSchema(S) && Invariant(S, st.tables, m.migration) && PrimaryKey(S, cls).Some?
    requires current.Some? ==> current.value < Size(st.tables, cls)
    requires Create(S, st, cls, v, m, current).Done? && !Locate(S, st, cls, v, m, current).value.skipPrimary
    ensures var r, pk := Create(S, st, cls, v, m, current), PrimaryKey(S, cls).value;
            CellAt(r.st.tables, cls, r.value, pk.name) == One(Scalar(SuppliedKey(pk, v)))
  {
    var l, pk := Locate(S, st, cls, v, m, current), PrimaryKey(S, cls).value;
    LocateContinues(S, st, cls, v, m, current);
    KeyOfFits(S, cls, pk, v);
    Valid(S, cls, pk);
    var j :| 0 <= j < |Props(S, cls)| && Props(S, cls)[j] == pk;
    if pk.name in v.fields {
      var Any := (s: Store) => Invariant(S, s.tables, m.migration) && l.value.row < Size(s.tables, cls);
      forall n: nat, s | 0 <= n < j && Any(s) && PopulateOne(S, s, cls, l.value, v, m, Props(S, cls)[n]).Done?
        ensures Any(PopulateOne(S, s, cls, l.value, v, m, Props(S, cls)[n]).st)
      {
        PopulateOneContinues(S, s, cls, l.value, v, m, Props(S, cls)[n]);
        assert Size(s.tables, cls) <= Size(PopulateOne(S, s, cls, l.value, v, m, Props(S, cls)[n]).st.tables, cls);
      }
      var s := PopulateUpTo(S, l.st, cls, l.value, v, m, 0, j, Any);
      KeySet(S, s, cls, l.value, v, m, j);
    } else {
      MissingKeyKept(S, st, cls, v, m, current);
    }
  }

  lemma KeySet(S: Classes, s: Store, cls: string, target: Target, v: Value, m: Mode, j: nat)
    requires ValidSchema(S) && Invariant(S, s.tables, m.migration) && m.migration && !target.skipPrimary
    requires target.row < Size(s.tables, cls) && j < |Props(S, cls)| && PrimaryKey(S, cls) == Some(Props(S, cls)[j])
    requires v.Dict? && Props(S, cls)[j].name in v.fields && FitsKey(Props(S, cls)[j], v)
    requires Populate(S, s, cls, target, v, m, j).Done?
    ensures var pk := Props(S, cls)[j];
            CellAt(Populate(S, s, cls, target, v, m, j).st.tables, cls, target.row, pk.name) ==
            One(Scalar(SuppliedKey(pk, v)))
  {
    var pk := Props(S, cls)[j];
    var one := PopulateOne(S, s, cls, target, v, m, pk);
    Valid(S, cls, pk);
    PopulateStep(S, s, cls, target, v, m, j);
    PopulateOneContinues(S, s, cls, target, v, m, pk);
    KeyCellTyped(S, s, cls, target.row, pk);
    SetsScalar(S, s, cls, target.row, pk, v.fields[pk.name], m);
    PutReads(s.tables, cls, target.row, pk.name, One(Scalar(SuppliedKey(pk, v))), cls, target.row, pk.name);
    assert Size(s.tables, cls) <= Size(one.st.tables, cls);
    RestKeepsKey(S, one.st, cls, target, v, m, j + 1, One(Scalar(SuppliedKey(pk, v))));
  }

  lemma KeyCellTyped(S: Classes, st: Store, cls: string, row: nat, p: Property)
    requires ValidSchema(S) && Typed(S, st.tables) && p in Props(S, cls) && row < Size(st.tables, cls)
    requires !p.isArray && !p.base.ObjectType?
    ensures CellAt(st.tables, cls, row, p.name) == One(Scalar(None)) ==> p.nullable
  {
    if CellAt(st.tables, cls, row, p.name) == One(Scalar(None)) {
      CurrentLinkOk(S, st, cls, row, p, Scalar(None));
    }
  }

  /** The properties after the key leave it alone. */
  lemma RestKeepsKey(S: Classes, st: Store, cls: string, target: Target, v: Value, m: Mode, i: nat, c: Cell)
    requires ValidSchema(S) && Invariant(S, st.tables, m.migration) && m.migration && PrimaryKey(S, cls).Some?
    requires 0 < i <= |Props(S, cls)| && target.row < Size(st.tables, cls)
    requires PrimaryKey(S, cls).value == Props(S, cls)[i - 1]
    requires CellAt(st.tables, cls, target.row, PrimaryKey(S, cls).value.name) == c
    requires Populate(S, st, cls, target, v, m, i).Done?
    ensures CellAt(Populate(S, st, cls, target, v, m, i).st.tables, cls, target.row, PrimaryKey(S, cls).value.name) == c
  {
    var key, n := PrimaryKey(S, cls).value.name, |Props(S, cls)|;
    var Inv := (s: Store) => HasKeyCell(S, s, cls, target.row, key, c, m.migration);
    forall k: nat, s | i <= k < n && Inv(s) && PopulateOne(S, s, cls, target, v, m, Props(S, cls)[k]).Done?
      ensures Inv(PopulateOne(S, s, cls, target, v, m, Props(S, cls)[k]).st)
    {
      OthersNotPrimary(S, cls, i - 1, k);
      OtherKeepsKey(S, s, cls, target, v, m, Props(S, cls)[k], c);
    }
    var end := PopulateUpTo(S, st, cls, target, v, m, i, n, Inv);
    PopulateStep(S, end, cls, target, v, m, n);
  }

  ghost predicate HasKeyCell(S: Classes, s: Store, cls: string, row: nat, key: string, c: Cell, migration: bool) {
    Invariant(S, s.tables, migration) && row < Size(s.tables, cls) && CellAt(s.tables, cls, row, key) == c
  }

  lemma OthersNotPrimary(S: Classes, cls: string, j: nat, k: nat)
    requires ValidSchema(S) && j < |Props(S, cls)| && k < |Props(S, cls)| && j != k
    requires PrimaryKey(S, cls) == Some(Props(S, cls)[j])
    ensures !Props(S, cls)[k].isPrimary
  {
    Valid(S, cls, Props(S, cls)[k]);
    assert ValidObjectSchema(S, S[cls]);
  }

  lemma OtherKeepsKey(S: Classes, st: Store, cls: string, target: Target, v: Value, m: Mode, p: Property, c: Cell)
    requires ValidSchema(S) && m.migration && p in Props(S, cls) && !p.isPrimary && PrimaryKey(S, cls).Some?
    requires HasKeyCell(S, st, cls, target.row, PrimaryKey(S, cls).value.name, c, m.migration)
    ensures HasKeyCell(S, PopulateOne(S, st, cls, target, v, m, p).st, cls, target.row,
                       PrimaryKey(S, cls).value.name, c, m.migration)
  {
    if v.Dict? && p.name in v.fields {
      var r := SetProperty(S, st, cls, target.row, p, v.fields[p.name], m);
      SetPropertyContinues(S, st, cls, target.row, p, v.fields[p.name], m);
      assert Size(st.tables, cls) <= Size(r.st.tables, cls);
      var key := PrimaryKey(S, cls).value.name;
      assert CellAt(r.st.tables, cls, target.row, key) == CellAt(st.tables, cls, target.row, key);
    }
  }

  /** With no key given the inserted row keeps the null it starts with. */
  lemma MissingKeyKept(S: Classes, st: Store, cls: string, v: Value, m: Mode, current: Option<nat>)
    requires ValidSchema(S) && Invariant(S, st.tables, m.migration) && PrimaryKey(S, cls).Some?
    requires current.Some? ==> current.value < Size(st.tables, cls)
    requires Create(S, st, cls, v, m, current).Done? && !Locate(S, st, cls, v, m, current).value.skipPrimary
    requires v.Dict? && PrimaryKey(S, cls).value.name !in v.fields
    ensures var r, pk := Create(S, st, cls, v, m, current), PrimaryKey(S, cls).value;
            CellAt(r.st.tables, cls, r.value, pk.name) == One(Scalar(None))
  {
    var l, pk := Locate(S, st, cls, v, m, current), PrimaryKey(S, cls).value;
    var n := |Props(S, cls)|;
    LocateContinues(S, st, cls, v, m, current);
    Valid(S, cls, pk);
    NewKeyDefault(S, st, cls, v, m, current);
    var Inv := (s: Store) => HasKeyCell(S, s, cls, l.value.row, pk.name, One(Scalar(None)), m.migration);
    forall k: nat, s | 0 <= k < n && Inv(s) && PopulateOne(S, s, cls, l.value, v, m, Props(S, cls)[k]).Done?
      ensures Inv(PopulateOne(S, s, cls, l.value, v, m, Props(S, cls)[k]).st)
    {
      Valid(S, cls, Props(S, cls)[k]);
      if !Props(S, cls)[k].isPrimary {
        OtherKeepsKey(S, s, cls, l.value, v, m, Props(S, cls)[k], One(Scalar(None)));
      }
    }
    var end := PopulateUpTo(S, l.st, cls, l.value, v, m, 0, n, Inv);
    PopulateStep(S, end, cls, l.value, v, m, n);
  }

  lemma NewKeyDefault(S: Classes, st: Store, cls: string, v: Value, m: Mode, current: Option<nat>)
    requires ValidSchema(S) && PrimaryKey(S, cls).Some? && Locate(S, st, cls, v, m, current).Done?
    requires !Locate(S, st, cls, v, m, current).value.skipPrimary
    requires v.Dict? && PrimaryKey(S, cls).value.name !in v.fields
    ensures var l, pk := Locate(S, st, cls, v, m, current), PrimaryKey(S, cls).value;
            m.migration && CellAt(l.st.tables, cls, l.value.row, pk.name) == One(Scalar(None))
  {
    var pk := PrimaryKey(S, cls).value;
    Valid(S, cls, pk);
    assert ValidObjectSchema(S, S[cls]);
    AddedReads(st.tables, cls, EmptyRow(Props(S, cls)), cls, 0);
  }
}
