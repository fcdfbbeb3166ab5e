/** What `Object::create`, `set_property_value` and `List::assign` compute, as functions of the store.
    A thrown exception keeps the store as it was when it was thrown: nothing is rolled back here.
    The class `Realm` carries these out step by step on its own tables. */
module ObjectAccessor {
  import opened Wrappers
  import opened Schema
  import opened Tables

  datatype Error =
    | UnknownClass
    | BadCast
    | MissingPropertyValue
    | InvalidNullKey
    | DuplicateKey
    | ColumnNotNullable
    | LinkOutOfRange
    | InvalidObject
    | OutOfBounds
    | NullForNullableList
    | ReadOnlyProperty
    | InvalidProperty
    | ModifyPrimaryKey
    | MissingPrimaryKey

  datatype Mode = Mode(update: bool, diff: bool, migration: bool)

  /** No row is added under a key that is taken: always outside a migration, and inside one when updating. */
  predicate ReusesKeys(m: Mode) {
    m.migration ==> m.update
  }

  /** A finished step with its result, or a thrown exception; either way with the store it leaves. */
  datatype Step<+T> = Done(value: T, st: Store) | Threw(error: Error, st: Store) {
    predicate IsFailure() { Threw? }
    function PropagateFailure<U>(): Step<U>
      requires Threw?
    {
      Threw(error, st)
    }
    function Extract(): (T, Store)
      requires Done?
    {
      (value, st)
    }
  }

  datatype Unboxed = PrimValue(key: Key) | RowValue(cls: string, row: nat)

  datatype KeyResult = KeyOk(key: Key) | KeyError(error: Error)

  datatype Target = Target(row: nat, created: bool, skipPrimary: bool)

  function ToSlot(u: Unboxed): Slot {
    match u
    case PrimValue(k) => Scalar(k)
    case RowValue(_, row) => Link(Some(row))
  }

  function NullSlot(p: Property): Slot {
    if p.base.ObjectType? then Link(None) else Scalar(None)
  }

  /** `unbox<T>` for the non-object types; `None` is a failed cast.  Only strings, data and the
      optional numeric types accept null: a timestamp is cast directly even in a nullable column. */
  function UnboxPrim(p: Property, x: Value): Option<Key> {
    match x
    case Null =>
      if p.base.StringType? || p.base.DataType? then Some(None)
      else if p.nullable && (p.base.IntType? || p.base.BoolType? || p.base.FloatType? || p.base.DoubleType?) then
        Some(None)
      else None
    case Boxed(prim) => if Matches(p.base, prim) then Some(Some(prim)) else None
    case _ => None
  }

  /** The checks and the unboxing at the start of `get_for_primary_key_impl`. */
  function KeyFromValue(pk: Property, kv: Value): KeyResult {
    if kv.Null? && !pk.nullable then KeyError(InvalidNullKey)
    else match UnboxPrim(pk, kv)
      case None => KeyError(BadCast)
      case Some(k) => KeyOk(k)
  }

  /** The primary key a value asks for: a missing key means null where the key is nullable. */
  function KeyOf(pk: Property, v: Value): KeyResult {
    if !v.Dict? then KeyError(BadCast)
    else if pk.name in v.fields then KeyFromValue(pk, v.fields[pk.name])
    else if !pk.nullable then KeyError(MissingPropertyValue)
    else KeyFromValue(pk, Null)
  }

  function Written(st: Store, cls: string, row: nat, column: string, c: Cell, w: Write): Store {
    Store(Put(st.tables, cls, row, column, c), st.log + [w])
  }

  function AddEmptyRow(S: Classes, st: Store, cls: string): Store {
    Store(AddRow(st.tables, cls, EmptyRow(Props(S, cls))), st.log + [AddedRow(cls)])
  }

  function AddKeyedRow(S: Classes, st: Store, cls: string, column: string, k: Key): Store {
    var row := Size(st.tables, cls);
    Written(AddEmptyRow(S, st, cls), cls, row, column, One(Scalar(k)), SetCell(cls, row, column))
  }

  /** Find or create the row `create` will populate. */
  function Locate(S: Classes, st: Store, cls: string, v: Value, m: Mode, current: Option<nat>): Step<Target> {
    if cls !in S then Threw(UnknownClass, st)
    else match PrimaryKey(S, cls)
      case None =>
        if m.diff && current.Some? then Done(Target(current.value, false, true), st)
        else Done(Target(Size(st.tables, cls), true, true), AddEmptyRow(S, st, cls))
      case Some(pk) => LocateKeyed(S, st, cls, pk, v, m)
  }

  function LocateKeyed(S: Classes, st: Store, cls: string, pk: Property, v: Value, m: Mode): Step<Target> {
    match KeyOf(pk, v)
    case KeyError(e) => Threw(e, st)
    case KeyOk(k) =>
      match FindFirst(st.tables, cls, pk.name, k)
      case None => Done(Target(Size(st.tables, cls), true, true), AddKeyedRow(S, st, cls, pk.name, k))
      case Some(row) =>
        if m.update then Done(Target(row, false, true), st)
        else if m.migration then Done(Target(Size(st.tables, cls), true, false), AddEmptyRow(S, st, cls))
        else Threw(DuplicateKey, st)
  }

  /** `Object::create`: the row holding the object. */
  function Create(S: Classes, st: Store, cls: string, v: Value, m: Mode, current: Option<nat>): Step<nat>
    decreases v, 3, 0
  {
    var (target, s1) :- Locate(S, st, cls, v, m, current);
    var (_, s2) :- Populate(S, s1, cls, target, v, m, 0);
    Done(target.row, s2)
  }

  /** The population loop from the `i`-th property on. */
  function Populate(S: Classes, st: Store, cls: string, target: Target, v: Value, m: Mode, i: nat): Step<()>
    requires i <= |Props(S, cls)|
    decreases v, 2, |Props(S, cls)| - i
  {
    if i == |Props(S, cls)| then Done((), st)
    else
      var (_, s1) :- PopulateOne(S, st, cls, target, v, m, Props(S, cls)[i]);
      Populate(S, s1, cls, target, v, m, i + 1)
  }

  function PopulateOne(S: Classes, st: Store, cls: string, target: Target, v: Value, m: Mode, p: Property): Step<()>
    decreases v, 1, 0
  {
    if target.skipPrimary && p.isPrimary then Done((), st)
    else if !v.Dict? then Threw(BadCast, st)
    else if p.name !in v.fields then
      if target.created && !p.nullable && !p.isArray then Threw(MissingPropertyValue, st) else Done((), st)
    else if v.fields[p.name].Null? && !p.nullable && !p.isArray then Threw(MissingPropertyValue, st)
    else SetProperty(S, st, cls, target.row, p, v.fields[p.name], m)
  }

  /** The row a link column currently holds. */
  function CurrentLink(c: Cell): Option<nat> {
    if c.One? && c.slot.Link? then c.slot.target else None
  }

  /** `set_property_value_impl` */
  function SetProperty(S: Classes, st: Store, cls: string, row: nat, p: Property, x: Value, m: Mode): Step<()>
    decreases x, 6, 0
  {
    if p.nullable && x.Null? then SetNull(st, cls, row, p, m)
    else if p.isArray then Assign(S, st, cls, row, p, x, m)
    else Update(S, st, cls, row, p, x, m)
  }

  function SetNull(st: Store, cls: string, row: nat, p: Property, m: Mode): Step<()> {
    if p.isArray then Threw(NullForNullableList, st)
    else if m.diff && CellAt(st.tables, cls, row, p.name) == One(NullSlot(p)) then Done((), st)
    else Done((), Written(st, cls, row, p.name, One(NullSlot(p)), SetCell(cls, row, p.name)))
  }

  /** `ValueUpdater`.  The old cell is read before the value is unboxed, as the source does for links;
      unboxing a scalar changes nothing, so there the order makes no difference. */
  function Update(S: Classes, st: Store, cls: string, row: nat, p: Property, x: Value, m: Mode): Step<()>
    decreases x, 5, 0
  {
    var cell := CellAt(st.tables, cls, row, p.name);
    var (u, s1) :- Unbox(S, st, p, x, m, CurrentLink(cell));
    StoreIfDifferent(s1, cls, row, p, cell, u, m)
  }

  function StoreIfDifferent(st: Store, cls: string, row: nat, p: Property, before: Cell, u: Unboxed,
                            m: Mode): Step<()> {
    if m.diff && before == One(ToSlot(u)) then Done((), st) else StoreValue(st, cls, row, p, u)
  }

  /** `Table::set` and `Table::set_link`. */
  function StoreValue(st: Store, cls: string, row: nat, p: Property, u: Unboxed): Step<()> {
    if u == PrimValue(None) && !p.nullable then Threw(ColumnNotNullable, st)
    else if u.RowValue? && u.row >= Size(st.tables, p.objectType) then Threw(LinkOutOfRange, st)
    else Done((), Written(st, cls, row, p.name, One(ToSlot(u)), SetCell(cls, row, p.name)))
  }

  /** `CppContext::unbox`: a managed object is its own row, any other value is created. */
  function Unbox(S: Classes, st: Store, p: Property, x: Value, m: Mode, current: Option<nat>): Step<Unboxed>
    decreases x, 4, 0
  {
    if !p.base.ObjectType? then
      match UnboxPrim(p, x)
      case None => Threw(BadCast, st)
      case Some(k) => Done(PrimValue(k), st)
    else if x.Managed? then Done(RowValue(x.cls, x.row), st)
    else
      var (row, s1) :- Create(S, st, p.objectType, x, m, current);
      Done(RowValue(p.objectType, row), s1)
  }

  function Clear(st: Store, cls: string, row: nat, column: string): Store {
    Written(st, cls, row, column, Many([]), ListCleared(cls, row, column))
  }

  /** `List::assign`. */
  function Assign(S: Classes, st: Store, cls: string, row: nat, p: Property, x: Value, m: Mode): Step<()>
    decreases x, 5, 1
  {
    if p.base.LinkingObjectsType? then Threw(ReadOnlyProperty, st)
    else if x == ManagedList(cls, row, p.name) then Done((), st)
    else if x.Null? then Done((), Clear(st, cls, row, p.name))
    else if m.diff then
      if !x.Vector? then Threw(BadCast, st)
      else
        var size := |Elements(CellAt(st.tables, cls, row, p.name))|;
        var (_, s1) :- AssignFrom(S, st, cls, row, p, x, 0, size, m);
        TrimTo(s1, cls, row, p.name, |x.elems|, size)
    else
      var s0 := Clear(st, cls, row, p.name);
      if !x.Vector? then Threw(BadCast, s0) else AssignFrom(S, s0, cls, row, p, x, 0, 0, m)
  }

  /** The enumeration from the `i`-th element on; the first `size` positions are compared in place. */
  function AssignFrom(S: Classes, st: Store, cls: string, row: nat, p: Property, x: Value, i: nat, size: nat, m: Mode)
    : Step<()>
    requires x.Vector? && i <= |x.elems|
    decreases x, 5, 0, |x.elems| - i
  {
    if i == |x.elems| then Done((), st)
    else
      var (_, s1) :- AssignElement(S, st, cls, row, p, x.elems[i], i, size, m);
      AssignFrom(S, s1, cls, row, p, x, i + 1, size, m)
  }

  /** One element: `set_if_different` inside the old size, otherwise `add`. */
  function AssignElement(S: Classes, st: Store, cls: string, row: nat, p: Property, e: Value, i: nat, size: nat,
                         m: Mode)
    : Step<()>
    decreases e, 5, 1, 0
  {
    if i < size then SetIfDifferent(S, st, cls, row, p, e, i, m) else AddElement(S, st, cls, row, p, e, m)
  }

  /** `List::set_if_different`, whatever the mode, compares in place. */
  function SetIfDifferent(S: Classes, st: Store, cls: string, row: nat, p: Property, e: Value, i: nat,
                          m: Mode): Step<()>
    decreases e, 5, 0, 0
  {
    var slots := Elements(CellAt(st.tables, cls, row, p.name));
    if i >= |slots| then Threw(OutOfBounds, st)
    else
      var (u, s1) :- Unbox(S, st, p, e, m.(diff := true), CurrentLink(One(slots[i])));
      PutIfDifferent(s1, cls, row, p, slots[i], u, i)
  }

  function PutIfDifferent(st: Store, cls: string, row: nat, p: Property, before: Slot, u: Unboxed, i: nat): Step<()> {
    if before == ToSlot(u) && (u.RowValue? ==> u.cls == p.objectType) then Done((), st)
    else ListPut(st, cls, row, p, u, i)
  }

  /** `List::add` of an input value, which never compares. */
  function AddElement(S: Classes, st: Store, cls: string, row: nat, p: Property, e: Value, m: Mode): Step<()>
    decreases e, 5, 0, 0
  {
    var (u, s1) :- Unbox(S, st, p, e, m.(diff := false), None);
    ListAdd(s1, cls, row, p, u)
  }

  /** What `List::validate` and core's null check refuse. */
  function ListRefuses(t: Group, p: Property, u: Unboxed): Option<Error> {
    match u
    case PrimValue(k) => if k.None? && !p.nullable then Some(ColumnNotNullable) else None
    case RowValue(c, q) => if q >= Size(t, c) || c != p.objectType then Some(InvalidObject) else None
  }

  /** `List::set` */
  function ListPut(st: Store, cls: string, row: nat, p: Property, u: Unboxed, i: nat): Step<()> {
    var slots := Elements(CellAt(st.tables, cls, row, p.name));
    match ListRefuses(st.tables, p, u)
    case Some(e) => Threw(e, st)
    case None =>
      if i >= |slots| then Threw(OutOfBounds, st)
      else Done((), Written(st, cls, row, p.name, Many(slots[i := ToSlot(u)]), ListSet(cls, row, p.name, i)))
  }

  /** `List::add`.  A primitive list appends a row first and sets it then, so a null that core refuses leaves
      the appended default behind. */
  function ListAdd(st: Store, cls: string, row: nat, p: Property, u: Unboxed): Step<()> {
    match ListRefuses(st.tables, p, u)
    case None => Done((), Appended(st, cls, row, p, ToSlot(u)))
    case Some(e) => Threw(e, if u.PrimValue? then Appended(st, cls, row, p, DefaultSlot(p)) else st)
  }

  function Appended(st: Store, cls: string, row: nat, p: Property, slot: Slot): Store {
    var slots := Elements(CellAt(st.tables, cls, row, p.name));
    Written(st, cls, row, p.name, Many(slots + [slot]), ListAdded(cls, row, p.name))
  }

  /** What a row added to a primitive list holds before it is set. */
  function DefaultSlot(p: Property): Slot {
    var c := DefaultCell(p.(isArray := false));
    if c.One? then c.slot else Scalar(None)
  }

  /** `List::remove` */
  function ListRemove(st: Store, cls: string, row: nat, column: string, i: nat): Step<()> {
    var slots := Elements(CellAt(st.tables, cls, row, column));
    if i >= |slots| then Threw(OutOfBounds, st)
    else Done((), Written(st, cls, row, column, Many(slots[..i] + slots[i + 1..]), ListRemoved(cls, row, column, i)))
  }

  /** The removal loop at the end of a diffing assignment. */
  function TrimTo(st: Store, cls: string, row: nat, column: string, index: nat, size: nat): Step<()>
    decreases size
  {
    if index >= size then Done((), st)
    else
      var (_, s1) :- ListRemove(st, cls, row, column, size - 1);
      TrimTo(s1, cls, row, column, index, size - 1)
  }

  /** `Object::get_for_primary_key`: the matching row, if there is one. */
  function GetForPrimaryKey(S: Classes, st: Store, cls: string, kv: Value): Step<Option<nat>> {
    match PrimaryKey(S, cls)
    case None => Threw(MissingPrimaryKey, st)
    case Some(pk) =>
      match KeyFromValue(pk, kv)
      case KeyError(e) => Threw(e, st)
      case KeyOk(k) => Done(FindFirst(st.tables, cls, pk.name, k), st)
  }

  /** `get_property_value_impl`: null, a handle on the list, a boxed primitive, or the linked object. */
  function GetPropertyValue(t: Group, cls: string, row: nat, p: Property): Value {
    var c := CellAt(t, cls, row, p.name);
    if p.isArray then ManagedList(cls, row, p.name)
    else if c.One? && c.slot.Scalar? && c.slot.key.Some? then Boxed(c.slot.key.value)
    else if c.One? && c.slot.Link? && c.slot.target.Some? then Managed(p.objectType, c.slot.target.value)
    else Null
  }

  /** `Object::set_property_value` */
  function SetPropertyValue(S: Classes, st: Store, cls: string, row: nat, name: string, x: Value, update: bool,
                            migration: bool): Step<()> {
    match PropertyForName(Props(S, cls), name)
    case None => Threw(InvalidProperty, st)
    case Some(p) =>
      if p.isPrimary && !migration then Threw(ModifyPrimaryKey, st)
      else SetProperty(S, st, cls, row, p, x, Mode(update, false, migration))
  }

  /** `Results::set_property_value` over the rows of its snapshot. */
  function SetOnRows(S: Classes, st: Store, cls: string, rows: seq<nat>, p: Property, x: Value, migration: bool)
    : Step<()>
    decreases |rows|
  {
    if rows == [] then Done((), st)
    else
      var (_, s1) :- SetProperty(S, st, cls, rows[0], p, x, Mode(true, false, migration));
      SetOnRows(S, s1, cls, rows[1..], p, x, migration)
  }

  function SetOnSnapshot(S: Classes, st: Store, cls: string, rows: seq<nat>, name: string, x: Value, migration: bool)
    : Step<()> {
    match PropertyForName(Props(S, cls), name)
    case None => Threw(InvalidProperty, st)
    case Some(p) =>
      if p.isPrimary && !migration then Threw(ModifyPrimaryKey, st)
      else SetOnRows(S, st, cls, rows, p, x, migration)
  }

  /** The two paths of an assignment. */
  lemma AssignSteps(S: Classes, st: Store, cls: string, row: nat, p: Property, x: Value, m: Mode)
    requires x.Vector? && !p.base.LinkingObjectsType?
    ensures Assign(S, st, cls, row, p, x, m) ==
            if m.diff then
              var size := |Elements(CellAt(st.tables, cls, row, p.name))|;
              var a := AssignFrom(S, st, cls, row, p, x, 0, size, m);
              if a.Done? then TrimTo(a.st, cls, row, p.name, |x.elems|, size) else a
            else AssignFrom(S, Clear(st, cls, row, p.name), cls, row, p, x, 0, 0, m)
  {
  }

  /** One step of each loop. */
  lemma AssignFromStep(S: Classes, st: Store, cls: string, row: nat, p: Property, x: Value, i: nat, size: nat, m: Mode)
    requires x.Vector? && i <= |x.elems|
    ensures AssignFrom(S, st, cls, row, p, x, i, size, m) ==
            if i == |x.elems| then Done((), st)
            else
              var one := AssignElement(S, st, cls, row, p, x.elems[i], i, size, m);
              if one.Done? then AssignFrom(S, one.st, cls, row, p, x, i + 1, size, m) else one
  {
  }

  /** Induction over the enumeration: an assignment that gets through reaches its `j`-th element in a store with
      everything the elements before it keep. */
  lemma {:induction false} AssignFromUpTo(S: Classes, st: Store, cls: string, row: nat, p: Property, x: Value, i: nat,
                                          j: nat, size: nat, m: Mode, Inv: (nat, Store) -> bool) returns (s: Store)
    requires x.Vector? && i <= j <= |x.elems| && Inv(i, st)
    requires forall n: nat, t ::
               i <= n < j && Inv(n, t) && AssignElement(S, t, cls, row, p, x.elems[n], n, size, m).Done? ==>
                 Inv(n + 1, AssignElement(S, t, cls, row, p, x.elems[n], n, size, m).st)
    requires AssignFrom(S, st, cls, row, p, x, i, size, m).Done?
    ensures Inv(j, s) && AssignFrom(S, s, cls, row, p, x, j, size, m) == AssignFrom(S, st, cls, row, p, x, i, size, m)
    decreases j - i
  {
    if i == j {
      s := st;
    } else {
      AssignFromStep(S, st, cls, row, p, x, i, size, m);
      var one := AssignElement(S, st, cls, row, p, x.elems[i], i, size, m);
      s := AssignFromUpTo(S, one.st, cls, row, p, x, i + 1, j, size, m, Inv);
    }
  }

  /** If every element gets through, so does the assignment. */
  lemma {:induction false} AssignFromRuns(S: Classes, st: Store, cls: string, row: nat, p: Property, x: Value, i: nat,
                                          size: nat, m: Mode, Inv: (nat, Store) -> bool)
    requires x.Vector? && i <= |x.elems| && Inv(i, st)
    requires forall n: nat, t :: i <= n < |x.elems| && Inv(n, t) ==>
               && AssignElement(S, t, cls, row, p, x.elems[n], n, size, m).Done?
               && Inv(n + 1, AssignElement(S, t, cls, row, p, x.elems[n], n, size, m).st)
    ensures var r := AssignFrom(S, st, cls, row, p, x, i, size, m); r.Done? && Inv(|x.elems|, r.st)
    decreases |x.elems| - i
  {
    if i < |x.elems| {
      AssignFromRuns(S, AssignElement(S, st, cls, row, p, x.elems[i], i, size, m).st, cls, row, p, x, i + 1, size, m,
                     Inv);
    }
  }

  /** Both finish, in related stores, or both throw the same exception. */
  predicate Related(a: Step<()>, b: Step<()>, n: nat, Rel: (nat, Store, Store) -> bool) {
    match a
    case Threw(error, _) => b.Threw? && b.error == error
    case Done(_, st) => b.Done? && Rel(n, st, b.st)
  }

  /** Two enumerations of one vector, related element by element. */
  lemma {:induction false} AssignFromPaired(S: Classes, f: Store, d: Store, cls: string, row: nat, p: Property,
                                            x: Value, i: nat, sf: nat, sd: nat, mf: Mode, md: Mode,
                                            Rel: (nat, Store, Store) -> bool)
    requires x.Vector? && i <= |x.elems| && Rel(i, f, d)
    requires forall n: nat, a, b :: i <= n < |x.elems| && Rel(n, a, b) ==>
               Related(AssignElement(S, a, cls, row, p, x.elems[n], n, sf, mf),
                       AssignElement(S, b, cls, row, p, x.elems[n], n, sd, md), n + 1, Rel)
    ensures Related(AssignFrom(S, f, cls, row, p, x, i, sf, mf), AssignFrom(S, d, cls, row, p, x, i, sd, md),
                    |x.elems|, Rel)
    decreases |x.elems| - i
  {
    if i < |x.elems| {
      var a := AssignElement(S, f, cls, row, p, x.elems[i], i, sf, mf);
      var b := AssignElement(S, d, cls, row, p, x.elems[i], i, sd, md);
      if a.Done? {
        AssignFromPaired(S, a.st, b.st, cls, row, p, x, i + 1, sf, sd, mf, md, Rel);
      }
    }
  }

  /** What every element keeps, on every exit, the enumeration keeps. */
  lemma {:induction false} AssignFromAlways(S: Classes, st: Store, cls: string, row: nat, p: Property, x: Value, i: nat,
                                            size: nat, m: Mode, Inv: Store -> bool)
    requires x.Vector? && i <= |x.elems| && Inv(st)
    requires forall s, j: nat ::
               i <= j < |x.elems| && Inv(s) ==> Inv(AssignElement(S, s, cls, row, p, x.elems[j], j, size, m).st)
    ensures Inv(AssignFrom(S, st, cls, row, p, x, i, size, m).st)
    decreases |x.elems| - i
  {
    if i < |x.elems| {
      var one := AssignElement(S, st, cls, row, p, x.elems[i], i, size, m);
      if one.Done? {
        AssignFromAlways(S, one.st, cls, row, p, x, i + 1, size, m, Inv);
      }
    }
  }

  lemma PopulateStep(S: Classes, st: Store, cls: string, target: Target, v: Value, m: Mode, i: nat)
    requires i <= |Props(S, cls)|
    ensures Populate(S, st, cls, target, v, m, i) ==
            if i == |Props(S, cls)| then Done((), st)
            else
              var one := PopulateOne(S, st, cls, target, v, m, Props(S, cls)[i]);
              if one.Done? then Populate(S, one.st, cls, target, v, m, i + 1) else one
  {
  }

  lemma AssignElementStep(S: Classes, st: Store, cls: string, row: nat, p: Property, e: Value, i: nat, size: nat,
                          m: Mode)
    ensures var slots := Elements(CellAt(st.tables, cls, row, p.name));
            AssignElement(S, st, cls, row, p, e, i, size, m) ==
            if i < size && i >= |slots| then Threw(OutOfBounds, st)
            else if i < size then
              var before := slots[i];
              var u := Unbox(S, st, p, e, m.(diff := true), CurrentLink(One(before)));
              if u.Done? then PutIfDifferent(u.st, cls, row, p, before, u.value, i) else Threw(u.error, u.st)
            else
              var u := Unbox(S, st, p, e, m.(diff := false), None);
              if u.Done? then ListAdd(u.st, cls, row, p, u.value) else Threw(u.error, u.st)
  {
  }

  /** Induction over the population loop. */
  lemma {:induction false} PopulateUpTo(S: Classes, st: Store, cls: string, target: Target, v: Value, m: Mode, i: nat,
                                        j: nat, Inv: Store -> bool) returns (s: Store)
    requires i <= j <= |Props(S, cls)| && Inv(st)
    requires forall n: nat, t ::
               i <= n < j && Inv(t) && PopulateOne(S, t, cls, target, v, m, Props(S, cls)[n]).Done? ==>
                 Inv(PopulateOne(S, t, cls, target, v, m, Props(S, cls)[n]).st)
    requires Populate(S, st, cls, target, v, m, i).Done?
    ensures Inv(s) && Populate(S, s, cls, target, v, m, j) == Populate(S, st, cls, target, v, m, i)
    decreases j - i
  {
    if i == j {
      s := st;
    } else {
      PopulateStep(S, st, cls, target, v, m, i);
      s := PopulateUpTo(S, PopulateOne(S, st, cls, target, v, m, Props(S, cls)[i]).st, cls, target, v, m, i + 1, j,
                        Inv);
    }
  }

  /** Induction over the removals, on every exit. */
  lemma {:induction false} TrimToKeeps(st: Store, cls: string, row: nat, column: string, index: nat, size: nat,
                                       Inv: Store -> bool)
    requires Inv(st)
    requires forall s, n: nat :: Inv(s) ==> Inv(ListRemove(s, cls, row, column, n).st)
    ensures Inv(TrimTo(st, cls, row, column, index, size).st)
    decreases size
  {
    if index < size {
      var one := ListRemove(st, cls, row, column, size - 1);
      if one.Done? {
        TrimToKeeps(one.st, cls, row, column, index, size - 1, Inv);
      }
    }
  }

  lemma TrimToStep(st: Store, cls: string, row: nat, column: string, index: nat, size: nat)
    ensures TrimTo(st, cls, row, column, index, size) ==
            if index >= size then Done((), st)
            else
              var one := ListRemove(st, cls, row, column, size - 1);
              if one.Done? then TrimTo(one.st, cls, row, column, index, size - 1) else one
  {
  }
}
