/** What a successful create leaves: every supplied property reads back as given, whatever else it touched
    is named by the value, and lookup by key finds the row. */
module ReadBack {
  import opened Wrappers
  import opened Schema
  import opened Tables
  import opened ObjectAccessor
  import opened Values
  import opened Frame
  import opened Invariants
  import opened ListTrimming
  import opened Reuse
  import opened DiffRefinement

  /** The lowest row a nested unkeyed object of each class may occupy. */
  type Floors = map<string, nat>

  function Floor(from: Floors, cls: string): nat {
    if cls in from then from[cls] else 0
  }

  /** Unkeyed objects inside an unkeyed object are added after it. */
  ghost function Inside(S: Classes, from: Floors, cls: string, row: nat): Floors {
    if PrimaryKey(S, cls).Some? then from else from[cls := row + 1]
  }

  ghost predicate Within(from: Floors, t: Group) {
    forall cls :: cls in from ==> from[cls] <= Size(t, cls)
  }

  /** The row is not one an unkeyed object below it could occupy. */
  ghost predicate Outside(S: Classes, from: Floors, cls: string, row: nat) {
    PrimaryKey(S, cls).None? ==> row < Floor(from, cls)
  }

  /** The row holds the value: its key is found there, or it was added for it, and each supplied property
      matches its cell. */
  ghost predicate Reflects(S: Classes, from: Floors, t: Group, cls: string, v: Value, row: nat)
    decreases v, 2
  {
    && (v.Dict? || Props(S, cls) == []) && row < Size(t, cls)
    && FoundRow(S, from, t, cls, v, row)
    && forall p :: p in Props(S, cls) && !p.isPrimary && p.name in v.fields ==>
                     PropertyReflects(S, Inside(S, from, cls, row), t, cls, row, p, v.fields[p.name])
  }

  ghost predicate PropertyReflects(S: Classes, from: Floors, t: Group, cls: string, row: nat, p: Property, x: Value)
    decreases x, 4
  {
    var c := CellAt(t, cls, row, p.name);
    if p.nullable && x.Null? then !p.isArray && c == One(NullSlot(p))
    else if p.isArray then
      || x == ManagedList(cls, row, p.name)
      || (x.Null? && c == Many([]))
      || (x.Vector? && c.Many? && |c.slots| == |x.elems| && ElementsReflect(S, from, t, p, x, c.slots, |x.elems|))
    else c.One? && ElementReflects(S, from, t, p, x, c.slot)
  }

  /** The first `n` elements match the first `n` slots. */
  ghost predicate ElementsReflect(S: Classes, from: Floors, t: Group, p: Property, x: Value, slots: seq<Slot>, n: nat)
    requires x.Vector? && n <= |x.elems| && n <= |slots|
    decreases x, 3, n
  {
    forall k :: 0 <= k < n ==> ElementReflects(S, from, t, p, x.elems[k], slots[k])
  }

  ghost predicate ElementReflects(S: Classes, from: Floors, t: Group, p: Property, e: Value, slot: Slot)
    decreases e, 3, 0
  {
    if !p.base.ObjectType? then Casts(p, e) && slot == Stored(e)
    else if e.Managed? then slot == Link(Some(e.row)) && (p.isArray ==> e.cls == p.objectType)
    else slot.Link? && slot.target.Some? && Reflects(S, from, t, p.objectType, e, slot.target.value)
  }

  /** Cells a reflection may rest on are unchanged: those named, and those of unkeyed objects at or above
      their floor. */
  ghost predicate Same(S: Classes, from: Floors, t: Group, t': Group, touched: set<Touch>) {
    forall c, q: nat, n ::
      q < Size(t, c) && (Reached(S, t, c, q, n, touched) || (PrimaryKey(S, c).None? && Floor(from, c) <= q)) ==>
        CellAt(t', c, q, n) == CellAt(t, c, q, n)
  }

  /** Cells not named are unchanged, the given cell aside. */
  ghost predicate OnlyTouches(S: Classes, t: Group, t': Group, touched: set<Touch>, cls: string, row: nat,
                              column: string) {
    forall c, q: nat, n ::
      q < Size(t, c) && (c, q, n) != (cls, row, column) && !Reached(S, t, c, q, n, touched) ==>
        CellAt(t', c, q, n) == CellAt(t, c, q, n)
  }

  /** Every cell not named is unchanged. */
  ghost predicate Untouched(S: Classes, t: Group, t': Group, touched: set<Touch>) {
    forall c, q: nat, n ::
      q < Size(t, c) && !Reached(S, t, c, q, n, touched) ==> CellAt(t', c, q, n) == CellAt(t, c, q, n)
  }

  ghost predicate Later(S: Classes, t: Group, t': Group) {
    Grows(t, t') && KeysKept(S, t, t')
  }

  lemma WithinLater(from: Floors, t: Group, t': Group)
    requires Within(from, t) && Grows(t, t')
    ensures Within(from, t')
  {
    forall cls | cls in from
      ensures from[cls] <= Size(t', cls)
    {
      assert Size(t, cls) <= Size(t', cls);
    }
  }

  /** Fewer cells rested on: fewer named, or a higher floor. */
  lemma SameLess(S: Classes, from: Floors, from': Floors, t: Group, t': Group, touched: set<Touch>,
                 touched': set<Touch>)
    requires Same(S, from, t, t', touched) && touched' <= touched
    requires forall c :: Floor(from, c) <= Floor(from', c)
    ensures Same(S, from', t, t', touched')
  {
    forall c, q: nat, n |
      q < Size(t, c) && (Reached(S, t, c, q, n, touched') || (PrimaryKey(S, c).None? && Floor(from', c) <= q))
      ensures CellAt(t', c, q, n) == CellAt(t, c, q, n)
    {
      assert Reached(S, t, c, q, n, touched) || Floor(from, c) <= q;
    }
  }

  /** What writes only the cells `a` names, and one cell outside, leaves alone what rests on `b`. */
  lemma DisjointSame(S: Classes, from: Floors, t: Group, t': Group, a: set<Touch>, b: set<Touch>, cls: string, row: nat,
                     column: string)
    requires OnlyTouches(S, t, t', a, cls, row, column) && a !! b
    requires !Reached(S, t, cls, row, column, b) && Outside(S, from, cls, row)
    ensures Same(S, from, t, t', b)
  {
    forall c, q: nat, n | q < Size(t, c) &&
      (Reached(S, t, c, q, n, b) || (PrimaryKey(S, c).None? && Floor(from, c) <= q))
      ensures CellAt(t', c, q, n) == CellAt(t, c, q, n)
    {
      assert (c, q, n) != (cls, row, column);
      assert !Reached(S, t, c, q, n, a);
    }
  }

  /** A row stays a reflection while the cells it rests on are left alone. */
  lemma {:induction false} ReflectsStable(S: Classes, from: Floors, t: Group, t': Group, cls: string, v: Value,
                                          row: nat)
    requires ValidSchema(S) && Later(S, t, t')
    requires Reflects(S, from, t, cls, v, row) && Same(S, from, t, t', Touches(S, cls, v))
    ensures Reflects(S, from, t', cls, v, row)
    decreases v, 2
  {
    if PrimaryKey(S, cls).Some? {
      var pk := PrimaryKey(S, cls).value;
      LookupLater(S, t, t', cls, pk, KeyOf(pk, v).key);
    }
    assert Size(t, cls) <= Size(t', cls);
    forall p | p in Props(S, cls) && !p.isPrimary && p.name in v.fields
      ensures PropertyReflects(S, Inside(S, from, cls, row), t', cls, row, p, v.fields[p.name])
    {
      OwnCellSame(S, from, t, t', cls, v, row, p);
      var j :| 0 <= j < |Props(S, cls)| && Props(S, cls)[j] == p;
      TouchesAtIn(S, cls, v, 0, j);
      SameLess(S, from, Inside(S, from, cls, row), t, t', Touches(S, cls, v), TouchesProperty(S, p, v.fields[p.name]));
      PropertyReflectsStable(S, Inside(S, from, cls, row), t, t', cls, row, p, v.fields[p.name]);
    }
  }

  /** A reflection rests on the cells of its own supplied properties. */
  lemma OwnCellSame(S: Classes, from: Floors, t: Group, t': Group, cls: string, v: Value, row: nat, p: Property)
    requires Reflects(S, from, t, cls, v, row) && Same(S, from, t, t', Touches(S, cls, v))
    requires p in Props(S, cls) && !p.isPrimary && p.name in v.fields
    ensures CellAt(t', cls, row, p.name) == CellAt(t, cls, row, p.name)
  {
    if PrimaryKey(S, cls).Some? {
      assert p.name in OwnColumns(S, cls, v);
      assert (cls, KeyOf(PrimaryKey(S, cls).value, v).key, p.name) in OwnTouches(S, cls, v);
      assert Reached(S, t, cls, row, p.name, Touches(S, cls, v));
    }
  }

  lemma {:induction false} PropertyReflectsStable(S: Classes, from: Floors, t: Group, t': Group, cls: string, row: nat,
                                                  p: Property, x: Value)
    requires ValidSchema(S) && Later(S, t, t')
    requires CellAt(t', cls, row, p.name) == CellAt(t, cls, row, p.name)
    requires PropertyReflects(S, from, t, cls, row, p, x) && Same(S, from, t, t', TouchesProperty(S, p, x))
    ensures PropertyReflects(S, from, t', cls, row, p, x)
    decreases x, 4
  {
    if !(p.nullable && x.Null?) {
      var c := CellAt(t, cls, row, p.name);
      if !p.isArray {
        ElementReflectsStable(S, from, t, t', p, x, c.slot);
      } else if x.Vector? && c.Many? && |c.slots| == |x.elems| {
        ElementsReflectStable(S, from, t, t', p, x, c.slots, |x.elems|);
      }
    }
  }

  lemma {:induction false} ElementsReflectStable(S: Classes, from: Floors, t: Group, t': Group, p: Property, x: Value,
                                                 slots: seq<Slot>, n: nat)
    requires ValidSchema(S) && Later(S, t, t')
    requires x.Vector? && n <= |x.elems| && n <= |slots|
    requires (forall k :: 0 <= k < n ==> Same(S, from, t, t', TouchesElement(S, p, x.elems[k]))) ||
             Same(S, from, t, t', TouchesElements(S, p, x, 0))
    requires ElementsReflect(S, from, t, p, x, slots, n)
    ensures ElementsReflect(S, from, t', p, x, slots, n)
    decreases x, 3, n
  {
    forall k | 0 <= k < n
      ensures ElementReflects(S, from, t', p, x.elems[k], slots[k])
    {
      if Same(S, from, t, t', TouchesElements(S, p, x, 0)) {
        TouchesElementIn(S, p, x, 0, k);
        SameLess(S, from, from, t, t', TouchesElements(S, p, x, 0), TouchesElement(S, p, x.elems[k]));
      }
      ElementReflectsStable(S, from, t, t', p, x.elems[k], slots[k]);
    }
  }

  lemma {:induction false} ElementReflectsStable(S: Classes, from: Floors, t: Group, t': Group, p: Property, e: Value,
                                                 slot: Slot)
    requires ValidSchema(S) && Later(S, t, t')
    requires ElementReflects(S, from, t, p, e, slot) && Same(S, from, t, t', TouchesElement(S, p, e))
    ensures ElementReflects(S, from, t', p, e, slot)
    decreases e, 3, 0
  {
    if p.base.ObjectType? && !e.Managed? {
      ReflectsStable(S, from, t, t', p.objectType, e, slot.target.value);
    }
  }

  lemma UnboxUntouched(S: Classes, st: Store, cls: string, p: Property, x: Value, m: Mode, current: Option<nat>)
    requires ValidSchema(S) && p in Props(S, cls) && (!m.diff || KeyedElement(S, p, x))
    ensures Untouched(S, st.tables, Unbox(S, st, p, x, m, current).st.tables, TouchesElement(S, p, x))
  {
    forall c, q: nat, n | q < Size(st.tables, c) && !Reached(S, st.tables, c, q, n, TouchesElement(S, p, x))
      ensures CellAt(Unbox(S, st, p, x, m, current).st.tables, c, q, n) == CellAt(st.tables, c, q, n)
    {
      UnboxCommutes(S, st, cls, p, x, m, current, Spot(c, q, n, CellAt(st.tables, c, q, n)));
    }
  }

  /** Writing a property changes its own cell and cells the value names, on every exit. */
  lemma SetPropertyOnlyTouches(S: Classes, st: Store, cls: string, row: nat, p: Property, x: Value, m: Mode)
    requires ValidSchema(S) && p in Props(S, cls) && !p.isPrimary && (!m.diff || KeyedProperty(S, p, x))
    ensures OnlyTouches(S, st.tables, SetProperty(S, st, cls, row, p, x, m).st.tables, TouchesProperty(S, p, x),
                        cls, row, p.name)
  {
    Valid(S, cls, p);
    forall c, q: nat, n | q < Size(st.tables, c) && (c, q, n) != (cls, row, p.name) &&
                          !Reached(S, st.tables, c, q, n, TouchesProperty(S, p, x))
      ensures CellAt(SetProperty(S, st, cls, row, p, x, m).st.tables, c, q, n) == CellAt(st.tables, c, q, n)
    {
      SetPropertyCommutes(S, st, cls, row, p, x, m, Spot(c, q, n, CellAt(st.tables, c, q, n)));
    }
  }

  lemma WrittenKeepsOthers(S: Classes, st: Store, cls: string, row: nat, column: string, c: Cell, i: Write)
    requires row < Size(st.tables, cls)
    ensures CellAt(Written(st, cls, row, column, c, i).tables, cls, row, column) == c
    ensures OnlyTouches(S, st.tables, Written(st, cls, row, column, c, i).tables, {}, cls, row, column)
  {
  }

  /** The list column holds the first `n` elements. */
  ghost predicate Assigned(S: Classes, from: Floors, t: Group, cls: string, row: nat, p: Property, x: Value, n: nat)
    requires x.Vector? && n <= |x.elems|
  {
    var slots := ListAt(t, cls, row, p.name);
    |slots| == n && ElementsReflect(S, from, t, p, x, slots, n)
  }

  /** A successful overwriting create leaves a row that holds the value. */
  lemma {:induction false} OverwriteReflects(S: Classes, from: Floors, st: Store, cls: string, v: Value, m: Mode,
                                             current: Option<nat>)
    requires ValidSchema(S) && Invariant(S, st.tables, m.migration) && ReusesKeys(m) && Within(from, st.tables)
    requires !m.diff && Distinct(S, cls, v)
    requires current.Some? ==> current.value < Size(st.tables, cls)
    ensures var r := Create(S, st, cls, v, m, current); r.Done? ==> Reflects(S, from, r.st.tables, cls, v, r.value)
    decreases v, 3, 0
  {
    var l := Locate(S, st, cls, v, m, current);
    if l.Done? {
      LocatedReady(S, from, st, cls, v, m, current);
      if v.Dict? {
        PopulateReflects(S, Inside(S, from, cls, l.value.row), l.st, cls, l.value, v, m, 0);
        var end := Populate(S, l.st, cls, l.value, v, m, 0);
        if end.Done? {
          PopulateContinues(S, l.st, cls, l.value, v, m, 0);
          PopulatedReflects(S, from, l.st.tables, end.st.tables, cls, v, l.value.row);
        }
      } else {
        OnlyDictPopulates(S, l.st, cls, l.value, v, m);
      }
    }
  }

  /** A successful create leaves a row that holds the value: diffing too, since it ends in the same tables, where
      the value's unkeyed objects are all added. */
  lemma CreateReflects(S: Classes, from: Floors, st: Store, cls: string, v: Value, m: Mode, current: Option<nat>)
    requires ValidSchema(S) && Invariant(S, st.tables, m.migration) && ReusesKeys(m) && Within(from, st.tables)
    requires Distinct(S, cls, v)
    requires !m.diff || (AddsOnly(S, st.tables, cls, v) && (PrimaryKey(S, cls).Some? || current.None?))
    requires current.Some? ==> current.value < Size(st.tables, cls)
    ensures var r := Create(S, st, cls, v, m, current); r.Done? ==> Reflects(S, from, r.st.tables, cls, v, r.value)
  {
    var f := m.(diff := false);
    OverwriteReflects(S, from, st, cls, v, f, current);
    if m.diff {
      DistinctNoRecursion(S, cls, v);
      CreateAgrees(S, st, st, cls, v, f, m, current, current);
    }
  }

  lemma {:induction false} DistinctNoRecursion(S: Classes, cls: string, v: Value)
    requires ValidSchema(S) && Distinct(S, cls, v)
    ensures NoRecursion(S, cls, v)
    decreases v, 2
  {
    if v.Dict? {
      forall p | p in Props(S, cls) && p.name in v.fields
        ensures !NamesItself(S, cls, v, p.name, TouchesProperty(S, p, v.fields[p.name]))
        ensures NoRecursionProperty(S, p, v.fields[p.name])
      {
        var j :| 0 <= j < |Props(S, cls)| && Props(S, cls)[j] == p;
        OwnNameDistinct(S, cls, v, j);
        DistinctPropertyNoRecursion(S, p, v.fields[p.name]);
      }
    }
  }

  lemma OwnNameDistinct(S: Classes, cls: string, v: Value, j: nat)
    requires ValidSchema(S) && v.Dict? && OwnTouches(S, cls, v) !! TouchesFrom(S, cls, v, 0)
    requires j < |Props(S, cls)| && Props(S, cls)[j].name in v.fields
    ensures var p := Props(S, cls)[j]; !NamesItself(S, cls, v, p.name, TouchesProperty(S, p, v.fields[p.name]))
  {
    var p := Props(S, cls)[j];
    Valid(S, cls, p);
    TouchesAtIn(S, cls, v, 0, j);
    if !p.isPrimary && PrimaryKey(S, cls).Some? && KeyOf(PrimaryKey(S, cls).value, v).KeyOk? {
      assert p.name in OwnColumns(S, cls, v);
      assert (cls, KeyOf(PrimaryKey(S, cls).value, v).key, p.name) in OwnTouches(S, cls, v);
    }
  }

  lemma {:induction false} DistinctPropertyNoRecursion(S: Classes, p: Property, x: Value)
    requires ValidSchema(S) && DistinctProperty(S, p, x)
    ensures NoRecursionProperty(S, p, x)
    decreases x, 4
  {
    if !p.isArray {
      DistinctElementNoRecursion(S, p, x);
    } else if x.Vector? {
      forall i | 0 <= i < |x.elems|
        ensures NoRecursionElement(S, p, x.elems[i])
      {
        DistinctElementNoRecursion(S, p, x.elems[i]);
      }
    }
  }

  lemma {:induction false} DistinctElementNoRecursion(S: Classes, p: Property, e: Value)
    requires ValidSchema(S) && DistinctElement(S, p, e)
    ensures NoRecursionElement(S, p, e)
    decreases e, 3
  {
    if p.base.ObjectType? && !e.Managed? {
      DistinctNoRecursion(S, p.objectType, e);
    }
  }

  /** What population starts from. */
  lemma LocatedReady(S: Classes, from: Floors, st: Store, cls: string, v: Value, m: Mode, current: Option<nat>)
    requires ValidSchema(S) && Invariant(S, st.tables, m.migration) && ReusesKeys(m) && Within(from, st.tables)
    requires !m.diff && (current.Some? ==> current.value < Size(st.tables, cls))
    requires Distinct(S, cls, v) && Locate(S, st, cls, v, m, current).Done?
    ensures var l := Locate(S, st, cls, v, m, current);
            && Invariant(S, l.st.tables, m.migration) && l.value.skipPrimary && l.value.row < Size(l.st.tables, cls)
            && Within(Inside(S, from, cls, l.value.row), l.st.tables)
            && Outside(S, Inside(S, from, cls, l.value.row), cls, l.value.row)
            && (v.Dict? ==> OwnCellsApart(S, l.st.tables, cls, v, l.value.row))
            && FoundRow(S, from, l.st.tables, cls, v, l.value.row)
  {
    var l := Locate(S, st, cls, v, m, current);
    LocateContinues(S, st, cls, v, m, current);
    LocateFinds(S, st, cls, v, m, current);
    WithinLater(from, st.tables, l.st.tables);
    if v.Dict? {
      OwnCellsDistinct(S, l.st.tables, cls, v, l.value.row);
    }
  }

  /** The row is found by the value's key, or could have been added for it. */
  ghost predicate FoundRow(S: Classes, from: Floors, t: Group, cls: string, v: Value, row: nat) {
    match PrimaryKey(S, cls)
    case None => Floor(from, cls) <= row
    case Some(pk) => KeyOf(pk, v).KeyOk? && FindFirst(t, cls, pk.name, KeyOf(pk, v).key) == Some(row)
  }

  /** A located row whose properties are populated holds the value. */
  lemma PopulatedReflects(S: Classes, from: Floors, t: Group, t': Group, cls: string, v: Value, row: nat)
    requires v.Dict? && row < Size(t, cls) && Later(S, t, t')
    requires FoundRow(S, from, t, cls, v, row)
    requires Populated(S, Inside(S, from, cls, row), t', cls, row, v, |Props(S, cls)|)
    ensures Reflects(S, from, t', cls, v, row)
  {
    if PrimaryKey(S, cls).Some? {
      var pk := PrimaryKey(S, cls).value;
      LookupLater(S, t, t', cls, pk, KeyOf(pk, v).key);
    }
    assert Size(t, cls) <= Size(t', cls);
  }

  /** A value other than a dictionary is refused by a class without a key, unless it has no properties. */
  lemma OnlyDictPopulates(S: Classes, st: Store, cls: string, target: Target, v: Value, m: Mode)
    requires ValidSchema(S) && !v.Dict? && PrimaryKey(S, cls).None?
    ensures Populate(S, st, cls, target, v, m, 0).Done? ==> Props(S, cls) == []
  {
    if Props(S, cls) != [] {
      Valid(S, cls, Props(S, cls)[0]);
      assert PopulateOne(S, st, cls, target, v, m, Props(S, cls)[0]).Threw?;
    }
  }

  /** The located row is found by the value's key, or is a new one. */
  lemma LocateFinds(S: Classes, st: Store, cls: string, v: Value, m: Mode, current: Option<nat>)
    requires ReusesKeys(m) && (PrimaryKey(S, cls).Some? || current.None? || !m.diff)
    requires Locate(S, st, cls, v, m, current).Done?
    ensures var l := Locate(S, st, cls, v, m, current);
            && l.value.skipPrimary
            && (match PrimaryKey(S, cls)
                case None => l.value.row == Size(st.tables, cls)
                case Some(pk) =>
                  KeyOf(pk, v).KeyOk? && FindFirst(l.st.tables, cls, pk.name, KeyOf(pk, v).key) == Some(l.value.row))
  {
    if PrimaryKey(S, cls).Some? {
      var pk := PrimaryKey(S, cls).value;
      var key := KeyOf(pk, v).key;
      if FindFirst(st.tables, cls, pk.name, key).None? {
        AddKeyedRowIs(S, st, cls, pk.name, key);
        FindAppended(Rows(st.tables, cls), EmptyRow(Props(S, cls))[pk.name := One(Scalar(key))], pk.name, key);
      }
    }
  }

  lemma FindAppended(rows: seq<Row>, r: Row, column: string, key: Key)
    requires FindFrom(rows, column, key, 0).None? && CellIn(r, column) == One(Scalar(key))
    ensures FindFrom(rows + [r], column, key, 0) == Some(|rows|)
  {
    assert (rows + [r])[|rows|] == r;
  }

  /** No cell the value supplies for this row is named below it. */
  ghost predicate OwnCellsApart(S: Classes, t: Group, cls: string, v: Value, row: nat)
    requires v.Dict?
  {
    forall p :: p in Props(S, cls) && !p.isPrimary && p.name in v.fields ==>
                  !Reached(S, t, cls, row, p.name, TouchesFrom(S, cls, v, 0))
  }

  lemma OwnCellsDistinct(S: Classes, t: Group, cls: string, v: Value, row: nat)
    requires v.Dict? && Distinct(S, cls, v) && row < Size(t, cls)
    requires PrimaryKey(S, cls).Some? ==>
               var pk := PrimaryKey(S, cls).value;
               KeyOf(pk, v).KeyOk? && CellAt(t, cls, row, pk.name) == One(Scalar(KeyOf(pk, v).key))
    ensures OwnCellsApart(S, t, cls, v, row)
  {
    forall p | p in Props(S, cls) && !p.isPrimary && p.name in v.fields
      ensures !Reached(S, t, cls, row, p.name, TouchesFrom(S, cls, v, 0))
    {
      if PrimaryKey(S, cls).Some? {
        assert p.name in OwnColumns(S, cls, v);
        assert (cls, KeyOf(PrimaryKey(S, cls).value, v).key, p.name) in OwnTouches(S, cls, v);
      }
    }
  }

  lemma OwnCellsLater(S: Classes, t: Group, t': Group, cls: string, v: Value, row: nat)
    requires v.Dict? && OwnCellsApart(S, t, cls, v, row) && KeysKept(S, t, t') && row < Size(t, cls)
    ensures OwnCellsApart(S, t', cls, v, row)
  {
    forall p | p in Props(S, cls) && !p.isPrimary && p.name in v.fields
      ensures !Reached(S, t', cls, row, p.name, TouchesFrom(S, cls, v, 0))
    {
      ReachedLater(S, t, t', cls, row, p.name, TouchesFrom(S, cls, v, 0));
    }
  }

  /** The first `i` properties of the row hold the value's. */
  ghost predicate Populated(S: Classes, from: Floors, t: Group, cls: string, row: nat, v: Value, i: nat)
    requires v.Dict? && i <= |Props(S, cls)|
  {
    forall j :: 0 <= j < i && !Props(S, cls)[j].isPrimary && Props(S, cls)[j].name in v.fields ==>
                  PropertyReflects(S, from, t, cls, row, Props(S, cls)[j], v.fields[Props(S, cls)[j].name])
  }

  lemma {:induction false} PopulateReflects(S: Classes, from: Floors, st: Store, cls: string, target: Target, v: Value,
                                            m: Mode, i: nat)
    requires ValidSchema(S) && Invariant(S, st.tables, m.migration) && ReusesKeys(m) && Within(from, st.tables)
    requires v.Dict? && Distinct(S, cls, v) && !m.diff && i <= |Props(S, cls)|
    requires target.skipPrimary && target.row < Size(st.tables, cls) && Outside(S, from, cls, target.row)
    requires OwnCellsApart(S, st.tables, cls, v, target.row)
    requires Populated(S, from, st.tables, cls, target.row, v, i)
    ensures var r := Populate(S, st, cls, target, v, m, i);
            r.Done? ==> Populated(S, from, r.st.tables, cls, target.row, v, |Props(S, cls)|)
    decreases v, 2, |Props(S, cls)| - i
  {
    if i < |Props(S, cls)| {
      var one := PopulateOne(S, st, cls, target, v, m, Props(S, cls)[i]);
      if one.Done? {
        PopulateOneReflects(S, from, st, cls, target, v, m, i);
        PopulateOneContinues(S, st, cls, target, v, m, Props(S, cls)[i]);
        OwnCellsLater(S, st.tables, one.st.tables, cls, v, target.row);
        WithinLater(from, st.tables, one.st.tables);
        PopulateReflects(S, from, one.st, cls, target, v, m, i + 1);
      }
    }
  }

  lemma {:induction false} PopulateOneReflects(S: Classes, from: Floors, st: Store, cls: string, target: Target,
                                               v: Value, m: Mode, i: nat)
    requires ValidSchema(S) && Invariant(S, st.tables, m.migration) && ReusesKeys(m) && Within(from, st.tables)
    requires v.Dict? && Distinct(S, cls, v) && !m.diff && i < |Props(S, cls)|
    requires target.skipPrimary && target.row < Size(st.tables, cls) && Outside(S, from, cls, target.row)
    requires OwnCellsApart(S, st.tables, cls, v, target.row)
    requires Populated(S, from, st.tables, cls, target.row, v, i)
    requires PopulateOne(S, st, cls, target, v, m, Props(S, cls)[i]).Done?
    ensures Populated(S, from, PopulateOne(S, st, cls, target, v, m, Props(S, cls)[i]).st.tables, cls, target.row, v,
                      i + 1)
    decreases v, 1, 1
  {
    var p := Props(S, cls)[i];
    if !p.isPrimary && p.name in v.fields {
      var x := v.fields[p.name];
      var after := SetProperty(S, st, cls, target.row, p, x, m).st.tables;
      TouchesAtIn(S, cls, v, 0, i);
      SetPropertyContinues(S, st, cls, target.row, p, x, m);
      SetPropertyReflects(S, from, st, cls, target.row, p, x, m);
      SetPropertyOnlyTouches(S, st, cls, target.row, p, x, m);
      forall j | 0 <= j < i && !Props(S, cls)[j].isPrimary && Props(S, cls)[j].name in v.fields
        ensures PropertyReflects(S, from, after, cls, target.row, Props(S, cls)[j], v.fields[Props(S, cls)[j].name])
      {
        EarlierStable(S, from, st.tables, after, cls, target.row, v, j, i);
      }
    }
  }

  /** Setting a later property leaves an earlier one's reflection alone. */
  lemma EarlierStable(S: Classes, from: Floors, t: Group, t': Group, cls: string, row: nat, v: Value, j: nat, i: nat)
    requires ValidSchema(S) && Later(S, t, t') && row < Size(t, cls) && Outside(S, from, cls, row)
    requires v.Dict? && Distinct(S, cls, v) && j < i < |Props(S, cls)|
    requires OwnCellsApart(S, t, cls, v, row)
    requires !Props(S, cls)[j].isPrimary && Props(S, cls)[j].name in v.fields
    requires !Props(S, cls)[i].isPrimary && Props(S, cls)[i].name in v.fields
    requires OnlyTouches(S, t, t', TouchesAt(S, v, Props(S, cls)[i]), cls, row, Props(S, cls)[i].name)
    requires PropertyReflects(S, from, t, cls, row, Props(S, cls)[j], v.fields[Props(S, cls)[j].name])
    ensures PropertyReflects(S, from, t', cls, row, Props(S, cls)[j], v.fields[Props(S, cls)[j].name])
  {
    var p, q := Props(S, cls)[j], Props(S, cls)[i];
    assert cls in S && ValidObjectSchema(S, S[cls]);
    TouchesAtIn(S, cls, v, 0, j);
    TouchesAtIn(S, cls, v, 0, i);
    assert !Reached(S, t, cls, row, p.name, TouchesAt(S, v, q));
    DisjointSame(S, from, t, t', TouchesAt(S, v, q), TouchesAt(S, v, p), cls, row, q.name);
    PropertyReflectsStable(S, from, t, t', cls, row, p, v.fields[p.name]);
  }

  lemma {:induction false} SetPropertyReflects(S: Classes, from: Floors, st: Store, cls: string, row: nat, p: Property,
                                               x: Value, m: Mode)
    requires ValidSchema(S) && Invariant(S, st.tables, m.migration) && ReusesKeys(m) && Within(from, st.tables)
    requires p in Props(S, cls) && !p.isPrimary && row < Size(st.tables, cls) && Outside(S, from, cls, row)
    requires DistinctProperty(S, p, x) && !m.diff
    requires !Reached(S, st.tables, cls, row, p.name, TouchesProperty(S, p, x))
    requires SetProperty(S, st, cls, row, p, x, m).Done?
    ensures PropertyReflects(S, from, SetProperty(S, st, cls, row, p, x, m).st.tables, cls, row, p, x)
    decreases x, 6, 0
  {
    if p.nullable && x.Null? {
    } else if p.isArray {
      OverwrittenListReflects(S, from, st, cls, row, p, x, m);
    } else {
      UpdateReflects(S, from, st, cls, row, p, x, m);
    }
  }

  lemma {:induction false} UpdateReflects(S: Classes, from: Floors, st: Store, cls: string, row: nat, p: Property,
                                          x: Value, m: Mode)
    requires ValidSchema(S) && Invariant(S, st.tables, m.migration) && ReusesKeys(m) && Within(from, st.tables)
    requires p in Props(S, cls) && !p.isPrimary && !p.isArray && row < Size(st.tables, cls) &&
             Outside(S, from, cls, row)
    requires DistinctElement(S, p, x) && !m.diff
    requires !Reached(S, st.tables, cls, row, p.name, TouchesElement(S, p, x))
    requires Update(S, st, cls, row, p, x, m).Done?
    ensures var t' := Update(S, st, cls, row, p, x, m).st.tables;
            var c := CellAt(t', cls, row, p.name);
            c.One? && ElementReflects(S, from, t', p, x, c.slot)
    decreases x, 5, 0
  {
    var cell := CellAt(st.tables, cls, row, p.name);
    var current := CurrentLink(cell);
    if cell.One? {
      CurrentLinkOk(S, st, cls, row, p, cell.slot);
    }
    UnboxReflects(S, from, st, cls, p, x, m, current);
    UnboxUntouched(S, st, cls, p, x, m, current);
    UnboxContinues(S, st, cls, p, x, m, current);
    var u := Unbox(S, st, p, x, m, current);
    ReachedLater(S, st.tables, u.st.tables, cls, row, p.name, TouchesElement(S, p, x));
    StoredReflects(S, from, u.st, cls, row, p, x, cell, u.value, m);
  }

  /** Writing an unboxed value into its cell, or finding it there, keeps the object it names reflected. */
  lemma StoredReflects(S: Classes, from: Floors, st: Store, cls: string, row: nat, p: Property, x: Value, before: Cell,
                       u: Unboxed, m: Mode)
    requires ValidSchema(S) && Invariant(S, st.tables, true)
    requires p in Props(S, cls) && !p.isPrimary && !p.isArray && row < Size(st.tables, cls) &&
             Outside(S, from, cls, row)
    requires CellAt(st.tables, cls, row, p.name) == before && UnboxedOk(p, u)
    requires !Reached(S, st.tables, cls, row, p.name, TouchesElement(S, p, x))
    requires ElementReflects(S, from, st.tables, p, x, ToSlot(u))
    requires StoreIfDifferent(st, cls, row, p, before, u, m).Done?
    ensures var t' := StoreIfDifferent(st, cls, row, p, before, u, m).st.tables;
            CellAt(t', cls, row, p.name) == One(ToSlot(u)) && ElementReflects(S, from, t', p, x, ToSlot(u))
  {
    if !(m.diff && before == One(ToSlot(u))) {
      var c, i := One(ToSlot(u)), SetCell(cls, row, p.name);
      var t' := Written(st, cls, row, p.name, c, i).tables;
      WrittenKeepsOthers(S, st, cls, row, p.name, c, i);
      StoreValueContinues(S, st, cls, row, p, u, true);
      DisjointSame(S, from, st.tables, t', {}, TouchesElement(S, p, x), cls, row, p.name);
      ElementReflectsStable(S, from, st.tables, t', p, x, ToSlot(u));
    }
  }

  lemma {:induction false} UnboxReflects(S: Classes, from: Floors, st: Store, cls: string, p: Property, x: Value,
                                         m: Mode, current: Option<nat>)
    requires ValidSchema(S) && Invariant(S, st.tables, m.migration) && ReusesKeys(m) && Within(from, st.tables)
    requires p in Props(S, cls) && DistinctElement(S, p, x) && !m.diff
    requires p.base.ObjectType? && current.Some? ==> current.value < Size(st.tables, p.objectType)
    ensures var u := Unbox(S, st, p, x, m, current);
            u.Done? && (p.isArray && u.value.RowValue? ==> u.value.cls == p.objectType) ==>
              ElementReflects(S, from, u.st.tables, p, x, ToSlot(u.value))
    decreases x, 4, 0
  {
    Valid(S, cls, p);
    if !p.base.ObjectType? {
      CastsUnbox(p, x);
    }
    if p.base.ObjectType? && !x.Managed? {
      OverwriteReflects(S, from, st, p.objectType, x, m, current);
    }
  }

  lemma {:induction false} OverwrittenListReflects(S: Classes, from: Floors, st: Store, cls: string, row: nat,
                                                   p: Property, x: Value, m: Mode)
    requires ValidSchema(S) && Invariant(S, st.tables, m.migration) && ReusesKeys(m) && Within(from, st.tables)
    requires p in Props(S, cls) && p.isArray && row < Size(st.tables, cls) && !(p.nullable && x.Null?)
    requires Outside(S, from, cls, row) && DistinctProperty(S, p, x) && !m.diff
    requires !Reached(S, st.tables, cls, row, p.name, TouchesProperty(S, p, x))
    requires Assign(S, st, cls, row, p, x, m).Done?
    ensures PropertyReflects(S, from, Assign(S, st, cls, row, p, x, m).st.tables, cls, row, p, x)
    decreases x, 5, 1
  {
    SlotsOk(S, st, cls, row, p);
    if x.Vector? {
      var s0 := Clear(st, cls, row, p.name);
      WrittenKeepsOthers(S, st, cls, row, p.name, Many([]), ListCleared(cls, row, p.name));
      WrittenContinues(S, st, cls, row, p, Many([]), ListCleared(cls, row, p.name), m.migration);
      WithinLater(from, st.tables, s0.tables);
      ReachedLater(S, st.tables, s0.tables, cls, row, p.name, TouchesElements(S, p, x, 0));
      AssignFromReflects(S, from, s0, cls, row, p, x, 0, m);
      AssignFromContinues(S, s0, cls, row, p, x, 0, 0, m);
      SlotsOk(S, AssignFrom(S, s0, cls, row, p, x, 0, 0, m).st, cls, row, p);
    }
  }

  /** A successful assignment leaves exactly the given elements, on both paths, and overwriting changes no other
      cell but those the elements name; diffing ends in the same tables. */
  lemma AssignReflects(S: Classes, from: Floors, st: Store, cls: string, row: nat, p: Property, x: Value, m: Mode)
    requires ValidSchema(S) && Invariant(S, st.tables, m.migration) && ReusesKeys(m) && Within(from, st.tables)
    requires p in Props(S, cls) && p.isArray && row < Size(st.tables, cls) && !(p.nullable && x.Null?)
    requires Outside(S, from, cls, row) && DistinctProperty(S, p, x)
    requires !m.diff || AddsOnlyProperty(S, st.tables, p, x, CellAt(st.tables, cls, row, p.name))
    requires !Reached(S, st.tables, cls, row, p.name, TouchesProperty(S, p, x))
    requires Assign(S, st, cls, row, p, x, m).Done?
    ensures var t' := Assign(S, st, cls, row, p, x, m).st.tables;
            && PropertyReflects(S, from, t', cls, row, p, x)
            && OnlyTouches(S, st.tables, t', TouchesProperty(S, p, x), cls, row, p.name)
  {
    var f := m.(diff := false);
    Valid(S, cls, p);
    if m.diff {
      DistinctPropertyNoRecursion(S, p, x);
      AssignAgrees(S, st, st, cls, row, p, x, f, m);
    }
    OverwrittenListReflects(S, from, st, cls, row, p, x, f);
    SetPropertyOnlyTouches(S, st, cls, row, p, x, f);
    assert SetProperty(S, st, cls, row, p, x, f) == Assign(S, st, cls, row, p, x, f);
  }

  lemma {:induction false} AssignFromReflects(S: Classes, from: Floors, st: Store, cls: string, row: nat, p: Property,
                                              x: Value, i: nat, m: Mode)
    requires ValidSchema(S) && Invariant(S, st.tables, m.migration) && ReusesKeys(m) && Within(from, st.tables)
    requires p in Props(S, cls) && p.isArray && row < Size(st.tables, cls) && Outside(S, from, cls, row)
    requires x.Vector? && i <= |x.elems| && DistinctProperty(S, p, x) && !m.diff
    requires !Reached(S, st.tables, cls, row, p.name, TouchesElements(S, p, x, 0))
    requires Assigned(S, from, st.tables, cls, row, p, x, i)
    ensures var r := AssignFrom(S, st, cls, row, p, x, i, 0, m);
            r.Done? ==> Assigned(S, from, r.st.tables, cls, row, p, x, |x.elems|)
    decreases x, 5, 0, |x.elems| - i
  {
    AssignFromStep(S, st, cls, row, p, x, i, 0, m);
    if i < |x.elems| {
      var one := AssignElement(S, st, cls, row, p, x.elems[i], i, 0, m);
      if one.Done? {
        AssignElementReflects(S, from, st, cls, row, p, x, i, m);
        AssignElementReady(S, from, st, cls, row, p, x, i, m);
        AssignFromReflects(S, from, one.st, cls, row, p, x, i + 1, m);
      }
    }
  }

  /** What assigning the next element starts from. */
  lemma AssignElementReady(S: Classes, from: Floors, st: Store, cls: string, row: nat, p: Property, x: Value, i: nat,
                           m: Mode)
    requires ValidSchema(S) && Invariant(S, st.tables, m.migration) && Within(from, st.tables)
    requires p in Props(S, cls) && p.isArray && row < Size(st.tables, cls) && x.Vector? && i < |x.elems|
    requires !Reached(S, st.tables, cls, row, p.name, TouchesElements(S, p, x, 0))
    ensures var t' := AssignElement(S, st, cls, row, p, x.elems[i], i, 0, m).st.tables;
            && Invariant(S, t', m.migration) && Within(from, t') && row < Size(t', cls)
            && !Reached(S, t', cls, row, p.name, TouchesElements(S, p, x, 0))
  {
    var t' := AssignElement(S, st, cls, row, p, x.elems[i], i, 0, m).st.tables;
    AssignElementContinues(S, st, cls, row, p, x.elems[i], i, 0, m);
    assert Size(st.tables, cls) <= Size(t', cls);
    ReachedLater(S, st.tables, t', cls, row, p.name, TouchesElements(S, p, x, 0));
    WithinLater(from, st.tables, t');
  }

  lemma {:induction false} AssignElementReflects(S: Classes, from: Floors, st: Store, cls: string, row: nat,
                                                 p: Property, x: Value, i: nat, m: Mode)
    requires ValidSchema(S) && Invariant(S, st.tables, m.migration) && ReusesKeys(m) && Within(from, st.tables)
    requires p in Props(S, cls) && p.isArray && row < Size(st.tables, cls) && Outside(S, from, cls, row)
    requires x.Vector? && i < |x.elems| && DistinctProperty(S, p, x) && !m.diff
    requires !Reached(S, st.tables, cls, row, p.name, TouchesElements(S, p, x, 0))
    requires Assigned(S, from, st.tables, cls, row, p, x, i)
    requires AssignElement(S, st, cls, row, p, x.elems[i], i, 0, m).Done?
    ensures Assigned(S, from, AssignElement(S, st, cls, row, p, x.elems[i], i, 0, m).st.tables, cls, row, p, x, i + 1)
    decreases x, 4, 1
  {
    var e := x.elems[i];
    AssignElementStep(S, st, cls, row, p, e, i, 0, m);
    assert m.(diff := false) == m;
    UnboxReflects(S, from, st, cls, p, e, m, None);
    UnboxContinues(S, st, cls, p, e, m, None);
    UnboxKeepsAssigned(S, from, st, cls, row, p, x, i, m);
    var u := Unbox(S, st, p, e, m, None);
    AddReflects(S, from, u.st, cls, row, p, x, i, u.value);
  }

  /** Unboxing an element touches neither the list nor the objects of the elements before it. */
  lemma UnboxKeepsAssigned(S: Classes, from: Floors, st: Store, cls: string, row: nat, p: Property, x: Value, i: nat,
                           m: Mode)
    requires ValidSchema(S) && Invariant(S, st.tables, m.migration)
    requires p in Props(S, cls) && p.isArray && row < Size(st.tables, cls) && Outside(S, from, cls, row)
    requires x.Vector? && i < |x.elems| && DistinctProperty(S, p, x) && !m.diff
    requires !Reached(S, st.tables, cls, row, p.name, TouchesElements(S, p, x, 0))
    requires Assigned(S, from, st.tables, cls, row, p, x, i)
    ensures var t' := Unbox(S, st, p, x.elems[i], m, None).st.tables;
            && Assigned(S, from, t', cls, row, p, x, i)
            && CellAt(t', cls, row, p.name) == CellAt(st.tables, cls, row, p.name)
            && !Reached(S, t', cls, row, p.name, TouchesElements(S, p, x, 0))
  {
    var t' := Unbox(S, st, p, x.elems[i], m, None).st.tables;
    UnboxContinues(S, st, cls, p, x.elems[i], m, None);
    UnboxUntouched(S, st, cls, p, x.elems[i], m, None);
    TouchesElementIn(S, p, x, 0, i);
    ReachedLater(S, st.tables, t', cls, row, p.name, TouchesElements(S, p, x, 0));
    forall k | 0 <= k < i
      ensures Same(S, from, st.tables, t', TouchesElement(S, p, x.elems[k]))
    {
      TouchesElementIn(S, p, x, 0, k);
      DisjointSame(S, from, st.tables, t', TouchesElement(S, p, x.elems[i]), TouchesElement(S, p, x.elems[k]),
                   cls, row, p.name);
    }
    ElementsReflectStable(S, from, st.tables, t', p, x, ListAt(st.tables, cls, row, p.name), i);
  }

  lemma ExtendReflect(S: Classes, from: Floors, t: Group, p: Property, x: Value, slots: seq<Slot>, next: seq<Slot>,
                      i: nat)
    requires x.Vector? && i < |x.elems| && i <= |slots| && i < |next|
    requires ElementsReflect(S, from, t, p, x, slots, i) && ElementReflects(S, from, t, p, x.elems[i], next[i])
    requires forall k :: 0 <= k < i ==> next[k] == slots[k]
    ensures ElementsReflect(S, from, t, p, x, next, i + 1)
  {
  }

  /** A list keeps its type when an element that is not refused is added. */
  lemma NextSlotsOk(S: Classes, st: Store, cls: string, row: nat, p: Property, u: Unboxed)
    requires ValidSchema(S) && Typed(S, st.tables) && p in Props(S, cls) && p.isArray && row < Size(st.tables, cls)
    requires UnboxedOk(p, u) && ListRefuses(st.tables, p, u).None?
    ensures CellOk(st.tables, p, Many(ListAt(st.tables, cls, row, p.name) + [ToSlot(u)]))
  {
    SlotsOk(S, st, cls, row, p);
  }

  /** Adding the unboxed element assigns one position more. */
  lemma AddReflects(S: Classes, from: Floors, st: Store, cls: string, row: nat, p: Property, x: Value, i: nat,
                    u: Unboxed)
    requires ValidSchema(S) && Invariant(S, st.tables, true) && Outside(S, from, cls, row)
    requires p in Props(S, cls) && p.isArray && row < Size(st.tables, cls) && UnboxedOk(p, u)
    requires x.Vector? && i < |x.elems|
    requires !Reached(S, st.tables, cls, row, p.name, TouchesElements(S, p, x, 0))
    requires Assigned(S, from, st.tables, cls, row, p, x, i)
    requires (u.RowValue? ==> u.cls == p.objectType) ==> ElementReflects(S, from, st.tables, p, x.elems[i], ToSlot(u))
    requires ListAdd(st, cls, row, p, u).Done?
    ensures Assigned(S, from, ListAdd(st, cls, row, p, u).st.tables, cls, row, p, x, i + 1)
  {
    var slots := ListAt(st.tables, cls, row, p.name);
    var next := slots + [ToSlot(u)];
    NextSlotsOk(S, st, cls, row, p, u);
    ExtendReflect(S, from, st.tables, p, x, slots, next, i);
    ListWritten(S, from, st, cls, row, p, x, i + 1, next, ListAdded(cls, row, p.name));
  }

  /** Writing a list cell whose first elements reflect keeps them reflecting. */
  lemma ListWritten(S: Classes, from: Floors, st: Store, cls: string, row: nat, p: Property, x: Value, n: nat,
                    next: seq<Slot>, w: Write)
    requires ValidSchema(S) && Invariant(S, st.tables, true) && Outside(S, from, cls, row)
    requires p in Props(S, cls) && p.isArray && row < Size(st.tables, cls)
    requires x.Vector? && n <= |x.elems| && n <= |next| && CellOk(st.tables, p, Many(next))
    requires !Reached(S, st.tables, cls, row, p.name, TouchesElements(S, p, x, 0))
    requires ElementsReflect(S, from, st.tables, p, x, next, n)
    ensures var t' := Written(st, cls, row, p.name, Many(next), w).tables;
            && CellAt(t', cls, row, p.name) == Many(next)
            && ElementsReflect(S, from, t', p, x, next, n)
  {
    var t' := Written(st, cls, row, p.name, Many(next), w).tables;
    Valid(S, cls, p);
    WrittenKeepsOthers(S, st, cls, row, p.name, Many(next), w);
    WrittenContinues(S, st, cls, row, p, Many(next), w, true);
    DisjointSame(S, from, st.tables, t', {}, TouchesElements(S, p, x, 0), cls, row, p.name);
    ElementsReflectStable(S, from, st.tables, t', p, x, next, n);
  }
}
