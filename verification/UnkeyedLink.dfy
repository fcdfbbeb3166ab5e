/** Why the diff refinement needs keyed objects: diffing updates the linked object of an unkeyed class in place,
    where overwriting always adds another one and links that. */
module UnkeyedLink {
  import opened Wrappers
  import opened Schema
  import opened Tables
  import opened ObjectAccessor
  import opened Frame
  import opened Invariants
  import opened ListTrimming
  import opened DiffRefinement

  /** A link given a value that will be created in an unkeyed class. */
  ghost predicate CreatesUnkeyed(S: Classes, cls: string, v: Value, p: Property) {
    && v.Dict? && p in Props(S, cls) && p.name in v.fields
    && p.base.ObjectType? && !p.isArray && PrimaryKey(S, p.objectType).None?
    && !v.fields[p.name].Managed? && !v.fields[p.name].Null?
  }

  /** Where the link ends: at the old target when diffing, at a row not there before when overwriting. */
  ghost predicate LinkEnds(t: Group, t': Group, cls: string, row: nat, p: Property, q: nat, diff: bool) {
    var c := CellAt(t', cls, row, p.name);
    && c.One? && c.slot.Link? && c.slot.target.Some?
    && if diff then c.slot.target.value == q else c.slot.target.value >= Size(t, p.objectType)
  }

  lemma UpdateLinks(S: Classes, st: Store, cls: string, row: nat, p: Property, x: Value, m: Mode, q: nat)
    requires ValidSchema(S) && Invariant(S, st.tables, m.migration)
    requires PrimaryKey(S, cls).Some? && row < Size(st.tables, cls) && p in Props(S, cls) && !p.isPrimary
    requires p.base.ObjectType? && !p.isArray && PrimaryKey(S, p.objectType).None? && !x.Managed?
    requires CellAt(st.tables, cls, row, p.name) == One(Link(Some(q)))
    requires !Reached(S, st.tables, cls, row, p.name, TouchesElement(S, p, x))
    requires Update(S, st, cls, row, p, x, m).Done?
    ensures LinkEnds(st.tables, Update(S, st, cls, row, p, x, m).st.tables, cls, row, p, q, m.diff)
  {
    CurrentLinkOk(S, st, cls, row, p, Link(Some(q)));
    UnboxKeepsCell(S, st, cls, row, p, x, m, Some(q));
    UnkeyedRow(S, st, p, x, m, Some(q));
  }

  /** The row of an object created in an unkeyed class: the current one when diffing, a new one when overwriting. */
  lemma UnkeyedRow(S: Classes, st: Store, p: Property, e: Value, m: Mode, current: Option<nat>)
    requires p.base.ObjectType? && PrimaryKey(S, p.objectType).None? && !e.Managed? && (m.diff ==> current.Some?)
    ensures var u := Unbox(S, st, p, e, m, current);
            u.Done? ==>
              u.value == RowValue(p.objectType, if m.diff then current.value else Size(st.tables, p.objectType))
  {
  }

  /** What the properties before the link keep. */
  ghost predicate LinkWaits(S: Classes, t: Group, s: Store, cls: string, row: nat, p: Property, touched: set<Touch>,
                            q: nat, migration: bool) {
    && Invariant(S, s.tables, migration) && row < Size(s.tables, cls)
    && Size(t, p.objectType) <= Size(s.tables, p.objectType)
    && CellAt(s.tables, cls, row, p.name) == One(Link(Some(q)))
    && !Reached(S, s.tables, cls, row, p.name, touched)
  }

  lemma PopulateLinks(S: Classes, st: Store, cls: string, target: Target, v: Value, m: Mode, j: nat, q: nat)
    requires ValidSchema(S) && Invariant(S, st.tables, m.migration) && PrimaryKey(S, cls).Some?
    requires target.skipPrimary && target.row < Size(st.tables, cls)
    requires j < |Props(S, cls)| && CreatesUnkeyed(S, cls, v, Props(S, cls)[j])
    requires CellAt(st.tables, cls, target.row, Props(S, cls)[j].name) == One(Link(Some(q)))
    requires !Reached(S, st.tables, cls, target.row, Props(S, cls)[j].name, TouchesFrom(S, cls, v, 0))
    requires Populate(S, st, cls, target, v, m, 0).Done?
    ensures LinkEnds(st.tables, Populate(S, st, cls, target, v, m, 0).st.tables, cls, target.row, Props(S, cls)[j], q,
                     m.diff)
  {
    var p, touched := Props(S, cls)[j], TouchesFrom(S, cls, v, 0);
    var Inv := (s: Store) => LinkWaits(S, st.tables, s, cls, target.row, p, touched, q, m.migration);
    forall n: nat, s | 0 <= n < j && Inv(s) && PopulateOne(S, s, cls, target, v, m, Props(S, cls)[n]).Done?
      ensures Inv(PopulateOne(S, s, cls, target, v, m, Props(S, cls)[n]).st)
    {
      PopulateOneReady(S, s, cls, target, v, m, n, p);
      OthersKeepLink(S, s, cls, target, v, m, n, j);
    }
    var s := PopulateUpTo(S, st, cls, target, v, m, 0, j, Inv);
    LinkTurn(S, st.tables, s, cls, target, v, m, j, q);
  }

  /** The link's turn, and what comes after. */
  lemma LinkTurn(S: Classes, t: Group, s: Store, cls: string, target: Target, v: Value, m: Mode, j: nat, q: nat)
    requires ValidSchema(S) && PrimaryKey(S, cls).Some? && target.skipPrimary
    requires j < |Props(S, cls)| && CreatesUnkeyed(S, cls, v, Props(S, cls)[j])
    requires LinkWaits(S, t, s, cls, target.row, Props(S, cls)[j], TouchesFrom(S, cls, v, 0), q, m.migration)
    requires Populate(S, s, cls, target, v, m, j).Done?
    ensures LinkEnds(t, Populate(S, s, cls, target, v, m, j).st.tables, cls, target.row, Props(S, cls)[j], q, m.diff)
  {
    PopulateStep(S, s, cls, target, v, m, j);
    PopulateOneReady(S, s, cls, target, v, m, j, Props(S, cls)[j]);
    PopulateOneLinks(S, s, cls, target, v, m, j, q);
    LaterKeepLink(S, PopulateOne(S, s, cls, target, v, m, Props(S, cls)[j]).st, cls, target, v, m, j);
  }

  /** What populating the next property starts from. */
  lemma PopulateOneReady(S: Classes, st: Store, cls: string, target: Target, v: Value, m: Mode, i: nat, p: Property)
    requires ValidSchema(S) && Invariant(S, st.tables, m.migration) && v.Dict?
    requires target.skipPrimary && target.row < Size(st.tables, cls) && i < |Props(S, cls)|
    requires !Reached(S, st.tables, cls, target.row, p.name, TouchesFrom(S, cls, v, 0))
    ensures var t' := PopulateOne(S, st, cls, target, v, m, Props(S, cls)[i]).st.tables;
            && Invariant(S, t', m.migration) && target.row < Size(t', cls)
            && Size(st.tables, p.objectType) <= Size(t', p.objectType)
            && !Reached(S, t', cls, target.row, p.name, TouchesFrom(S, cls, v, 0))
            && !Reached(S, t', cls, target.row, p.name, TouchesFrom(S, cls, v, i + 1))
            && !Reached(S, st.tables, cls, target.row, p.name, TouchesAt(S, v, Props(S, cls)[i]))
  {
    var t' := PopulateOne(S, st, cls, target, v, m, Props(S, cls)[i]).st.tables;
    PopulateOneContinues(S, st, cls, target, v, m, Props(S, cls)[i]);
    assert Size(st.tables, cls) <= Size(t', cls);
    TouchesAtIn(S, cls, v, 0, i);
    TouchesFromIn(S, cls, v, 0, i + 1);
    ReachedLater(S, st.tables, t', cls, target.row, p.name, TouchesFrom(S, cls, v, 0));
  }

  lemma TouchesFromIn(S: Classes, cls: string, v: Value, i: nat, j: nat)
    requires v.Dict? && i <= j <= |Props(S, cls)|
    ensures TouchesFrom(S, cls, v, j) <= TouchesFrom(S, cls, v, i)
    decreases j - i
  {
    if i < j {
      TouchesFromIn(S, cls, v, i + 1, j);
    }
  }

  /** Populating another property leaves the link alone. */
  lemma OthersKeepLink(S: Classes, st: Store, cls: string, target: Target, v: Value, m: Mode, i: nat, j: nat)
    requires ValidSchema(S) && PrimaryKey(S, cls).Some? && target.skipPrimary && target.row < Size(st.tables, cls)
    requires i < |Props(S, cls)| && j < |Props(S, cls)| && i != j && CreatesUnkeyed(S, cls, v, Props(S, cls)[j])
    requires !Reached(S, st.tables, cls, target.row, Props(S, cls)[j].name, TouchesAt(S, v, Props(S, cls)[i]))
    ensures CellAt(PopulateOne(S, st, cls, target, v, m, Props(S, cls)[i]).st.tables, cls, target.row,
                   Props(S, cls)[j].name) ==
            CellAt(st.tables, cls, target.row, Props(S, cls)[j].name)
  {
    var p, column := Props(S, cls)[i], Props(S, cls)[j].name;
    var w := Spot(cls, target.row, column, CellAt(st.tables, cls, target.row, column));
    BesideLink(S, cls, target, v, i, j, w);
    PopulateOneCommutes(S, st, cls, target, v, m, p, w);
  }

  /** So does populating all the later ones. */
  lemma LaterKeepLink(S: Classes, st: Store, cls: string, target: Target, v: Value, m: Mode, j: nat)
    requires ValidSchema(S) && PrimaryKey(S, cls).Some? && target.skipPrimary && target.row < Size(st.tables, cls)
    requires j < |Props(S, cls)| && CreatesUnkeyed(S, cls, v, Props(S, cls)[j])
    requires !Reached(S, st.tables, cls, target.row, Props(S, cls)[j].name, TouchesFrom(S, cls, v, j + 1))
    ensures CellAt(Populate(S, st, cls, target, v, m, j + 1).st.tables, cls, target.row, Props(S, cls)[j].name) ==
            CellAt(st.tables, cls, target.row, Props(S, cls)[j].name)
  {
    var column := Props(S, cls)[j].name;
    var w := Spot(cls, target.row, column, CellAt(st.tables, cls, target.row, column));
    forall k | j < k < |Props(S, cls)|
      ensures PopulatesBeside(S, cls, target, v, Props(S, cls)[k], w)
    {
      BesideLink(S, cls, target, v, k, j, w);
    }
    PopulateCommutes(S, st, cls, target, v, m, j + 1, w);
  }

  lemma BesideLink(S: Classes, cls: string, target: Target, v: Value, i: nat, j: nat, w: Spot)
    requires ValidSchema(S) && PrimaryKey(S, cls).Some? && target.skipPrimary
    requires i < |Props(S, cls)| && j < |Props(S, cls)| && i != j && w.column == Props(S, cls)[j].name
    ensures PopulatesBeside(S, cls, target, v, Props(S, cls)[i], w)
  {
    Valid(S, cls, Props(S, cls)[i]);
    assert ValidObjectSchema(S, S[cls]);
  }

  lemma PopulateOneLinks(S: Classes, st: Store, cls: string, target: Target, v: Value, m: Mode, j: nat, q: nat)
    requires ValidSchema(S) && Invariant(S, st.tables, m.migration) && PrimaryKey(S, cls).Some?
    requires target.skipPrimary && target.row < Size(st.tables, cls)
    requires j < |Props(S, cls)| && CreatesUnkeyed(S, cls, v, Props(S, cls)[j])
    requires CellAt(st.tables, cls, target.row, Props(S, cls)[j].name) == One(Link(Some(q)))
    requires !Reached(S, st.tables, cls, target.row, Props(S, cls)[j].name, TouchesAt(S, v, Props(S, cls)[j]))
    requires PopulateOne(S, st, cls, target, v, m, Props(S, cls)[j]).Done?
    ensures LinkEnds(st.tables, PopulateOne(S, st, cls, target, v, m, Props(S, cls)[j]).st.tables, cls, target.row,
                     Props(S, cls)[j], q, m.diff)
  {
    var p := Props(S, cls)[j];
    Valid(S, cls, p);
    assert TouchesAt(S, v, p) == TouchesElement(S, p, v.fields[p.name]);
    UpdateLinks(S, st, cls, target.row, p, v.fields[p.name], m, q);
  }

  /** Every create of an existing object that supplies, for a link it already holds, a value of an unkeyed class:
      if both modes succeed, they end with different links, so in different tables. */
  lemma UnkeyedLinkDiffers(S: Classes, st: Store, cls: string, v: Value, p: Property, row: nat, q: nat,
                           migration: bool)
    requires ValidSchema(S) && Invariant(S, st.tables, migration) && PrimaryKey(S, cls).Some?
    requires var pk := PrimaryKey(S, cls).value;
             KeyOf(pk, v).KeyOk? && FindFirst(st.tables, cls, pk.name, KeyOf(pk, v).key) == Some(row)
    requires CreatesUnkeyed(S, cls, v, p) && !NamesItself(S, cls, v, p.name, TouchesFrom(S, cls, v, 0))
    requires CellAt(st.tables, cls, row, p.name) == One(Link(Some(q)))
    ensures var f := Create(S, st, cls, v, Mode(true, false, migration), None);
            var d := Create(S, st, cls, v, Mode(true, true, migration), None);
            f.Done? && d.Done? ==>
              && f.value == row && d.value == row
              && LinkEnds(st.tables, f.st.tables, cls, row, p, q, false)
              && CellAt(d.st.tables, cls, row, p.name) == One(Link(Some(q)))
              && f.st.tables != d.st.tables && !Agree(f, d)
  {
    var j :| 0 <= j < |Props(S, cls)| && Props(S, cls)[j] == p;
    var target := Target(row, false, true);
    CurrentLinkOk(S, st, cls, row, p, Link(Some(q)));
    if Create(S, st, cls, v, Mode(true, false, migration), None).Done? {
      PopulateLinks(S, st, cls, target, v, Mode(true, false, migration), j, q);
    }
    if Create(S, st, cls, v, Mode(true, true, migration), None).Done? {
      PopulateLinks(S, st, cls, target, v, Mode(true, true, migration), j, q);
    }
  }

  /** A list of a keyed object, and a vector none of whose elements reaches it. */
  ghost predicate ListReady(S: Classes, st: Store, cls: string, row: nat, p: Property, x: Value, migration: bool) {
    match x
    case Vector(elems) =>
      && ValidSchema(S) && PrimaryKey(S, cls).Some? && p in Props(S, cls) && p.isArray
      && Invariant(S, st.tables, migration) && row < Size(st.tables, cls)
      && forall e :: e in elems ==> !Reached(S, st.tables, cls, row, p.name, TouchesElement(S, p, e))
    case _ => false
  }

  lemma ElementReady(S: Classes, st: Store, cls: string, row: nat, p: Property, x: Value, i: nat, size: nat, m: Mode)
    requires x.Vector? && i < |x.elems| && ListReady(S, st, cls, row, p, x, m.migration)
    ensures var end := AssignElement(S, st, cls, row, p, x.elems[i], i, size, m);
            ListReady(S, end.st, cls, row, p, x, m.migration) &&
              Size(st.tables, p.objectType) <= Size(end.st.tables, p.objectType)
  {
    var end := AssignElement(S, st, cls, row, p, x.elems[i], i, size, m);
    AssignElementContinues(S, st, cls, row, p, x.elems[i], i, size, m);
    assert Size(st.tables, cls) <= Size(end.st.tables, cls);
    forall e | e in x.elems
      ensures !Reached(S, end.st.tables, cls, row, p.name, TouchesElement(S, p, e))
    {
      ReachedLater(S, st.tables, end.st.tables, cls, row, p.name, TouchesElement(S, p, e));
    }
  }

  /** What assigning an element makes of a list: a slot is kept unless it is the one set. */
  ghost predicate SlotsKept(before: seq<Slot>, after: seq<Slot>, i: nat, size: nat) {
    && |after| == |before| + (if i < size then 0 else 1)
    && forall k :: 0 <= k < |before| && (k != i || i >= size) ==> after[k] == before[k]
  }

  lemma ElementKeepsSlots(S: Classes, st: Store, cls: string, row: nat, p: Property, x: Value, i: nat, size: nat,
                          m: Mode)
    requires x.Vector? && i < |x.elems| && ListReady(S, st, cls, row, p, x, m.migration)
    requires AssignElement(S, st, cls, row, p, x.elems[i], i, size, m).Done?
    ensures SlotsKept(ListAt(st.tables, cls, row, p.name),
                      ListAt(AssignElement(S, st, cls, row, p, x.elems[i], i, size, m).st.tables, cls, row,
                             p.name), i, size)
  {
    var e, slots := x.elems[i], ListAt(st.tables, cls, row, p.name);
    Valid(S, cls, p);
    AssignElementStep(S, st, cls, row, p, e, i, size, m);
    if i >= size {
      UnboxKeepsCell(S, st, cls, row, p, e, m.(diff := false), None);
      AddKeepsSlots(Unbox(S, st, p, e, m.(diff := false), None).st, cls, row, p,
                    Unbox(S, st, p, e, m.(diff := false), None).value);
    } else {
      var current := CurrentLink(One(slots[i]));
      CurrentLinkOk(S, st, cls, row, p, slots[i]);
      UnboxKeepsCell(S, st, cls, row, p, e, m.(diff := true), current);
      var u := Unbox(S, st, p, e, m.(diff := true), current);
      PutKeepsSlots(u.st, cls, row, p, u.value, i);
    }
  }

  lemma AddKeepsSlots(st: Store, cls: string, row: nat, p: Property, u: Unboxed)
    requires row < Size(st.tables, cls) && ListAdd(st, cls, row, p, u).Done?
    ensures ListAt(ListAdd(st, cls, row, p, u).st.tables, cls, row, p.name) ==
            ListAt(st.tables, cls, row, p.name) + [ToSlot(u)]
  {
  }

  lemma PutKeepsSlots(st: Store, cls: string, row: nat, p: Property, u: Unboxed, i: nat)
    requires row < Size(st.tables, cls) && i < |ListAt(st.tables, cls, row, p.name)|
    requires PutIfDifferent(st, cls, row, p, ListAt(st.tables, cls, row, p.name)[i], u, i).Done?
    ensures ListAt(PutIfDifferent(st, cls, row, p, ListAt(st.tables, cls, row, p.name)[i], u, i).st.tables, cls, row,
                   p.name) ==
            ListAt(st.tables, cls, row, p.name)[i := ToSlot(u)]
  {
  }

  /** The `k`-th slot of the list, if it is there. */
  function SlotAt(t: Group, cls: string, row: nat, column: string, k: nat): Option<Slot> {
    if row < Size(t, cls) && k < |ListAt(t, cls, row, column)| then Some(ListAt(t, cls, row, column)[k]) else None
  }

  lemma ElementKeepsSlot(S: Classes, st: Store, cls: string, row: nat, p: Property, x: Value, i: nat, size: nat,
                         m: Mode, k: nat)
    requires x.Vector? && k < i < |x.elems| && SlotAt(st.tables, cls, row, p.name, k).Some?
    requires ListReady(S, st, cls, row, p, x, m.migration)
    ensures var one := AssignElement(S, st, cls, row, p, x.elems[i], i, size, m);
            one.Done? ==> SlotAt(one.st.tables, cls, row, p.name, k) == SlotAt(st.tables, cls, row, p.name, k)
  {
    ElementReady(S, st, cls, row, p, x, i, size, m);
    if AssignElement(S, st, cls, row, p, x.elems[i], i, size, m).Done? {
      ElementKeepsSlots(S, st, cls, row, p, x, i, size, m);
    }
  }

  /** Where the slot ends: set in place it links the row it did, added it links a row not there before. */
  ghost predicate SlotEnds(t: Group, t': Group, cls: string, row: nat, p: Property, k: nat, size: nat) {
    var before, after := SlotAt(t, cls, row, p.name, k), SlotAt(t', cls, row, p.name, k);
    && after.Some?
    && if k < size then after == before
       else after.value.Link? && after.value.target.Some? && after.value.target.value >= Size(t, p.objectType)
  }

  /** Before the `k`-th element's turn: its slot is there to be set, or the list is just as long as the turn. */
  ghost predicate BeforeTurn(t: Group, cls: string, row: nat, p: Property, i: nat, k: nat, size: nat) {
    var slots := ListAt(t, cls, row, p.name);
    if k < size then k < |slots| else size <= i == |slots|
  }

  /** What the elements before the `k`-th keep. */
  ghost predicate TurnComes(S: Classes, t: Group, s: Store, cls: string, row: nat, p: Property, x: Value, n: nat,
                            k: nat, size: nat, migration: bool) {
    && ListReady(S, s, cls, row, p, x, migration) && Size(t, p.objectType) <= Size(s.tables, p.objectType)
    && BeforeTurn(s.tables, cls, row, p, n, k, size)
    && (k < size ==> SlotAt(s.tables, cls, row, p.name, k) == SlotAt(t, cls, row, p.name, k))
  }

  lemma TurnNext(S: Classes, t: Group, s: Store, cls: string, row: nat, p: Property, x: Value, n: nat, k: nat,
                 size: nat,
                 m: Mode)
    requires x.Vector? && n < k < |x.elems| && TurnComes(S, t, s, cls, row, p, x, n, k, size, m.migration)
    requires AssignElement(S, s, cls, row, p, x.elems[n], n, size, m).Done?
    ensures TurnComes(S, t, AssignElement(S, s, cls, row, p, x.elems[n], n, size, m).st, cls, row, p, x, n + 1, k, size,
                      m.migration)
  {
    ElementReady(S, s, cls, row, p, x, n, size, m);
    ElementKeepsSlots(S, s, cls, row, p, x, n, size, m);
  }

  /** Where the `k`-th element ends when its value is created in an unkeyed class. */
  lemma ElementLinks(S: Classes, st: Store, cls: string, row: nat, p: Property, x: Value, i: nat, size: nat, m: Mode,
                     k: nat)
    requires p.base.ObjectType? && PrimaryKey(S, p.objectType).None?
    requires x.Vector? && i <= k < |x.elems| && !x.elems[k].Managed?
    requires ListReady(S, st, cls, row, p, x, m.migration) && BeforeTurn(st.tables, cls, row, p, i, k, size)
    ensures var r := AssignFrom(S, st, cls, row, p, x, i, size, m);
            r.Done? ==> SlotEnds(st.tables, r.st.tables, cls, row, p, k, size)
  {
    if AssignFrom(S, st, cls, row, p, x, i, size, m).Done? {
      var t := st.tables;
      var Inv := (n: nat, s: Store) => TurnAt(S, t, s, cls, row, p, x, n, k, size, m.migration);
      forall n: nat, s |
        i <= n < |x.elems| && Inv(n, s) && AssignElement(S, s, cls, row, p, x.elems[n], n, size, m).Done?
        ensures Inv(n + 1, AssignElement(S, s, cls, row, p, x.elems[n], n, size, m).st)
      {
        TurnStep(S, t, s, cls, row, p, x, n, k, size, m);
      }
      var s := AssignFromUpTo(S, st, cls, row, p, x, i, |x.elems|, size, m, Inv);
      AssignFromStep(S, s, cls, row, p, x, |x.elems|, size, m);
      assert AssignFrom(S, st, cls, row, p, x, i, size, m) == Done((), s);
    }
  }

  ghost predicate TurnAt(S: Classes, t: Group, s: Store, cls: string, row: nat, p: Property, x: Value, n: nat, k: nat,
                         size: nat, migration: bool) {
    if n <= k then TurnComes(S, t, s, cls, row, p, x, n, k, size, migration)
    else TurnTaken(S, t, s, cls, row, p, x, k, size, migration)
  }

  lemma TurnStep(S: Classes, t: Group, s: Store, cls: string, row: nat, p: Property, x: Value, n: nat, k: nat,
                 size: nat, m: Mode)
    requires p.base.ObjectType? && PrimaryKey(S, p.objectType).None?
    requires x.Vector? && n < |x.elems| && k < |x.elems| && !x.elems[k].Managed?
    requires TurnAt(S, t, s, cls, row, p, x, n, k, size, m.migration)
    requires AssignElement(S, s, cls, row, p, x.elems[n], n, size, m).Done?
    ensures TurnAt(S, t, AssignElement(S, s, cls, row, p, x.elems[n], n, size, m).st, cls, row, p, x, n + 1, k, size,
                   m.migration)
  {
    if n < k {
      TurnNext(S, t, s, cls, row, p, x, n, k, size, m);
    } else if n == k {
      OneElementLinks(S, t, s, cls, row, p, x, k, size, m);
    } else {
      TurnKept(S, t, s, cls, row, p, x, n, k, size, m);
    }
  }

  /** What the `k`-th element and the later ones keep. */
  ghost predicate TurnTaken(S: Classes, t: Group, s: Store, cls: string, row: nat, p: Property, x: Value, k: nat,
                            size: nat, migration: bool) {
    ListReady(S, s, cls, row, p, x, migration) && SlotEnds(t, s.tables, cls, row, p, k, size)
  }

  lemma TurnKept(S: Classes, t: Group, s: Store, cls: string, row: nat, p: Property, x: Value, n: nat, k: nat,
                 size: nat,
                 m: Mode)
    requires x.Vector? && k < n < |x.elems| && TurnTaken(S, t, s, cls, row, p, x, k, size, m.migration)
    requires AssignElement(S, s, cls, row, p, x.elems[n], n, size, m).Done?
    ensures TurnTaken(S, t, AssignElement(S, s, cls, row, p, x.elems[n], n, size, m).st, cls, row, p, x, k, size,
                      m.migration)
  {
    ElementReady(S, s, cls, row, p, x, n, size, m);
    ElementKeepsSlot(S, s, cls, row, p, x, n, size, m, k);
  }

  lemma OneElementLinks(S: Classes, t: Group, s: Store, cls: string, row: nat, p: Property, x: Value, k: nat, size: nat,
                        m: Mode)
    requires p.base.ObjectType? && PrimaryKey(S, p.objectType).None?
    requires x.Vector? && k < |x.elems| && !x.elems[k].Managed?
    requires TurnComes(S, t, s, cls, row, p, x, k, k, size, m.migration)
    requires AssignElement(S, s, cls, row, p, x.elems[k], k, size, m).Done?
    ensures TurnTaken(S, t, AssignElement(S, s, cls, row, p, x.elems[k], k, size, m).st, cls, row, p, x, k, size,
                      m.migration)
  {
    ElementReady(S, s, cls, row, p, x, k, size, m);
    if k < size {
      SetInPlace(S, s, cls, row, p, x, k, m);
    } else {
      AddedLink(S, s, cls, row, p, x, k, m);
    }
  }

  /** Adding the element links a new row behind the others. */
  lemma AddedLink(S: Classes, s: Store, cls: string, row: nat, p: Property, x: Value, k: nat, m: Mode)
    requires p.base.ObjectType? && PrimaryKey(S, p.objectType).None?
    requires x.Vector? && k < |x.elems| && !x.elems[k].Managed? && k == |ListAt(s.tables, cls, row, p.name)|
    requires ListReady(S, s, cls, row, p, x, m.migration) && AddElement(S, s, cls, row, p, x.elems[k], m).Done?
    ensures var s' := AddElement(S, s, cls, row, p, x.elems[k], m).st;
            SlotAt(s'.tables, cls, row, p.name, k) == Some(Link(Some(Size(s.tables, p.objectType))))
  {
    Valid(S, cls, p);
    UnboxCreates(S, s, cls, row, p, x.elems[k], m.(diff := false), None);
    var u := Unbox(S, s, p, x.elems[k], m.(diff := false), None);
    AddKeepsSlots(u.st, cls, row, p, u.value);
  }

  /** Setting the slot in place finds the row it links. */
  lemma SetInPlace(S: Classes, s: Store, cls: string, row: nat, p: Property, x: Value, k: nat, m: Mode)
    requires p.base.ObjectType? && PrimaryKey(S, p.objectType).None?
    requires x.Vector? && k < |x.elems| && !x.elems[k].Managed? && k < |ListAt(s.tables, cls, row, p.name)|
    requires ListReady(S, s, cls, row, p, x, m.migration)
    requires SetIfDifferent(S, s, cls, row, p, x.elems[k], k, m).Done?
    ensures var s' := SetIfDifferent(S, s, cls, row, p, x.elems[k], k, m).st;
            SlotAt(s'.tables, cls, row, p.name, k) == SlotAt(s.tables, cls, row, p.name, k)
  {
    var slot := ListAt(s.tables, cls, row, p.name)[k];
    Valid(S, cls, p);
    CurrentLinkOk(S, s, cls, row, p, slot);
    UnboxCreates(S, s, cls, row, p, x.elems[k], m.(diff := true), slot.target);
  }

  /** Unboxing a value that an unkeyed class creates, and the list it leaves alone. */
  lemma UnboxCreates(S: Classes, st: Store, cls: string, row: nat, p: Property, e: Value, m: Mode, current: Option<nat>)
    requires ValidSchema(S) && PrimaryKey(S, cls).Some? && p in Props(S, cls) && !p.isPrimary
    requires p.base.ObjectType? && PrimaryKey(S, p.objectType).None? && !e.Managed?
    requires Invariant(S, st.tables, m.migration) && row < Size(st.tables, cls)
    requires current.Some? ==> current.value < Size(st.tables, p.objectType)
    requires m.diff ==> current.Some?
    requires !Reached(S, st.tables, cls, row, p.name, TouchesElement(S, p, e))
    ensures var u := Unbox(S, st, p, e, m, current);
            && CellAt(u.st.tables, cls, row, p.name) == CellAt(st.tables, cls, row, p.name)
            && row < Size(u.st.tables, cls)
            && (u.Done? ==>
                  u.value == RowValue(p.objectType, if m.diff then current.value else Size(st.tables, p.objectType)))
  {
    UnboxKeepsCell(S, st, cls, row, p, e, m, current);
    UnkeyedRow(S, st, p, e, m, current);
  }

  /** The removal loop leaves the assigned slots alone. */
  lemma {:induction false} TrimKeepsSlot(st: Store, cls: string, row: nat, column: string, index: nat, size: nat,
                                         k: nat)
    requires row < Size(st.tables, cls) && k < index && k < |ListAt(st.tables, cls, row, column)|
    requires TrimTo(st, cls, row, column, index, size).Done?
    ensures var slots := ListAt(TrimTo(st, cls, row, column, index, size).st.tables, cls, row, column);
            k < |slots| && slots[k] == ListAt(st.tables, cls, row, column)[k]
    decreases size
  {
    TrimToStep(st, cls, row, column, index, size);
    if index < size {
      TrimKeepsSlot(ListRemove(st, cls, row, column, size - 1).st, cls, row, column, index, size - 1, k);
    }
  }

  /** Every assignment to a list of unkeyed objects that gives a new object for a position in use: if both modes
      succeed, overwriting ends linking a row not there before, diffing the old one. */
  lemma UnkeyedElementDiffers(S: Classes, st: Store, cls: string, row: nat, p: Property, x: Value, update: bool, k: nat,
                              migration: bool)
    requires p.base.ObjectType? && PrimaryKey(S, p.objectType).None?
    requires x.Vector? && k < |x.elems| && !x.elems[k].Managed? && ListReady(S, st, cls, row, p, x, migration)
    requires k < |ListAt(st.tables, cls, row, p.name)|
    ensures var f := Assign(S, st, cls, row, p, x, Mode(update, false, migration));
            var d := Assign(S, st, cls, row, p, x, Mode(update, true, migration));
            f.Done? && d.Done? ==>
              var before := ListAt(st.tables, cls, row, p.name);
              var over, diff := ListAt(f.st.tables, cls, row, p.name), ListAt(d.st.tables, cls, row, p.name);
              && k < |over| && k < |diff|
              && over[k].Link? && over[k].target.Some? && over[k].target.value >= Size(st.tables, p.objectType)
              && diff[k] == before[k]
              && f.st.tables != d.st.tables && !Agree(f, d)
  {
    var mf, md := Mode(update, false, migration), Mode(update, true, migration);
    var size, s0 := |ListAt(st.tables, cls, row, p.name)|, Clear(st, cls, row, p.name);
    SlotsOk(S, st, cls, row, p);
    CurrentLinkOk(S, st, cls, row, p, ListAt(st.tables, cls, row, p.name)[k]);
    WrittenContinues(S, st, cls, row, p, Many([]), ListCleared(cls, row, p.name), migration);
    forall e | e in x.elems
      ensures !Reached(S, s0.tables, cls, row, p.name, TouchesElement(S, p, e))
    {
      ReachedLater(S, st.tables, s0.tables, cls, row, p.name, TouchesElement(S, p, e));
    }
    if Assign(S, st, cls, row, p, x, mf).Done? {
      ElementLinks(S, s0, cls, row, p, x, 0, 0, mf, k);
    }
    if Assign(S, st, cls, row, p, x, md).Done? {
      ElementLinks(S, st, cls, row, p, x, 0, size, md, k);
      TrimKeepsSlot(AssignFrom(S, st, cls, row, p, x, 0, size, md).st, cls, row, p.name, |x.elems|, size, k);
    }
  }
}
