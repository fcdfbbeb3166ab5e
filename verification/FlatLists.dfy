/** `List::assign` on primitives and managed objects: when it succeeds, the final list on both paths, and the diff
    path's exact writes. */
module FlatLists {
  import opened Wrappers
  import opened Schema
  import opened Tables
  import opened ObjectAccessor
  import opened Values
  import opened Invariants
  import opened ListTrimming

  predicate AllFit(p: Property, x: Value, n: nat)
    requires x.Vector?
  {
    forall k :: 0 <= k < |x.elems| ==> FitsItem(p, x.elems[k], n)
  }

  function Slots(x: Value): (r: seq<Slot>)
    requires x.Vector?
    ensures |r| == |x.elems|
    ensures forall k :: 0 <= k < |r| && x.elems[k].Boxed? ==> r[k] == Scalar(Some(x.elems[k].prim))
    ensures forall k :: 0 <= k < |r| && x.elems[k].Managed? ==> r[k] == Link(Some(x.elems[k].row))
    ensures forall k :: 0 <= k < |r| && x.elems[k].Null? ==> r[k] == Scalar(None)
  {
    seq(|x.elems|, k requires 0 <= k < |x.elems| => Stored(x.elems[k]))
  }

  /** A value that creates nothing: the elements of a link list are managed objects. */
  predicate FlatVector(p: Property, x: Value) {
    x.Vector? && (p.base.ObjectType? ==> forall k :: 0 <= k < |x.elems| ==> x.elems[k].Managed?)
  }

  ghost predicate SlotsTyped(t: Group, p: Property, slots: seq<Slot>) {
    forall k :: 0 <= k < |slots| ==> SlotOk(t, p, slots[k])
  }

  /** The list half way through: `i` new elements, then the old ones from there on. */
  function Mixed(before: seq<Slot>, given: seq<Slot>, i: nat): seq<Slot>
    requires i <= |given|
  {
    given[..i] + Rest(before, i)
  }

  lemma MixedEnds(before: seq<Slot>, given: seq<Slot>)
    ensures Mixed(before, given, 0) == before
    ensures Mixed(before, given, |given|) == given + Rest(before, |given|)
  {
  }

  lemma MixedStep(before: seq<Slot>, given: seq<Slot>, i: nat)
    requires i < |given|
    ensures i < |before| ==> i < |Mixed(before, given, i)|
    ensures i < |before| ==> Mixed(before, given, i)[i] == before[i]
    ensures i < |before| ==> Mixed(before, given, i)[i := given[i]] == Mixed(before, given, i + 1)
    ensures i >= |before| ==> Mixed(before, given, i) + [given[i]] == Mixed(before, given, i + 1)
  {
  }

  /** The write at one position: a set where a common position differs, an add past the old end. */
  function WriteAt(cls: string, row: nat, column: string, before: seq<Slot>, given: seq<Slot>, i: nat): seq<Write>
    requires i < |given|
  {
    if i >= |before| then [ListAdded(cls, row, column)]
    else if before[i] != given[i] then [ListSet(cls, row, column, i)]
    else []
  }

  function Writes(cls: string, row: nat, column: string, before: seq<Slot>, given: seq<Slot>, i: nat): seq<Write>
    requires i <= |given|
    decreases |given| - i
  {
    if i == |given| then []
    else WriteAt(cls, row, column, before, given, i) + Writes(cls, row, column, before, given, i + 1)
  }

  /** The removals from the end down to position `index`. */
  function Removals(cls: string, row: nat, column: string, index: nat, size: nat): seq<Write>
    decreases size
  {
    if index >= size then []
    else [ListRemoved(cls, row, column, size - 1)] + Removals(cls, row, column, index, size - 1)
  }

  /** One element: exactly a fitting one passes, and what is written where. */
  lemma ElementEffect(S: Classes, st: Store, cls: string, row: nat, p: Property, e: Value, i: nat, size: nat, m: Mode)
    requires !p.base.LinkingObjectsType? && (p.base.ObjectType? ==> e.Managed?) && row < Size(st.tables, cls)
    requires SlotsTyped(st.tables, p, ListAt(st.tables, cls, row, p.name))
    requires size <= |ListAt(st.tables, cls, row, p.name)|
    ensures var r := AssignElement(S, st, cls, row, p, e, i, size, m);
            var slots := ListAt(st.tables, cls, row, p.name);
            && (r.Done? <==> FitsItem(p, e, Size(st.tables, p.objectType)))
            && (r.Done? ==>
                  var slot := Stored(e);
                  if i < size && slots[i] == slot then r.st == st
                  else if i < size then
                    r.st == Written(st, cls, row, p.name, Many(slots[i := slot]), ListSet(cls, row, p.name, i))
                  else r.st == Written(st, cls, row, p.name, Many(slots + [slot]), ListAdded(cls, row, p.name)))
  {
    AssignElementStep(S, st, cls, row, p, e, i, size, m);
    PrimUnboxes(p, e);
    if !p.base.ObjectType? {
      NullUnboxes(p);
    }
    if i < size {
      assert SlotOk(st.tables, p, ListAt(st.tables, cls, row, p.name)[i]);
    }
  }

  /** The error for an element that does not fit. */
  lemma ItemErrors(S: Classes, st: Store, cls: string, row: nat, p: Property, e: Value, i: nat, size: nat, m: Mode)
    requires !p.base.LinkingObjectsType? && (p.base.ObjectType? ==> e.Managed?)
    requires SlotsTyped(st.tables, p, ListAt(st.tables, cls, row, p.name))
    requires size <= |ListAt(st.tables, cls, row, p.name)| && !FitsItem(p, e, Size(st.tables, p.objectType))
    ensures var r := AssignElement(S, st, cls, row, p, e, i, size, m);
            && r.Threw?
            && r.error == if p.base == ObjectType then InvalidObject
                          else if e.Null? && (p.base == StringType || p.base == DataType) then ColumnNotNullable
                          else BadCast
  {
    AssignElementStep(S, st, cls, row, p, e, i, size, m);
    PrimUnboxes(p, e);
    if !p.base.ObjectType? {
      NullUnboxes(p);
    }
    if i < size {
      assert SlotOk(st.tables, p, ListAt(st.tables, cls, row, p.name)[i]);
    }
  }

  /** One element takes the list from one mixed state to the next with the write of its position. */
  lemma ElementMixes(S: Classes, st: Store, cls: string, row: nat, p: Property, x: Value, i: nat, m: Mode,
                     before: seq<Slot>)
    requires p.isArray && !p.base.LinkingObjectsType? && row < Size(st.tables, cls)
    requires x.Vector? && i < |x.elems| && AllFit(p, x, Size(st.tables, p.objectType))
    requires SlotsTyped(st.tables, p, before)
    requires CellAt(st.tables, cls, row, p.name) == Many(Mixed(before, Slots(x), i))
    ensures var r := AssignElement(S, st, cls, row, p, x.elems[i], i, |before|, m);
            && r.Done?
            && r.st.tables == Put(st.tables, cls, row, p.name, Many(Mixed(before, Slots(x), i + 1)))
            && r.st.log == st.log + WriteAt(cls, row, p.name, before, Slots(x), i)
            && CellAt(r.st.tables, cls, row, p.name) == Many(Mixed(before, Slots(x), i + 1))
            && row < Size(r.st.tables, cls)
  {
    var given := Slots(x);
    MixedStep(before, given, i);
    MixedTyped(st.tables, p, x, before, i);
    ElementInPlace(S, st, cls, row, p, x, i, m, before);
    PutSame(st.tables, cls, row, p.name);
    PutTwice(st.tables, cls, row, p.name, Many(Mixed(before, given, i + 1)), Absent);
    if i < |before| && before[i] == given[i] {
      assert Mixed(before, given, i + 1) == Mixed(before, given, i);
    }
  }

  /** The part of the mixed list an element is compared with is the old list's. */
  lemma ElementInPlace(S: Classes, st: Store, cls: string, row: nat, p: Property, x: Value, i: nat, m: Mode,
                       before: seq<Slot>)
    requires p.isArray && !p.base.LinkingObjectsType? && row < Size(st.tables, cls)
    requires x.Vector? && i < |x.elems| && AllFit(p, x, Size(st.tables, p.objectType))
    requires CellAt(st.tables, cls, row, p.name) == Many(Mixed(before, Slots(x), i))
    requires SlotsTyped(st.tables, p, Mixed(before, Slots(x), i))
    ensures var r := AssignElement(S, st, cls, row, p, x.elems[i], i, |before|, m);
            var slots, slot := Mixed(before, Slots(x), i), Slots(x)[i];
            && r.Done?
            && if i < |before| then
                 if before[i] == slot then r.st == st
                 else r.st == Written(st, cls, row, p.name, Many(slots[i := slot]), ListSet(cls, row, p.name, i))
               else r.st == Written(st, cls, row, p.name, Many(slots + [slot]), ListAdded(cls, row, p.name))
  {
    MixedStep(before, Slots(x), i);
    var size := if i < |before| then |before| else 0;
    assert i < |before| ==> |Mixed(before, Slots(x), i)| >= |before|;
    ElementEffect(S, st, cls, row, p, x.elems[i], i, size, m);
    assert AssignElement(S, st, cls, row, p, x.elems[i], i, |before|, m) ==
           AssignElement(S, st, cls, row, p, x.elems[i], i, size, m);
  }

  lemma MixedTyped(t: Group, p: Property, x: Value, before: seq<Slot>, i: nat)
    requires x.Vector? && i <= |x.elems| && AllFit(p, x, Size(t, p.objectType)) && p.isArray
    requires SlotsTyped(t, p, before)
    ensures SlotsTyped(t, p, Mixed(before, Slots(x), i))
  {
    forall k | 0 <= k < |Mixed(before, Slots(x), i)|
      ensures SlotOk(t, p, Mixed(before, Slots(x), i)[k])
    {
      if k < i {
        assert FitsItem(p, x.elems[k], Size(t, p.objectType));
      } else {
        assert Mixed(before, Slots(x), i)[k] == before[k];
      }
    }
  }

  /** The enumeration's progress: the list is mixed at `n`, and the writes still to come complete the log. */
  ghost predicate Mixing(st: Store, s: Store, cls: string, row: nat, column: string, before: seq<Slot>,
                         given: seq<Slot>, n: nat) {
    && n <= |given| && row < Size(s.tables, cls)
    && CellAt(s.tables, cls, row, column) == Many(Mixed(before, given, n))
    && s.tables == Put(st.tables, cls, row, column, Many(Mixed(before, given, n)))
    && s.log + Writes(cls, row, column, before, given, n) == st.log + Writes(cls, row, column, before, given, 0)
  }

  lemma MixingStep(S: Classes, st: Store, s: Store, cls: string, row: nat, p: Property, x: Value, n: nat, m: Mode,
                   before: seq<Slot>)
    requires p.isArray && !p.base.LinkingObjectsType?
    requires x.Vector? && n < |x.elems| && AllFit(p, x, Size(st.tables, p.objectType))
    requires SlotsTyped(st.tables, p, before)
    requires Mixing(st, s, cls, row, p.name, before, Slots(x), n)
    ensures var one := AssignElement(S, s, cls, row, p, x.elems[n], n, |before|, m);
            one.Done? && Mixing(st, one.st, cls, row, p.name, before, Slots(x), n + 1)
  {
    TypedAlike(st.tables, s.tables, cls, row, p, before, Mixed(before, Slots(x), n));
    ElementMixes(S, s, cls, row, p, x, n, m, before);
    MixingOn(st, s, AssignElement(S, s, cls, row, p, x.elems[n], n, |before|, m).st, cls, row, p.name, before, Slots(x),
             n);
  }

  lemma TypedAlike(t: Group, t': Group, cls: string, row: nat, p: Property, before: seq<Slot>, now: seq<Slot>)
    requires SlotsTyped(t, p, before) && t' == Put(t, cls, row, p.name, Many(now))
    ensures SlotsTyped(t', p, before) && Size(t', p.objectType) == Size(t, p.objectType)
  {
    PutReads(t, cls, row, p.name, Many(now), p.objectType, 0, "");
    forall k | 0 <= k < |before|
      ensures SlotOk(t', p, before[k])
    {
      assert SlotOk(t, p, before[k]);
    }
  }

  /** The write of one position, then those of the rest. */
  lemma WritesOn(log: seq<Write>, cls: string, row: nat, column: string, before: seq<Slot>, given: seq<Slot>, n: nat)
    requires n < |given|
    ensures log + WriteAt(cls, row, column, before, given, n) + Writes(cls, row, column, before, given, n + 1) ==
            log + Writes(cls, row, column, before, given, n)
  {
  }

  lemma MixingOn(st: Store, s: Store, s': Store, cls: string, row: nat, column: string, before: seq<Slot>,
                 given: seq<Slot>, n: nat)
    requires n < |given| && Mixing(st, s, cls, row, column, before, given, n)
    requires s'.tables == Put(s.tables, cls, row, column, Many(Mixed(before, given, n + 1)))
    requires s'.log == s.log + WriteAt(cls, row, column, before, given, n)
    ensures Mixing(st, s', cls, row, column, before, given, n + 1)
  {
    PutTwice(st.tables, cls, row, column, Many(Mixed(before, given, n)), Many(Mixed(before, given, n + 1)));
    PutReads(s.tables, cls, row, column, Many(Mixed(before, given, n + 1)), cls, row, column);
    WritesOn(s.log, cls, row, column, before, given, n);
  }

  lemma AssignFromWrites(S: Classes, st: Store, cls: string, row: nat, p: Property, x: Value, m: Mode,
                         before: seq<Slot>)
    requires p.isArray && !p.base.LinkingObjectsType? && row < Size(st.tables, cls)
    requires x.Vector? && AllFit(p, x, Size(st.tables, p.objectType)) && SlotsTyped(st.tables, p, before)
    requires CellAt(st.tables, cls, row, p.name) == Many(Mixed(before, Slots(x), 0))
    ensures var r := AssignFrom(S, st, cls, row, p, x, 0, |before|, m);
            && r.Done?
            && r.st.tables == Put(st.tables, cls, row, p.name, Many(Mixed(before, Slots(x), |x.elems|)))
            && r.st.log == st.log + Writes(cls, row, p.name, before, Slots(x), 0)
  {
    var given := Slots(x);
    var Inv := (n: nat, s: Store) => Mixing(st, s, cls, row, p.name, before, given, n);
    PutSame(st.tables, cls, row, p.name);
    forall n: nat, s | 0 <= n < |x.elems| && Inv(n, s)
      ensures AssignElement(S, s, cls, row, p, x.elems[n], n, |before|, m).Done?
      ensures Inv(n + 1, AssignElement(S, s, cls, row, p, x.elems[n], n, |before|, m).st)
    {
      MixingStep(S, st, s, cls, row, p, x, n, m, before);
    }
    AssignFromRuns(S, st, cls, row, p, x, 0, |before|, m, Inv);
  }

  lemma {:induction false} TrimToWrites(st: Store, cls: string, row: nat, column: string, index: nat, size: nat)
    requires row < Size(st.tables, cls) && size <= |ListAt(st.tables, cls, row, column)|
    ensures var r := TrimTo(st, cls, row, column, index, size);
            r.Done? && r.st.log == st.log + Removals(cls, row, column, index, size)
    decreases size
  {
    if index < size {
      TrimToWrites(ListRemove(st, cls, row, column, size - 1).st, cls, row, column, index, size - 1);
    }
  }

  /** The diffing enumeration ends with the given values followed by what is left of the old ones. */
  lemma DiffEnumerates(S: Classes, st: Store, cls: string, row: nat, p: Property, x: Value, m: Mode)
    requires ValidSchema(S) && Typed(S, st.tables)
    requires p in Props(S, cls) && p.isArray && row < Size(st.tables, cls)
    requires x.Vector? && AllFit(p, x, Size(st.tables, p.objectType))
    ensures var before := ListAt(st.tables, cls, row, p.name);
            var r := AssignFrom(S, st, cls, row, p, x, 0, |before|, m);
            && r.Done?
            && r.st.tables == Put(st.tables, cls, row, p.name, Many(Slots(x) + Rest(before, |x.elems|)))
            && r.st.log == st.log + Writes(cls, row, p.name, before, Slots(x), 0)
  {
    var before, given := ListAt(st.tables, cls, row, p.name), Slots(x);
    Valid(S, cls, p);
    SlotsOk(S, st, cls, row, p);
    MixedEnds(before, given);
    AssignFromWrites(S, st, cls, row, p, x, m, before);
  }

  /** The diffing path ends with exactly the given values: it sets the common positions that differ, adds
      the surplus and removes the tail, and writes nothing else. */
  lemma DiffAssign(S: Classes, st: Store, cls: string, row: nat, p: Property, x: Value, m: Mode)
    requires ValidSchema(S) && Typed(S, st.tables) && m.diff
    requires p in Props(S, cls) && p.isArray && row < Size(st.tables, cls)
    requires x.Vector? && AllFit(p, x, Size(st.tables, p.objectType))
    ensures var r := Assign(S, st, cls, row, p, x, m);
            var before := ListAt(st.tables, cls, row, p.name);
            && r.Done?
            && r.st.tables == Put(st.tables, cls, row, p.name, Many(Slots(x)))
            && r.st.log == st.log + Writes(cls, row, p.name, before, Slots(x), 0)
                           + Removals(cls, row, p.name, |x.elems|, |before|)
  {
    var before := ListAt(st.tables, cls, row, p.name);
    var a := AssignFrom(S, st, cls, row, p, x, 0, |before|, m);
    Valid(S, cls, p);
    DiffEnumerates(S, st, cls, row, p, x, m);
    TrimEnds(st.tables, a.st, cls, row, p.name, before, Slots(x));
    AssignSteps(S, st, cls, row, p, x, m);
  }

  /** The removal loop after the given elements have been put in front of the rest. */
  lemma TrimEnds(t: Group, st: Store, cls: string, row: nat, column: string, before: seq<Slot>, given: seq<Slot>)
    requires row < Size(t, cls) && st.tables == Put(t, cls, row, column, Many(given + Rest(before, |given|)))
    ensures var r := TrimTo(st, cls, row, column, |given|, |before|);
            && r.Done? && r.st.tables == Put(t, cls, row, column, Many(given))
            && r.st.log == st.log + Removals(cls, row, column, |given|, |before|)
  {
    PutTwice(t, cls, row, column, Many(given + Rest(before, |given|)), Many(given));
    TrimToDrops(st, cls, row, column, given, Rest(before, |given|), |before|);
    TrimToWrites(st, cls, row, column, |given|, |before|);
  }

  /** The overwriting path ends with the same list, having cleared it and added every element. */
  lemma OverwriteAssign(S: Classes, st: Store, cls: string, row: nat, p: Property, x: Value, m: Mode)
    requires ValidSchema(S) && !m.diff
    requires p in Props(S, cls) && p.isArray && row < Size(st.tables, cls)
    requires x.Vector? && AllFit(p, x, Size(st.tables, p.objectType))
    ensures var r := Assign(S, st, cls, row, p, x, m);
            && r.Done?
            && r.st.tables == Put(st.tables, cls, row, p.name, Many(Slots(x)))
            && r.st.log == st.log + [ListCleared(cls, row, p.name)] + Writes(cls, row, p.name, [], Slots(x), 0)
  {
    Valid(S, cls, p);
    var s0, given := Clear(st, cls, row, p.name), Slots(x);
    PutTwice(st.tables, cls, row, p.name, Many([]), Many(given));
    MixedEnds([], given);
    assert given + Rest([], |given|) == given;
    AssignFromWrites(S, s0, cls, row, p, x, m, []);
  }

  /** A position is set exactly when it is common and its value differs. */
  lemma {:induction false} SetsExactlyTheDifferences(cls: string, row: nat, column: string, before: seq<Slot>,
                                                     given: seq<Slot>, i: nat, k: nat)
    requires i <= |given|
    ensures ListSet(cls, row, column, k) in Writes(cls, row, column, before, given, i) <==>
            i <= k < |given| && k < |before| && before[k] != given[k]
    decreases |given| - i
  {
    if i < |given| {
      SetsExactlyTheDifferences(cls, row, column, before, given, i + 1, k);
    }
  }

  /** An assignment of a flat vector gets through only when every element fits. */
  lemma AssignFromNeedsFit(S: Classes, st: Store, cls: string, row: nat, p: Property, x: Value, size: nat, m: Mode,
                           k: nat)
    requires p.isArray && !p.base.LinkingObjectsType? && FlatVector(p, x) && k < |x.elems|
    requires size <= |ListAt(st.tables, cls, row, p.name)| && row < Size(st.tables, cls)
    requires SlotsTyped(st.tables, p, ListAt(st.tables, cls, row, p.name))
    requires AssignFrom(S, st, cls, row, p, x, 0, size, m).Done?
    ensures FitsItem(p, x.elems[k], Size(st.tables, p.objectType))
  {
    var Inv := (n: nat, s: Store) => Going(st.tables, s, cls, row, p, size);
    forall n: nat, s |
      0 <= n < k && Inv(n, s) && AssignElement(S, s, cls, row, p, x.elems[n], n, size, m).Done?
      ensures Inv(n + 1, AssignElement(S, s, cls, row, p, x.elems[n], n, size, m).st)
    {
      GoingOn(S, st.tables, s, cls, row, p, x.elems[n], n, size, m);
    }
    var s := AssignFromUpTo(S, st, cls, row, p, x, 0, k, size, m, Inv);
    AssignFromStep(S, s, cls, row, p, x, k, size, m);
    ElementEffect(S, s, cls, row, p, x.elems[k], k, size, m);
  }

  /** What a fitting element keeps. */
  ghost predicate Going(t: Group, s: Store, cls: string, row: nat, p: Property, size: nat) {
    && row < Size(s.tables, cls) && Size(s.tables, p.objectType) == Size(t, p.objectType)
    && size <= |ListAt(s.tables, cls, row, p.name)|
    && SlotsTyped(s.tables, p, ListAt(s.tables, cls, row, p.name))
  }

  lemma GoingOn(S: Classes, t: Group, s: Store, cls: string, row: nat, p: Property, e: Value, n: nat, size: nat,
                m: Mode)
    requires p.isArray && !p.base.LinkingObjectsType? && (p.base.ObjectType? ==> e.Managed?)
    requires Going(t, s, cls, row, p, size) && AssignElement(S, s, cls, row, p, e, n, size, m).Done?
    ensures Going(t, AssignElement(S, s, cls, row, p, e, n, size, m).st, cls, row, p, size)
  {
    var slots := ListAt(s.tables, cls, row, p.name);
    ElementEffect(S, s, cls, row, p, e, n, size, m);
    var next := if n < size then slots[n := Stored(e)] else slots + [Stored(e)];
    PutReads(s.tables, cls, row, p.name, Many(next), p.objectType, 0, "");
    PutReads(s.tables, cls, row, p.name, Many(next), cls, row, p.name);
    assert SlotOk(s.tables, p, Stored(e));
  }

  /** A flat vector is assigned exactly when every element fits; then, on both paths, the list is the vector: its
      primitives, its nulls and the rows of its managed objects, in order, and no other cell has changed. */
  lemma FlatAssign(S: Classes, st: Store, cls: string, row: nat, p: Property, x: Value, m: Mode)
    requires ValidSchema(S) && (m.diff ==> Typed(S, st.tables))
    requires p in Props(S, cls) && p.isArray && row < Size(st.tables, cls) && FlatVector(p, x)
    ensures var r := Assign(S, st, cls, row, p, x, m);
            && (r.Done? <==> forall k :: 0 <= k < |x.elems| ==> FitsItem(p, x.elems[k], Size(st.tables, p.objectType)))
            && (r.Done? ==> r.st.tables == Put(st.tables, cls, row, p.name, Many(Slots(x))))
  {
    Valid(S, cls, p);
    if AllFit(p, x, Size(st.tables, p.objectType)) {
      if m.diff {
        DiffAssign(S, st, cls, row, p, x, m);
      } else {
        OverwriteAssign(S, st, cls, row, p, x, m);
      }
    } else {
      var k :| 0 <= k < |x.elems| && !FitsItem(p, x.elems[k], Size(st.tables, p.objectType));
      MisfitThrows(S, st, cls, row, p, x, m, k);
    }
  }

  lemma MisfitThrows(S: Classes, st: Store, cls: string, row: nat, p: Property, x: Value, m: Mode, k: nat)
    requires ValidSchema(S) && (m.diff ==> Typed(S, st.tables))
    requires p in Props(S, cls) && p.isArray && row < Size(st.tables, cls) && FlatVector(p, x)
    requires k < |x.elems| && !FitsItem(p, x.elems[k], Size(st.tables, p.objectType))
    ensures Assign(S, st, cls, row, p, x, m).Threw?
  {
    var size, s0 := |ListAt(st.tables, cls, row, p.name)|, Clear(st, cls, row, p.name);
    Valid(S, cls, p);
    if m.diff {
      SlotsOk(S, st, cls, row, p);
      if AssignFrom(S, st, cls, row, p, x, 0, size, m).Done? {
        AssignFromNeedsFit(S, st, cls, row, p, x, size, m, k);
      }
    } else {
      PutReads(st.tables, cls, row, p.name, Many([]), p.objectType, 0, "");
      PutReads(st.tables, cls, row, p.name, Many([]), cls, row, p.name);
      if AssignFrom(S, s0, cls, row, p, x, 0, 0, m).Done? {
        AssignFromNeedsFit(S, s0, cls, row, p, x, 0, m, k);
      }
    }
  }

  /** After a successful assignment of a flat vector the cell holds its elements, one for one. */
  lemma ListHolds(S: Classes, st: Store, cls: string, row: nat, p: Property, x: Value, m: Mode)
    requires ValidSchema(S) && (m.diff ==> Typed(S, st.tables))
    requires p in Props(S, cls) && p.isArray && row < Size(st.tables, cls) && FlatVector(p, x)
    requires Assign(S, st, cls, row, p, x, m).Done?
    ensures var c := CellAt(Assign(S, st, cls, row, p, x, m).st.tables, cls, row, p.name);
            && c.Many? && |c.slots| == |x.elems|
            && forall k :: 0 <= k < |x.elems| ==>
                 match x.elems[k]
                 case Boxed(prim) => c.slots[k] == Scalar(Some(prim))
                 case Null => c.slots[k] == Scalar(None)
                 case Managed(_, q) => c.slots[k] == Link(Some(q))
                 case _ => false
  {
    FlatAssign(S, st, cls, row, p, x, m);
    PutReads(st.tables, cls, row, p.name, Many(Slots(x)), cls, row, p.name);
  }

  /** The other values: the list itself is left alone, null empties it, anything else is refused, having been
      emptied already when overwriting. */
  lemma OtherListValues(S: Classes, st: Store, cls: string, row: nat, p: Property, x: Value, m: Mode)
    requires p.isArray && !p.base.LinkingObjectsType? && !x.Vector?
    ensures var r, cleared := Assign(S, st, cls, row, p, x, m), Put(st.tables, cls, row, p.name, Many([]));
            if x == ManagedList(cls, row, p.name) then r == Done((), st)
            else if x.Null? then r.Done? && r.st.tables == cleared
            else r.Threw? && r.error == BadCast && r.st.tables == if m.diff then st.tables else cleared
  {
  }

  /** A null refused by a list that does not allow it leaves a default element behind where it was to be added. */
  lemma RefusedNull(S: Classes, st: Store, cls: string, row: nat, p: Property, m: Mode)
    requires p.isArray && !p.nullable && (p.base == StringType || p.base == DataType) && row < Size(st.tables, cls)
    ensures var r := AddElement(S, st, cls, row, p, Null, m);
            && r.Threw? && r.error == ColumnNotNullable
            && ListAt(r.st.tables, cls, row, p.name) == ListAt(st.tables, cls, row, p.name) + [Scalar(Some(PText("")))]
  {
  }
}
