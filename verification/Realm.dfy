/** The accessor as the source runs it: methods that change the tables in place, each proved to end exactly
    as its function in `ObjectAccessor` says, exceptions included. */
module Realm {
  import opened Wrappers
  import opened Schema
  import opened Tables
  import opened ObjectAccessor
  import opened Values

  datatype Outcome<+T> = Success(value: T) | Failure(error: Error)

  class Realm {
    const schema: Classes
    const migration: bool
    var tables: Group
    var log: seq<Write>

    constructor (schema: Classes, migration: bool, tables: Group)
      ensures this.schema == schema && this.migration == migration && State() == Store(tables, [])
    {
      this.schema := schema;
      this.migration := migration;
      this.tables := tables;
      this.log := [];
    }

    function State(): Store
      reads this
    {
      Store(tables, log)
    }

    ghost function Ended<T>(r: Outcome<T>): Step<T>
      reads this
    {
      match r
      case Success(value) => Done(value, State())
      case Failure(error) => Threw(error, State())
    }

    function ModeOf(update: bool, diff: bool): Mode {
      Mode(update, diff, migration)
    }

    method Record(cls: string, row: nat, column: string, c: Cell, i: Write)
      modifies this
      ensures State() == Written(old(State()), cls, row, column, c, i)
    {
      tables := Put(tables, cls, row, column, c);
      log := log + [i];
    }

    method AddRowTo(cls: string) returns (row: nat)
      modifies this
      ensures State() == AddEmptyRow(schema, old(State()), cls) && row == Size(old(tables), cls)
    {
      row := Size(tables, cls);
      tables := AddRow(tables, cls, EmptyRow(Props(schema, cls)));
      log := log + [AddedRow(cls)];
    }

    /** `get_for_primary_key_impl` */
    method FindPrimaryKey(cls: string, pk: Property, kv: Value) returns (r: Outcome<Option<nat>>)
      ensures r == match KeyFromValue(pk, kv)
                   case KeyError(e) => Failure(e)
                   case KeyOk(k) => Success(FindFirst(tables, cls, pk.name, k))
      ensures kv.Boxed? && OfType(pk.base, kv.prim) ==>
                r.Success? && FirstWith(tables, cls, pk.name, Some(kv.prim), r.value)
      ensures kv.Null? && pk.nullable && (pk.base == IntType || pk.base == StringType) ==>
                r.Success? && FirstWith(tables, cls, pk.name, None, r.value)
      ensures kv.Null? && !pk.nullable ==> r == Failure(InvalidNullKey)
      ensures !kv.Null? && !(kv.Boxed? && OfType(pk.base, kv.prim)) ==> r == Failure(BadCast)
    {
      PrimUnboxes(pk, kv);
      if kv.Null? && !pk.nullable {
        return Failure(InvalidNullKey);
      }
      var k := UnboxPrim(pk, kv);
      if k.None? {
        return Failure(BadCast);
      }
      FirstIsFirst(tables, cls, pk.name, k.value);
      r := Success(FindFirst(tables, cls, pk.name, k.value));
    }

    /** The first half of `create`: find the row for the value's key, or add one. */
    method LocateRow(cls: string, v: Value, update: bool, diff: bool, current: Option<nat>) returns (r: Outcome<Target>)
      modifies this
      ensures Ended(r) == Locate(schema, old(State()), cls, v, ModeOf(update, diff), current)
    {
      if cls !in schema {
        return Failure(UnknownClass);
      }
      var created, skipPrimary, row := false, true, 0;
      var primary := PrimaryKey(schema, cls);
      if primary.Some? {
        var pk := primary.value;
        if !v.Dict? {
          return Failure(BadCast);
        }
        var kv := Null;
        if pk.name in v.fields {
          kv := v.fields[pk.name];
        } else if !pk.nullable {
          return Failure(MissingPropertyValue);
        }
        var found := FindPrimaryKey(cls, pk, kv);
        if found.Failure? {
          return Failure(found.error);
        }
        if found.value.None? {
          created := true;
          row := AddRowTo(cls);
          Record(cls, row, pk.name, One(Scalar(UnboxPrim(pk, kv).value)), SetCell(cls, row, pk.name));
        } else {
          row := found.value.value;
          if !update {
            if !migration {
              return Failure(DuplicateKey);
            }
            row := AddRowTo(cls);
            created := true;
            skipPrimary := false;
          }
        }
      } else if diff && current.Some? {
        row := current.value;
      } else {
        row := AddRowTo(cls);
        created := true;
      }
      r := Success(Target(row, created, skipPrimary));
    }

    /** `Object::create` */
    method Create(cls: string, v: Value, update: bool, diff: bool, current: Option<nat>) returns (r: Outcome<nat>)
      modifies this
      ensures Ended(r) == ObjectAccessor.Create(schema, old(State()), cls, v, ModeOf(update, diff), current)
      decreases v, 3, 0
    {
      var located := LocateRow(cls, v, update, diff, current);
      if located.Failure? {
        return Failure(located.error);
      }
      var populated := PopulateAll(cls, located.value, v, update, diff);
      r := if populated.Failure? then Failure(populated.error) else Success(located.value.row);
    }

    /** The population loop. */
    method PopulateAll(cls: string, target: Target, v: Value, update: bool, diff: bool) returns (r: Outcome<()>)
      modifies this
      ensures Ended(r) == Populate(schema, old(State()), cls, target, v, ModeOf(update, diff), 0)
      decreases v, 2, 0
    {
      var props := Props(schema, cls);
      for i := 0 to |props|
        invariant Populate(schema, State(), cls, target, v, ModeOf(update, diff), i) ==
                  Populate(schema, old(State()), cls, target, v, ModeOf(update, diff), 0)
      {
        PopulateStep(schema, State(), cls, target, v, ModeOf(update, diff), i);
        var one := PopulateProperty(cls, target, v, props[i], update, diff);
        if one.Failure? {
          return Failure(one.error);
        }
      }
      PopulateStep(schema, State(), cls, target, v, ModeOf(update, diff), |props|);
      r := Success(());
    }

    /** The body of the population loop. */
    method PopulateProperty(cls: string, target: Target, v: Value, p: Property, update: bool, diff: bool)
      returns (r: Outcome<()>)
      modifies this
      ensures Ended(r) == PopulateOne(schema, old(State()), cls, target, v, ModeOf(update, diff), p)
      decreases v, 1, 0
    {
      if target.skipPrimary && p.isPrimary {
        return Success(());
      }
      if !v.Dict? {
        return Failure(BadCast);
      }
      if p.name !in v.fields {
        if target.created && !p.nullable && !p.isArray {
          return Failure(MissingPropertyValue);
        }
        return Success(());
      }
      var x := v.fields[p.name];
      if x.Null? && !p.nullable && !p.isArray {
        return Failure(MissingPropertyValue);
      }
      r := SetPropertyImpl(cls, target.row, p, x, update, diff);
    }

    /** `set_property_value_impl` */
    method SetPropertyImpl(cls: string, row: nat, p: Property, x: Value, update: bool, diff: bool)
      returns (r: Outcome<()>)
      modifies this
      ensures Ended(r) == SetProperty(schema, old(State()), cls, row, p, x, ModeOf(update, diff))
      decreases x, 6, 0
    {
      if p.nullable && x.Null? {
        if p.isArray {
          return Failure(NullForNullableList);
        }
        if !diff || CellAt(tables, cls, row, p.name) != One(NullSlot(p)) {
          Record(cls, row, p.name, One(NullSlot(p)), SetCell(cls, row, p.name));
        }
        return Success(());
      }
      if p.isArray {
        r := AssignList(cls, row, p, x, update, diff);
        return;
      }
      var cell := CellAt(tables, cls, row, p.name);
      var u := UnboxValue(p, x, update, diff, CurrentLink(cell));
      if u.Failure? {
        return Failure(u.error);
      }
      if !diff || cell != One(ToSlot(u.value)) {
        if u.value == PrimValue(None) && !p.nullable {
          return Failure(ColumnNotNullable);
        }
        if u.value.RowValue? && u.value.row >= Size(tables, p.objectType) {
          return Failure(LinkOutOfRange);
        }
        Record(cls, row, p.name, One(ToSlot(u.value)), SetCell(cls, row, p.name));
      }
      r := Success(());
    }

    /** `unbox` */
    method UnboxValue(p: Property, x: Value, update: bool, diff: bool, current: Option<nat>)
      returns (r: Outcome<Unboxed>)
      modifies this
      ensures Ended(r) == Unbox(schema, old(State()), p, x, ModeOf(update, diff), current)
      decreases x, 4, 0
    {
      if !p.base.ObjectType? {
        var k := UnboxPrim(p, x);
        return if k.None? then Failure(BadCast) else Success(PrimValue(k.value));
      }
      if x.Managed? {
        return Success(RowValue(x.cls, x.row));
      }
      var created := Create(p.objectType, x, update, diff, current);
      r := if created.Failure? then Failure(created.error) else Success(RowValue(p.objectType, created.value));
    }

    /** `List::assign` */
    method AssignList(cls: string, row: nat, p: Property, x: Value, update: bool, diff: bool) returns (r: Outcome<()>)
      modifies this
      ensures Ended(r) == Assign(schema, old(State()), cls, row, p, x, ModeOf(update, diff))
      decreases x, 5, 1
    {
      if p.base.LinkingObjectsType? {
        return Failure(ReadOnlyProperty);
      }
      if x == ManagedList(cls, row, p.name) {
        return Success(());
      }
      if x.Null? {
        Record(cls, row, p.name, Many([]), ListCleared(cls, row, p.name));
        return Success(());
      }
      if diff {
        if !x.Vector? {
          return Failure(BadCast);
        }
        var size := |Elements(CellAt(tables, cls, row, p.name))|;
        r := Enumerate(cls, row, p, x, size, update, diff);
        if r.Success? {
          r := RemoveTail(cls, row, p.name, |x.elems|, size);
        }
      } else {
        Record(cls, row, p.name, Many([]), ListCleared(cls, row, p.name));
        if !x.Vector? {
          return Failure(BadCast);
        }
        r := Enumerate(cls, row, p, x, 0, update, diff);
      }
    }

    /** `enumerate_list` with the body `assign` gives it. */
    method Enumerate(cls: string, row: nat, p: Property, x: Value, size: nat, update: bool, diff: bool)
      returns (r: Outcome<()>)
      requires x.Vector?
      modifies this
      ensures Ended(r) == AssignFrom(schema, old(State()), cls, row, p, x, 0, size, ModeOf(update, diff))
      decreases x, 5, 0, |x.elems| + 1
    {
      var index := 0;
      while index < |x.elems|
        invariant index <= |x.elems|
        invariant AssignFrom(schema, State(), cls, row, p, x, index, size, ModeOf(update, diff)) ==
                  AssignFrom(schema, old(State()), cls, row, p, x, 0, size, ModeOf(update, diff))
      {
        AssignFromStep(schema, State(), cls, row, p, x, index, size, ModeOf(update, diff));
        var one;
        if index < size {
          one := SetIfDifferent(cls, row, p, x.elems[index], index, update, diff);
        } else {
          one := Add(cls, row, p, x.elems[index], update, diff);
        }
        if one.Failure? {
          return Failure(one.error);
        }
        index := index + 1;
      }
      r := Success(());
    }

    /** The removal loop of `assign`. */
    method RemoveTail(cls: string, row: nat, column: string, index: nat, size: nat) returns (r: Outcome<()>)
      modifies this
      ensures Ended(r) == TrimTo(old(State()), cls, row, column, index, size)
    {
      var sz: nat := size;
      while index < sz
        invariant TrimTo(State(), cls, row, column, index, sz) == TrimTo(old(State()), cls, row, column, index, size)
      {
        sz := sz - 1;
        var slots := Elements(CellAt(tables, cls, row, column));
        if sz >= |slots| {
          return Failure(OutOfBounds);
        }
        Record(cls, row, column, Many(slots[..sz] + slots[sz + 1..]), ListRemoved(cls, row, column, sz));
      }
      r := Success(());
    }

    /** `List::set_if_different` */
    method SetIfDifferent(cls: string, row: nat, p: Property, e: Value, i: nat, update: bool, ghost diff: bool)
      returns (r: Outcome<()>)
      modifies this
      ensures Ended(r) == ObjectAccessor.SetIfDifferent(schema, old(State()), cls, row, p, e, i, ModeOf(update, diff))
      decreases e, 5, 0, 0
    {
      var slots := Elements(CellAt(tables, cls, row, p.name));
      if i >= |slots| {
        return Failure(OutOfBounds);
      }
      var u := UnboxValue(p, e, update, true, CurrentLink(One(slots[i])));
      if u.Failure? {
        return Failure(u.error);
      }
      if slots[i] != ToSlot(u.value) || (u.value.RowValue? && u.value.cls != p.objectType) {
        var now := Elements(CellAt(tables, cls, row, p.name));
        var refused := ListRefuses(tables, p, u.value);
        if refused.Some? {
          return Failure(refused.value);
        }
        if i >= |now| {
          return Failure(OutOfBounds);
        }
        Record(cls, row, p.name, Many(now[i := ToSlot(u.value)]), ListSet(cls, row, p.name, i));
      }
      r := Success(());
    }

    /** `List::add`: a link list checks the row first; a primitive list appends a row and then sets it. */
    method Add(cls: string, row: nat, p: Property, e: Value, update: bool, ghost diff: bool) returns (r: Outcome<()>)
      modifies this
      ensures Ended(r) == AddElement(schema, old(State()), cls, row, p, e, ModeOf(update, diff))
      decreases e, 5, 0, 0
    {
      var u := UnboxValue(p, e, update, false, None);
      if u.Failure? {
        return Failure(u.error);
      }
      var slots := Elements(CellAt(tables, cls, row, p.name));
      var refused := ListRefuses(tables, p, u.value);
      if refused.Some? {
        if u.value.PrimValue? {
          Record(cls, row, p.name, Many(slots + [DefaultSlot(p)]), ListAdded(cls, row, p.name));
        }
        return Failure(refused.value);
      }
      Record(cls, row, p.name, Many(slots + [ToSlot(u.value)]), ListAdded(cls, row, p.name));
      r := Success(());
    }

    /** `Object::set_property_value` */
    method SetPropertyValue(cls: string, row: nat, name: string, x: Value, update: bool) returns (r: Outcome<()>)
      modifies this
      ensures Ended(r) == ObjectAccessor.SetPropertyValue(schema, old(State()), cls, row, name, x, update, migration)
    {
      var prop := PropertyForName(Props(schema, cls), name);
      if prop.None? {
        return Failure(InvalidProperty);
      }
      if prop.value.isPrimary && !migration {
        return Failure(ModifyPrimaryKey);
      }
      r := SetPropertyImpl(cls, row, prop.value, x, update, false);
    }

    /** `Results::set_property_value`: the rows matching now are fixed first, then written one by one. */
    method SetOnMatches(cls: string, query: (Group, nat) -> bool, name: string, x: Value) returns (r: Outcome<()>)
      modifies this
      ensures Ended(r) ==
              SetOnSnapshot(schema, old(State()), cls, Matching(old(tables), cls, query), name, x, migration)
    {
      var prop := PropertyForName(Props(schema, cls), name);
      if prop.None? {
        return Failure(InvalidProperty);
      }
      if prop.value.isPrimary && !migration {
        return Failure(ModifyPrimaryKey);
      }
      r := SetOnEach(cls, Matching(tables, cls, query), prop.value, x);
    }

    method SetOnEach(cls: string, snapshot: seq<nat>, p: Property, x: Value) returns (r: Outcome<()>)
      modifies this
      ensures Ended(r) == SetOnRows(schema, old(State()), cls, snapshot, p, x, migration)
    {
      ghost var whole := SetOnRows(schema, State(), cls, snapshot, p, x, migration);
      assert snapshot[0..] == snapshot;
      for i := 0 to |snapshot|
        invariant SetOnRows(schema, State(), cls, snapshot[i..], p, x, migration) == whole
      {
        assert snapshot[i..][0] == snapshot[i] && snapshot[i..][1..] == snapshot[i + 1..];
        var one := SetPropertyImpl(cls, snapshot[i], p, x, true, false);
        if one.Failure? {
          return Failure(one.error);
        }
      }
      r := Success(());
    }
  }
}
