/** What a value is to a column, in the value's own terms: what fits it, what is stored for it, and where a key
    is found. */
module Values {
  import opened Wrappers
  import opened Schema
  import opened Tables
  import opened ObjectAccessor
  import opened ListTrimming

  predicate OfType(base: BaseType, prim: Prim) {
    match prim
    case PInt(_) => base == IntType
    case PBool(_) => base == BoolType
    case PText(_) => base == StringType || base == DataType
    case PDate(_, _) => base == DateType
    case PFloat(_) => base == FloatType
    case PDouble(_) => base == DoubleType
  }

  /** A primitive column takes primitives of its type, and null where it is nullable. */
  predicate FitsScalar(p: Property, x: Value) {
    (x.Boxed? && OfType(p.base, x.prim)) || (x.Null? && p.nullable)
  }

  /** A list takes, for links, managed objects of its class among the first `n` rows; otherwise primitives of its
      type, and null where it is nullable, save for dates, which are cast without looking. */
  predicate FitsItem(p: Property, e: Value, n: nat) {
    if p.base.ObjectType? then e.Managed? && e.cls == p.objectType && e.row < n
    else (e.Boxed? && OfType(p.base, e.prim)) || (e.Null? && p.nullable && p.base != DateType)
  }

  /** What a cast to the column's type lets through: as above, and any null for strings and data. */
  predicate Casts(p: Property, e: Value) {
    (e.Boxed? && OfType(p.base, e.prim)) ||
    (e.Null? && (p.base == StringType || p.base == DataType || (p.nullable && p.base != DateType)))
  }

  /** What a primitive, null or a managed object is stored as. */
  function Stored(x: Value): Slot {
    match x
    case Boxed(prim) => Scalar(Some(prim))
    case Managed(_, row) => Link(Some(row))
    case _ => Scalar(None)
  }

  /** The first row whose cell holds the key, or none holding it. */
  ghost predicate FirstWith(t: Group, cls: string, column: string, key: Key, found: Option<nat>) {
    match found
    case None => forall row: nat :: row < Size(t, cls) ==> CellAt(t, cls, row, column) != One(Scalar(key))
    case Some(row) =>
      && row < Size(t, cls) && CellAt(t, cls, row, column) == One(Scalar(key))
      && forall j: nat :: j < row ==> CellAt(t, cls, j, column) != One(Scalar(key))
  }

  /** A primitive unboxes to itself if it has the type, and to nothing otherwise; null never unboxes to one. */
  lemma PrimUnboxes(p: Property, x: Value)
    ensures x.Boxed? ==> UnboxPrim(p, x) == if OfType(p.base, x.prim) then Some(Some(x.prim)) else None
    ensures x.Null? ==> UnboxPrim(p, x) == None || UnboxPrim(p, x) == Some(None)
    ensures !x.Boxed? && !x.Null? ==> UnboxPrim(p, x) == None
  {
  }

  /** Null unboxes for strings and data, and where it is allowed for all but dates. */
  lemma NullUnboxes(p: Property)
    requires !p.base.ObjectType? && !p.base.LinkingObjectsType?
    ensures UnboxPrim(p, Null).Some? <==>
            p.base == StringType || p.base == DataType || (p.nullable && p.base != DateType)
  {
  }

  lemma CastsUnbox(p: Property, e: Value)
    requires !p.base.ObjectType? && !p.base.LinkingObjectsType?
    ensures UnboxPrim(p, e).Some? <==> Casts(p, e)
    ensures UnboxPrim(p, e).Some? ==> Scalar(UnboxPrim(p, e).value) == Stored(e)
  {
    PrimUnboxes(p, e);
    NullUnboxes(p);
  }

  lemma FirstIsFirst(t: Group, cls: string, column: string, key: Key)
    ensures FirstWith(t, cls, column, key, FindFirst(t, cls, column, key))
  {
    var found := FindFirst(t, cls, column, key);
    forall j: nat | j < if found.Some? then found.value else Size(t, cls)
      ensures CellAt(t, cls, j, column) != One(Scalar(key))
    {
      assert CellIn(Rows(t, cls)[j], column) != One(Scalar(key));
    }
  }

  /** The log after a cell has been given its new contents: one write, or none if only differences are written and
      there is none. */
  function Logged(st: Store, cls: string, row: nat, column: string, now: Store, m: Mode): seq<Write> {
    if m.diff && CellAt(st.tables, cls, row, column) == CellAt(now.tables, cls, row, column) then st.log
    else st.log + [SetCell(cls, row, column)]
  }

  /** Writing a primitive column: it succeeds exactly on what fits, whatever the cell held and in every mode, and
      then the cell holds that; otherwise nothing is written, and the error says why. */
  lemma SetsScalar(S: Classes, st: Store, cls: string, row: nat, p: Property, x: Value, m: Mode)
    requires !p.isArray && !p.base.ObjectType? && !p.base.LinkingObjectsType? && row < Size(st.tables, cls)
    requires m.diff && CellAt(st.tables, cls, row, p.name) == One(Scalar(None)) ==> p.nullable
    ensures var r := SetProperty(S, st, cls, row, p, x, m);
            && (r.Done? <==> FitsScalar(p, x))
            && (r.Done? ==> r.st.tables == Put(st.tables, cls, row, p.name,
                                               One(Scalar(if x.Boxed? then Some(x.prim) else None))))
            && (r.Done? ==> r.st.log == Logged(st, cls, row, p.name, r.st, m))
            && (r.Threw? ==>
                  && r.st == st
                  && r.error == if x.Null? && (p.base == StringType || p.base == DataType) then ColumnNotNullable
                                else BadCast)
  {
    var cell := CellAt(st.tables, cls, row, p.name);
    PrimUnboxes(p, x);
    NullUnboxes(p);
    if cell != Absent {
      PutSame(st.tables, cls, row, p.name);
    }
    if !(p.nullable && x.Null?) {
      PrimUpdates(S, st, cls, row, p, x, m);
    }
  }

  lemma PrimUpdates(S: Classes, st: Store, cls: string, row: nat, p: Property, x: Value, m: Mode)
    requires !p.isArray && !p.base.ObjectType? && !(p.nullable && x.Null?)
    ensures SetProperty(S, st, cls, row, p, x, m) ==
            match UnboxPrim(p, x)
            case None => Threw(BadCast, st)
            case Some(k) =>
              StoreIfDifferent(st, cls, row, p, CellAt(st.tables, cls, row, p.name), PrimValue(k), m)
  {
    var current := CurrentLink(CellAt(st.tables, cls, row, p.name));
    assert SetProperty(S, st, cls, row, p, x, m) == Update(S, st, cls, row, p, x, m);
    match UnboxPrim(p, x)
    case None =>
      assert Unbox(S, st, p, x, m, current) == Threw(BadCast, st);
    case Some(k) =>
      assert Unbox(S, st, p, x, m, current) == Done(PrimValue(k), st);
  }

  /** Writing a managed object of the table into a link succeeds, whatever the link held, and links its row. */
  lemma SetsLink(S: Classes, st: Store, cls: string, row: nat, p: Property, c: string, q: nat, m: Mode)
    requires !p.isArray && p.base.ObjectType? && row < Size(st.tables, cls) && q < Size(st.tables, p.objectType)
    ensures var r := SetProperty(S, st, cls, row, p, Managed(c, q), m);
            && r.Done? && r.st.tables == Put(st.tables, cls, row, p.name, One(Link(Some(q))))
            && CellAt(r.st.tables, cls, row, p.name) == One(Link(Some(q)))
            && r.st.log == Logged(st, cls, row, p.name, r.st, m)
  {
    ManagedUpdates(S, st, cls, row, p, c, q, m);
    if CellAt(st.tables, cls, row, p.name) != Absent {
      PutSame(st.tables, cls, row, p.name);
    }
    PutReads(st.tables, cls, row, p.name, One(Link(Some(q))), cls, row, p.name);
  }

  /** Any other row is refused; null clears the link. */
  lemma SetsOtherLinks(S: Classes, st: Store, cls: string, row: nat, p: Property, x: Value, m: Mode)
    requires !p.isArray && p.base.ObjectType? && row < Size(st.tables, cls)
    requires m.diff && CellAt(st.tables, cls, row, p.name).One? && x.Managed? ==>
               CellAt(st.tables, cls, row, p.name) != One(Link(Some(x.row)))
    ensures x.Managed? && x.row >= Size(st.tables, p.objectType) ==>
              SetProperty(S, st, cls, row, p, x, m) == Threw(LinkOutOfRange, st)
    ensures x.Null? && p.nullable ==>
              var r := SetProperty(S, st, cls, row, p, x, m);
              && r.Done? && r.st.tables == Put(st.tables, cls, row, p.name, One(Link(None)))
              && r.st.log == Logged(st, cls, row, p.name, r.st, m)
  {
    if x.Managed? {
      ManagedUpdates(S, st, cls, row, p, x.cls, x.row, m);
    } else if CellAt(st.tables, cls, row, p.name) != Absent {
      PutSame(st.tables, cls, row, p.name);
    }
  }

  lemma ManagedUpdates(S: Classes, st: Store, cls: string, row: nat, p: Property, c: string, q: nat, m: Mode)
    requires !p.isArray && p.base.ObjectType?
    ensures SetProperty(S, st, cls, row, p, Managed(c, q), m) ==
            StoreIfDifferent(st, cls, row, p, CellAt(st.tables, cls, row, p.name), RowValue(c, q), m)
  {
    var x, current := Managed(c, q), CurrentLink(CellAt(st.tables, cls, row, p.name));
    assert SetProperty(S, st, cls, row, p, x, m) == Update(S, st, cls, row, p, x, m);
    assert Unbox(S, st, p, x, m, current) == Done(RowValue(c, q), st);
  }

  /** What the getter makes of each kind of cell. */
  lemma GetterReads(t: Group, cls: string, row: nat, p: Property)
    ensures var c, got := CellAt(t, cls, row, p.name), GetPropertyValue(t, cls, row, p);
            if p.isArray then got == ManagedList(cls, row, p.name)
            else match c
              case One(Scalar(Some(prim))) => got == Boxed(prim)
              case One(Link(Some(q))) => got == Managed(p.objectType, q)
              case _ => got == Null
  {
  }

  /** What a property reads in a new row: null where it is nullable, otherwise the zero of its type; no link; an
      empty list. */
  lemma DefaultReads(p: Property)
    requires !p.base.LinkingObjectsType?
    ensures p.isArray ==> DefaultCell(p) == Many([])
    ensures !p.isArray && p.base == ObjectType ==> DefaultCell(p) == One(Link(None))
    ensures !p.isArray && p.base != ObjectType && p.nullable ==> DefaultCell(p) == One(Scalar(None))
    ensures !p.isArray && !p.nullable ==>
              && (p.base == IntType ==> DefaultCell(p) == One(Scalar(Some(PInt(0)))))
              && (p.base == BoolType ==> DefaultCell(p) == One(Scalar(Some(PBool(false)))))
              && (p.base == StringType || p.base == DataType ==> DefaultCell(p) == One(Scalar(Some(PText("")))))
              && (p.base == DateType ==> DefaultCell(p) == One(Scalar(Some(PDate(0, 0)))))
              && (p.base == FloatType ==> DefaultCell(p) == One(Scalar(Some(PFloat(0.0)))))
              && (p.base == DoubleType ==> DefaultCell(p) == One(Scalar(Some(PDouble(0.0)))))
  {
  }
}
