/** Property types, object schemas and the type-erased input values an accessor context unboxes. */
module Schema {
  import opened Wrappers

  datatype BaseType =
    | IntType
    | BoolType
    | StringType
    | DataType
    | DateType
    | FloatType
    | DoubleType
    | ObjectType
    | LinkingObjectsType

  /** A persisted property; `base` with the two flags is the source's flagged `PropertyType`. */
  datatype Property = Property(
    name: string,
    base: BaseType,
    nullable: bool,
    isArray: bool,
    objectType: string,
    isPrimary: bool)

  datatype ObjectSchema = ObjectSchema(primaryKey: string, properties: seq<Property>)

  type Classes = map<string, ObjectSchema>

  /** A boxed primitive.  Strings and binary data are both boxed as a byte string. */
  datatype Prim =
    | PInt(i: int)
    | PBool(b: bool)
    | PText(s: string)
    | PDate(seconds: int, nanoseconds: int)
    | PFloat(f: real)
    | PDouble(d: real)

  /** A primitive or null: the contents of a scalar column, and so also a primary key. */
  type Key = Option<Prim>

  /** The values the context accepts: null, a primitive, a dictionary describing an object,
      a vector, a handle on a managed object and a handle on a managed list. */
  datatype Value =
    | Null
    | Boxed(prim: Prim)
    | Dict(fields: map<string, Value>)
    | Vector(elems: seq<Value>)
    | Managed(cls: string, row: nat)
    | ManagedList(owner: string, ownerRow: nat, column: string)

  /** The properties of a class; none for an unknown class. */
  function Props(S: Classes, cls: string): seq<Property> {
    if cls in S then S[cls].properties else []
  }

  /** `ObjectSchema::property_for_name`: the first property with the given name. */
  function PropertyForName(props: seq<Property>, name: string): (r: Option<Property>)
    ensures r.Some? ==> r.value in props && r.value.name == name
    ensures r.None? ==> forall p :: p in props ==> p.name != name
  {
    if props == [] then None
    else if props[0].name == name then Some(props[0])
    else PropertyForName(props[1..], name)
  }

  /** `ObjectSchema::primary_key_property`. */
  function PrimaryKey(S: Classes, cls: string): Option<Property> {
    if cls in S && S[cls].primaryKey != "" then PropertyForName(S[cls].properties, S[cls].primaryKey) else None
  }

  ghost predicate ValidProperty(S: Classes, os: ObjectSchema, p: Property) {
    && !p.base.LinkingObjectsType?
    && (p.base.ObjectType? ==> p.nullable != p.isArray && p.objectType in S)
    && (p.isPrimary <==> os.primaryKey != "" && p.name == os.primaryKey)
    && (p.isPrimary ==> !p.isArray && (p.base.IntType? || p.base.StringType?))
  }

  ghost predicate ValidObjectSchema(S: Classes, os: ObjectSchema) {
    && (forall i :: 0 <= i < |os.properties| ==> ValidProperty(S, os, os.properties[i]))
    && (forall i, j :: 0 <= i < j < |os.properties| ==> os.properties[i].name != os.properties[j].name)
  }

  /** What schema validation guarantees about persisted properties. */
  ghost predicate ValidSchema(S: Classes) {
    forall cls :: cls in S ==> ValidObjectSchema(S, S[cls])
  }

  /** Every object the value would create below itself has a primary key.  Null for a nullable property and
      managed objects create nothing. */
  ghost predicate KeyedValue(S: Classes, cls: string, v: Value)
    decreases v, 2
  {
    v.Dict? ==> forall p :: p in Props(S, cls) && p.name in v.fields ==> KeyedProperty(S, p, v.fields[p.name])
  }

  ghost predicate KeyedProperty(S: Classes, p: Property, x: Value)
    decreases x, 4
  {
    if p.nullable && x.Null? then true
    else if p.isArray then x.Vector? ==> forall i :: 0 <= i < |x.elems| ==> KeyedElement(S, p, x.elems[i])
    else KeyedElement(S, p, x)
  }

  ghost predicate KeyedElement(S: Classes, p: Property, e: Value)
    decreases e, 3
  {
    p.base.ObjectType? && !e.Managed? ==> PrimaryKey(S, p.objectType).Some? && KeyedValue(S, p.objectType, e)
  }

  /** `any_cast` succeeds exactly when the boxed type is the column's. */
  predicate Matches(base: BaseType, p: Prim) {
    match base
    case IntType => p.PInt?
    case BoolType => p.PBool?
    case StringType => p.PText?
    case DataType => p.PText?
    case DateType => p.PDate?
    case FloatType => p.PFloat?
    case DoubleType => p.PDouble?
    case ObjectType => false
    case LinkingObjectsType => false
  }
}
