/** The type layout rule: for each value type, the byte size used by every typed
    read and write, the "real" type that is inspected, its type code, and whether
    the type must go through the marshaller instead of a raw byte copy. */
module MarshalCache {

  /** The .NET type codes of the value types the engine reads and writes.
      `Object` is the code of IntPtr and of user-defined structs. */
  datatype TypeCode =
    | Boolean | Char | SByte | Byte | Int16 | UInt16 | Int32 | UInt32
    | Int64 | UInt64 | Single | Double | Decimal | Object

  /** An instance field of a struct, reduced to what the layout rule inspects:
      whether it carries a MarshalAs attribute. */
  datatype FieldInfo = FieldInfo(name: string, hasMarshalAs: bool)

  /** An abstract type descriptor for the `T` of `MarshalCache<T>`.
      - `Primitive(code)`: a built-in value type; `Primitive(Object)` is IntPtr.
      - `Enum(underlying)`: an enumeration with that underlying integer type.
      - `Struct(marshalSize, fields)`: a user struct; `marshalSize` is the size
        Marshal.SizeOf reports for it (its packed native layout). */
  datatype ClrType =
    | Primitive(code: TypeCode)
    | Enum(underlying: TypeCode)
    | Struct(marshalSize: nat, fields: seq<FieldInfo>)

  const IntPtrType: ClrType := Primitive(Object)
  const BoolType: ClrType := Primitive(Boolean)

  /** The computed layout of one type. */
  datatype Layout = Layout(size: nat, realType: ClrType, typeCode: TypeCode, requiresMarshal: bool)

  /** Type.GetTypeCode(t). An enum reports the code of its underlying type. */
  function GetTypeCode(t: ClrType): TypeCode
  {
    match t
    case Primitive(code) => code
    case Enum(u) => u
    case Struct(_, _) => Object
  }

  /** Marshal.SizeOf(t) on a 32-bit build. A bool marshals as the 4-byte Win32
      BOOL and a char as a one-byte ANSI character; IntPtr is 4 bytes. */
  function MarshalSizeOf(t: ClrType): (r: nat)
    ensures !t.Struct? ==> r in {1, 2, 4, 8, 16}
    ensures t == IntPtrType ==> r == 4
    ensures t == BoolType ==> r == 4
  {
    match t
    case Primitive(code) => PrimitiveSize(code)
    case Enum(u) => PrimitiveSize(u)
    case Struct(size, _) => size
  }

  function PrimitiveSize(code: TypeCode): nat
  {
    match code
    case Boolean => 4
    case Char => 1
    case SByte => 1
    case Byte => 1
    case Int16 => 2
    case UInt16 => 2
    case Int32 => 4
    case UInt32 => 4
    case Int64 => 8
    case UInt64 => 8
    case Single => 4
    case Double => 8
    case Decimal => 16
    case Object => 4
  }

  /** The instance fields (public and non-public) reflection reports for a type.
      Built-in value types hold only their own unattributed value field. */
  function InstanceFields(t: ClrType): seq<FieldInfo>
  {
    match t
    case Primitive(_) => [FieldInfo("m_value", false)]
    case Enum(_) => [FieldInfo("value__", false)]
    case Struct(_, fields) => fields
  }

  /** `fields.Any(f => f has a MarshalAs attribute)`, evaluated left to right. */
  function AnyMarshalAs(fields: seq<FieldInfo>): bool
  {
    if fields == [] then false
    else fields[0].hasMarshalAs || AnyMarshalAs(fields[1..])
  }

  /** The static constructor of MarshalCache<T>, as a function of T. The real
      type is never an enum; the size differs from what the marshaller reports
      for T only for bool; the type code is the real type's; only a struct can
      require the marshaller. */
  function Derive(t: ClrType): (r: Layout)
    ensures !r.realType.Enum?
    ensures r.size == MarshalSizeOf(t) <==> t != BoolType
    ensures r.typeCode == GetTypeCode(r.realType) && r.typeCode == GetTypeCode(t)
    ensures !t.Struct? ==> !r.requiresMarshal
  {
    var realType :=
      if t == BoolType then t
      else if t.Enum? then Primitive(t.underlying)
      else t;
    var size :=
      if t == BoolType then 1
      else MarshalSizeOf(realType);
    assert !realType.Struct? ==> !AnyMarshalAs(InstanceFields(realType)) by {
      if !realType.Struct? {
        assert InstanceFields(realType)[1..] == [];
      }
    }
    Layout(size, realType, GetTypeCode(realType), AnyMarshalAs(InstanceFields(realType)))
  }

  function Size(t: ClrType): nat
  {
    Derive(t).size
  }

  function TypeRequiresMarshal(t: ClrType): bool
  {
    Derive(t).requiresMarshal
  }

  // ---------------------------------------------------------------------------
  // Properties of the layout rule

  /** `AnyMarshalAs` holds exactly when some field carries MarshalAs. */
  lemma {:induction false} AnyMarshalAsExists(fields: seq<FieldInfo>)
    ensures AnyMarshalAs(fields) <==> exists i :: 0 <= i < |fields| && fields[i].hasMarshalAs
  {
    if fields != [] {
      AnyMarshalAsExists(fields[1..]);
      if AnyMarshalAs(fields[1..]) {
        var i :| 0 <= i < |fields[1..]| && fields[1..][i].hasMarshalAs;
        assert fields[i + 1].hasMarshalAs;
      }
      if exists i :: 0 <= i < |fields| && fields[i].hasMarshalAs {
        var i :| 0 <= i < |fields| && fields[i].hasMarshalAs;
        if i > 0 {
          assert fields[1..][i - 1].hasMarshalAs;
        }
      }
    }
  }

  /** A bool occupies one byte, not the four bytes the marshaller would use, and
      is its own real type. */
  lemma BoolLayout()
    ensures Derive(BoolType).size == 1 && MarshalSizeOf(BoolType) == 4
    ensures Derive(BoolType).realType == BoolType
    ensures Derive(BoolType).typeCode == Boolean
  {
  }

  /** An enum takes its size, real type and type code from its underlying type,
      and is laid out exactly like a value of that type. */
  lemma EnumLayout(u: TypeCode)
    requires u != Boolean
    ensures Derive(Enum(u)).size == MarshalSizeOf(Primitive(u))
    ensures Derive(Enum(u)).realType == Primitive(u)
    ensures Derive(Enum(u)).typeCode == u
    ensures Derive(Enum(u)) == Derive(Primitive(u))
  {
  }

  /** An int-backed enum is four bytes wide. */
  lemma Int32EnumIsFourBytes()
    ensures Size(Enum(Int32)) == 4
  {
  }

  /** Every type other than bool and enums has its natural marshalled size and
      is its own real type. */
  lemma NaturalLayout(t: ClrType)
    requires t != BoolType && !t.Enum?
    ensures Derive(t).size == MarshalSizeOf(t)
    ensures Derive(t).realType == t
    ensures Derive(t).typeCode == GetTypeCode(t)
  {
  }

  /** A type needs the marshaller exactly when some instance field of its real
      type carries a MarshalAs attribute; built-in types and enums never do. */
  lemma RequiresMarshalIffMarshalAs(t: ClrType)
    ensures TypeRequiresMarshal(t) <==>
      exists i :: 0 <= i < |InstanceFields(Derive(t).realType)| &&
                  InstanceFields(Derive(t).realType)[i].hasMarshalAs
    ensures !t.Struct? ==> !TypeRequiresMarshal(t)
  {
    AnyMarshalAsExists(InstanceFields(Derive(t).realType));
  }

  /** Deriving the layout of a real type again gives the same size, code and
      marshalling decision: the real type is a fixed point of the rule. */
  lemma RealTypeIsStable(t: ClrType)
    requires !(t.Enum? && t.underlying == Boolean)
    ensures Derive(Derive(t).realType).size == Derive(t).size
    ensures Derive(Derive(t).realType).realType == Derive(t).realType
    ensures Derive(Derive(t).realType).requiresMarshal == Derive(t).requiresMarshal
  {
  }

  // ---------------------------------------------------------------------------
  // The per-type cache

  /** The static fields of every MarshalCache<T> instantiated so far: the
      runtime runs the static constructor once per type, on first use, and
      never again. */
  class LayoutCache {
    var layouts: map<ClrType, Layout>

    ghost predicate Valid()
      reads this
    {
      forall t :: t in layouts ==> layouts[t] == Derive(t)
    }

    constructor ()
      ensures Valid() && layouts == map[]
    {
      layouts := map[];
    }

    /** The layout of `t`, computing it only if `t` has not been seen before. */
    method Get(t: ClrType) returns (layout: Layout)
      requires Valid()
      modifies this
      ensures Valid()
      ensures layout == Derive(t)
      ensures t in old(layouts) ==> layouts == old(layouts)
      ensures t !in old(layouts) ==> layouts == old(layouts)[t := layout]
    {
      if t in layouts {
        layout := layouts[t];
      } else {
        layout := Derive(t);
        layouts := layouts[t := layout];
      }
    }
  }
}
