/**
 * The process-wide registry that maps a Java class to its SQL column type, its
 * column reader and its parameter writer (SqlTypeMapper.java). Readers and
 * writers are given by a `Codec`; JDBC result sets and prepared statements are
 * reduced to the `SqlValue` held in one column or bound to one parameter.
 */
module SqlTypeMapper {
  import opened Wrappers
  import opened Text

  datatype Primitive = Boolean | Byte | Short | Int | Long | Float | Double

  /** An enum class: its name and the names of its constants in declaration order. */
  datatype EnumType = EnumType(name: string, constants: seq<string>)

  /** The registry's keys: classes, compared by identity. */
  datatype JavaClass =
    | PrimitiveClass(p: Primitive)     // boolean.class, int.class, ...
    | WrapperClass(p: Primitive)       // Boolean.class, Integer.class, ...
    | StringClass
    | TimestampClass
    | InputStreamClass
    | EnumClass(e: EnumType)
    | StreamImplementation             // the concrete class of any InputStream instance
    | OtherClass(name: string)

  /** A Java value passed as a parameter or produced by a reader. */
  datatype JValue =
    | Null
    | Bool(b: bool)
    | Integral(p: Primitive, n: int)   // byte, short, int or long
    | Floating(p: Primitive, x: real)  // float or double
    | Str(s: string)
    | Time(t: int)
    | Stream(bytes: seq<int>)
    | EnumConst(e: EnumType, ordinal: nat)

  /** A value held in one result-set column or bound to one statement parameter. */
  datatype SqlValue =
    | SqlNull
    | SqlBool(b: bool)
    | SqlInt(n: int)
    | SqlReal(x: real)
    | SqlText(s: string)
    | SqlTimestamp(t: int)
    | SqlBlob(bytes: seq<int>)

  /** Which `ResultSet` getter and `PreparedStatement` setter a mapper uses. */
  datatype Codec =
    | BoolCodec
    | IntegralCodec(p: Primitive)
    | FloatingCodec(p: Primitive)
    | TextCodec
    | TimestampCodec
    | BlobCodec
    | OrdinalCodec(e: EnumType)
    | NameCodec(e: EnumType)

  /**
   * One registered mapper. `wrapper` marks the nullable variant of a primitive
   * type, whose reader turns a column that was SQL NULL into `null`.
   */
  datatype Mapper = Mapper(sqlType: string, codec: Codec, wrapper: bool)

  predicate IsIntegral(p: Primitive)
  {
    p == Byte || p == Short || p == Int || p == Long
  }

  /** The value range of a Java integral type. */
  predicate InRange(p: Primitive, n: int)
  {
    match p
    case Byte => -0x80 <= n < 0x80
    case Short => -0x8000 <= n < 0x8000
    case Int => -0x8000_0000 <= n < 0x8000_0000
    case Long => -0x8000_0000_0000_0000 <= n < 0x8000_0000_0000_0000
    case _ => false
  }

  /** What Java's type system guarantees of every value. */
  predicate WellFormed(v: JValue)
  {
    match v
    case Integral(p, n) => InRange(p, n)
    case Floating(p, _) => p == Float || p == Double
    case EnumConst(e, k) => k < |e.constants| && InRange(Int, k)  // ordinal() is an int
    case _ => true
  }

  /** `o.getClass()` of a non-null parameter: primitives arrive boxed. */
  function ClassOf(v: JValue): JavaClass
    requires v != Null
  {
    match v
    case Bool(_) => WrapperClass(Boolean)
    case Integral(p, _) => WrapperClass(p)
    case Floating(p, _) => WrapperClass(p)
    case Str(_) => StringClass
    case Time(_) => TimestampClass
    case Stream(_) => StreamImplementation
    case EnumConst(e, _) => EnumClass(e)
  }

  /** The codec a mapper for class `c` must have (the generic `T` of its reader and writer). */
  predicate Compatible(c: JavaClass, codec: Codec)
  {
    match c
    case PrimitiveClass(p) => CodecOf(p) == codec
    case WrapperClass(p) => CodecOf(p) == codec
    case StringClass => codec == TextCodec
    case TimestampClass => codec == TimestampCodec
    case InputStreamClass => codec == BlobCodec
    case EnumClass(e) => codec == OrdinalCodec(e) || codec == NameCodec(e)
    case _ => false
  }

  /** The getter and setter pair of a primitive type. */
  function CodecOf(p: Primitive): Codec
  {
    if p == Boolean then BoolCodec
    else if p == Float || p == Double then FloatingCodec(p)
    else IntegralCodec(p)
  }

  /** The writer of `codec` accepts `v`. */
  predicate Fits(codec: Codec, v: JValue)
  {
    match codec
    case BoolCodec => v.Bool?
    case IntegralCodec(p) => v.Integral? && v.p == p
    case FloatingCodec(p) => v.Floating? && v.p == p
    case TextCodec => v.Str?
    case TimestampCodec => v.Time?
    case BlobCodec => v.Stream?
    case OrdinalCodec(e) => v.EnumConst? && v.e == e && v.ordinal < |e.constants|
    case NameCodec(e) => v.EnumConst? && v.e == e && v.ordinal < |e.constants|
  }

  /** A well-formed value fits every mapper registered for its class. */
  lemma FitsByClass(codec: Codec, v: JValue)
    requires v != Null && WellFormed(v) && Compatible(ClassOf(v), codec)
    ensures Fits(codec, v)
  {
  }

  /** The writer: what `setBoolean`, `setInt`, `setString`, ... bind for `v`. */
  function Write(codec: Codec, v: JValue): SqlValue
    requires Fits(codec, v)
  {
    match codec
    case BoolCodec => SqlBool(v.b)
    case IntegralCodec(_) => SqlInt(v.n)
    case FloatingCodec(_) => SqlReal(v.x)
    case TextCodec => SqlText(v.s)
    case TimestampCodec => SqlTimestamp(v.t)
    case BlobCodec => SqlBlob(v.bytes)
    case OrdinalCodec(_) => SqlInt(v.ordinal)        // value.ordinal()
    case NameCodec(e) => SqlText(e.constants[v.ordinal])  // value.name()
  }

  /** Position of `name` among `names`, as `Enum.valueOf` finds it. */
  function IndexOf(names: seq<string>, name: string): (r: Option<nat>)
    ensures r.Some? ==> r.value < |names| && names[r.value] == name
    ensures r.None? ==> name !in names
  {
    if names == [] then None
    else if names[0] == name then Some(0)
    else match IndexOf(names[1..], name)
      case None => None
      case Some(k) => Some(k + 1)
  }

  predicate Distinct(names: seq<string>)
  {
    forall i, j :: 0 <= i < j < |names| ==> names[i] != names[j]
  }

  /** With distinct constant names, `valueOf(name())` finds the constant again. */
  lemma {:induction false} IndexOfDistinct(names: seq<string>, k: nat)
    requires Distinct(names) && k < |names|
    ensures IndexOf(names, names[k]) == Some(k)
  {
    if k > 0 {
      IndexOfDistinct(names[1..], k - 1);
    }
  }

  /**
   * The getter of `codec` applied to a column holding `cell`, or the exception
   * it throws. JDBC's primitive getters return false or zero for SQL NULL; a
   * cell of another kind, or a number the getter's type cannot hold, is a
   * conversion error (an SQLException).
   */
  function Get(codec: Codec, cell: SqlValue): Result<JValue>
  {
    match codec
    case BoolCodec =>
      if cell.SqlNull? then Ok(Bool(false))
      else if cell.SqlBool? then Ok(Bool(cell.b)) else Err(SqlException)
    case IntegralCodec(p) =>
      if cell.SqlNull? then Ok(Integral(p, 0))
      else if cell.SqlInt? && InRange(p, cell.n) then Ok(Integral(p, cell.n)) else Err(SqlException)
    case FloatingCodec(p) =>
      if cell.SqlNull? then Ok(Floating(p, 0.0))
      else if cell.SqlReal? then Ok(Floating(p, cell.x)) else Err(SqlException)
    case TextCodec =>
      if cell.SqlNull? then Ok(Null)
      else if cell.SqlText? then Ok(Str(cell.s)) else Err(SqlException)
    case TimestampCodec =>
      if cell.SqlNull? then Ok(Null)
      else if cell.SqlTimestamp? then Ok(Time(cell.t)) else Err(SqlException)
    case BlobCodec =>
      if cell.SqlNull? then Ok(Null)
      else if cell.SqlBlob? then Ok(Stream(cell.bytes)) else Err(SqlException)
    case OrdinalCodec(e) =>
      // enumConstants[rs.getInt(identifier)], where getInt gives 0 for NULL
      if !(cell.SqlNull? || (cell.SqlInt? && InRange(Int, cell.n))) then Err(SqlException)
      else
        var i := if cell.SqlNull? then 0 else cell.n;
        if 0 <= i < |e.constants| then Ok(EnumConst(e, i)) else Err(ArrayIndexOutOfBoundsException)
    case NameCodec(e) =>
      // Enum.valueOf(type, rs.getString(identifier)): a null name throws a
      // NullPointerException, an unknown one an IllegalArgumentException
      if cell.SqlNull? then Err(NullPointerException)
      else if cell.SqlText? then
        match IndexOf(e.constants, cell.s)
        case Some(k) => Ok(EnumConst(e, k))
        case None => Err(IllegalArgumentException)
      else Err(SqlException)
  }

  /** The reader of a mapper; the wrapper variant reports SQL NULL as `null`. */
  function Read(m: Mapper, cell: SqlValue): Result<JValue>
  {
    var value := Get(m.codec, cell);
    if m.wrapper && value.Ok? && cell.SqlNull? then Ok(Null) else value
  }

  /** `ceil(n / 256.0)`, the width of an ordinal enum column. */
  function OrdinalWidth(n: nat): (k: nat)
    ensures n <= 256 * k
    ensures k > 0 ==> 256 * (k - 1) < n
  {
    (n + 255) / 256
  }

  /** Longest constant name, or 0 without constants (`max(...).orElse(0)`). */
  function NameWidth(names: seq<string>): (w: nat)
    ensures forall i :: 0 <= i < |names| ==> |names[i]| <= w
    ensures names == [] ==> w == 0
    ensures names != [] ==> exists i :: 0 <= i < |names| && |names[i]| == w
  {
    if names == [] then 0
    else
      var rest := NameWidth(names[1..]);
      if |names[0]| >= rest then |names[0]|
      else assert |names[1..][0]| <= rest; rest
  }

  /** The mapper `ordinalEnumMapper` registers. */
  function OrdinalMapper(e: EnumType): Mapper
  {
    Mapper("INTEGER(" + NatToString(OrdinalWidth(|e.constants|)) + ")", OrdinalCodec(e), false)
  }

  /** The mapper `nameEnumMapper` registers. */
  function NameMapper(e: EnumType): Mapper
  {
    Mapper("VARCHAR(" + NatToString(NameWidth(e.constants)) + ")", NameCodec(e), false)
  }

  /** The mapper of a primitive type or, with `wrapper`, of its boxed class. */
  function PrimitiveMapperOf(p: Primitive, sqlType: string, wrapper: bool): Mapper
  {
    Mapper(sqlType, CodecOf(p), wrapper)
  }

  /** The SQL type the static initialiser registers for each primitive. */
  function PrimitiveSqlType(p: Primitive): string
  {
    match p
    case Boolean => "BOOLEAN"
    case Byte => "INTEGER(1)"
    case Short => "INTEGER(2)"
    case Int => "INTEGER"
    case Long => "INTEGER(8)"
    case Float => "REAL"
    case Double => "REAL"
  }

  /** `mappers` with a primitive type and its wrapper class registered, in that order. */
  function WithPrimitive(mappers: map<JavaClass, Mapper>, p: Primitive, sqlType: string): map<JavaClass, Mapper>
  {
    mappers[PrimitiveClass(p) := PrimitiveMapperOf(p, sqlType, false)]
           [WrapperClass(p) := PrimitiveMapperOf(p, sqlType, true)]
  }

  /** The mapper the static initialiser registers for a class, if any. */
  function BuiltInMapper(c: JavaClass): Option<Mapper>
  {
    match c
    case PrimitiveClass(p) => Some(PrimitiveMapperOf(p, PrimitiveSqlType(p), false))
    case WrapperClass(p) => Some(PrimitiveMapperOf(p, PrimitiveSqlType(p), true))
    case StringClass => Some(Mapper("TEXT", TextCodec, false))
    case TimestampClass => Some(Mapper("TIMESTAMP", TimestampCodec, false))
    case InputStreamClass => Some(Mapper("BLOB", BlobCodec, false))
    case _ => None
  }

  /** The classes the static initialiser registers. */
  const BuiltInClasses: set<JavaClass> :=
    {PrimitiveClass(Boolean), WrapperClass(Boolean), PrimitiveClass(Byte), WrapperClass(Byte),
     PrimitiveClass(Short), WrapperClass(Short), PrimitiveClass(Int), WrapperClass(Int),
     PrimitiveClass(Long), WrapperClass(Long), PrimitiveClass(Float), WrapperClass(Float),
     PrimitiveClass(Double), WrapperClass(Double), StringClass, TimestampClass, InputStreamClass}

  /** Exactly the classes listed above have a built-in mapper. */
  lemma BuiltInClassesCover(c: JavaClass)
    ensures BuiltInMapper(c).Some? <==> c in BuiltInClasses
  {
    match c
    case PrimitiveClass(p) =>
      match p {
        case Boolean => case Byte => case Short => case Int => case Long => case Float => case Double =>
      }
    case WrapperClass(p) =>
      match p {
        case Boolean => case Byte => case Short => case Int => case Long => case Float => case Double =>
      }
    case _ =>
  }

  /** The registry's content after the static initialiser has run. */
  function BuiltIns(): (r: map<JavaClass, Mapper>)
    ensures forall c :: c in r <==> BuiltInMapper(c).Some?
    ensures forall c :: c in r ==> r[c] == BuiltInMapper(c).value
  {
    forall c ensures BuiltInMapper(c).Some? <==> c in BuiltInClasses {
      BuiltInClassesCover(c);
    }
    map c | c in BuiltInClasses :: BuiltInMapper(c).value
  }

  /** What the static initialiser registers, one call after the other. */
  function StaticInitialiser(): map<JavaClass, Mapper>
  {
    WithPrimitive(WithPrimitive(WithPrimitive(WithPrimitive(WithPrimitive(WithPrimitive(WithPrimitive(
      map[], Boolean, "BOOLEAN"), Byte, "INTEGER(1)"), Short, "INTEGER(2)"), Int, "INTEGER"),
      Long, "INTEGER(8)"), Float, "REAL"), Double, "REAL")
      [StringClass := Mapper("TEXT", TextCodec, false)]
      [TimestampClass := Mapper("TIMESTAMP", TimestampCodec, false)]
      [InputStreamClass := Mapper("BLOB", BlobCodec, false)]
  }

  /** The registrations, in their order, build exactly the built-in table. */
  lemma StaticInitialiserIsBuiltIns()
    ensures StaticInitialiser() == BuiltIns()
  {
    var m := StaticInitialiser();
    forall c
      ensures c in m <==> c in BuiltIns()
      ensures c in m ==> m[c] == BuiltIns()[c]
    {
      if c.PrimitiveClass? {
        InitialisedPrimitive(c.p);
      } else if c.WrapperClass? {
        InitialisedWrapper(c.p);
      } else {
        InitialisedOther(c);
      }
    }
  }

  /** The static initialiser registers each primitive class with the built-in mapper... */
  lemma InitialisedPrimitive(p: Primitive)
    ensures PrimitiveClass(p) in StaticInitialiser()
    ensures StaticInitialiser()[PrimitiveClass(p)] == BuiltInMapper(PrimitiveClass(p)).value
  {
    match p
    case Boolean => case Byte => case Short => case Int => case Long => case Float => case Double =>
  }

  /** ... and each wrapper class... */
  lemma InitialisedWrapper(p: Primitive)
    ensures WrapperClass(p) in StaticInitialiser()
    ensures StaticInitialiser()[WrapperClass(p)] == BuiltInMapper(WrapperClass(p)).value
  {
    match p
    case Boolean => case Byte => case Short => case Int => case Long => case Float => case Double =>
  }

  /** ... and the three reference types, and nothing else. */
  lemma InitialisedOther(c: JavaClass)
    requires !c.PrimitiveClass? && !c.WrapperClass?
    ensures c in StaticInitialiser() <==> BuiltInMapper(c).Some?
    ensures c in StaticInitialiser() ==> StaticInitialiser()[c] == BuiltInMapper(c).value
  {
  }

  /** Every mapper registered for a class reads and writes values of that class. */
  ghost predicate TypeCorrect(mappers: map<JavaClass, Mapper>)
  {
    forall c :: c in mappers ==> Compatible(c, mappers[c].codec)
  }

  /** `getMapper`: the mapper registered for exactly this class, or null. */
  function Lookup(mappers: map<JavaClass, Mapper>, c: JavaClass): Option<Mapper>
  {
    if c in mappers then Some(mappers[c]) else None
  }

  /** The registry (`mappers`, an IdentityHashMap filled by `new SqlTypeMapper(...)`). */
  class Registry {
    var mappers: map<JavaClass, Mapper>

    ghost predicate Valid()
      reads this
    {
      TypeCorrect(mappers)
    }

    /** The static initialiser. */
    constructor ()
      ensures Valid() && mappers == BuiltIns()
    {
      mappers := map[];
      new;
      PrimitiveMapper(Boolean, "BOOLEAN");
      PrimitiveMapper(Byte, "INTEGER(1)");
      PrimitiveMapper(Short, "INTEGER(2)");
      PrimitiveMapper(Int, "INTEGER");
      PrimitiveMapper(Long, "INTEGER(8)");
      PrimitiveMapper(Float, "REAL");
      PrimitiveMapper(Double, "REAL");
      Register(StringClass, Mapper("TEXT", TextCodec, false));
      Register(TimestampClass, Mapper("TIMESTAMP", TimestampCodec, false));
      Register(InputStreamClass, Mapper("BLOB", BlobCodec, false));
      StaticInitialiserIsBuiltIns();
    }

    /** `new SqlTypeMapper<>(clazz, ...)`: registers `m` for `c`, replacing any earlier mapper. */
    method Register(c: JavaClass, m: Mapper)
      requires Valid() && Compatible(c, m.codec)
      modifies this
      ensures Valid() && mappers == old(mappers)[c := m]
    {
      mappers := mappers[c := m];
    }

    /** `primitiveMapper`: the primitive class and its wrapper share type and writer. */
    method PrimitiveMapper(p: Primitive, sqlType: string)
      requires Valid()
      modifies this
      ensures Valid()
      ensures mappers == WithPrimitive(old(mappers), p, sqlType)
    {
      Register(PrimitiveClass(p), PrimitiveMapperOf(p, sqlType, false));
      Register(WrapperClass(p), PrimitiveMapperOf(p, sqlType, true));
    }

    /** `ordinalEnumMapper`. */
    method OrdinalEnumMapper(e: EnumType)
      requires Valid()
      modifies this
      ensures Valid() && mappers == old(mappers)[EnumClass(e) := OrdinalMapper(e)]
    {
      Register(EnumClass(e), OrdinalMapper(e));
    }

    /** `nameEnumMapper`. */
    method NameEnumMapper(e: EnumType)
      requires Valid()
      modifies this
      ensures Valid() && mappers == old(mappers)[EnumClass(e) := NameMapper(e)]
    {
      Register(EnumClass(e), NameMapper(e));
    }

    /** `getMapper(clazz)`. */
    function GetMapper(c: JavaClass): (r: Option<Mapper>)
      reads this
      requires Valid()
      ensures r.Some? <==> c in mappers
      ensures r.Some? ==> r.value == mappers[c]
      ensures r.Some? ==> Compatible(c, r.value.codec)
      ensures c.StreamImplementation? || c.OtherClass? ==> r.None?
    {
      Lookup(mappers, c)
    }
  }

  // ---------------------------------------------------------------------------
  // Properties

  /** After registering, the lookup answers with the newest mapper for that class only. */
  lemma LookupAfterRegister(mappers: map<JavaClass, Mapper>, c: JavaClass, m: Mapper, c': JavaClass)
    ensures Lookup(mappers[c := m], c') == if c' == c then Some(m) else Lookup(mappers, c')
  {
  }

  /** The built-in table of SQL types, and nothing registered for enums or other classes. */
  lemma BuiltInSqlTypes()
    ensures Lookup(BuiltIns(), PrimitiveClass(Boolean)).value.sqlType == "BOOLEAN"
    ensures Lookup(BuiltIns(), PrimitiveClass(Byte)).value.sqlType == "INTEGER(1)"
    ensures Lookup(BuiltIns(), PrimitiveClass(Short)).value.sqlType == "INTEGER(2)"
    ensures Lookup(BuiltIns(), PrimitiveClass(Int)).value.sqlType == "INTEGER"
    ensures Lookup(BuiltIns(), PrimitiveClass(Long)).value.sqlType == "INTEGER(8)"
    ensures Lookup(BuiltIns(), PrimitiveClass(Float)).value.sqlType == "REAL"
    ensures Lookup(BuiltIns(), PrimitiveClass(Double)).value.sqlType == "REAL"
    ensures Lookup(BuiltIns(), StringClass).value.sqlType == "TEXT"
    ensures Lookup(BuiltIns(), TimestampClass).value.sqlType == "TIMESTAMP"
    ensures Lookup(BuiltIns(), InputStreamClass).value.sqlType == "BLOB"
  {
  }

  /** The built-in registry is type-correct and has no enum mapper. */
  lemma BuiltInsTypeCorrect()
    ensures TypeCorrect(BuiltIns())
    ensures forall c :: c in BuiltIns() ==> !c.EnumClass? && !c.StreamImplementation? && !c.OtherClass?
  {
  }

  /** A primitive type and its wrapper share the SQL type and the writer. */
  lemma PrimitiveAndWrapperAgree(p: Primitive)
    ensures PrimitiveClass(p) in BuiltIns() && WrapperClass(p) in BuiltIns()
    ensures BuiltIns()[PrimitiveClass(p)].sqlType == BuiltIns()[WrapperClass(p)].sqlType
    ensures BuiltIns()[PrimitiveClass(p)].codec == BuiltIns()[WrapperClass(p)].codec
    ensures !BuiltIns()[PrimitiveClass(p)].wrapper && BuiltIns()[WrapperClass(p)].wrapper
  {
  }

  /** The wrapper reader yields null for SQL NULL and otherwise what the primitive reader yields. */
  lemma WrapperReader(p: Primitive, sqlType: string, cell: SqlValue)
    ensures var prim := Read(PrimitiveMapperOf(p, sqlType, false), cell);
            var boxed := Read(PrimitiveMapperOf(p, sqlType, true), cell);
            if cell.SqlNull? then prim.Ok? && prim.value != Null && boxed == Ok(Null)
            else boxed == prim
  {
  }

  /** The ordinal enum column type is `INTEGER(ceil(n / 256))`. */
  lemma OrdinalSqlType(e: EnumType)
    ensures var k := OrdinalWidth(|e.constants|);
            OrdinalMapper(e).sqlType == "INTEGER(" + NatToString(k) + ")"
            && |e.constants| <= 256 * k && (k > 0 ==> 256 * (k - 1) < |e.constants|)
  {
  }

  /** Writing a value and reading the column back gives the value again. */
  lemma {:induction false} WriteReadRoundTrip(m: Mapper, v: JValue)
    requires Fits(m.codec, v) && WellFormed(v)
    requires m.codec.NameCodec? ==> Distinct(m.codec.e.constants)
    ensures Read(m, Write(m.codec, v)) == Ok(v)
  {
    if m.codec.NameCodec? {
      IndexOfDistinct(m.codec.e.constants, v.ordinal);
    }
  }

  /** The ordinal mapper stores `ordinal()` and reads back the same constant. */
  lemma OrdinalRoundTrip(e: EnumType, k: nat)
    requires WellFormed(EnumConst(e, k))
    ensures Write(OrdinalMapper(e).codec, EnumConst(e, k)) == SqlInt(k)
    ensures Read(OrdinalMapper(e), SqlInt(k)) == Ok(EnumConst(e, k))
  {
  }

  /** The name mapper stores `name()`, and `valueOf` reads back the same constant. */
  lemma NameRoundTrip(e: EnumType, k: nat)
    requires k < |e.constants| && Distinct(e.constants)
    ensures Write(NameMapper(e).codec, EnumConst(e, k)) == SqlText(e.constants[k])
    ensures Read(NameMapper(e), SqlText(e.constants[k])) == Ok(EnumConst(e, k))
    ensures |e.constants[k]| <= NameWidth(e.constants)
  {
    IndexOfDistinct(e.constants, k);
  }

  /**
   * The name reader fails on SQL NULL with a NullPointerException and on a
   * name that is no constant of the enum with an IllegalArgumentException.
   */
  lemma NameReaderRejects(e: EnumType, cell: SqlValue)
    ensures cell.SqlNull? ==> Read(NameMapper(e), cell) == Err(NullPointerException)
    ensures cell.SqlText? ==>
              (Read(NameMapper(e), cell) == Err(IllegalArgumentException) <==> cell.s !in e.constants)
  {
  }

  /**
   * The ordinal reader fails with an ArrayIndexOutOfBoundsException on a
   * number that is no ordinal of the enum; SQL NULL reads as ordinal 0, so it
   * fails exactly when the enum has no constants.
   */
  lemma OrdinalReaderRejects(e: EnumType, cell: SqlValue)
    ensures cell.SqlNull? ==>
              (Read(OrdinalMapper(e), cell) == Err(ArrayIndexOutOfBoundsException) <==> e.constants == [])
    ensures cell.SqlInt? && InRange(Int, cell.n) ==>
              (Read(OrdinalMapper(e), cell) == Err(ArrayIndexOutOfBoundsException)
               <==> !(0 <= cell.n < |e.constants|))
    ensures cell.SqlInt? && 0 <= cell.n < |e.constants| && InRange(Int, cell.n) ==>
              Read(OrdinalMapper(e), cell) == Ok(EnumConst(e, cell.n))
  {
  }
}
