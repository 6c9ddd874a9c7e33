/** Logical types, their extra type information, and the physical layout they imply. */
module QuackTypes {
  import opened Numbers

  datatype LogicalType = LogicalType(id: Int64, info: Option<ExtraTypeInfo>)

  datatype ChildType = ChildType(name: Text, typ: LogicalType)

  datatype ExtraTypeInfo =
    | GenericInfo(kind: Int64, alias: Text)
    | DecimalInfo(width: Int64, scale: Int64, alias: Text)
    | StringInfo(collation: Text, alias: Text)
    | ListInfo(child: LogicalType, alias: Text)
    | StructInfo(children: Slice<ChildType>, alias: Text)
    | EnumInfo(values: Slice<Text>, alias: Text)
    | AggregateStateInfo(functionName: Text, returnType: LogicalType, arguments: Slice<LogicalType>, alias: Text)
    | ArrayInfo(child: LogicalType, size: Int64, alias: Text)
    | AnyInfo(target: LogicalType, castScore: Option<int>, alias: Text)
    | TemplateInfo(name: Text, alias: Text)
    | IntegerLiteralInfo(alias: Text)
    | GeoInfo(crs: Text, alias: Text)
    | UnboundInfo(name: Text, catalog: Text, schema: Text, alias: Text)

  // Logical type ids.
  const SQL_NULL: Int64 := 1
  const TYPE: Int64 := 6
  const BOOLEAN: Int64 := 10
  const TINYINT: Int64 := 11
  const SMALLINT: Int64 := 12
  const INTEGER: Int64 := 13
  const BIGINT: Int64 := 14
  const DATE: Int64 := 15
  const TIME: Int64 := 16
  const TIMESTAMP_SEC: Int64 := 17
  const TIMESTAMP_MS: Int64 := 18
  const TIMESTAMP: Int64 := 19
  const TIMESTAMP_NS: Int64 := 20
  const DECIMAL: Int64 := 21
  const FLOAT: Int64 := 22
  const DOUBLE: Int64 := 23
  const CHAR: Int64 := 24
  const VARCHAR: Int64 := 25
  const BLOB: Int64 := 26
  const INTERVAL: Int64 := 27
  const UTINYINT: Int64 := 28
  const USMALLINT: Int64 := 29
  const UINTEGER: Int64 := 30
  const UBIGINT: Int64 := 31
  const TIMESTAMP_TZ: Int64 := 32
  const TIME_TZ: Int64 := 34
  const TIME_NS: Int64 := 35
  const BIT: Int64 := 36
  const BIGNUM: Int64 := 39
  const UHUGEINT: Int64 := 49
  const HUGEINT: Int64 := 50
  const ADDRESS: Int64 := 51
  const VALIDITY: Int64 := 53
  const UUID: Int64 := 54
  const GEOMETRY: Int64 := 60
  const STRUCT: Int64 := 100
  const LIST: Int64 := 101
  const MAP: Int64 := 102
  const ENUM: Int64 := 104
  const AGGREGATE_STATE: Int64 := 105
  const UNION: Int64 := 107
  const ARRAY: Int64 := 108
  const VARIANT: Int64 := 109

  datatype PhysicalType =
    | PBool | PUint8 | PInt8 | PUint16 | PInt16 | PUint32 | PInt32 | PUint64 | PInt64
    | PFloat | PDouble | PInterval | PUint128 | PInt128
    | PList | PStruct | PArray | PVarchar | PBit | PInvalid
  {
    predicate ConstantSize() {
      !(PList? || PStruct? || PArray? || PVarchar? || PBit? || PInvalid?)
    }

    function ByteWidth(): (w: nat)
      requires ConstantSize()
      ensures 1 <= w <= 16
    {
      match this
      case PBool | PUint8 | PInt8 => 1
      case PUint16 | PInt16 => 2
      case PUint32 | PInt32 | PFloat => 4
      case PUint64 | PInt64 | PDouble => 8
      case PInterval | PUint128 | PInt128 => 16
    }
  }

  function Physical(t: LogicalType): PhysicalType {
    var id := t.id;
    if id == BOOLEAN then PBool
    else if id == TINYINT then PInt8
    else if id == UTINYINT then PUint8
    else if id == SMALLINT then PInt16
    else if id == USMALLINT then PUint16
    else if id in {SQL_NULL, DATE, INTEGER} then PInt32
    else if id == UINTEGER then PUint32
    else if id in {BIGINT, TIME, TIME_NS, TIMESTAMP, TIMESTAMP_SEC, TIMESTAMP_NS, TIMESTAMP_MS, TIME_TZ,
                   TIMESTAMP_TZ} then PInt64
    else if id == UBIGINT then PUint64
    else if id == UHUGEINT then PUint128
    else if id in {HUGEINT, UUID} then PInt128
    else if id == FLOAT then PFloat
    else if id == DOUBLE then PDouble
    else if id == DECIMAL then DecimalPhysical(t)
    else if id in {BIGNUM, VARCHAR, CHAR, BLOB, BIT, TYPE, AGGREGATE_STATE, GEOMETRY} then PVarchar
    else if id == INTERVAL then PInterval
    else if id in {UNION, VARIANT, STRUCT} then PStruct
    else if id in {LIST, MAP} then PList
    else if id == ARRAY then PArray
    else if id == ADDRESS then PUint64
    else if id == VALIDITY then PBit
    else if id == ENUM then EnumPhysical(t)
    else PInvalid
  }

  function DecimalPhysical(t: LogicalType): PhysicalType {
    match t.info
    case Some(DecimalInfo(width, _, _)) =>
      if width <= 4 then PInt16
      else if width <= 9 then PInt32
      else if width <= 18 then PInt64
      else if width <= 38 then PInt128
      else PInvalid
    case _ => PInvalid
  }

  function EnumPhysical(t: LogicalType): PhysicalType {
    match t.info
    case Some(EnumInfo(values, _)) =>
      if |values| <= 0xFF then PUint8 else if |values| <= 0xFFFF then PUint16 else PUint32
    case _ => PInvalid
  }

  /** The zero LogicalType, which accessors return beside an error. */
  const NO_TYPE: LogicalType := LogicalType(0, None)

  /** The element type of LIST, MAP and ARRAY. */
  function ChildTypeOf(t: LogicalType): LogicalType {
    match t.info
    case Some(ListInfo(child, _)) => child
    case Some(ArrayInfo(child, _, _)) => child
    case _ => NO_TYPE
  }

  function StructChildren(t: LogicalType): Slice<ChildType> {
    match t.info
    case Some(StructInfo(children, _)) => children
    case _ => []
  }

  function ArraySize(t: LogicalType): Int64 {
    match t.info
    case Some(ArrayInfo(_, size, _)) => size
    case _ => 0
  }

  function EnumValues(t: LogicalType): Slice<Text> {
    match t.info
    case Some(EnumInfo(values, _)) => values
    case _ => []
  }
}
