/** Entity model (src/metadata/edm_model.hpp). */
module Edm {
  import opened Text

  datatype EdmType =
    | BOOLEAN | SBYTE | INT16 | INT32 | INT64 | SINGLE | DOUBLE | DECIMAL
    | STRING | DATE | TIME_OF_DAY | DATETIME_OFFSET | GUID | BINARY | UNSUPPORTED

  datatype EdmProperty = EdmProperty(
    name: string, edmType: EdmType, nullable: bool, isKey: bool, duckdbType: string, serializable: bool)

  datatype EdmEntity = EdmEntity(
    name: string, catalog: string, schema: string, table: string, properties: seq<EdmProperty>, hasKey: bool)

  predicate SameName(a: string, b: string) {
    ToLower(a) == ToLower(b)
  }

  predicate NotParen(c: char) {
    c != '('
  }

  /** The lower-cased type name without its parameters. */
  function BaseTypeOf(duckdbType: string): string {
    var t := ToLower(duckdbType);
    Trim(t[..Span(NotParen, t)])
  }

  /** DuckDBTypeToEdm (src/metadata/edm_model.cpp). */
  function EdmTypeOf(duckdbType: string): EdmType {
    var t := BaseTypeOf(duckdbType);
    if t in {"boolean", "bool"} then BOOLEAN
    else if t in {"tinyint", "int1"} then SBYTE
    else if t in {"smallint", "int2"} then INT16
    else if t in {"integer", "int4", "int", "signed"} then INT32
    else if t in {"bigint", "int8", "long"} then INT64
    else if t in {"hugeint", "utinyint", "usmallint", "uinteger", "ubigint", "uhugeint"} then DECIMAL
    else if t in {"float", "real"} then SINGLE
    else if t == "double" then DOUBLE
    else if t in {"decimal", "numeric", "money"} then DECIMAL
    else if t in {"varchar", "char", "bpchar", "text", "string"} then STRING
    else if t == "date" then DATE
    else if t in {"time", "timetz"} then TIME_OF_DAY
    else if t in {"timestamp", "timestamp with time zone", "timestamptz", "datetime", "datetime2"} then DATETIME_OFFSET
    else if t == "uuid" then GUID
    else if t in {"blob", "bytea", "binary", "varbinary", "bit", "bitstring"} then BINARY
    else UNSUPPORTED
  }
}
