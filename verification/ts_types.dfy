/** The data types of a time series, shared by measurement schemas and the spill-file header. */
module TsTypes {
  import opened Wrappers

  datatype DataType = Boolean | Int32 | Int64 | Float | Double | Text

  /**
   * The short that identifies a data type on disk: its position in the
   * enumeration BOOLEAN, INT32, INT64, FLOAT, DOUBLE, TEXT.
   */
  function TypeCode(t: DataType): (code: int)
    ensures 0 <= code < 6
  {
    match t
    case Boolean => 0
    case Int32 => 1
    case Int64 => 2
    case Float => 3
    case Double => 4
    case Text => 5
  }

  /** Decodes a type code; any code outside the enumeration selects no type. */
  function TypeOfCode(code: int): (r: Option<DataType>)
    ensures r.Some? <==> 0 <= code < 6
    ensures r.Some? ==> TypeCode(r.value) == code
  {
    if code == 0 then Some(Boolean)
    else if code == 1 then Some(Int32)
    else if code == 2 then Some(Int64)
    else if code == 3 then Some(Float)
    else if code == 4 then Some(Double)
    else if code == 5 then Some(Text)
    else None
  }

  lemma TypeCodeRoundTrip(t: DataType)
    ensures TypeOfCode(TypeCode(t)) == Some(t)
  {
  }
}
