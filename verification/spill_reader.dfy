/**
 * The fixed-length spill-file deserializer: a byte stream with a read
 * cursor, one record reader per data type with its reusable buffers, and
 * the deserializer that reads the header and then hands out records.
 */
module SpillReader {
  import opened Wrappers
  import opened TsTypes
  import opened SpillFormat

  /**
   * The bytes of the spill file behind a buffered input stream. A read
   * copies as many bytes as the buffer holds or the stream still has.
   */
  class ByteStream {
    const bytes: seq<byte>
    var pos: nat

    ghost predicate Valid()
      reads this
    {
      pos <= |bytes|
    }

    constructor(contents: seq<byte>)
      ensures Valid() && bytes == contents && pos == 0
    {
      bytes := contents;
      pos := 0;
    }

    /** The number of bytes still to be read. */
    method Available() returns (n: nat)
      requires Valid()
      ensures n + pos == |bytes|
    {
      n := |bytes| - pos;
    }

    /**
     * Fills the front of buf from the stream. The result is the number of
     * bytes copied, 0 for an empty buffer, and -1 when the stream is
     * exhausted; the rest of buf keeps its old contents.
     */
    method Read(buf: array<byte>) returns (n: int)
      requires Valid()
      modifies this, buf
      ensures Valid()
      ensures pos - old(pos) == if buf.Length < |bytes| - old(pos) then buf.Length else |bytes| - old(pos)
      ensures buf[..pos - old(pos)] == bytes[old(pos)..pos]
      ensures forall i :: pos - old(pos) <= i < buf.Length ==> buf[i] == old(buf[i])
      ensures n == if buf.Length == 0 then 0 else if pos == old(pos) then -1 else pos - old(pos)
    {
      var k := if buf.Length < |bytes| - pos then buf.Length else |bytes| - pos;
      forall i | 0 <= i < k {
        buf[i] := bytes[pos + i];
      }
      pos := pos + k;
      n := if buf.Length == 0 then 0 else if k == 0 then -1 else k;
    }
  }

  /**
   * The record reader for one data type. It keeps an 8-byte timestamp
   * buffer and a value buffer sized for the type; the TEXT reader also has
   * a 4-byte length buffer and allocates a new value buffer per record.
   */
  class RecordReader {
    const kind: DataType
    const timestampBytes: array<byte>
    const valueLength: array<byte>
    var valueBytes: array<byte>

    ghost predicate Valid()
      reads this
    {
      && timestampBytes.Length == TimestampWidth
      && valueLength.Length == LengthWidth
      && (kind != Text ==> valueBytes.Length == FixedWidth(kind))
      && timestampBytes != valueBytes
      && valueLength != valueBytes
      && timestampBytes != valueLength
    }

    constructor(k: DataType)
      ensures Valid() && kind == k
      ensures fresh(timestampBytes) && fresh(valueLength) && fresh(valueBytes)
    {
      kind := k;
      timestampBytes := new byte[TimestampWidth];
      valueLength := new byte[LengthWidth];
      valueBytes := new byte[if k == Text then 0 else FixedWidth(k)];
    }

    /**
     * Reads one record from the stream. A whole record yields its pair and
     * moves the cursor past it; a negative TEXT length is an error once the
     * length has been read; a record cut short by the end of the stream
     * leaves the cursor at the end (its contents come from stale buffers).
     */
    method Read(input: ByteStream) returns (r: Result<TimeValuePair, SpillError>)
      requires Valid() && input.Valid()
      modifies this, timestampBytes, valueLength, valueBytes, input
      ensures Valid() && input.Valid()
      ensures kind != Text ==> valueBytes == old(valueBytes)
      ensures kind == Text ==> valueBytes == old(valueBytes) || fresh(valueBytes)
      ensures match DecodeRecord(kind, input.bytes, old(input.pos))
        case Record(pair, next) => r == Success(pair) && input.pos == next
        case NegativeLength(len) =>
          r == Failure(NegativeArraySize(len)) && input.pos == old(input.pos) + TimestampWidth + LengthWidth
        case Truncated => input.pos == |input.bytes|
    {
      ghost var start, bs := input.pos, input.bytes;
      var _ := input.Read(timestampBytes);
      ghost var stamped := input.pos == start + TimestampWidth;
      assert stamped ==> timestampBytes[..] == bs[start..start + TimestampWidth];
      if kind == Text {
        var _ := input.Read(valueLength);
        ghost var sized := stamped && input.pos == start + TimestampWidth + LengthWidth;
        assert sized ==> valueLength[..] == bs[start + TimestampWidth..input.pos];
        var length := Signed(valueLength[..]);
        if length < 0 {
          return Failure(NegativeArraySize(length));
        }
        ghost var body := input.pos;
        valueBytes := new byte[length];
        var _ := input.Read(valueBytes);
        assert sized && input.pos == body + length ==> valueBytes[..] == bs[body..input.pos];
        r := Success(TimeValuePair(Signed(timestampBytes[..]), TextValue(valueBytes[..])));
      } else {
        ghost var body := input.pos;
        var _ := input.Read(valueBytes);
        assert stamped && input.pos == body + FixedWidth(kind) ==> valueBytes[..] == bs[body..input.pos];
        r := Success(TimeValuePair(Signed(timestampBytes[..]), ValueOf(kind, valueBytes[..])));
      }
    }
  }

  /** A spill file opened for reading: its stream, past the header, and the reader its type selects. */
  class Deserializer {
    const input: ByteStream
    const reader: RecordReader

    ghost predicate Valid()
      reads this, input, reader
    {
      input.Valid() && reader.Valid()
    }

    constructor(input: ByteStream, reader: RecordReader)
      ensures this.input == input && this.reader == reader
    {
      this.input := input;
      this.reader := reader;
    }

    /** There is another record exactly when unread bytes remain. */
    method HasNext() returns (b: bool)
      requires Valid()
      ensures b <==> input.pos < |input.bytes|
    {
      var n := input.Available();
      b := n > 0;
    }

    /** Reads the record at the cursor with the reader of the file's type. */
    method Next() returns (r: Result<TimeValuePair, SpillError>)
      requires Valid()
      modifies input, reader, reader.timestampBytes, reader.valueLength, reader.valueBytes
      ensures Valid()
      ensures match DecodeRecord(reader.kind, input.bytes, old(input.pos))
        case Record(pair, next) => r == Success(pair) && input.pos == next
        case NegativeLength(len) =>
          r == Failure(NegativeArraySize(len)) && input.pos == old(input.pos) + TimestampWidth + LengthWidth
        case Truncated => input.pos == |input.bytes|
    {
      r := reader.Read(input);
    }
  }

  /** Reads the 2-byte type code at the head of the stream. */
  method ReadHeader(input: ByteStream) returns (r: Result<DataType, SpillError>)
    requires input.Valid() && input.pos == 0
    modifies input
    ensures input.Valid()
    ensures r == Header(input.bytes)
    ensures r.Success? ==> input.pos == HeaderWidth
  {
    var buf := new byte[HeaderWidth];
    var n := input.Read(buf);
    if n != HeaderWidth {
      return Failure(ShortHeader);
    }
    assert buf[..] == input.bytes[..HeaderWidth];
    var code := Signed(buf[..]);
    match TypeOfCode(code)
    case Some(k) =>
      r := Success(k);
    case None =>
      r := Failure(UnknownType(code));
  }

  /**
   * Opens the spill file with the given contents: reads the header and
   * selects the reader of the type it names. A short header or an unknown
   * type code is an error.
   */
  method Open(contents: seq<byte>) returns (r: Result<Deserializer, SpillError>)
    ensures match Header(contents)
      case Success(k) =>
        && r.Success? && fresh(r.value) && fresh(r.value.input) && r.value.Valid()
        && r.value.input.bytes == contents && r.value.input.pos == HeaderWidth
        && r.value.reader.kind == k
      case Failure(e) => r == Failure(e)
  {
    var input := new ByteStream(contents);
    var header := ReadHeader(input);
    match header
    case Failure(e) =>
      r := Failure(e);
    case Success(k) =>
      var reader := new RecordReader(k);
      var d := new Deserializer(input, reader);
      r := Success(d);
  }
}
