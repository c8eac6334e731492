/**
 * The byte layout of an external-sort spill file, as the fixed-length
 * deserializer reads it: a 2-byte type code, then records made of an
 * 8-byte timestamp and a value whose layout the type code selects.
 * Multi-byte integers are big-endian two's complement.
 */
module SpillFormat {
  import opened Wrappers
  import opened TsTypes

  // ---------------------------------------------------------------------
  // Big-endian integers
  // ---------------------------------------------------------------------

  newtype byte = b: int | 0 <= b < 256

  function Pow256(n: nat): (r: nat)
    ensures r >= 1
  {
    if n == 0 then 1 else 256 * Pow256(n - 1)
  }

  /** 2^(8n-1): the first value that no longer fits in n signed bytes. */
  function Half(n: nat): (h: nat)
    requires n >= 1
    ensures 2 * h == Pow256(n)
  {
    128 * Pow256(n - 1)
  }

  /** Whether v is representable as an n-byte two's complement integer. */
  predicate InRange(v: int, n: nat)
  {
    n >= 1 && -(Half(n) as int) <= v < Half(n)
  }

  /** The unsigned big-endian value of a byte string. */
  function Unsigned(bs: seq<byte>): (u: nat)
    ensures u < Pow256(|bs|)
  {
    if bs == [] then 0
    else
      LeadingByte(bs[0] as nat, Unsigned(bs[1..]), Pow256(|bs| - 1));
      bs[0] as nat * Pow256(|bs| - 1) + Unsigned(bs[1..])
  }

  lemma LeadingByte(d: nat, rest: nat, p: nat)
    requires d < 256 && rest < p
    ensures d * p + rest < 256 * p
    ensures d >= 128 <==> d * p + rest >= 128 * p
  {
    if d >= 128 {
      assert d * p >= 128 * p by { MulLeft(128, d, p); }
    } else {
      assert d * p <= 127 * p by { MulLeft(d, 127, p); }
    }
    assert d * p <= 255 * p by { MulLeft(d, 255, p); }
  }

  lemma MulLeft(a: nat, b: nat, p: nat)
    requires a <= b
    ensures a * p <= b * p
  {
  }

  /** The sign is carried by the top bit of the first byte. */
  lemma {:induction false} UnsignedTop(bs: seq<byte>)
    requires |bs| >= 1
    ensures bs[0] >= 128 <==> Unsigned(bs) >= Half(|bs|)
  {
    LeadingByte(bs[0] as nat, Unsigned(bs[1..]), Pow256(|bs| - 1));
  }

  /** The signed (two's complement) big-endian value of a byte string. */
  function Signed(bs: seq<byte>): (v: int)
    requires |bs| >= 1
    ensures InRange(v, |bs|)
    ensures v < 0 <==> bs[0] >= 128
  {
    UnsignedTop(bs);
    if bs[0] >= 128 then Unsigned(bs) - Pow256(|bs|) else Unsigned(bs)
  }

  /** The n-byte big-endian encoding of u. */
  function ToBytes(u: nat, n: nat): (bs: seq<byte>)
    requires u < Pow256(n)
    ensures |bs| == n && Unsigned(bs) == u
  {
    if n == 0 then []
    else
      var p := Pow256(n - 1);
      DivMod(u, p);
      var rest := ToBytes(u % p, n - 1);
      UnsignedCons((u / p) as byte, rest);
      [(u / p) as byte] + rest
  }

  lemma UnsignedCons(b: byte, rest: seq<byte>)
    ensures Unsigned([b] + rest) == b as nat * Pow256(|rest|) + Unsigned(rest)
  {
    assert ([b] + rest)[1..] == rest;
  }

  lemma DivMod(u: nat, p: nat)
    requires 1 <= p && u < 256 * p
    ensures 0 <= u / p < 256 && (u / p) * p + u % p == u && 0 <= u % p < p
  {
  }

  /** The n-byte two's complement encoding of v. */
  function FromSigned(v: int, n: nat): (bs: seq<byte>)
    requires InRange(v, n)
    ensures |bs| == n && Signed(bs) == v
  {
    var u := if v < 0 then v + Pow256(n) else v;
    var bs := ToBytes(u, n);
    UnsignedTop(bs);
    bs
  }

  /** Decoding a byte string and encoding the number again gives the same bytes. */
  lemma {:induction false} BytesRoundTrip(bs: seq<byte>)
    ensures ToBytes(Unsigned(bs), |bs|) == bs
  {
    if bs != [] {
      var p := Pow256(|bs| - 1);
      var u := Unsigned(bs);
      DivMod(u, p);
      UniqueDivMod(bs[0] as nat, Unsigned(bs[1..]), p, u / p, u % p);
      BytesRoundTrip(bs[1..]);
      assert [bs[0]] + bs[1..] == bs;
    }
  }

  lemma UniqueDivMod(d: nat, r: nat, p: nat, q: nat, s: nat)
    requires r < p && s < p && d * p + r == q * p + s
    ensures d == q && r == s
  {
    if d < q {
      assert (d + 1) * p <= q * p by { MulLeft(d + 1, q, p); }
    } else if q < d {
      assert (q + 1) * p <= d * p by { MulLeft(q + 1, d, p); }
    }
  }

  /** Encoding then decoding a representable integer gives it back. */
  lemma SignedRoundTrip(v: int, n: nat)
    requires InRange(v, n)
    ensures Signed(FromSigned(v, n)) == v
  {
  }

  /** Decoding then encoding n >= 1 bytes as a signed integer gives them back. */
  lemma SignedBytesRoundTrip(bs: seq<byte>)
    requires |bs| >= 1
    ensures FromSigned(Signed(bs), |bs|) == bs
  {
    BytesRoundTrip(bs);
  }

  // ---------------------------------------------------------------------
  // Records
  // ---------------------------------------------------------------------

  /**
   * The value of a record. Integers are decoded; booleans, floating-point
   * numbers and text keep the bytes their reader hands to the conversion.
   */
  datatype Value =
    | BoolValue(raw: seq<byte>)
    | IntValue(i: int)
    | LongValue(l: int)
    | FloatValue(raw: seq<byte>)
    | DoubleValue(raw: seq<byte>)
    | TextValue(raw: seq<byte>)

  datatype TimeValuePair = TimeValuePair(timestamp: int, value: Value)

  datatype SpillError =
    | ShortHeader                     // fewer than 2 bytes before the first record
    | UnknownType(code: int)          // a type code outside the enumeration
    | NegativeArraySize(length: int)  // a TEXT length field below zero

  /** What one attempt to read a record at a position finds. */
  datatype Decoded =
    | Record(pair: TimeValuePair, next: nat)
    | NegativeLength(length: int)
    | Truncated

  const HeaderWidth: nat := 2
  const TimestampWidth: nat := 8
  const LengthWidth: nat := 4

  /** The width of the value of every type but TEXT. */
  function FixedWidth(k: DataType): (w: nat)
    requires k != Text
    ensures w == 1 || w == 4 || w == 8
  {
    match k
    case Boolean => 1
    case Int32 => 4
    case Int64 => 8
    case Float => 4
    case Double => 8
  }

  function ValueOf(k: DataType, raw: seq<byte>): (v: Value)
    requires k != Text && |raw| == FixedWidth(k)
  {
    match k
    case Boolean => BoolValue(raw)
    case Int32 => IntValue(Signed(raw))
    case Int64 => LongValue(Signed(raw))
    case Float => FloatValue(raw)
    case Double => DoubleValue(raw)
  }

  /** The type the 2-byte header at the start of a file names. */
  function Header(bs: seq<byte>): (r: Result<DataType, SpillError>)
    ensures |bs| < HeaderWidth ==> r == Failure(ShortHeader)
    ensures r.Success? ==> TypeCode(r.value) == Signed(bs[..HeaderWidth])
    ensures r.Failure? && |bs| >= HeaderWidth ==>
              r == Failure(UnknownType(Signed(bs[..HeaderWidth])))
  {
    if |bs| < HeaderWidth then Failure(ShortHeader)
    else
      var code := Signed(bs[..HeaderWidth]);
      match TypeOfCode(code)
      case Some(k) => Success(k)
      case None => Failure(UnknownType(code))
  }

  /** Reads the record of type k that starts at pos. */
  function DecodeRecord(k: DataType, bs: seq<byte>, pos: nat): (r: Decoded)
    requires pos <= |bs|
    ensures r.Record? ==> pos < r.next <= |bs|
  {
    if |bs| - pos < TimestampWidth then Truncated
    else
      var ts := Signed(bs[pos..pos + TimestampWidth]);
      var body := pos + TimestampWidth;
      if k != Text then
        var w := FixedWidth(k);
        if |bs| - body < w then Truncated
        else Record(TimeValuePair(ts, ValueOf(k, bs[body..body + w])), body + w)
      else if |bs| - body < LengthWidth then Truncated
      else
        var len := Signed(bs[body..body + LengthWidth]);
        var start := body + LengthWidth;
        if len < 0 then NegativeLength(len)
        else if |bs| - start < len then Truncated
        else Record(TimeValuePair(ts, TextValue(bs[start..start + len])), start + len)
  }

  /** Reads records from pos to the end; None if one of them is malformed. */
  function DecodeBody(k: DataType, bs: seq<byte>, pos: nat): (r: Option<seq<TimeValuePair>>)
    requires pos <= |bs|
    decreases |bs| - pos
  {
    if pos == |bs| then Some([])
    else
      match DecodeRecord(k, bs, pos)
      case Record(pair, next) =>
        (match DecodeBody(k, bs, next)
         case Some(rest) => Some([pair] + rest)
         case None => None)
      case _ => None
  }

  function DecodeFile(bs: seq<byte>): (r: Option<(DataType, seq<TimeValuePair>)>)
  {
    match Header(bs)
    case Failure(_) => None
    case Success(k) =>
      match DecodeBody(k, bs, HeaderWidth)
      case Some(pairs) => Some((k, pairs))
      case None => None
  }

  // ---------------------------------------------------------------------
  // The layout the deserializer expects a writer to produce
  // ---------------------------------------------------------------------

  /** A pair a file of type k can hold. */
  predicate Fits(k: DataType, p: TimeValuePair)
  {
    && InRange(p.timestamp, TimestampWidth)
    && match k
       case Boolean => p.value.BoolValue? && |p.value.raw| == 1
       case Int32 => p.value.IntValue? && InRange(p.value.i, 4)
       case Int64 => p.value.LongValue? && InRange(p.value.l, 8)
       case Float => p.value.FloatValue? && |p.value.raw| == 4
       case Double => p.value.DoubleValue? && |p.value.raw| == 8
       case Text => p.value.TextValue? && |p.value.raw| < Half(LengthWidth)
  }

  function EncodeValue(k: DataType, v: Value): (bs: seq<byte>)
    requires Fits(k, TimeValuePair(0, v))
    ensures k != Text ==> |bs| == FixedWidth(k)
    ensures k == Text ==> |bs| == LengthWidth + |v.raw|
  {
    match k
    case Int32 => FromSigned(v.i, 4)
    case Int64 => FromSigned(v.l, 8)
    case Text => FromSigned(|v.raw|, LengthWidth) + v.raw
    case _ => v.raw
  }

  function EncodeRecord(k: DataType, p: TimeValuePair): (bs: seq<byte>)
    requires Fits(k, p)
  {
    FromSigned(p.timestamp, TimestampWidth) + EncodeValue(k, p.value)
  }

  function EncodeBody(k: DataType, pairs: seq<TimeValuePair>): (bs: seq<byte>)
    requires forall i :: 0 <= i < |pairs| ==> Fits(k, pairs[i])
  {
    if pairs == [] then [] else EncodeRecord(k, pairs[0]) + EncodeBody(k, pairs[1..])
  }

  function EncodeFile(k: DataType, pairs: seq<TimeValuePair>): (bs: seq<byte>)
    requires forall i :: 0 <= i < |pairs| ==> Fits(k, pairs[i])
  {
    FromSigned(TypeCode(k), HeaderWidth) + EncodeBody(k, pairs)
  }

  // ---------------------------------------------------------------------
  // Properties of the framing
  // ---------------------------------------------------------------------

  /**
   * A record takes 8 timestamp bytes and then exactly the bytes of its value:
   * 1, 4 or 8 for the fixed-width types, a 4-byte length L and L bytes for
   * TEXT. Whatever the type, the timestamp comes from the first 8 bytes.
   */
  lemma RecordFraming(k: DataType, bs: seq<byte>, pos: nat)
    requires pos <= |bs| && DecodeRecord(k, bs, pos).Record?
    ensures var r := DecodeRecord(k, bs, pos);
      && r.pair.timestamp == Signed(bs[pos..pos + TimestampWidth])
      && (k != Text ==> r.next == pos + TimestampWidth + FixedWidth(k))
      && (k == Text ==>
            && r.pair.value.TextValue?
            && Signed(bs[pos + TimestampWidth..pos + TimestampWidth + LengthWidth]) == |r.pair.value.raw|
            && r.next == pos + TimestampWidth + LengthWidth + |r.pair.value.raw|
            && r.pair.value.raw == bs[pos + TimestampWidth + LengthWidth..r.next])
  {
  }

  /** A fixed-width record is cut short exactly when fewer bytes remain than it takes. */
  lemma FixedRecordTruncated(k: DataType, bs: seq<byte>, pos: nat)
    requires k != Text && pos <= |bs|
    ensures DecodeRecord(k, bs, pos).Truncated? <==> |bs| - pos < TimestampWidth + FixedWidth(k)
    ensures DecodeRecord(k, bs, pos).Record? <==> |bs| - pos >= TimestampWidth + FixedWidth(k)
  {
  }

  /** A record does not depend on the bytes that follow it. */
  lemma RecordIgnoresSuffix(k: DataType, bs: seq<byte>, more: seq<byte>, pos: nat)
    requires pos <= |bs| && DecodeRecord(k, bs, pos).Record?
    ensures DecodeRecord(k, bs + more, pos) == DecodeRecord(k, bs, pos)
  {
    var body := pos + TimestampWidth;
    assert |bs| - pos >= TimestampWidth;
    SliceOfConcat(bs, more, pos, body);
    if k != Text {
      var w := FixedWidth(k);
      assert |bs| - body >= w;
      SliceOfConcat(bs, more, body, body + w);
    } else {
      var start := body + LengthWidth;
      assert |bs| - body >= LengthWidth;
      SliceOfConcat(bs, more, body, start);
      var len := Signed(bs[body..start]);
      assert len >= 0 && |bs| - start >= len;
      SliceOfConcat(bs, more, start, start + len);
    }
  }

  lemma SliceOfConcat(bs: seq<byte>, more: seq<byte>, i: nat, j: nat)
    requires i <= j <= |bs|
    ensures (bs + more)[i..j] == bs[i..j]
  {
  }

  /** An encoded record reads back as the same pair, whatever surrounds it. */
  lemma RecordRoundTrip(k: DataType, p: TimeValuePair, before: seq<byte>, after: seq<byte>)
    requires Fits(k, p)
    ensures var e := EncodeRecord(k, p);
      DecodeRecord(k, before + e + after, |before|) == Record(p, |before| + |e|)
  {
    var e := EncodeRecord(k, p);
    var bs := before + e + after;
    var pos := |before|;
    var body := pos + TimestampWidth;
    var t := FromSigned(p.timestamp, TimestampWidth);
    var v := EncodeValue(k, p.value);
    assert bs == before + t + v + after;
    assert bs[pos..body] == t;
    if k != Text {
      assert bs[body..body + FixedWidth(k)] == v;
    } else {
      var start := body + LengthWidth;
      var l := FromSigned(|p.value.raw|, LengthWidth);
      assert bs == before + t + l + p.value.raw + after;
      assert bs[body..start] == l;
      assert bs[start..start + |p.value.raw|] == p.value.raw;
    }
  }

  /** An encoded sequence of pairs reads back as the same sequence. */
  lemma {:induction false} BodyRoundTrip(k: DataType, pairs: seq<TimeValuePair>, before: seq<byte>)
    requires forall i :: 0 <= i < |pairs| ==> Fits(k, pairs[i])
    ensures DecodeBody(k, before + EncodeBody(k, pairs), |before|) == Some(pairs)
    decreases |pairs|
  {
    if pairs != [] {
      var e := EncodeRecord(k, pairs[0]);
      var rest := EncodeBody(k, pairs[1..]);
      RecordRoundTrip(k, pairs[0], before, rest);
      BodyRoundTrip(k, pairs[1..], before + e);
      BodyCons(k, before, e, rest, pairs[0], pairs[1..]);
      assert EncodeBody(k, pairs) == e + rest;
      assert [pairs[0]] + pairs[1..] == pairs;
    } else {
      assert before + EncodeBody(k, pairs) == before;
    }
  }

  /** A record `e` that reads back, followed by a body that reads back, reads back as both. */
  lemma BodyCons(k: DataType, before: seq<byte>, e: seq<byte>, rest: seq<byte>, p: TimeValuePair, tail: seq<TimeValuePair>)
    requires DecodeRecord(k, before + e + rest, |before|) == Record(p, |before + e|)
    requires DecodeBody(k, before + e + rest, |before + e|) == Some(tail)
    ensures DecodeBody(k, before + (e + rest), |before|) == Some([p] + tail)
  {
    ConcatAssoc(before, e, rest);
    BodyStep(k, before + e + rest, |before|, p, tail);
  }

  lemma ConcatAssoc(a: seq<byte>, b: seq<byte>, c: seq<byte>)
    ensures a + (b + c) == a + b + c
  {
  }

  lemma BodyStep(k: DataType, bs: seq<byte>, pos: nat, p: TimeValuePair, rest: seq<TimeValuePair>)
    requires pos < |bs|
    requires DecodeRecord(k, bs, pos).Record? && DecodeRecord(k, bs, pos).pair == p
    requires DecodeBody(k, bs, DecodeRecord(k, bs, pos).next) == Some(rest)
    ensures DecodeBody(k, bs, pos) == Some([p] + rest)
  {
  }

  /** A spill file written with type k and pairs reads back as (k, pairs). */
  lemma FileRoundTrip(k: DataType, pairs: seq<TimeValuePair>)
    requires forall i :: 0 <= i < |pairs| ==> Fits(k, pairs[i])
    ensures DecodeFile(EncodeFile(k, pairs)) == Some((k, pairs))
  {
    var h := FromSigned(TypeCode(k), HeaderWidth);
    var bs := EncodeFile(k, pairs);
    assert bs[..HeaderWidth] == h;
    TypeCodeRoundTrip(k);
    BodyRoundTrip(k, pairs, h);
  }

  /** A record read from the file is exactly the encoding of the pair it yields. */
  lemma RecordEncodes(k: DataType, bs: seq<byte>, pos: nat)
    requires pos <= |bs| && DecodeRecord(k, bs, pos).Record?
    ensures var r := DecodeRecord(k, bs, pos);
      Fits(k, r.pair) && EncodeRecord(k, r.pair) == bs[pos..r.next]
  {
    var r := DecodeRecord(k, bs, pos);
    var body := pos + TimestampWidth;
    var t := bs[pos..body];
    SignedBytesRoundTrip(t);
    if k != Text {
      var vb := bs[body..r.next];
      if k == Int32 || k == Int64 {
        SignedBytesRoundTrip(vb);
      }
      assert bs[pos..r.next] == t + vb;
    } else {
      var start := body + LengthWidth;
      var l := bs[body..start];
      SignedBytesRoundTrip(l);
      assert bs[pos..r.next] == t + l + bs[start..r.next];
    }
  }

  /**
   * A body that reads back as pairs is exactly their encoding: every byte
   * after the position belongs to one record, and every pair fits the type.
   */
  lemma {:induction false} BodyEncodes(k: DataType, bs: seq<byte>, pos: nat)
    requires pos <= |bs| && DecodeBody(k, bs, pos).Some?
    ensures var pairs := DecodeBody(k, bs, pos).value;
      && (forall i :: 0 <= i < |pairs| ==> Fits(k, pairs[i]))
      && EncodeBody(k, pairs) == bs[pos..]
    decreases |bs| - pos
  {
    if pos < |bs| {
      var r := DecodeRecord(k, bs, pos);
      RecordEncodes(k, bs, pos);
      BodyEncodes(k, bs, r.next);
      var pairs := DecodeBody(k, bs, pos).value;
      var rest := DecodeBody(k, bs, r.next).value;
      assert pairs == [r.pair] + rest;
      EncodeCons(k, r.pair, rest);
      assert bs[pos..] == bs[pos..r.next] + bs[r.next..];
    }
  }

  /** The encoding of a pair followed by more pairs is the record followed by their encoding. */
  lemma EncodeCons(k: DataType, p: TimeValuePair, tail: seq<TimeValuePair>)
    requires Fits(k, p) && forall i :: 0 <= i < |tail| ==> Fits(k, tail[i])
    ensures forall i :: 0 <= i < |[p] + tail| ==> Fits(k, ([p] + tail)[i])
    ensures EncodeBody(k, [p] + tail) == EncodeRecord(k, p) + EncodeBody(k, tail)
  {
    assert ([p] + tail)[1..] == tail;
  }

  /** A file that reads back as (k, pairs) is the file that EncodeFile writes for them. */
  lemma FileEncodes(bs: seq<byte>)
    requires DecodeFile(bs).Some?
    ensures var (k, pairs) := DecodeFile(bs).value;
      && (forall i :: 0 <= i < |pairs| ==> Fits(k, pairs[i]))
      && EncodeFile(k, pairs) == bs
  {
    var k := Header(bs).value;
    BodyEncodes(k, bs, HeaderWidth);
    SignedBytesRoundTrip(bs[..HeaderWidth]);
    assert bs == bs[..HeaderWidth] + bs[HeaderWidth..];
  }
}
