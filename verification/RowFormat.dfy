// The self-delimiting row format of storage/page.go:
//   RowID (8 bytes) | column count (2 bytes) | columns
// Every column starts with a type tag, except NULL, which is the single byte 0xFF.

module RowFormat {
  import opened Bytes
  import opened Collections

  datatype StorageError = Truncated | NoRow | PageFull | RowTooLarge | BadFile

  datatype DataType =
    | Unknown | NullType | Seq | Int | Float | Char | Varchar | Text
    | Date | Time | Datetime | Blob | File | Image

  type IntType = t: DataType | t.Seq? || t.Int? witness Int
  type BlobType = t: DataType | t.Blob? || t.Image? witness Blob
  // Everything the encoder writes as length-prefixed text, generic types included.
  type TextType = t: DataType |
      t.Unknown? || t.NullType? || t.Char? || t.Varchar? || t.Text? || t.Date? || t.Time? || t.Datetime? || t.File?
    witness Varchar

  type Int64 = n: int | -0x8000_0000_0000_0000 <= n < 0x8000_0000_0000_0000

  // A value as the codec sees it: text columns carry the bytes that string formatting
  // hands to the encoder, and the length of a payload fits its 4-byte prefix.
  type Payload = b: seq<Byte> | |b| < U32
  datatype Value =
    | Null
    | Integer(itype: IntType, n: Int64)
    | FloatNum(x: real)
    | Str(stype: TextType, text: Payload)
    | Binary(btype: BlobType, data: Payload)
    | BlobRef(rtype: BlobType, id: nat, size: Int64)

  type Row = seq<Value>
  datatype RowWithID = RowWithID(id: nat, row: Row)

  const ColNullMarker: Byte := 0xFF
  const ColBlobRefMarker: Byte := 0xFE

  function Tag(t: DataType): Byte {
    match t
    case Unknown => 0
    case NullType => 1
    case Seq => 2
    case Int => 3
    case Float => 4
    case Char => 5
    case Varchar => 6
    case Text => 7
    case Date => 8
    case Time => 9
    case Datetime => 10
    case Blob => 11
    case File => 12
    case Image => 13
  }

  // int64 <-> uint64 reinterpretation
  function ToU64(n: Int64): nat {
    if n < 0 then n + U64 else n
  }

  function OfU64(u: nat): Int64
    requires u < U64
  {
    if u >= 0x8000_0000_0000_0000 then u - U64 else u
  }

  // uint64(val) on a float: truncation when the value is in range. Go leaves the result
  // for other values to the machine; this is what amd64 produces.
  function FloatToU64(x: real): (u: nat)
    ensures u < U64
  {
    if 0.0 <= x < U64 as real then x.Floor else 0x8000_0000_0000_0000
  }

  // ---------------------------------------------------------------- encoding

  function EncodeColumn(v: Value): seq<Byte> {
    match v
    case Null => [ColNullMarker]
    case BlobRef(t, id, size) => [Tag(t), ColBlobRefMarker] + LE(id, 8) + LE(ToU64(size), 8)
    case Integer(t, n) => [Tag(t)] + LE(ToU64(n), 8)
    case FloatNum(x) => [Tag(Float)] + LE(FloatToU64(x), 8)
    case Str(t, text) => [Tag(t)] + LE(|text|, 4) + text
    case Binary(t, data) => [Tag(t)] + LE(|data|, 4) + data
  }

  function EncodeColumns(row: Row): seq<Byte> {
    if row == [] then [] else EncodeColumn(row[0]) + EncodeColumns(row[1..])
  }

  function EncodedRow(rowID: nat, row: Row): seq<Byte> {
    LE(rowID, 8) + LE(|row|, 2) + EncodeColumns(row)
  }

  // ---------------------------------------------------------------- decoding

  function DecodeText(data: seq<Byte>): (r: Result<(seq<Byte>, nat), StorageError>)
    ensures r.Ok? ==> |r.value.0| < U32 && r.value.1 <= |data|
  {
    if |data| < 5 then Err(Truncated)
    else
      var length := UnLE(data[1..5]);
      if |data| < 5 + length then Err(Truncated)
      else
        UnLEBound(data[1..5]);
        PowersOf256();
        Ok((data[5..5 + length], 5 + length))
  }

  function DecodeNumber(data: seq<Byte>): (r: Result<nat, StorageError>)
    ensures r.Ok? ==> r.value < U64 && |data| >= 9
  {
    if |data| < 9 then Err(Truncated)
    else
      UnLEBound(data[1..9]);
      PowersOf256();
      Ok(UnLE(data[1..9]))
  }

  // One column value and the number of bytes it took.
  function DecodeColumn(data: seq<Byte>): (r: Result<(Value, nat), StorageError>)
    ensures r.Ok? ==> r.value.1 <= |data|
  {
    if |data| < 1 then Err(Truncated)
    else if data[0] == ColNullMarker then Ok((Null, 1))
    else if (data[0] == Tag(Blob) || data[0] == Tag(Image)) && |data| >= 18 && data[1] == ColBlobRefMarker then
      UnLEBound(data[10..18]);
      PowersOf256();
      Ok((BlobRef(Blob, UnLE(data[2..10]), OfU64(UnLE(data[10..18]))), 18))
    else if data[0] == Tag(Int) || data[0] == Tag(Seq) then
      match DecodeNumber(data)
      case Err(e) => Err(e)
      case Ok(u) => Ok((Integer(Int, OfU64(u)), 9))
    else if data[0] == Tag(Float) then
      match DecodeNumber(data)
      case Err(e) => Err(e)
      case Ok(u) => Ok((FloatNum(u as real), 9))
    else if data[0] == Tag(Blob) || data[0] == Tag(Image) then
      match DecodeText(data)
      case Err(e) => Err(e)
      case Ok((b, n)) => Ok((Binary(Blob, b), n))
    else if IsTextTag(data[0]) then
      match DecodeText(data)
      case Err(e) => Err(e)
      case Ok((b, n)) => Ok((Str(Varchar, b), n))
    else
      match DecodeText(data)
      case Err(_) => Ok((Null, 1))
      case Ok((b, n)) => Ok((Str(Varchar, b), n))
  }

  // The tags DecodeColumn knows as strings; other tags take its default branch.
  predicate IsTextTag(tag: Byte) {
    tag == Tag(Varchar) || tag == Tag(Text) || tag == Tag(Char)
    || tag == Tag(Date) || tag == Tag(Time) || tag == Tag(Datetime)
  }

  function DecodeColumns(data: seq<Byte>, count: nat): (r: Result<Row, StorageError>)
    ensures r.Ok? ==> |r.value| == count
    decreases count
  {
    if count == 0 then Ok([])
    else
      var first := DecodeColumn(data);
      if first.Err? then Err(first.error)
      else
        var rest := DecodeColumns(data[first.value.1..], count - 1);
        if rest.Err? then Err(rest.error) else Ok([first.value.0] + rest.value)
  }

  function DecodedRow(data: seq<Byte>): Result<RowWithID, StorageError> {
    if |data| < 10 then Err(Truncated)
    else
      match DecodeColumns(data[10..], UnLE(data[8..10]))
      case Err(e) => Err(e)
      case Ok(row) => Ok(RowWithID(UnLE(data[..8]), row))
  }

  function Prepend(vs: Row, r: Result<Row, StorageError>): Result<Row, StorageError> {
    match r
    case Err(e) => Err(e)
    case Ok(rest) => Ok(vs + rest)
  }

  // ---------------------------------------------------------------- normal form

  // What a stored value comes back as.
  function Normal(v: Value): Value {
    match v
    case Null => Null
    case Integer(_, n) => Integer(Int, n)
    case FloatNum(x) => v
    case Str(_, text) => Str(Varchar, text)
    case Binary(_, data) => Binary(Blob, data)
    case BlobRef(_, id, size) => BlobRef(Blob, id, size)
  }

  function NormalRow(row: Row): (r: Row)
    ensures |r| == |row| && forall i | 0 <= i < |row| :: r[i] == Normal(row[i])
  {
    if row == [] then [] else [Normal(row[0])] + NormalRow(row[1..])
  }

  // The values the format can hold: a fractional, negative or huge float is truncated, and
  // an inline blob whose length has low byte 0xFE reads as a reference to external storage.
  predicate Faithful(v: Value) {
    match v
    case FloatNum(x) => 0.0 <= x < U64 as real && x == x.Floor as real
    case Binary(_, data) => |data| % 256 != ColBlobRefMarker
    case BlobRef(_, id, _) => id < U64
    case _ => true
  }

  predicate FaithfulRow(row: Row) {
    |row| < U16 && forall i | 0 <= i < |row| :: Faithful(row[i])
  }

  // ---------------------------------------------------------------- size estimate

  function EstimateColumnSize(v: Value): nat {
    match v
    case Null => 1
    case BlobRef(_, _, _) => 18
    case Integer(_, _) => 9
    case FloatNum(_) => 9
    case Str(t, text) => if t.Unknown? || t.NullType? || t.File? then 10 else 5 + |text|
    case Binary(_, data) => 5 + |data|
  }

  function EstimateColumns(row: Row): nat {
    if row == [] then 0 else EstimateColumnSize(row[0]) + EstimateColumns(row[1..])
  }
}
