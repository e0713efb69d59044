// The row codec: the loops of storage/page.go against the format, and its round trip.

module RowCodec {
  import opened Bytes
  import opened Collections
  import opened RowFormat

  lemma {:induction false} EncodeColumnsSnoc(row: Row, v: Value)
    ensures EncodeColumns(row + [v]) == EncodeColumns(row) + EncodeColumn(v)
  {
    hide EncodeColumn;
    if row == [] {
      assert row + [v] == [v] && [v][1..] == [];
      assert EncodeColumns([]) == [];
    } else {
      EncodeColumnsSnoc(row[1..], v);
      assert (row + [v])[1..] == row[1..] + [v];
    }
  }

  method EncodeRow(rowID: nat, row: Row) returns (buf: seq<Byte>)
    ensures buf == EncodedRow(rowID, row)
  {
    hide LE, EncodeColumn;
    buf := LE(rowID, 8);
    buf := buf + LE(|row|, 2);
    ghost var head := buf;
    var i := 0;
    while i < |row|
      invariant 0 <= i <= |row|
      invariant buf == head + EncodeColumns(row[..i])
    {
      EncodeColumnsSnoc(row[..i], row[i]);
      assert row[..i + 1] == row[..i] + [row[i]];
      ghost var body := EncodeColumns(row[..i]);
      assert (head + body) + EncodeColumn(row[i]) == head + (body + EncodeColumn(row[i]));
      buf := buf + EncodeColumn(row[i]);
      i := i + 1;
    }
    assert row[..i] == row;
  }

  lemma PrependNothing(r: Result<Row, StorageError>)
    ensures Prepend([], r) == r
  {
    assert r.Ok? ==> [] + r.value == r.value;
  }

  lemma NoColumnsLeft(row: Row, data: seq<Byte>)
    ensures Prepend(row, DecodeColumns(data, 0)) == Ok(row)
  {
    assert row + [] == row;
  }

  // One turn of the decoding loop.
  lemma DecodeStep(row: Row, data: seq<Byte>, offset: nat, count: nat)
    requires offset <= |data| && count > 0
    ensures var d := DecodeColumn(data[offset..]);
            && (d.Ok? ==> offset + d.value.1 <= |data|)
            && Prepend(row, DecodeColumns(data[offset..], count)) ==
               if d.Err? then Err(d.error)
                   else Prepend(row + [d.value.0], DecodeColumns(data[offset + d.value.1..], count - 1))
  {
    hide DecodeColumn;
    var d := DecodeColumn(data[offset..]);
    if d.Ok? {
      assert data[offset..][d.value.1..] == data[offset + d.value.1..];
      var rest := DecodeColumns(data[offset + d.value.1..], count - 1);
      assert rest.Ok? ==> row + ([d.value.0] + rest.value) == (row + [d.value.0]) + rest.value;
    }
  }

  method DecodeRow(data: seq<Byte>) returns (r: Result<RowWithID, StorageError>)
    ensures r == DecodedRow(data)
  {
    hide UnLE, DecodeColumn, DecodeColumns;
    if |data| < 10 {
      return Err(Truncated);
    }
    var offset := 0;
    var rowID := UnLE(data[offset..offset + 8]);
    offset := offset + 8;
    var colCount := UnLE(data[offset..offset + 2]);
    offset := offset + 2;
    var row: Row := [];
    var i := 0;
    PrependNothing(DecodeColumns(data[10..], colCount));
    while i < colCount
      invariant 0 <= i <= colCount && offset <= |data|
      invariant DecodeColumns(data[10..], colCount) == Prepend(row, DecodeColumns(data[offset..], colCount - i))
    {
      DecodeStep(row, data, offset, colCount - i);
      match DecodeColumn(data[offset..]) {
        case Err(e) =>
          return Err(e);
        case Ok((val, bytesRead)) =>
          row := row + [val];
          offset := offset + bytesRead;
      }
      i := i + 1;
    }
    NoColumnsLeft(row, data[offset..]);
    r := Ok(RowWithID(rowID, row));
  }

  lemma TextRoundTrip(tag: Byte, text: seq<Byte>, rest: seq<Byte>)
    requires |text| < U32
    ensures DecodeText([tag] + LE(|text|, 4) + text + rest) == Ok((text, 5 + |text|))
  {
    hide LE, UnLE;
    var n := LE(|text|, 4);
    U32RoundTrip(|text|);
    Middle([tag], n, text + rest);
    Middle([tag] + n, text, rest);
    Assoc([tag] + n, text, rest);
  }

  lemma NumberRoundTrip(tag: Byte, u: nat, rest: seq<Byte>)
    requires u < U64
    ensures DecodeNumber([tag] + LE(u, 8) + rest) == Ok(u)
  {
    hide LE, UnLE;
    U64RoundTrip(u);
    assert ([tag] + LE(u, 8) + rest)[1..9] == LE(u, 8);
  }

  lemma RefRoundTrip(t: BlobType, id: nat, size: Int64, rest: seq<Byte>)
    ensures var e := EncodeColumn(BlobRef(t, id, size));
            var r := DecodeColumn(e + rest);
            r.Ok? && r.value.1 == |e| && r.value.0.BlobRef? && r.value.0.rtype == Blob && r.value.0.size == size
            && (r.value.0.id == id <==> id < U64)
  {
    hide LE, UnLE;
    var e := EncodeColumn(BlobRef(t, id, size));
    var data := e + rest;
    U64RoundTrip(ToU64(size));
    UnLEBound(data[2..10]);
    PowersOf256();
    assert data[2..10] == LE(id, 8);
    assert data[10..18] == LE(ToU64(size), 8);
    if id < U64 {
      U64RoundTrip(id);
    }
  }

  lemma InlineBlob(t: BlobType, b: Payload, rest: seq<Byte>)
    ensures var e := EncodeColumn(Binary(t, b));
            var r := DecodeColumn(e + rest);
            r.Ok? && (if |b| % 256 == ColBlobRefMarker then r.value.0.BlobRef? else r.value == (Binary(Blob, b), |e|))
  {
    var e := EncodeColumn(Binary(t, b));
    var data := e + rest;
    assert data[1] == LE(|b|, 4)[0] == |b| % 256;
    TextRoundTrip(Tag(t), b, rest);
    assert data == [Tag(t)] + LE(|b|, 4) + b + rest;
  }

  // A column decodes to its normal form, whatever follows it, exactly when it is faithful.
  lemma ColumnRoundTrip(v: Value, rest: seq<Byte>)
    ensures var r := DecodeColumn(EncodeColumn(v) + rest);
            r.Ok? && (r.value.0 == Normal(v) <==> Faithful(v))
            && (Faithful(v) ==> r.value.1 == |EncodeColumn(v)|)
  {
    hide LE, UnLE;
    var data := EncodeColumn(v) + rest;
    match v {
      case Null =>
      case Integer(t, n) =>
        NumberRoundTrip(Tag(t), ToU64(n), rest);
      case FloatNum(x) =>
        NumberRoundTrip(Tag(Float), FloatToU64(x), rest);
      case Str(t, text) =>
        TextRoundTrip(Tag(t), text, rest);
        assert data == [Tag(t)] + LE(|text|, 4) + text + rest;
      case Binary(t, b) =>
        InlineBlob(t, b, rest);
      case BlobRef(t, id, size) =>
        RefRoundTrip(t, id, size, rest);
    }
  }

  lemma {:induction false} ColumnsRoundTrip(row: Row, rest: seq<Byte>)
    ensures var r := DecodeColumns(EncodeColumns(row) + rest, |row|);
            r == Ok(NormalRow(row)) <==> (forall i | 0 <= i < |row| :: Faithful(row[i]))
  {
    hide LE, UnLE, EncodeColumn, DecodeColumn, Normal, Faithful;
    if row == [] {
      assert NormalRow(row) == [];
    } else {
      var v, tail := row[0], row[1..];
      var more := EncodeColumns(tail) + rest;
      var data := EncodeColumns(row) + rest;
      assert data == EncodeColumn(v) + more;
      ColumnRoundTrip(v, more);
      var d := DecodeColumn(data);
      assert NormalRow(row)[0] == Normal(v);
      if Faithful(v) {
        ColumnsRoundTrip(tail, rest);
        assert data[d.value.1..] == more;
        assert NormalRow(row) == [Normal(v)] + NormalRow(tail);
        var t := DecodeColumns(more, |tail|);
        assert t.Ok? ==> ([Normal(v)] + t.value)[1..] == t.value;
        assert ([Normal(v)] + NormalRow(tail))[1..] == NormalRow(tail);
        assert forall i | 1 <= i < |row| :: row[i] == tail[i - 1];
        assert forall i | 0 <= i < |tail| :: tail[i] == row[i + 1];
      }
    }
  }

  // The row codec: an encoded row, followed by any bytes, decodes to its row id and its
  // normal form exactly when every column is faithful and the column count fits 2 bytes.
  lemma RowRoundTrip(rowID: nat, row: Row, rest: seq<Byte>)
    requires rowID < U64
    ensures DecodedRow(EncodedRow(rowID, row) + rest) == Ok(RowWithID(rowID, NormalRow(row))) <==> FaithfulRow(row)
  {
    hide LE, UnLE, DecodeColumns, EncodeColumns;
    var data := EncodedRow(rowID, row) + rest;
    U64RoundTrip(rowID);
    assert data[..8] == LE(rowID, 8);
    assert data[8..10] == LE(|row|, 2);
    UnLEBound(data[8..10]);
    PowersOf256();
    assert data[10..] == EncodeColumns(row) + rest;
    if |row| < U16 {
      U16RoundTrip(|row|);
      ColumnsRoundTrip(row, rest);
    }
  }

  lemma NormalColumnIsStable(v: Value)
    ensures Normal(Normal(v)) == Normal(v) && (Faithful(v) ==> Faithful(Normal(v)))
  {
  }

  // Storing a row that was read back changes nothing more.
  lemma NormalFormIsStable(row: Row)
    ensures NormalRow(NormalRow(row)) == NormalRow(row)
    ensures FaithfulRow(row) ==> FaithfulRow(NormalRow(row))
  {
    forall i | 0 <= i < |row|
      ensures Normal(Normal(row[i])) == Normal(row[i]) && (Faithful(row[i]) ==> Faithful(Normal(row[i])))
    {
      NormalColumnIsStable(row[i]);
    }
    hide NormalRow, Normal, Faithful;
    assert NormalRow(NormalRow(row)) == NormalRow(row);
  }

  // A row that was read back takes the space of the row that was stored.
  lemma {:induction false} NormalFormSize(row: Row)
    ensures |EncodeColumns(NormalRow(row))| == |EncodeColumns(row)|
  {
    if row != [] {
      NormalFormSize(row[1..]);
      NormalColumnSize(row[0]);
      hide EncodeColumn, Normal;
      assert NormalRow(row)[1..] == NormalRow(row[1..]);
    }
  }

  lemma NormalColumnSize(v: Value)
    ensures |EncodeColumn(Normal(v))| == |EncodeColumn(v)|
  {
  }

  // ---------------------------------------------------------------- the format in plain terms

  // The bytes of a column: a type tag, and behind it a number of eight bytes, or four bytes of
  // length and the payload, or the marker, id and size of a blob kept elsewhere.
  lemma ColumnBytes(v: Value)
    ensures v.Null? ==> EncodeColumn(v) == [255]
    ensures v.Integer? ==>
              EncodeColumn(v) == [if v.itype.Seq? then 2 else 3]
                                 + LE(if v.n < 0 then v.n + 0x1_0000_0000_0000_0000 else v.n, 8)
    ensures v.FloatNum? && 0.0 <= v.x < 18446744073709551616.0 ==> EncodeColumn(v) == [4] + LE(v.x.Floor, 8)
    ensures v.FloatNum? && !(0.0 <= v.x < 18446744073709551616.0) ==>
              EncodeColumn(v) == [4] + LE(0x8000_0000_0000_0000, 8)
    ensures v.Str? ==>
              && EncodeColumn(v)[1..] == LE(|v.text|, 4) + v.text
              && EncodeColumn(v)[0] == match v.stype
                                       case Unknown => 0 case NullType => 1 case Char => 5 case Varchar => 6
                                       case Text => 7 case Date => 8 case Time => 9 case Datetime => 10 case File => 12
    ensures v.Binary? ==> EncodeColumn(v) == [if v.btype.Blob? then 11 else 13] + LE(|v.data|, 4) + v.data
    ensures v.BlobRef? ==>
              EncodeColumn(v) == [if v.rtype.Blob? then 11 else 13, 254] + LE(v.id, 8)
                                 + LE(if v.size < 0 then v.size + 0x1_0000_0000_0000_0000 else v.size, 8)
  {
    hide LE;
    if v.Str? {
      assert EncodeColumn(v) == [Tag(v.stype)] + (LE(|v.text|, 4) + v.text);
    }
  }

  // A row: id, column count and the columns in order.
  lemma RowBytes(rowID: nat, a: Row, b: Row, v: Value)
    ensures EncodedRow(rowID, a)[..8] == LE(rowID, 8) && EncodedRow(rowID, a)[8..10] == LE(|a|, 2)
            && EncodedRow(rowID, a)[10..] == EncodeColumns(a)
    ensures EncodeColumns([]) == [] && EncodeColumns([v]) == EncodeColumn(v)
    ensures EncodeColumns(a + b) == EncodeColumns(a) + EncodeColumns(b)
  {
    hide LE, EncodeColumn;
    assert [v][1..] == [];
    ColumnsInTwo(a, b);
  }

  lemma {:induction false} ColumnsInTwo(a: Row, b: Row)
    ensures EncodeColumns(a + b) == EncodeColumns(a) + EncodeColumns(b)
  {
    hide EncodeColumn;
    if a == [] {
      assert a + b == b;
    } else {
      ColumnsInTwo(a[1..], b);
      assert (a + b)[1..] == a[1..] + b;
      Assoc(EncodeColumn(a[0]), EncodeColumns(a[1..]), EncodeColumns(b));
    }
  }

  // What any bytes decode to, malformed ones included: by tag a number of eight bytes, a text or
  // a blob with its length in front, a reference to a blob; for other tags a text, or null.
  lemma DecodeMeans(data: seq<Byte>)
    ensures var r := DecodeColumn(data);
            if data == [] then r == Err(Truncated)
            else
              var tag := data[0];
              var reference := (tag == 11 || tag == 13) && |data| >= 18 && data[1] == 254;
              var text := |data| >= 5 && |data| >= 5 + UnLE(data[1..5]);
              && (tag == 255 ==> r == Ok((Null, 1)))
              && (tag in {2, 3, 4} ==> (r.Ok? <==> |data| >= 9))
              && (tag in {2, 3} && |data| >= 9 ==>
                    r.value.1 == 9 && r.value.0.Integer? && r.value.0.itype == Int
                    && r.value.0.n == var u := UnLE(data[1..9]);
                                      if u >= 0x8000_0000_0000_0000 then u - 0x1_0000_0000_0000_0000 else u)
              && (tag == 4 && |data| >= 9 ==> r.value == (FloatNum(UnLE(data[1..9]) as real), 9))
              && (tag in {5, 6, 7, 8, 9, 10} ==> (r.Ok? <==> text))
              && (tag !in {2, 3, 4, 5, 6, 7, 8, 9, 10, 11, 13, 255} ==> r.Ok? && (!text ==> r == Ok((Null, 1))))
              && (tag !in {2, 3, 4, 11, 13, 255} && text ==>
                    r.value.1 == 5 + UnLE(data[1..5]) && r.value.0.Str? && r.value.0.stype == Varchar
                    && r.value.0.text == data[5..5 + UnLE(data[1..5])])
              && (tag in {11, 13} && !reference ==> (r.Ok? <==> text))
              && (tag in {11, 13} && !reference && text ==>
                    r.value.1 == 5 + UnLE(data[1..5]) && r.value.0.Binary? && r.value.0.btype == Blob
                    && r.value.0.data == data[5..5 + UnLE(data[1..5])])
              && (reference ==>
                    r.Ok? && r.value.1 == 18 && r.value.0.BlobRef? && r.value.0.rtype == Blob
                    && r.value.0.id == UnLE(data[2..10])
                    && r.value.0.size == var u := UnLE(data[10..18]);
                                         if u >= 0x8000_0000_0000_0000 then u - 0x1_0000_0000_0000_0000 else u)
  {
    hide UnLE;
  }

  // What a stored column reads back as: nulls, integers and texts always as they were, up to
  // their type; a float, an inline blob and a reference under a condition.
  lemma ColumnReadsBack(v: Value, rest: seq<Byte>)
    ensures var r := DecodeColumn(EncodeColumn(v) + rest);
            && r.Ok?
            && (v.Null? ==> r.value == (Null, 1))
            && (v.Integer? ==> r.value == (Integer(Int, v.n), 9))
            && (v.Str? ==> r.value == (Str(Varchar, v.text), 5 + |v.text|))
            && (v.FloatNum? ==>
                  (r.value == (FloatNum(v.x), 9) <==> 0.0 <= v.x < 18446744073709551616.0 && v.x == v.x.Floor as real))
            && (v.Binary? ==> (r.value == (Binary(Blob, v.data), 5 + |v.data|) <==> |v.data| % 256 != 254))
            && (v.BlobRef? ==> (r.value == (BlobRef(Blob, v.id, v.size), 18) <==> v.id < 0x1_0000_0000_0000_0000))
  {
    hide LE, UnLE, DecodeColumn;
    ColumnRoundTrip(v, rest);
  }

  // And a row, when all its columns and their number allow it.
  lemma RowReadsBack(rowID: nat, row: Row, i: nat)
    requires rowID < U64 && |row| < 65536 && i < |row|
    requires forall k | 0 <= k < |row| ::
               && (row[k].FloatNum? ==> 0.0 <= row[k].x < 18446744073709551616.0 && row[k].x == row[k].x.Floor as real)
               && (row[k].Binary? ==> |row[k].data| % 256 != 254)
               && (row[k].BlobRef? ==> row[k].id < 0x1_0000_0000_0000_0000)
    ensures var r, v := DecodedRow(EncodedRow(rowID, row)), row[i];
            && r.Ok? && r.value.id == rowID && |r.value.row| == |row|
            && r.value.row[i] == match v
                                 case Null => Null
                                 case Integer(_, n) => Integer(Int, n)
                                 case FloatNum(x) => FloatNum(x)
                                 case Str(_, text) => Str(Varchar, text)
                                 case Binary(_, data) => Binary(Blob, data)
                                 case BlobRef(_, id, size) => BlobRef(Blob, id, size)
  {
    hide EncodedRow, DecodedRow;
    RowRoundTrip(rowID, row, []);
    assert EncodedRow(rowID, row) + [] == EncodedRow(rowID, row);
  }

  method EstimateRowSize(row: Row) returns (size: nat)
    ensures size == 10 + EstimateColumns(row)
  {
    size := 10;
    var i := 0;
    while i < |row|
      invariant 0 <= i <= |row|
      invariant size + EstimateColumns(row[i..]) == 10 + EstimateColumns(row)
    {
      assert row[i..][1..] == row[i + 1..];
      size := size + EstimateColumnSize(row[i]);
      i := i + 1;
    }
  }

  // A column of a type the estimate does not look into, guessed at 10 bytes.
  predicate Generic(v: Value) {
    v.Str? && (v.stype.Unknown? || v.stype.NullType? || v.stype.File?)
  }

  // The generic columns of a row.
  function Generics(row: Row): (g: Row)
    ensures forall v :: v in g <==> v in row && Generic(v)
    ensures (forall v | v in row :: !Generic(v)) ==> g == []
  {
    if row == [] then []
    else if Generic(row[0]) then [row[0]] + Generics(row[1..])
    else Generics(row[1..])
  }

  lemma ColumnEstimate(v: Value)
    ensures EstimateColumnSize(v) == if Generic(v) then 10 else |EncodeColumn(v)|
  {
  }

  // The estimate misses the encoded length by what the guesses miss.
  lemma {:induction false} EstimateMisses(row: Row)
    ensures |EncodeColumns(row)| - EstimateColumns(row) == |EncodeColumns(Generics(row))| - 10 * |Generics(row)|
  {
    hide EncodeColumn, EstimateColumnSize, Generic;
    if row != [] {
      EstimateMisses(row[1..]);
      ColumnEstimate(row[0]);
      assert Generic(row[0]) ==> Generics(row)[0] == row[0] && Generics(row)[1..] == Generics(row[1..]);
    }
  }

  // The estimate is the encoded length exactly when the generic columns take 10 bytes each on
  // average, as they do when there are none.
  lemma EstimateIsExact(rowID: nat, row: Row)
    ensures 10 + EstimateColumns(row) == |EncodedRow(rowID, row)|
            <==> |EncodeColumns(Generics(row))| == 10 * |Generics(row)|
    ensures (forall v | v in row :: !Generic(v)) ==> 10 + EstimateColumns(row) == |EncodedRow(rowID, row)|
  {
    hide EncodeColumn, EstimateColumnSize, Generic;
    EstimateMisses(row);
  }
}
