// Framing of the write-ahead log: a 16-byte header (sequence number, length, checksum) before
// each record's bytes.

module WalLog {
  import opened Bytes
  import opened Collections

  // Checksum, decryption and JSON are parameters; without encryption `decrypt` is `Some`.
  datatype Codec<!T> = Codec(
    crc: seq<Byte> -> UInt32,
    decrypt: seq<Byte> -> Option<seq<Byte>>,
    parse: seq<Byte> -> Option<T>)

  datatype Outcome<+T> = Done(records: seq<T>) | Failed

  const HEADER := 16

  // A record as it was written: its sequence number, its (possibly encrypted) bytes, and what
  // they stand for.
  datatype Written<T> = Written(lsn: UInt64, data: seq<Byte>, record: T)

  function FrameBytes(lsn: UInt64, checksum: UInt32, data: seq<Byte>): (b: seq<Byte>)
    ensures |b| == HEADER + |data|
  {
    LE(lsn, 8) + LE(|data|, 4) + LE(checksum, 4) + data
  }

  // Sequence number, length and checksum stand in front of the bytes.
  lemma FrameFields(lsn: UInt64, checksum: UInt32, data: seq<Byte>)
    ensures var b := FrameBytes(lsn, checksum, data);
            b[0..8] == LE(lsn, 8) && b[8..12] == LE(|data|, 4) && b[12..16] == LE(checksum, 4) && b[16..] == data
  {
    hide LE;
  }

  function Frames<T>(codec: Codec<T>, written: seq<Written<T>>): seq<Byte> {
    if written == [] then []
    else FrameBytes(written[0].lsn, codec.crc(written[0].data), written[0].data) + Frames(codec, written[1..])
  }

  function RecordsOf<T>(written: seq<Written<T>>): (r: seq<T>)
    ensures |r| == |written|
  {
    if written == [] then [] else [written[0].record] + RecordsOf(written[1..])
  }

  // The bytes fit the 32-bit length and decode to the record.
  ghost predicate Readable<T>(codec: Codec<T>, w: Written<T>) {
    && |w.data| < U32
    && codec.decrypt(w.data).Some?
    && codec.parse(codec.decrypt(w.data).value) == Some(w.record)
  }

  ghost predicate AllReadable<T>(codec: Codec<T>, written: seq<Written<T>>) {
    forall w | w in written :: Readable(codec, w)
  }

  // ---------------------------------------------------------------- reading

  function LengthAt(b: seq<Byte>): UInt32
    requires |b| >= HEADER
  {
    GetU32(b[8..12])
  }

  function ChecksumAt(b: seq<Byte>): UInt32
    requires |b| >= HEADER
  {
    GetU32(b[12..16])
  }

  // Nothing left is a clean end. A torn header or body is an error that loses everything; a
  // wrong checksum or an undecryptable body ends the reading with what was read so far.
  function Read<T>(codec: Codec<T>, b: seq<Byte>): Outcome<T>
    decreases |b|
  {
    if b == [] then Done([])
    else if |b| < HEADER || |b| - HEADER < LengthAt(b) then Failed
    else
      var end := HEADER + LengthAt(b);
      var data := b[HEADER..end];
      if codec.crc(data) != ChecksumAt(b) then Done([])
      else
        match codec.decrypt(data)
        case None => Done([])
        case Some(plain) =>
          match codec.parse(plain)
          case None => Failed
          case Some(record) => Prepend([record], Read(codec, b[end..]))
  }

  function Prepend<T>(records: seq<T>, o: Outcome<T>): Outcome<T> {
    match o
    case Done(rest) => Done(records + rest)
    case Failed => Failed
  }

  lemma FrameParts(lsn: UInt64, checksum: UInt32, data: seq<Byte>, rest: seq<Byte>)
    requires |data| < U32
    ensures var b := FrameBytes(lsn, checksum, data) + rest;
            && LengthAt(b) == |data| && ChecksumAt(b) == checksum
            && b[HEADER..HEADER + |data|] == data && b[HEADER + |data|..] == rest
            && b[..HEADER] == LE(lsn, 8) + LE(|data|, 4) + LE(checksum, 4)
  {
    hide LE, UnLE;
    var h0, h1, h2 := LE(lsn, 8), LE(|data|, 4), LE(checksum, 4);
    var b := FrameBytes(lsn, checksum, data) + rest;
    U32RoundTrip(|data|);
    U32RoundTrip(checksum);
    assert b == h0 + h1 + (h2 + data + rest);
    assert b == h0 + h1 + h2 + (data + rest);
    assert b == (h0 + h1) + h2 + (data + rest);
    Middle(h0, h1, h2 + data + rest);
    Middle(h0 + h1, h2, data + rest);
    Middle(h0 + h1 + h2, data, rest);
    assert b == h0 + h1 + h2 + data + rest;
  }

  lemma ReadsFrame<T>(codec: Codec<T>, w: Written<T>, rest: seq<Byte>)
    requires Readable(codec, w)
    ensures Read(codec, FrameBytes(w.lsn, codec.crc(w.data), w.data) + rest) == Prepend([w.record], Read(codec, rest))
  {
    hide FrameBytes, LengthAt, ChecksumAt;
    FrameParts(w.lsn, codec.crc(w.data), w.data, rest);
  }

  lemma PrependTwice<T>(a: seq<T>, b: seq<T>, o: Outcome<T>)
    ensures Prepend(a, Prepend(b, o)) == Prepend(a + b, o)
  {
    if o.Done? {
      Assoc(a, b, o.records);
    }
  }

  // Frames in front of anything are read one by one.
  lemma {:induction false} ReadsFrames<T>(codec: Codec<T>, written: seq<Written<T>>, rest: seq<Byte>)
    requires AllReadable(codec, written)
    ensures Read(codec, Frames(codec, written) + rest) == Prepend(RecordsOf(written), Read(codec, rest))
  {
    hide Read, FrameBytes;
    if written == [] {
      assert Frames(codec, written) + rest == rest;
      PrependNothing(Read(codec, rest));
    } else {
      var w, tail := written[0], written[1..];
      ReadsFrames(codec, tail, rest);
      var first := FrameBytes(w.lsn, codec.crc(w.data), w.data);
      Assoc(first, Frames(codec, tail), rest);
      ReadsFrame(codec, w, Frames(codec, tail) + rest);
      PrependTwice([w.record], RecordsOf(tail), Read(codec, rest));
    }
  }

  lemma PrependNothing<T>(o: Outcome<T>)
    ensures Prepend([], o) == o
  {
    if o.Done? {
      assert [] + o.records == o.records;
    }
  }

  // A log of written frames reads back as exactly the records.
  lemma WrittenIsRead<T>(codec: Codec<T>, written: seq<Written<T>>)
    requires AllReadable(codec, written)
    ensures Read(codec, Frames(codec, written)) == Done(RecordsOf(written))
  {
    ReadsFrames(codec, written, []);
    assert Frames(codec, written) + [] == Frames(codec, written);
    assert Read(codec, []) == Done([]);
    assert RecordsOf(written) + [] == RecordsOf(written);
  }

  // A complete frame whose checksum is wrong ends the reading with exactly the records before
  // it, whatever bytes follow.
  lemma CorruptFrameStops<T>(codec: Codec<T>, written: seq<Written<T>>, lsn: UInt64, checksum: UInt32,
          data: seq<Byte>, tail: seq<Byte>)
    requires AllReadable(codec, written) && |data| < U32 && checksum != codec.crc(data)
    ensures Read(codec, Frames(codec, written) + (FrameBytes(lsn, checksum, data) + tail)) == Done(RecordsOf(written))
  {
    var bad := FrameBytes(lsn, checksum, data) + tail;
    ReadsFrames(codec, written, bad);
    FrameParts(lsn, checksum, data, tail);
    assert Read(codec, bad) == Done([]);
    assert RecordsOf(written) + [] == RecordsOf(written);
  }

  // A complete frame with a good checksum that cannot be decrypted ends the reading likewise; one
  // that is decrypted but does not parse is an error.
  lemma UnreadableFrame<T>(codec: Codec<T>, written: seq<Written<T>>, lsn: UInt64, data: seq<Byte>, tail: seq<Byte>)
    requires AllReadable(codec, written) && |data| < U32
    ensures var log := Frames(codec, written) + (FrameBytes(lsn, codec.crc(data), data) + tail);
            && (codec.decrypt(data).None? ==> Read(codec, log) == Done(RecordsOf(written)))
            && (codec.decrypt(data).Some? && codec.parse(codec.decrypt(data).value).None? ==>
                 Read(codec, log) == Failed)
  {
    var bad := FrameBytes(lsn, codec.crc(data), data) + tail;
    ReadsFrames(codec, written, bad);
    FrameParts(lsn, codec.crc(data), data, tail);
    if codec.decrypt(data).None? {
      assert Read(codec, bad) == Done([]);
      assert RecordsOf(written) + [] == RecordsOf(written);
    }
  }

  // ---------------------------------------------------------------- torn logs

  // A strict, non-empty prefix of a frame is an error.
  lemma TornFrameFails<T>(codec: Codec<T>, lsn: UInt64, checksum: UInt32, data: seq<Byte>, k: nat)
    requires |data| < U32 && 0 < k < HEADER + |data|
    ensures Read(codec, FrameBytes(lsn, checksum, data)[..k]) == Failed
  {
    hide LE, UnLE;
    var frame := FrameBytes(lsn, checksum, data);
    FrameParts(lsn, checksum, data, []);
    assert frame + [] == frame;
    if k >= HEADER {
      assert frame[..k][8..12] == frame[8..12];
    }
  }

  ghost predicate Boundary<T>(codec: Codec<T>, written: seq<Written<T>>, k: nat, m: nat) {
    m <= |written| && k == |Frames(codec, written[..m])|
  }

  lemma {:induction false} FramesSplit<T>(codec: Codec<T>, a: seq<Written<T>>, b: seq<Written<T>>)
    ensures Frames(codec, a + b) == Frames(codec, a) + Frames(codec, b)
  {
    hide FrameBytes;
    if a == [] {
      assert a + b == b;
    } else {
      assert (a + b)[1..] == a[1..] + b;
      FramesSplit(codec, a[1..], b);
    }
  }

  lemma FramesSnoc<T>(codec: Codec<T>, written: seq<Written<T>>, m: nat)
    requires m < |written|
    ensures var frame := FrameBytes(written[m].lsn, codec.crc(written[m].data), written[m].data);
            Frames(codec, written) == Frames(codec, written[..m]) + frame + Frames(codec, written[m + 1..])
  {
    hide FrameBytes;
    FramesSplit(codec, written[..m], written[m..]);
    assert written[..m] + written[m..] == written;
    assert written[m..][1..] == written[m + 1..];
    var frame := FrameBytes(written[m].lsn, codec.crc(written[m].data), written[m].data);
    Assoc(Frames(codec, written[..m]), frame, Frames(codec, written[m + 1..]));
  }

  // The frame in which a cut falls: frames before `m` are whole.
  lemma {:induction false} CutFrame<T>(codec: Codec<T>, written: seq<Written<T>>, k: nat) returns (m: nat)
    requires k <= |Frames(codec, written)|
    ensures m <= |written| && |Frames(codec, written[..m])| <= k
    ensures if m == |written| then k == |Frames(codec, written)|
            else k < |Frames(codec, written[..m])| + HEADER + |written[m].data|
    decreases |written|
  {
    hide FrameBytes;
    if written == [] {
      m := 0;
    } else {
      var n := |written| - 1;
      FramesSnoc(codec, written, n);
      assert written[n + 1..] == [];
      assert written[..|written|] == written;
      if k < |Frames(codec, written[..n])| {
        m := CutFrame(codec, written[..n], k);
        assert m < n;
        assert written[..n][..m] == written[..m];
      } else {
        m := if k == |Frames(codec, written)| then n + 1 else n;
      }
    }
  }

  lemma TornTail<T>(codec: Codec<T>, written: seq<Written<T>>, k: nat, m: nat)
    requires AllReadable(codec, written) && m < |written|
    requires |Frames(codec, written[..m])| < k < |Frames(codec, written[..m])| + HEADER + |written[m].data|
    ensures k <= |Frames(codec, written)|
    ensures Read(codec, Frames(codec, written)[..k]) == Failed
  {
    hide FrameBytes, Read;
    FramesSnoc(codec, written, m);
    var whole := Frames(codec, written[..m]);
    var frame := FrameBytes(written[m].lsn, codec.crc(written[m].data), written[m].data);
    var j := k - |whole|;
    assert Frames(codec, written)[..k] == whole + frame[..j];
    assert Readable(codec, written[m]);
    TornFrameFails(codec, written[m].lsn, codec.crc(written[m].data), written[m].data, j);
    assert AllReadable(codec, written[..m]);
    ReadsFrames(codec, written[..m], frame[..j]);
  }

  lemma WholeFrames<T>(codec: Codec<T>, written: seq<Written<T>>, k: nat, m: nat)
    requires AllReadable(codec, written) && Boundary(codec, written, k, m)
    ensures k <= |Frames(codec, written)|
    ensures Read(codec, Frames(codec, written)[..k]) == Done(RecordsOf(written[..m]))
  {
    hide FrameBytes, Read;
    FramesSplit(codec, written[..m], written[m..]);
    assert written[..m] + written[m..] == written;
    assert Frames(codec, written)[..k] == Frames(codec, written[..m]);
    assert AllReadable(codec, written[..m]);
    WrittenIsRead(codec, written[..m]);
  }

  // A log cut after k bytes is readable exactly when the cut falls between two frames; it then
  // holds exactly the records before the cut.
  lemma CutLog<T>(codec: Codec<T>, written: seq<Written<T>>, k: nat)
    requires AllReadable(codec, written) && k <= |Frames(codec, written)|
    ensures Read(codec, Frames(codec, written)[..k]).Done? <==> exists m: nat :: Boundary(codec, written, k, m)
    ensures forall m: nat | Boundary(codec, written, k, m) ::
            Read(codec, Frames(codec, written)[..k]) == Done(RecordsOf(written[..m]))
  {
    hide Read, Frames;
    forall m: nat | Boundary(codec, written, k, m)
      ensures Read(codec, Frames(codec, written)[..k]) == Done(RecordsOf(written[..m]))
    {
      WholeFrames(codec, written, k, m);
    }
    var m := CutFrame(codec, written, k);
    assert written[..|written|] == written;
    if !Boundary(codec, written, k, m) {
      TornTail(codec, written, k, m);
    }
  }

  // ---------------------------------------------------------------- the log file

  ghost predicate Climbing<T>(written: seq<Written<T>>, last: nat) {
    && (forall i, j | 0 <= i < j < |written| :: written[i].lsn < written[j].lsn)
    && forall w | w in written :: w.lsn <= last
  }

  class LogFile<T> {
    const codec: Codec<T>
    var file: seq<Byte>
    var walSeq: nat
    ghost var written: seq<Written<T>>

    ghost predicate Valid()
      reads this
    {
      file == Frames(codec, written) && Climbing(written, walSeq)
    }

    constructor (codec: Codec<T>)
      ensures Valid() && written == [] && walSeq == 0 && this.codec == codec
    {
      this.codec := codec;
      file, walSeq, written := [], 0, [];
    }

    // `data` is the marshalled and possibly encrypted record.
    method WriteWAL(data: seq<Byte>, ghost record: T)
      requires Valid() && walSeq + 1 < U64
      modifies this
      ensures Valid() && walSeq == old(walSeq) + 1
      ensures written == old(written) + [Written(walSeq, data, record)]
      ensures file == old(file) + FrameBytes(walSeq, codec.crc(data), data)
    {
      hide FrameBytes;
      walSeq := walSeq + 1;
      ghost var w := Written(walSeq, data, record);
      FramesSplit(codec, written, [w]);
      assert [w][1..] == [];
      assert Frames(codec, [w]) == FrameBytes(walSeq, codec.crc(data), data) + [];
      file := file + FrameBytes(walSeq, codec.crc(data), data);
      written := written + [w];
    }

    method Truncate()
      modifies this
      ensures Valid() && written == [] && walSeq == 0
    {
      file, walSeq, written := [], 0, [];
    }

    method ReadAll() returns (r: Outcome<T>)
      ensures r == Read(codec, file)
      ensures Valid() && AllReadable(codec, written) ==> r == Done(RecordsOf(written))
    {
      if Valid() && AllReadable(codec, written) {
        WrittenIsRead(codec, written);
      }
      r := ReadFrom();
    }

    method ReadFrom() returns (r: Outcome<T>)
      ensures r == Read(codec, file)
    {
      hide LengthAt, ChecksumAt;
      var records: seq<T> := [];
      var pos := 0;
      assert file[0..] == file;
      PrependNothing(Read(codec, file));
      while pos < |file|
        invariant 0 <= pos <= |file|
        invariant Read(codec, file) == Prepend(records, Read(codec, file[pos..]))
        decreases |file| - pos
      {
        var rest := file[pos..];
        if |rest| < HEADER {
          return Failed;
        }
        var length := LengthAt(rest);
        if |rest| - HEADER < length {
          return Failed;
        }
        var data := rest[HEADER..HEADER + length];
        if codec.crc(data) != ChecksumAt(rest) {
          break;
        }
        var plain := codec.decrypt(data);
        if plain.None? {
          break;
        }
        var record := codec.parse(plain.value);
        if record.None? {
          return Failed;
        }
        assert rest[HEADER + length..] == file[pos + HEADER + length..];
        PrependTwice(records, [record.value], Read(codec, file[pos + HEADER + length..]));
        records := records + [record.value];
        pos := pos + HEADER + length;
      }
      assert Read(codec, file[pos..]) == Done([]);
      r := Done(records);
    }
  }
}
