// The TXDEF cipher of storage/crypto/crypto.go: a one-shot form and a streaming form.

module Cipher {
  import opened Bytes
  import opened Collections

  // A Go byte slice: nil or bytes.
  datatype Slice = Nil | Data(bytes: seq<Byte>)

  datatype CipherError = InvalidMagic | DecryptionFailed | UnexpectedEnd

  // "//TXDEF#"
  const MAGIC: seq<Byte> := [47, 47, 84, 88, 68, 69, 70, 35]

  // "xxldb"
  const DEFAULT_CODE: seq<Byte> := [120, 120, 108, 100, 98]

  const BUFFER_SIZE := 4096

  function CodeBytes(code: seq<Byte>): (c: seq<Byte>)
    ensures c != []
  {
    if code == [] then DEFAULT_CODE else code
  }

  function Sum(data: seq<Byte>): UInt32 {
    if data == [] then 0 else (Sum(data[..|data| - 1]) + data[|data| - 1]) % U32
  }

  function AddLen(code: seq<Byte>): (n: nat)
    ensures 2 <= n <= 6
  {
    Sum(code) % 5 + 2
  }

  function EncIndex(code: seq<Byte>): (k: nat)
    ensures k < AddLen(code)
  {
    Sum(code) % AddLen(code)
  }

  // ---------------------------------------------------------------- bytes

  // Byte i of the stream, modulo 256.
  function EncryptByte(x: Byte, code: seq<Byte>, i: nat, idx: Byte): Byte
    requires code != []
  {
    (x + code[i % |code|] + (i + 1) % 256 + idx) % 256
  }

  function DecryptByte(y: Byte, code: seq<Byte>, i: nat, idx: Byte): Byte
    requires code != []
  {
    (y - code[i % |code|] - (i + 1) % 256 - idx) % 256
  }

  function EncryptFrom(data: seq<Byte>, code: seq<Byte>, idx: Byte, start: nat): (r: seq<Byte>)
    requires code != []
    ensures |r| == |data|
  {
    seq(|data|, k requires 0 <= k < |data| => EncryptByte(data[k], code, start + k, idx))
  }

  function DecryptFrom(data: seq<Byte>, code: seq<Byte>, idx: Byte, start: nat): (r: seq<Byte>)
    requires code != []
    ensures |r| == |data|
  {
    seq(|data|, k requires 0 <= k < |data| => DecryptByte(data[k], code, start + k, idx))
  }

  lemma ByteRoundTrip(x: Byte, code: seq<Byte>, i: nat, idx: Byte)
    requires code != []
    ensures DecryptByte(EncryptByte(x, code, i, idx), code, i, idx) == x
    ensures EncryptByte(DecryptByte(x, code, i, idx), code, i, idx) == x
  {
    var shift := code[i % |code|] + (i + 1) % 256 + idx;
    ShiftRoundTrip(x, shift);
    assert EncryptByte(x, code, i, idx) == (x + shift) % 256;
    assert DecryptByte(x, code, i, idx) == (x - shift) % 256;
  }

  lemma ShiftRoundTrip(x: Byte, shift: nat)
    ensures ((x + shift) % 256 - shift) % 256 == x
    ensures ((x - shift) % 256 + shift) % 256 == x
  {
    var up, down := (x + shift) / 256, (x - shift) / 256;
    assert (x + shift) % 256 - shift == x - 256 * up;
    assert (x - shift) % 256 + shift == x - 256 * down;
    AddMultiple(x, up);
    AddMultiple(x, down);
  }

  lemma AddMultiple(x: Byte, k: int)
    ensures (x - 256 * k) % 256 == x
  {
  }

  lemma BodyRoundTrip(data: seq<Byte>, code: seq<Byte>, idx: Byte, start: nat)
    requires code != []
    ensures DecryptFrom(EncryptFrom(data, code, idx, start), code, idx, start) == data
  {
    hide EncryptByte, DecryptByte;
    forall k | 0 <= k < |data|
      ensures DecryptFrom(EncryptFrom(data, code, idx, start), code, idx, start)[k] == data[k]
    {
      ByteRoundTrip(data[k], code, start + k, idx);
    }
  }

  // A body may be processed piece by piece with a running position.
  lemma EncryptInPieces(a: seq<Byte>, b: seq<Byte>, code: seq<Byte>, idx: Byte, start: nat)
    requires code != []
    ensures EncryptFrom(a + b, code, idx, start) ==
            EncryptFrom(a, code, idx, start) + EncryptFrom(b, code, idx, start + |a|)
  {
    hide EncryptByte;
  }

  lemma DecryptInPieces(a: seq<Byte>, b: seq<Byte>, code: seq<Byte>, idx: Byte, start: nat)
    requires code != []
    ensures DecryptFrom(a + b, code, idx, start) ==
            DecryptFrom(a, code, idx, start) + DecryptFrom(b, code, idx, start + |a|)
  {
    hide DecryptByte;
  }

  // ---------------------------------------------------------------- one shot

  // Header, filler, body: what both encrypters write for the bytes the random source gave.
  function Sealed(data: seq<Byte>, password: seq<Byte>, filler: seq<Byte>): seq<Byte>
    requires |filler| == AddLen(CodeBytes(password))
  {
    var code := CodeBytes(password);
    MAGIC + filler + EncryptFrom(data, code, filler[EncIndex(code)], 0)
  }

  // What both decrypters recover when the magic and the filler are there.
  function Opened(data: seq<Byte>, password: seq<Byte>): Result<seq<Byte>, CipherError> {
    var code := CodeBytes(password);
    if !(MAGIC <= data) then Err(InvalidMagic)
    else
      var rest := data[|MAGIC|..];
      if |rest| < AddLen(code) then Err(DecryptionFailed)
      else Ok(DecryptFrom(rest[AddLen(code)..], code, rest[EncIndex(code)], 0))
  }

  lemma OpenedSealed(data: seq<Byte>, password: seq<Byte>, filler: seq<Byte>)
    requires |filler| == AddLen(CodeBytes(password))
    ensures Opened(Sealed(data, password, filler), password) == Ok(data)
  {
    hide EncryptFrom, DecryptFrom, Sum;
    var code := CodeBytes(password);
    var body := EncryptFrom(data, code, filler[EncIndex(code)], 0);
    Middle(MAGIC, filler, body);
    var rest := Sealed(data, password, filler)[|MAGIC|..];
    assert rest == filler + body;
    assert rest[AddLen(code)..] == body && rest[EncIndex(code)] == filler[EncIndex(code)];
    BodyRoundTrip(data, code, filler[EncIndex(code)], 0);
  }

  // ---------------------------------------------------------------- the format in plain terms

  function ByteTotal(data: seq<Byte>): nat {
    if data == [] then 0 else ByteTotal(data[..|data| - 1]) + data[|data| - 1]
  }

  lemma {:induction false} SumIs(data: seq<Byte>)
    ensures Sum(data) == ByteTotal(data) % 0x1_0000_0000
  {
    if data != [] {
      var n := |data| - 1;
      SumIs(data[..n]);
      AddThenWrap(ByteTotal(data[..n]), data[n]);
    }
  }

  lemma AddThenWrap(a: nat, b: nat)
    ensures (a % U32 + b) % U32 == (a + b) % U32
  {
    var q, r := a / U32, a % U32;
    assert a == q * U32 + r;
    assert (a + b) / U32 == q + (r + b) / U32;
  }

  // The bytes of a file sealed under a password, "xxldb" if it is empty: the magic "//TXDEF#",
  // the filler, whose length depends on the sum of the password's bytes modulo 2^32, and each
  // byte shifted by the password, its position and one byte of the filler.
  ghost predicate SealedAs(data: seq<Byte>, password: seq<Byte>, filler: seq<Byte>, sealed: seq<Byte>) {
    var p := if password == [] then [120, 120, 108, 100, 98] else password;
    var sum := ByteTotal(p) % 0x1_0000_0000;
    && |filler| == sum % 5 + 2 && |sealed| == 8 + |filler| + |data|
    && sealed[..8] == [47, 47, 84, 88, 68, 69, 70, 35]
    && sealed[8..8 + |filler|] == filler
    && Shifted(data, p, filler[sum % (sum % 5 + 2)], sealed[8 + |filler|..])
  }

  // Byte i is shifted by byte i of the password, repeated, by i + 1 and by the filler byte.
  ghost predicate Shifted(data: seq<Byte>, p: seq<Byte>, chosen: Byte, body: seq<Byte>)
    requires p != []
  {
    |body| == |data| && forall i | 0 <= i < |data| :: body[i] == (data[i] + p[i % |p|] + i + 1 + chosen) % 256
  }

  lemma FillerIs(code: seq<Byte>)
    ensures var sum := ByteTotal(code) % 0x1_0000_0000;
            AddLen(code) == sum % 5 + 2 && EncIndex(code) == sum % (sum % 5 + 2)
  {
    SumIs(code);
  }

  lemma SealedMeans(data: seq<Byte>, password: seq<Byte>, filler: seq<Byte>)
    requires |filler| == AddLen(CodeBytes(password))
    ensures SealedAs(data, password, filler, Sealed(data, password, filler))
  {
    hide Sum, ByteTotal, EncryptFrom, AddLen, EncIndex, CodeBytes, Shifted;
    var p := CodeBytes(password);
    FillerIs(p);
    CodeIs(password);
    var idx := filler[EncIndex(p)];
    ShiftedBody(data, p, idx);
    SealedParts(filler, EncryptFrom(data, p, idx, 0));
  }

  lemma CodeIs(password: seq<Byte>)
    ensures CodeBytes(password) == if password == [] then [120, 120, 108, 100, 98] else password
  {
  }

  lemma ShiftedBody(data: seq<Byte>, p: seq<Byte>, idx: Byte)
    requires p != []
    ensures Shifted(data, p, idx, EncryptFrom(data, p, idx, 0))
  {
    hide EncryptByte;
    forall i | 0 <= i < |data|
      ensures EncryptFrom(data, p, idx, 0)[i] == (data[i] + p[i % |p|] + i + 1 + idx) % 256
    {
      EncryptByteIs(data[i], p, i, idx);
    }
  }

  lemma SealedParts(filler: seq<Byte>, body: seq<Byte>)
    ensures var sealed := MAGIC + filler + body;
            sealed[..8] == MAGIC && sealed[8..8 + |filler|] == filler && sealed[8 + |filler|..] == body
  {
  }

  lemma EncryptByteIs(x: Byte, code: seq<Byte>, i: nat, idx: Byte)
    requires code != []
    ensures EncryptByte(x, code, i, idx) == (x + code[i % |code|] + i + 1 + idx) % 256
  {
    var a := x + code[i % |code|] + idx;
    var q := (i + 1) / 256;
    assert i + 1 == 256 * q + (i + 1) % 256;
    assert (a + i + 1) / 256 == q + (a + (i + 1) % 256) / 256;
  }

  predicate SameShift(x: int, chosen: int, y: int, other: int) {
    (x + chosen) % 256 == (y + other) % 256
  }

  // A sealed file opens to the data under another password exactly when that has as many filler
  // bytes and, at every position of the data, the same password byte and chosen filler byte in
  // sum, modulo 256.
  lemma OtherPassword(data: seq<Byte>, a: seq<Byte>, b: seq<Byte>, filler: seq<Byte>)
    requires |filler| == AddLen(CodeBytes(a))
    ensures var p, q := CodeBytes(a), CodeBytes(b);
            Opened(Sealed(data, a, filler), b) == Ok(data) <==>
            && AddLen(q) == AddLen(p)
            && forall i | 0 <= i < |data| ::
                 SameShift(p[i % |p|], filler[EncIndex(p)], q[i % |q|], filler[EncIndex(q)])
  {
    hide Sum, EncryptFrom, DecryptFrom, AddLen, EncIndex, CodeBytes, SameShift;
    var p, q := CodeBytes(a), CodeBytes(b);
    var body := EncryptFrom(data, p, filler[EncIndex(p)], 0);
    SealedParts(filler, body);
    var rest := Sealed(data, a, filler)[|MAGIC|..];
    assert rest == filler + body;
    if AddLen(q) == AddLen(p) {
      assert rest[AddLen(q)..] == body && rest[EncIndex(q)] == filler[EncIndex(q)];
      BodyUnderOther(data, p, q, filler[EncIndex(p)], filler[EncIndex(q)]);
    }
  }

  lemma BodyUnderOther(data: seq<Byte>, p: seq<Byte>, q: seq<Byte>, idx: Byte, idx': Byte)
    requires p != [] && q != []
    ensures DecryptFrom(EncryptFrom(data, p, idx, 0), q, idx', 0) == data
            <==> forall i | 0 <= i < |data| :: SameShift(p[i % |p|], idx, q[i % |q|], idx')
  {
    hide EncryptByte, DecryptByte, SameShift;
    var plain := DecryptFrom(EncryptFrom(data, p, idx, 0), q, idx', 0);
    forall i | 0 <= i < |data|
      ensures plain[i] == data[i] <==> SameShift(p[i % |p|], idx, q[i % |q|], idx')
    {
      ByteUnderOther(data[i], p, q, i, idx, idx');
    }
  }

  lemma ByteUnderOther(x: Byte, p: seq<Byte>, q: seq<Byte>, i: nat, idx: Byte, idx': Byte)
    requires p != [] && q != []
    ensures DecryptByte(EncryptByte(x, p, i, idx), q, i, idx') == x <==>
            SameShift(p[i % |p|], idx, q[i % |q|], idx')
  {
    var s: int, t: int, n := p[i % |p|] + idx, q[i % |q|] + idx', (i + 1) % 256;
    assert EncryptByte(x, p, i, idx) == (x + s + n) % 256;
    assert DecryptByte(EncryptByte(x, p, i, idx), q, i, idx') == ((x + s + n) % 256 - t - n) % 256;
    ShiftDifference(x, s, t, n);
  }

  lemma ShiftDifference(x: Byte, s: nat, t: nat, n: nat)
    requires s < 512 && t < 512 && n < 256
    ensures ((x + s + n) % 256 - t - n) % 256 == x <==> s % 256 == t % 256
  {
    var k := (x + s + n) / 256;
    assert (x + s + n) % 256 == x + s + n - 256 * k;
    AddMultiple256(x + s - t, -k);
    ByteShifted(x, s, t);
  }

  lemma ByteShifted(x: Byte, s: nat, t: nat)
    requires s < 512 && t < 512
    ensures (x + s - t) % 256 == x <==> s % 256 == t % 256
  {
  }

  lemma AddMultiple256(x: int, k: int)
    ensures (x + 256 * k) % 256 == x % 256
  {
  }

  // Two passwords whose bytes have the same sum modulo 2^32 open each other's files exactly when
  // they agree, repeated, over the length of the data.
  lemma SameSumPassword(data: seq<Byte>, a: seq<Byte>, b: seq<Byte>, filler: seq<Byte>)
    requires a != [] && b != [] && ByteTotal(a) % 0x1_0000_0000 == ByteTotal(b) % 0x1_0000_0000
    requires |filler| == AddLen(CodeBytes(a))
    ensures Opened(Sealed(data, a, filler), b) == Ok(data) <==> forall i | 0 <= i < |data| :: a[i % |a|] == b[i % |b|]
  {
    hide Sum, ByteTotal, Opened, Sealed, AddLen, EncIndex, SameShift;
    FillerIs(a);
    FillerIs(b);
    OtherPassword(data, a, b, filler);
    forall i | 0 <= i < |data|
      ensures SameShift(a[i % |a|], filler[EncIndex(a)], b[i % |b|], filler[EncIndex(b)]) <==> a[i % |a|] == b[i % |b|]
    {
      ShiftedAlike(a[i % |a|], b[i % |b|], filler[EncIndex(a)]);
    }
  }

  lemma ShiftedAlike(x: Byte, y: Byte, z: Byte)
    ensures SameShift(x, z, y, z) <==> x == y
  {
  }

  // What opening gives: the magic and as much filler as the password asks for must be there.
  lemma OpenedMeans(data: seq<Byte>, password: seq<Byte>)
    ensures var p := if password == [] then [120, 120, 108, 100, 98] else password;
            var sum := ByteTotal(p) % 0x1_0000_0000;
            var skip := 8 + sum % 5 + 2;
            var r := Opened(data, password);
            && (r == Err(InvalidMagic) <==> !(|data| >= 8 && data[..8] == [47, 47, 84, 88, 68, 69, 70, 35]))
            && (r == Err(DecryptionFailed) <==>
                  |data| >= 8 && data[..8] == [47, 47, 84, 88, 68, 69, 70, 35] && |data| < skip)
            && (r.Ok? <==> |data| >= skip && data[..8] == [47, 47, 84, 88, 68, 69, 70, 35])
            && (r.Ok? ==>
                  && |r.value| == |data| - skip
                  && forall i | 0 <= i < |r.value| ::
                       (r.value[i] + p[i % |p|] + i + 1 + data[8 + sum % (sum % 5 + 2)]) % 256 == data[skip + i])
  {
    hide Sum, ByteTotal, EncryptByte, DecryptByte;
    var p := CodeBytes(password);
    SumIs(p);
    var r := Opened(data, password);
    if r.Ok? {
      var rest := data[8..];
      forall i | 0 <= i < |r.value|
        ensures (r.value[i] + p[i % |p|] + i + 1 + rest[EncIndex(p)]) % 256 == rest[AddLen(p)..][i]
      {
        ByteRoundTrip(rest[AddLen(p)..][i], p, i, rest[EncIndex(p)]);
        EncryptByteIs(r.value[i], p, i, rest[EncIndex(p)]);
      }
    }
  }

  method SumBytes(data: seq<Byte>) returns (sum: UInt32)
    ensures sum == Sum(data)
  {
    sum := 0;
    var i := 0;
    while i < |data|
      invariant 0 <= i <= |data| && sum == Sum(data[..i])
    {
      assert data[..i + 1][..i] == data[..i];
      sum := (sum + data[i]) % U32;
      i := i + 1;
    }
    assert data[..i] == data;
  }

  method EncryptData(src: Slice, password: seq<Byte>, randomBytes: seq<Byte>) returns (r: Slice)
    requires |randomBytes| == AddLen(CodeBytes(password))
    ensures r == if src.Data? && src.bytes != [] then Data(Sealed(src.bytes, password, randomBytes)) else src
    ensures if src.Data? && src.bytes != [] then r.Data? && SealedAs(src.bytes, password, randomBytes, r.bytes)
            else r == src
  {
    hide EncryptByte, EncryptFrom, Sum, SealedAs;
    if src.Nil? || |src.bytes| < 1 {
      return src;
    }
    SealedMeans(src.bytes, password, randomBytes);
    var data := src.bytes;
    var code := CodeBytes(password);
    var sum := SumBytes(code);
    var addLen := sum % 5 + 2;
    var encIndex := sum % addLen;
    var headLen := |MAGIC|;
    var buf := new Byte[|data| + addLen + headLen](_ => 0);
    var idxByte := WriteHead(buf, randomBytes, encIndex);
    EncryptBody(buf, addLen + headLen, data, code, idxByte);
    assert buf[..] == buf[..addLen + headLen] + buf[addLen + headLen..];
    r := Data(buf[..]);
  }

  // The magic and the filler; one filler byte is remembered.
  method WriteHead(buf: array<Byte>, randomBytes: seq<Byte>, encIndex: nat) returns (idxByte: Byte)
    requires buf.Length >= |MAGIC| + |randomBytes| && encIndex < |randomBytes|
    modifies buf
    ensures buf[..|MAGIC| + |randomBytes|] == MAGIC + randomBytes
    ensures idxByte == randomBytes[encIndex]
  {
    var headLen := |MAGIC|;
    var i := 0;
    while i < headLen
      invariant 0 <= i <= headLen
      invariant forall k | 0 <= k < i :: buf[k] == MAGIC[k]
    {
      buf[i] := MAGIC[i];
      i := i + 1;
    }
    idxByte := 0;
    i := 0;
    while i < |randomBytes|
      invariant 0 <= i <= |randomBytes|
      invariant forall k | 0 <= k < headLen :: buf[k] == MAGIC[k]
      invariant forall k | 0 <= k < i :: buf[headLen + k] == randomBytes[k]
      invariant encIndex < i ==> idxByte == randomBytes[encIndex]
    {
      buf[i + headLen] := randomBytes[i];
      if i == encIndex {
        idxByte := randomBytes[i];
      }
      i := i + 1;
    }
    forall k | 0 <= k < headLen + |randomBytes|
      ensures buf[k] == (MAGIC + randomBytes)[k]
    {
      if k >= headLen {
        var m := k - headLen;
        assert buf[headLen + m] == randomBytes[m];
      }
    }
  }

  method EncryptBody(buf: array<Byte>, at: nat, data: seq<Byte>, code: seq<Byte>, idxByte: Byte)
    requires code != [] && buf.Length == at + |data|
    modifies buf
    ensures buf[..at] == old(buf[..at]) && buf[at..] == EncryptFrom(data, code, idxByte, 0)
  {
    hide EncryptByte;
    var i := 0;
    while i < |data|
      invariant 0 <= i <= |data| && buf[..at] == old(buf[..at])
      invariant forall k | 0 <= k < i :: buf[at + k] == EncryptByte(data[k], code, k, idxByte)
    {
      buf[at + i] := EncryptByte(data[i], code, i, idxByte);
      i := i + 1;
    }
    forall k | 0 <= k < |data|
      ensures buf[at..][k] == EncryptFrom(data, code, idxByte, 0)[k]
    {
      assert buf[at..][k] == buf[at + k];
    }
  }

  method DecryptData(src: Slice, password: seq<Byte>) returns (r: Result<Slice, CipherError>)
    ensures src.Nil? ==> r == Ok(Nil)
    ensures src.Data? ==> r == match Opened(src.bytes, password)
                               case Ok(plain) => Ok(Data(plain))
                               case Err(InvalidMagic) => Err(InvalidMagic)
                               case _ => Err(DecryptionFailed)
  {
    hide DecryptByte;
    if src.Nil? {
      return Ok(Nil);
    }
    var code := CodeBytes(password);
    var sum := SumBytes(code);
    var addLen := sum % 5 + 2;
    var encIndex := sum % addLen;
    if !(MAGIC <= src.bytes) {
      return Err(InvalidMagic);
    }
    var data := src.bytes[|MAGIC|..];
    var dataLen := |data|;
    if dataLen < addLen {
      return Err(DecryptionFailed);
    }
    dataLen := dataLen - addLen;
    var buf := new Byte[dataLen](_ => 0);
    var i := 0;
    while i < dataLen
      invariant 0 <= i <= dataLen
      invariant forall k | 0 <= k < i :: buf[k] == DecryptByte(data[addLen + k], code, k, data[encIndex])
    {
      buf[i] := DecryptByte(data[addLen + i], code, i, data[encIndex]);
      i := i + 1;
    }
    assert buf[..] == DecryptFrom(data[addLen..], code, data[encIndex], 0);
    r := Ok(Data(buf[..]));
  }

  // The one-shot form gives back its input exactly when that is not the empty, non-nil slice,
  // which is passed through without a header.
  method EncryptThenDecrypt(src: Slice, password: seq<Byte>, randomBytes: seq<Byte>)
    returns (r: Result<Slice, CipherError>)
    requires |randomBytes| == AddLen(CodeBytes(password))
    ensures r == Ok(src) <==> src != Data([])
    ensures src == Data([]) ==> r == Err(InvalidMagic)
  {
    hide Sealed, Sum, AddLen;
    var sealed := EncryptData(src, password, randomBytes);
    r := DecryptData(sealed, password);
    if src.Data? && src.bytes != [] {
      OpenedSealed(src.bytes, password, randomBytes);
    }
  }

  // ---------------------------------------------------------------- streams

  // One answer of a reader: how many bytes it is willing to give, and whether it reports the
  // end together with the last bytes.
  datatype Turn = Turn(count: nat, early: bool)

  class Reader {
    var rest: seq<Byte>
    var turns: seq<Turn>

    constructor (rest: seq<Byte>, turns: seq<Turn>)
      ensures this.rest == rest && this.turns == turns
    {
      this.rest := rest;
      this.turns := turns;
    }

    method Read(max: nat) returns (chunk: seq<Byte>, eof: bool)
      requires max > 0
      modifies this
      ensures old(rest) == chunk + rest && |chunk| <= max
      ensures eof ==> rest == []
      ensures !eof ==> |rest| + |turns| < |old(rest)| + |old(turns)|
    {
      var n := |rest|;
      if |turns| > 0 && turns[0].count < n {
        n := turns[0].count;
      }
      if max < n {
        n := max;
      }
      chunk := rest[..n];
      if |turns| > 0 {
        eof := turns[0].early && n == |rest|;
        turns := turns[1..];
      } else {
        eof := rest == [];
      }
      rest := rest[n..];
    }

    // io.ReadFull
    method ReadFull(n: nat) returns (chunk: seq<Byte>, ok: bool)
      modifies this`rest
      ensures ok <==> |old(rest)| >= n
      ensures ok ==> |chunk| == n && old(rest) == chunk + rest
    {
      ok := |rest| >= n;
      if ok {
        chunk := rest[..n];
        rest := rest[n..];
      } else {
        chunk := rest;
        rest := [];
      }
    }
  }

  // Whatever pieces the reader gives, the output is the sealed form of the whole input.
  method EncryptStream(reader: Reader, password: seq<Byte>, randomBytes: seq<Byte>) returns (written: seq<Byte>)
    requires |randomBytes| == AddLen(CodeBytes(password))
    modifies reader
    ensures written == Sealed(old(reader.rest), password, randomBytes)
    ensures SealedAs(old(reader.rest), password, randomBytes, written)
  {
    hide EncryptFrom, Sum, SealedAs;
    SealedMeans(reader.rest, password, randomBytes);
    ghost var all := reader.rest;
    var code := CodeBytes(password);
    var sum := SumBytes(code);
    var addLen := sum % 5 + 2;
    var encIndex := sum % addLen;
    var idxByte := randomBytes[encIndex];
    written := MAGIC + randomBytes;
    ghost var head := written;
    ghost var done: seq<Byte> := [];
    NothingEncrypted(code, idxByte);
    var i := 0;
    var eof := false;
    while !eof
      invariant i == |done| && all == done + reader.rest
      invariant eof ==> reader.rest == []
      invariant written == head + EncryptFrom(done, code, idxByte, 0)
      decreases !eof, |reader.rest| + |reader.turns|
    {
      ghost var before := reader.rest;
      var chunk;
      chunk, eof := reader.Read(BUFFER_SIZE);
      var encBuf := EncryptChunk(chunk, code, i, idxByte);
      EncryptInPieces(done, chunk, code, idxByte, 0);
      Assoc(head, EncryptFrom(done, code, idxByte, 0), encBuf);
      Assoc(done, chunk, reader.rest);
      written := written + encBuf;
      i := i + |chunk|;
      done := done + chunk;
    }
    assert done == all;
  }

  lemma NothingEncrypted(code: seq<Byte>, idx: Byte)
    requires code != []
    ensures EncryptFrom([], code, idx, 0) == [] && DecryptFrom([], code, idx, 0) == []
  {
  }

  method EncryptChunk(chunk: seq<Byte>, code: seq<Byte>, i0: nat, idxByte: Byte) returns (encBuf: seq<Byte>)
    requires code != []
    ensures encBuf == EncryptFrom(chunk, code, idxByte, i0)
  {
    hide EncryptByte;
    var buf := new Byte[|chunk|](_ => 0);
    var i := i0;
    var j := 0;
    while j < |chunk|
      invariant 0 <= j <= |chunk| && i == i0 + j
      invariant forall k | 0 <= k < j :: buf[k] == EncryptByte(chunk[k], code, i0 + k, idxByte)
    {
      buf[j] := EncryptByte(chunk[j], code, i, idxByte);
      i := i + 1;
      j := j + 1;
    }
    encBuf := buf[..];
  }

  method DecryptChunk(chunk: seq<Byte>, code: seq<Byte>, i0: nat, idxByte: Byte) returns (decBuf: seq<Byte>)
    requires code != []
    ensures decBuf == DecryptFrom(chunk, code, idxByte, i0)
  {
    hide DecryptByte;
    var buf := new Byte[|chunk|](_ => 0);
    var i := i0;
    var j := 0;
    while j < |chunk|
      invariant 0 <= j <= |chunk| && i == i0 + j
      invariant forall k | 0 <= k < j :: buf[k] == DecryptByte(chunk[k], code, i0 + k, idxByte)
    {
      buf[j] := DecryptByte(chunk[j], code, i, idxByte);
      i := i + 1;
      j := j + 1;
    }
    decBuf := buf[..];
  }

  // Succeeds exactly where the one-shot form does, with the same bytes.
  method DecryptStream(reader: Reader, password: seq<Byte>) returns (r: Result<seq<Byte>, CipherError>)
    modifies reader
    ensures r.Ok? <==> Opened(old(reader.rest), password).Ok?
    ensures r.Ok? ==> r == Opened(old(reader.rest), password)
  {
    hide DecryptFrom, Sum;
    ghost var input := reader.rest;
    var code := CodeBytes(password);
    var sum := SumBytes(code);
    var addLen := sum % 5 + 2;
    var encIndex := sum % addLen;
    var header, ok := reader.ReadFull(|MAGIC|);
    if !ok {
      return Err(UnexpectedEnd);
    }
    if header != MAGIC {
      assert input[..|MAGIC|] == header;
      return Err(InvalidMagic);
    }
    var randomBytes;
    randomBytes, ok := reader.ReadFull(addLen);
    if !ok {
      return Err(UnexpectedEnd);
    }
    var body := DecryptRest(reader, code, randomBytes[encIndex]);
    r := Ok(body);
  }

  method DecryptRest(reader: Reader, code: seq<Byte>, idxByte: Byte) returns (written: seq<Byte>)
    requires code != []
    modifies reader
    ensures written == DecryptFrom(old(reader.rest), code, idxByte, 0)
  {
    hide DecryptFrom;
    ghost var all := reader.rest;
    ghost var done: seq<Byte> := [];
    NothingEncrypted(code, idxByte);
    written := [];
    var i := 0;
    var eof := false;
    while !eof
      invariant i == |done| && all == done + reader.rest
      invariant eof ==> reader.rest == []
      invariant written == DecryptFrom(done, code, idxByte, 0)
      decreases !eof, |reader.rest| + |reader.turns|
    {
      var chunk;
      chunk, eof := reader.Read(BUFFER_SIZE);
      var decBuf := DecryptChunk(chunk, code, i, idxByte);
      DecryptInPieces(done, chunk, code, idxByte, 0);
      Assoc(done, chunk, reader.rest);
      written := written + decBuf;
      i := i + |chunk|;
      done := done + chunk;
    }
    assert done == all;
  }

  // Each decrypter undoes each encrypter, for any way the readers cut the stream; the two
  // encrypters differ on the empty input alone, which the streaming form does seal.
  method EveryPair(data: seq<Byte>, password: seq<Byte>, randomBytes: seq<Byte>, turns: seq<Turn>, more: seq<Turn>)
    returns (oneShot: Slice, streamed: seq<Byte>, a: Result<Slice, CipherError>, b: Result<seq<Byte>, CipherError>)
    requires |randomBytes| == AddLen(CodeBytes(password))
    ensures oneShot == Data(streamed) <==> data != []
    ensures a == Ok(Data(data)) && b == Ok(data)
  {
    hide Sealed, Sum, AddLen, Opened;
    SealedLength(data, password, randomBytes);
    OpenedSealed(data, password, randomBytes);
    oneShot := EncryptData(Data(data), password, randomBytes);
    var plainReader := new Reader(data, turns);
    streamed := EncryptStream(plainReader, password, randomBytes);
    a := DecryptData(Data(streamed), password);
    var sealedReader := new Reader(streamed, more);
    b := DecryptStream(sealedReader, password);
  }

  lemma SealedLength(data: seq<Byte>, password: seq<Byte>, filler: seq<Byte>)
    requires |filler| == AddLen(CodeBytes(password))
    ensures |Sealed(data, password, filler)| > |data|
  {
    hide EncryptFrom, Sum;
  }
}
