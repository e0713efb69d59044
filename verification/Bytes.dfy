// Fixed-width little-endian integers, the byte layer under every on-disk format.

module Bytes {

  type Byte = x: int | 0 <= x < 256

  type UInt16 = x: int | 0 <= x < 0x1_0000
  type UInt32 = x: int | 0 <= x < 0x1_0000_0000
  type UInt64 = x: int | 0 <= x < 0x1_0000_0000_0000_0000

  // The lowest `width` bytes of `n`, least significant first. Converting to a fixed
  // width drops the high part, as Go's unsigned conversions do.
  function LE(n: nat, width: nat): (b: seq<Byte>)
    ensures |b| == width
  {
    if width == 0 then [] else [n % 256] + LE(n / 256, width - 1)
  }

  function UnLE(b: seq<Byte>): nat {
    if b == [] then 0 else b[0] + 256 * UnLE(b[1..])
  }

  function Pow256(width: nat): (p: nat)
    ensures p >= 1
  {
    if width == 0 then 1 else 256 * Pow256(width - 1)
  }

  const U16: nat := 0x1_0000
  const U32: nat := 0x1_0000_0000
  const U64: nat := 0x1_0000_0000_0000_0000

  lemma PowersOf256()
    ensures Pow256(2) == U16 && Pow256(4) == U32 && Pow256(8) == U64
  {
    assert Pow256(2) == 256 * 256;
    assert Pow256(4) == 256 * 256 * Pow256(2);
    assert Pow256(6) == 256 * 256 * Pow256(4);
    assert Pow256(8) == 256 * 256 * Pow256(6);
  }

  lemma {:induction false} UnLEOfLE(n: nat, width: nat)
    requires n < Pow256(width)
    ensures UnLE(LE(n, width)) == n
  {
    if width > 0 {
      UnLEOfLE(n / 256, width - 1);
      assert LE(n, width)[1..] == LE(n / 256, width - 1);
    }
  }

  lemma {:induction false} UnLEBound(b: seq<Byte>)
    ensures UnLE(b) < Pow256(|b|)
  {
    if b != [] {
      UnLEBound(b[1..]);
    }
  }

  // Bytes are the little-endian form of the number they encode.
  lemma {:induction false} LEOfUnLE(b: seq<Byte>)
    ensures LE(UnLE(b), |b|) == b
  {
    if b != [] {
      var n := UnLE(b);
      LEOfUnLE(b[1..]);
      assert n % 256 == b[0] && n / 256 == UnLE(b[1..]);
      assert b == [b[0]] + b[1..];
    }
  }

  // Least significant byte first.
  lemma {:induction false} LEByte(n: nat, width: nat, i: nat)
    requires i < width
    ensures LE(n, width)[i] == n / Pow256(i) % 256
  {
    if i > 0 {
      LEByte(n / 256, width - 1, i - 1);
      DivTwice(n, 256, Pow256(i - 1));
    }
  }

  lemma DivTwice(n: nat, a: nat, b: nat)
    requires a > 0 && b > 0
    ensures a * b > 0 && n / a / b == n / (a * b)
  {
    var q, r, s := n / a / b, n / a % b, n % a;
    Division(n, a);
    Division(n / a, b);
    Regroup(q, b, r, a, s);
    QuotientIs(n, a * b, q, r * a + s);
  }

  lemma Division(n: nat, d: nat)
    requires d > 0
    ensures n == (n / d) * d + n % d
  {
  }

  lemma Regroup(q: nat, b: nat, r: nat, a: nat, s: nat)
    requires r < b && s < a
    ensures (q * b + r) * a + s == q * (a * b) + (r * a + s)
    ensures a * b > 0 && r * a + s < a * b
  {
    TimesGrows(r + 1, b, a);
  }

  lemma QuotientIs(n: nat, d: nat, q: nat, r: nat)
    requires d > 0 && n == q * d + r && r < d
    ensures n / d == q
  {
    var x := n / d;
    assert n == x * d + n % d;
    if x < q {
      TimesGrows(x + 1, q, d);
    }
    if q < x {
      TimesGrows(q + 1, x, d);
    }
  }

  lemma TimesGrows(a: nat, b: nat, d: nat)
    requires a <= b
    ensures a * d <= b * d && a * d == (a - 1) * d + d
  {
    assert (b - a) * d >= 0;
  }

  // Reading an unsigned integer back from its fixed-width bytes.
  function GetU16(b: seq<Byte>): UInt16
    requires |b| == 2
  {
    UnLEBound(b);
    PowersOf256();
    UnLE(b)
  }

  function GetU32(b: seq<Byte>): UInt32
    requires |b| == 4
  {
    UnLEBound(b);
    PowersOf256();
    UnLE(b)
  }

  function GetU64(b: seq<Byte>): UInt64
    requires |b| == 8
  {
    UnLEBound(b);
    PowersOf256();
    UnLE(b)
  }

  // Where the middle part of a concatenation lies.
  lemma Middle<T>(a: seq<T>, b: seq<T>, c: seq<T>)
    ensures (a + b + c)[|a|..|a| + |b|] == b
    ensures (a + b + c)[|a| + |b|..] == c
  {
  }

  lemma Assoc<T>(a: seq<T>, b: seq<T>, c: seq<T>)
    ensures a + b + c == a + (b + c)
  {
  }

  lemma U16RoundTrip(n: nat)
    requires n < U16
    ensures UnLE(LE(n, 2)) == n
  {
    PowersOf256();
    UnLEOfLE(n, 2);
  }

  lemma U32RoundTrip(n: nat)
    requires n < U32
    ensures UnLE(LE(n, 4)) == n
  {
    PowersOf256();
    UnLEOfLE(n, 4);
  }

  lemma U64RoundTrip(n: nat)
    requires n < U64
    ensures UnLE(LE(n, 8)) == n
  {
    PowersOf256();
    UnLEOfLE(n, 8);
  }
}
