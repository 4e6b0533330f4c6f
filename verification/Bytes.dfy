/** Byte strings and the little-endian integers of the OGR format. */
module Bytes {

  type byte = b: int | 0 <= b < 0x100
  type Bytes = seq<byte>

  type u16 = x: int | 0 <= x < 0x1_0000
  type u32 = x: int | 0 <= x < 0x1_0000_0000
  type u64 = x: int | 0 <= x < 0x1_0000_0000_0000_0000
  type i64 = x: int | -0x8000_0000_0000_0000 <= x < 0x8000_0000_0000_0000

  const TWO_64 := 0x1_0000_0000_0000_0000

  /** 256 to the power n: the number of values an n-byte field can hold. */
  function Capacity(n: nat): (c: nat)
    ensures c > 0
  {
    if n == 0 then 1 else 256 * Capacity(n - 1)
  }

  lemma {:induction false} CapacityValues()
    ensures Capacity(1) == 0x100
    ensures Capacity(2) == 0x1_0000
    ensures Capacity(4) == 0x1_0000_0000
    ensures Capacity(8) == TWO_64
  {
    assert Capacity(3) == 256 * Capacity(2);
    assert Capacity(5) == 256 * Capacity(4);
    assert Capacity(6) == 256 * Capacity(5);
    assert Capacity(7) == 256 * Capacity(6);
  }

  /** The n low-order bytes of v, least significant first. */
  function LittleEndian(v: nat, n: nat): (r: Bytes)
    ensures |r| == n
  {
    if n == 0 then [] else [v % 256] + LittleEndian(v / 256, n - 1)
  }

  function FromLittleEndian(b: Bytes): (v: nat)
    ensures v < Capacity(|b|)
  {
    if b == [] then 0 else b[0] + 256 * FromLittleEndian(b[1..])
  }

  lemma {:induction false} LittleEndianRoundTrip(v: nat, n: nat)
    requires v < Capacity(n)
    ensures FromLittleEndian(LittleEndian(v, n)) == v
  {
    if n > 0 {
      LittleEndianRoundTrip(v / 256, n - 1);
      assert LittleEndian(v, n)[1..] == LittleEndian(v / 256, n - 1);
    }
  }

  lemma {:induction false} LittleEndianOnto(b: Bytes)
    ensures LittleEndian(FromLittleEndian(b), |b|) == b
  {
    if b != [] {
      var rest, v := b[1..], FromLittleEndian(b[1..]);
      LittleEndianOnto(rest);
      assert FromLittleEndian(b) == b[0] + 256 * v;
      assert FromLittleEndian(b) % 256 == b[0] && FromLittleEndian(b) / 256 == v;
      assert b == [b[0]] + rest;
    }
  }

  /** v >> 8k. */
  function ShiftBytes(v: nat, k: nat): nat
  {
    if k == 0 then v else ShiftBytes(v / 256, k - 1)
  }

  lemma {:induction false} LittleEndianPushBack(v: nat, n: nat)
    ensures LittleEndian(v, n + 1) == LittleEndian(v, n) + [ShiftBytes(v, n) % 256]
  {
    if n > 0 {
      LittleEndianPushBack(v / 256, n - 1);
    }
  }

  lemma MulShift(x: int, c: int)
    ensures x * (256 * c) == 256 * (x * c)
  {
  }

  lemma {:induction false} FromLittleEndianPushBack(b: Bytes, x: byte)
    ensures FromLittleEndian(b + [x]) == FromLittleEndian(b) + x * Capacity(|b|)
  {
    if b == [] {
      assert b + [x] == [x];
    } else {
      FromLittleEndianPushBack(b[1..], x);
      assert (b + [x])[1..] == b[1..] + [x];
      assert x * Capacity(|b|) == 256 * (x * Capacity(|b| - 1)) by {
        MulShift(x, Capacity(|b| - 1));
      }
    }
  }

  /** The unsigned 64-bit pattern of a signed integer, and back. */
  function ToUnsigned(v: i64): u64
  {
    if v < 0 then v + TWO_64 else v
  }

  function ToSigned(raw: u64): i64
  {
    if raw < 0x8000_0000_0000_0000 then raw else raw - TWO_64
  }

  /** The bytes from offset o on begin with e. */
  predicate At(bytes: Bytes, o: nat, e: Bytes)
  {
    o + |e| <= |bytes| && bytes[o..o + |e|] == e
  }

  lemma {:induction false} AtSplit(bytes: Bytes, o: nat, a: Bytes, b: Bytes)
    ensures At(bytes, o, a + b) <==> At(bytes, o, a) && At(bytes, o + |a|, b)
  {
    var m := o + |a|;
    if At(bytes, o, a + b) {
      assert bytes[o..m] == bytes[o..m + |b|][..|a|];
      assert bytes[m..m + |b|] == bytes[o..m + |b|][|a|..];
    }
    if At(bytes, o, a) && At(bytes, m, b) {
      assert bytes[o..m + |b|] == bytes[o..m] + bytes[m..m + |b|];
    }
  }

  lemma ConcatAssociative(a: Bytes, b: Bytes, c: Bytes)
    ensures a + (b + c) == (a + b) + c
  {
  }
}
