/** CRC-32C (generator of section 12.1 of RFC 3720), bit by bit, and the damage it detects. */
module Crc32c {
  import opened Bytes

  const POLYNOMIAL: bv32 := 0x82f63b78

  /** One shift of the register: the polynomial is subtracted when a one leaves it. */
  function BitStep(crc: bv32): bv32
  {
    if crc & 1 == 1 then (crc >> 1) ^ POLYNOMIAL else crc >> 1
  }

  /** The branch-free form: the mask is all ones exactly when a one leaves the register. */
  lemma {:induction false} MaskedBitStep(crc: bv32)
    ensures (crc >> 1) ^ (POLYNOMIAL & (0 - (crc & 1))) == BitStep(crc)
  {
    if crc & 1 != 1 {
      assert crc & 1 == 0;
    }
  }

  function Steps(crc: bv32, n: nat): bv32
    decreases n
  {
    if n == 0 then crc else Steps(BitStep(crc), n - 1)
  }

  function Xor(x: bv32, y: bv32): bv32
  {
    x ^ y
  }

  function ToWord(b: byte): bv32
  {
    (b as bv8) as bv32
  }

  function Feed(crc: bv32, b: byte): bv32
  {
    Steps(Xor(crc, ToWord(b)), 8)
  }

  /** The register after all of b, starting from crc. */
  function Register(crc: bv32, b: Bytes): bv32
  {
    if b == [] then crc else Feed(Register(crc, b[..|b| - 1]), b[|b| - 1])
  }

  function Complement(crc: bv32): u32
  {
    (!crc) as int
  }

  function Crc(b: Bytes): u32
  {
    Complement(Register(0xffff_ffff, b))
  }

  lemma {:induction false} StepsBack(crc: bv32, n: nat)
    ensures Steps(crc, n + 1) == BitStep(Steps(crc, n))
    decreases n
  {
    if n > 0 {
      StepsBack(BitStep(crc), n - 1);
    }
  }

  /** One byte goes into the register: eight shifts. */
  method FeedByte(start: bv32, b: byte) returns (crc: bv32)
    ensures crc == Feed(start, b)
  {
    crc := start ^ ToWord(b);
    ghost var fed := crc;
    var bit: nat := 0;
    while bit < 8
      invariant bit <= 8 && crc == Steps(fed, bit)
    {
      StepsBack(fed, bit);
      MaskedBitStep(crc);
      crc := (crc >> 1) ^ (POLYNOMIAL & (0 - (crc & 1)));
      bit := bit + 1;
    }
  }

  method ComputeCrc(bytes: Bytes) returns (r: u32)
    ensures r == Crc(bytes)
  {
    var crc: bv32 := 0xffff_ffff;
    for i := 0 to |bytes|
      invariant crc == Register(0xffff_ffff, bytes[..i])
    {
      crc := FeedByte(crc, bytes[i]);
      assert bytes[..i + 1][..i] == bytes[..i];
    }
    assert bytes[..|bytes|] == bytes;
    r := Complement(crc);
  }

  lemma BitStepInjective(x: bv32, y: bv32)
    requires BitStep(x) == BitStep(y)
    ensures x == y
  {
  }

  function Half(x: bv32): bv32
  {
    x >> 1
  }

  predicate Even(x: bv32)
  {
    x & 1 == 0
  }

  lemma XorAssociative(x: bv32, y: bv32, z: bv32)
    ensures Xor(Xor(x, y), z) == Xor(x, Xor(y, z))
  {
  }

  lemma XorHalf(x: bv32, w: bv32)
    ensures Half(Xor(x, w)) == Xor(Half(x), Half(w))
  {
  }

  lemma XorEven(x: bv32, w: bv32)
    requires Even(w)
    ensures Even(Xor(x, w)) <==> Even(x)
  {
  }

  lemma XorCommutes(x: bv32, y: bv32)
    ensures Xor(x, y) == Xor(y, x)
  {
  }

  lemma {:induction false} BitStepByParity(x: bv32)
    ensures BitStep(x) == if Even(x) then Half(x) else Xor(Half(x), POLYNOMIAL)
  {
    if x & 1 != 1 {
      assert x & 1 == 0;
    }
  }

  /** A word with a clear low bit passes through one shift without meeting the polynomial. */
  lemma {:induction false} BitStepEven(x: bv32, w: bv32)
    requires Even(w)
    ensures BitStep(Xor(x, w)) == Xor(BitStep(x), Half(w))
  {
    hide *;
    BitStepByParity(x);
    BitStepByParity(Xor(x, w));
    XorHalf(x, w);
    XorEven(x, w);
    var h := Half(x);
    XorAssociative(h, Half(w), POLYNOMIAL);
    XorCommutes(Half(w), POLYNOMIAL);
    XorAssociative(h, POLYNOMIAL, Half(w));
  }

  lemma {:induction false} StepsInjective(x: bv32, y: bv32, n: nat)
    requires Steps(x, n) == Steps(y, n)
    ensures x == y
    decreases n
  {
    if n > 0 {
      StepsInjective(BitStep(x), BitStep(y), n - 1);
      BitStepInjective(x, y);
    }
  }

  /** One more shift of two registers that differ by a word whose low bit is clear. */
  lemma {:induction false} Advance(x: bv32, y: bv32, k: nat, w: bv32)
    requires Steps(y, k) == Xor(Steps(x, k), w) && Even(w)
    ensures Steps(y, k + 1) == Xor(Steps(x, k + 1), Half(w))
  {
    hide *;
    StepsBack(x, k);
    StepsBack(y, k);
    BitStepEven(Steps(x, k), w);
  }

  function HalfTimes(w: bv32, k: nat): bv32
  {
    if k == 0 then w else Half(HalfTimes(w, k - 1))
  }

  /** The k low bits of w are clear. */
  ghost predicate LowClear(w: bv32, k: nat)
  {
    forall i | 0 <= i < k :: Even(HalfTimes(w, i))
  }

  lemma {:induction false} AdvanceTimes(x: bv32, w: bv32, k: nat)
    requires LowClear(w, k)
    ensures Steps(Xor(x, w), k) == Xor(Steps(x, k), HalfTimes(w, k))
    decreases k
  {
    hide Even, Half, Xor, BitStep;
    if k > 0 {
      AdvanceTimes(x, w, k - 1);
      Advance(x, Xor(x, w), k - 1, HalfTimes(w, k - 1));
    }
  }

  function Up(v: bv32): bv32
  {
    v << 8
  }

  predicate TopByteClear(v: bv32)
  {
    v & 0xff00_0000 == 0
  }

  predicate OneByte(v: bv32)
  {
    v & 0xffff_ff00 == 0
  }

  function Twice(v: bv32): bv32
  {
    v << 1
  }

  predicate Room(v: bv32)
  {
    v & 0x8000_0000 == 0
  }

  lemma TwiceHalves(v: bv32)
    requires Room(v)
    ensures Even(Twice(v)) && Half(Twice(v)) == v
  {
  }

  lemma UpIsTwice(v: bv32)
    ensures Up(v) == Twice(Twice(Twice(Twice(Twice(Twice(Twice(Twice(v))))))))
  {
  }

  lemma RoomAbove(v: bv32)
    requires TopByteClear(v)
    ensures Room(v) && Room(Twice(v)) && Room(Twice(Twice(v))) && Room(Twice(Twice(Twice(v))))
    ensures var w := Twice(Twice(Twice(Twice(v))));
            Room(w) && Room(Twice(w)) && Room(Twice(Twice(w))) && Room(Twice(Twice(Twice(w))))
  {
  }

  lemma {:induction false} ChainClear(w8: bv32, w7: bv32, w6: bv32, w5: bv32, w4: bv32, w3: bv32, w2: bv32, w1: bv32, w0: bv32)
    requires Even(w8) && Half(w8) == w7 && Even(w7) && Half(w7) == w6
    requires Even(w6) && Half(w6) == w5 && Even(w5) && Half(w5) == w4
    requires Even(w4) && Half(w4) == w3 && Even(w3) && Half(w3) == w2
    requires Even(w2) && Half(w2) == w1 && Even(w1) && Half(w1) == w0
    ensures LowClear(w8, 8) && HalfTimes(w8, 8) == w0
  {
    hide Even, Half;
    assert HalfTimes(w8, 1) == w7;
    assert HalfTimes(w8, 2) == w6;
    assert HalfTimes(w8, 3) == w5;
    assert HalfTimes(w8, 4) == w4;
    assert HalfTimes(w8, 5) == w3;
    assert HalfTimes(w8, 6) == w2;
    assert HalfTimes(w8, 7) == w1;
    forall i | 0 <= i < 8
      ensures Even(HalfTimes(w8, i))
    {
      assert i == 0 || i == 1 || i == 2 || i == 3 || i == 4 || i == 5 || i == 6 || i == 7;
    }
  }

  lemma {:induction false} UpIsClear(v: bv32)
    requires TopByteClear(v)
    ensures LowClear(Up(v), 8) && HalfTimes(Up(v), 8) == v
  {
    hide *;
    UpIsTwice(v);
    RoomAbove(v);
    var v1 := Twice(v);
    var v2 := Twice(v1);
    var v3 := Twice(v2);
    var v4 := Twice(v3);
    var v5 := Twice(v4);
    var v6 := Twice(v5);
    var v7 := Twice(v6);
    TwiceHalves(v);
    TwiceHalves(v1);
    TwiceHalves(v2);
    TwiceHalves(v3);
    TwiceHalves(v4);
    TwiceHalves(v5);
    TwiceHalves(v6);
    TwiceHalves(v7);
    ChainClear(Twice(v7), v7, v6, v5, v4, v3, v2, v1, v);
  }

  function ByteStep(x: bv32): bv32
  {
    Steps(x, 8)
  }

  /** Bits above the low byte only move down under one byte's worth of shifts. */
  lemma {:induction false} MovesDown(x: bv32, v: bv32)
    requires TopByteClear(v)
    ensures ByteStep(Xor(x, Up(v))) == Xor(ByteStep(x), v)
  {
    hide *;
    UpIsClear(v);
    AdvanceTimes(x, Up(v), 8);
    ByteStepIsSteps(x);
    ByteStepIsSteps(Xor(x, Up(v)));
  }

  lemma ByteStepIsSteps(x: bv32)
    ensures ByteStep(x) == Steps(x, 8)
  {
  }

  lemma OneByteUp(v: bv32)
    requires OneByte(v)
    ensures TopByteClear(v) && TopByteClear(Up(v)) && TopByteClear(Up(Up(v)))
  {
  }

  function Word(s: bv32, a: bv32, b: bv32, c: bv32, d: bv32): bv32
  {
    Xor(Xor(Xor(Xor(s, a), Up(b)), Up(Up(c))), Up(Up(Up(d))))
  }

  /** Four bytes enter the register as one XORed word. */
  lemma {:induction false} FourBytesAsWord(s: bv32, a: bv32, b: bv32, c: bv32, d: bv32)
    requires OneByte(b) && OneByte(c) && OneByte(d)
    ensures ByteStep(Xor(ByteStep(Xor(ByteStep(Xor(ByteStep(Xor(s, a)), b)), c)), d))
         == ByteStep(ByteStep(ByteStep(ByteStep(Word(s, a, b, c, d)))))
  {
    hide OneByte, TopByteClear, Up, Xor, ByteStep;
    OneByteUp(b);
    OneByteUp(c);
    OneByteUp(d);
    var y1 := Xor(s, a);
    var y2 := Xor(y1, Up(b));
    var y3 := Xor(y2, Up(Up(c)));
    MovesDown(y1, b);
    MovesDown(y2, Up(c));
    MovesDown(ByteStep(y2), c);
    MovesDown(y3, Up(Up(d)));
    MovesDown(ByteStep(y3), Up(d));
    MovesDown(ByteStep(ByteStep(y3)), d);
  }

  lemma XorCancels(x: bv32, y: bv32, z: bv32)
    requires Xor(x, y) == Xor(x, z)
    ensures y == z
  {
  }

  function Pack(a: bv32, b: bv32, c: bv32, d: bv32): bv32
  {
    Xor(Xor(Xor(a, Up(b)), Up(Up(c))), Up(Up(Up(d))))
  }

  lemma {:induction false} WordIsPack(s: bv32, a: bv32, b: bv32, c: bv32, d: bv32)
    ensures Word(s, a, b, c, d) == Xor(s, Pack(a, b, c, d))
  {
    hide Xor, Up;
    XorAssociative(s, a, Up(b));
    XorAssociative(s, Xor(a, Up(b)), Up(Up(c)));
    XorAssociative(s, Xor(Xor(a, Up(b)), Up(Up(c))), Up(Up(Up(d))));
  }

  lemma Unpack(a: bv32, b: bv32, c: bv32, d: bv32)
    requires OneByte(a) && OneByte(b) && OneByte(c) && OneByte(d)
    ensures a == Pack(a, b, c, d) & 0xff
    ensures b == (Pack(a, b, c, d) >> 8) & 0xff
    ensures c == (Pack(a, b, c, d) >> 16) & 0xff
    ensures d == (Pack(a, b, c, d) >> 24) & 0xff
  {
  }

  lemma {:induction false} WordInjective(s: bv32, a: bv32, b: bv32, c: bv32, d: bv32, a': bv32, b': bv32, c': bv32, d': bv32)
    requires OneByte(a) && OneByte(b) && OneByte(c) && OneByte(d)
    requires OneByte(a') && OneByte(b') && OneByte(c') && OneByte(d')
    requires Word(s, a, b, c, d) == Word(s, a', b', c', d')
    ensures a == a' && b == b' && c == c' && d == d'
  {
    hide *;
    WordIsPack(s, a, b, c, d);
    WordIsPack(s, a', b', c', d');
    XorCancels(s, Pack(a, b, c, d), Pack(a', b', c', d'));
    Unpack(a, b, c, d);
    Unpack(a', b', c', d');
  }

  lemma {:induction false} ByteStepInjective(x: bv32, y: bv32)
    requires ByteStep(x) == ByteStep(y)
    ensures x == y
  {
    hide *;
    ByteStepIsSteps(x);
    ByteStepIsSteps(y);
    StepsInjective(x, y, 8);
  }

  lemma ToWordIsByte(b: byte)
    ensures OneByte(ToWord(b))
  {
  }

  lemma NarrowNext(x: bv8)
    requires x != 0xff
    ensures (x + 1) as int == x as int + 1
  {
  }

  lemma WidenNarrow(x: bv8)
    ensures (x as int) as bv8 == x
  {
  }

  lemma {:induction false} NarrowRoundTrip(n: nat)
    requires n < 0x100
    ensures (n as bv8) as int == n
  {
    if n == 0 {
      assert (0 as bv8) as int == 0;
    } else {
      NarrowRoundTrip(n - 1);
      var x := (n - 1) as bv8;
      assert x == 0xff ==> x as int == 0xff;
      NarrowNext(x);
      WidenNarrow(x + 1);
    }
  }

  lemma WidenInjective(x: bv8, y: bv8)
    requires x as bv32 == y as bv32
    ensures x == y
  {
  }

  lemma {:induction false} ToWordInjective(b: byte, c: byte)
    requires ToWord(b) == ToWord(c)
    ensures b == c
  {
    NarrowRoundTrip(b);
    NarrowRoundTrip(c);
    WidenInjective(b as bv8, c as bv8);
  }

  lemma IntRoundTrip(x: bv32)
    ensures (x as int) as bv32 == x
  {
  }

  lemma {:induction false} ComplementInjective(x: bv32, y: bv32)
    requires Complement(x) == Complement(y)
    ensures x == y
  {
    IntRoundTrip(!x);
    IntRoundTrip(!y);
    assert !x == !y;
  }

  // ---- the register over byte strings ----

  lemma {:induction false} FeedInjective(x: bv32, y: bv32, b: byte)
    requires Feed(x, b) == Feed(y, b)
    ensures x == y
  {
    var w := ToWord(b);
    assert ByteStep(Xor(x, w)) == ByteStep(Xor(y, w));
    hide *;
    ByteStepInjective(Xor(x, w), Xor(y, w));
    XorCommutes(x, w);
    XorCommutes(y, w);
    XorCancels(w, x, y);
  }

  lemma FeedIsByteStep(x: bv32, b: byte)
    ensures Feed(x, b) == ByteStep(Xor(x, ToWord(b)))
  {
  }

  lemma {:induction false} RegisterAppend(s: bv32, a: Bytes, b: Bytes)
    ensures Register(s, a + b) == Register(Register(s, a), b)
  {
    hide Feed;
    if b == [] {
      assert a + b == a;
    } else {
      assert (a + b)[..|a + b| - 1] == a + b[..|b| - 1];
      RegisterAppend(s, a, b[..|b| - 1]);
    }
  }

  lemma {:induction false} RegisterInjective(s: bv32, t: bv32, b: Bytes)
    requires Register(s, b) == Register(t, b)
    ensures s == t
    decreases |b|
  {
    hide Feed;
    if b != [] {
      var front := b[..|b| - 1];
      FeedInjective(Register(s, front), Register(t, front), b[|b| - 1]);
      RegisterInjective(s, t, front);
    }
  }

  lemma {:induction false} RegisterOfFour(s: bv32, m: Bytes)
    requires |m| == 4
    ensures Register(s, m) == ByteStep(ByteStep(ByteStep(ByteStep(
                                Word(s, ToWord(m[0]), ToWord(m[1]), ToWord(m[2]), ToWord(m[3]))))))
  {
    hide ByteStep, Xor, ToWord, Word, OneByte, Feed;
    var m3, m2, m1 := m[..3], m[..2], m[..1];
    assert m3[..2] == m2 && m2[..1] == m1 && m1[..0] == [];
    assert Register(s, m) == Feed(Register(s, m3), m[3]);
    assert Register(s, m3) == Feed(Register(s, m2), m[2]);
    assert Register(s, m2) == Feed(Register(s, m1), m[1]);
    assert Register(s, m1) == Feed(s, m[0]);
    FeedIsByteStep(s, m[0]);
    FeedIsByteStep(Register(s, m1), m[1]);
    FeedIsByteStep(Register(s, m2), m[2]);
    FeedIsByteStep(Register(s, m3), m[3]);
    ToWordIsByte(m[1]);
    ToWordIsByte(m[2]);
    ToWordIsByte(m[3]);
    FourBytesAsWord(s, ToWord(m[0]), ToWord(m[1]), ToWord(m[2]), ToWord(m[3]));
  }

  lemma {:induction false} FourBytesDetermined(s: bv32, m: Bytes, m': Bytes)
    requires |m| == |m'| == 4 && Register(s, m) == Register(s, m')
    ensures m == m'
  {
    hide *;
    RegisterOfFour(s, m);
    RegisterOfFour(s, m');
    var w := Word(s, ToWord(m[0]), ToWord(m[1]), ToWord(m[2]), ToWord(m[3]));
    var w' := Word(s, ToWord(m'[0]), ToWord(m'[1]), ToWord(m'[2]), ToWord(m'[3]));
    ByteStepInjective(ByteStep(ByteStep(ByteStep(w))), ByteStep(ByteStep(ByteStep(w'))));
    ByteStepInjective(ByteStep(ByteStep(w)), ByteStep(ByteStep(w')));
    ByteStepInjective(ByteStep(w), ByteStep(w'));
    ByteStepInjective(w, w');
    forall i | 0 <= i < 4
      ensures OneByte(ToWord(m[i])) && OneByte(ToWord(m'[i]))
    {
      ToWordIsByte(m[i]);
      ToWordIsByte(m'[i]);
    }
    WordInjective(s, ToWord(m[0]), ToWord(m[1]), ToWord(m[2]), ToWord(m[3]),
                  ToWord(m'[0]), ToWord(m'[1]), ToWord(m'[2]), ToWord(m'[3]));
    forall i | 0 <= i < 4
      ensures m[i] == m'[i]
    {
      ToWordInjective(m[i], m'[i]);
    }
  }

  predicate SameOutside(a: Bytes, b: Bytes, w: nat)
  {
    |a| == |b| && forall i | 0 <= i < |a| :: !(w <= i < w + 4) ==> a[i] == b[i]
  }

  /** The register after strings that agree outside a whole four-byte window settles the window. */
  lemma {:induction false} WindowDetermined(s: bv32, a: Bytes, b: Bytes, w: nat)
    requires SameOutside(a, b, w) && w + 4 <= |a|
    requires Register(s, a) == Register(s, b)
    ensures a == b
  {
    hide Register;
    var pre, rest := a[..w], a[w + 4..];
    var m, m' := a[w..w + 4], b[w..w + 4];
    assert b[..w] == pre && b[w + 4..] == rest;
    assert a == pre + m + rest && b == pre + m' + rest;
    RegisterAppend(s, pre + m, rest);
    RegisterAppend(s, pre + m', rest);
    RegisterAppend(s, pre, m);
    RegisterAppend(s, pre, m');
    RegisterInjective(Register(s, pre + m), Register(s, pre + m'), rest);
    FourBytesDetermined(Register(s, pre), m, m');
  }

  lemma {:induction false} BurstDetermined(a: Bytes, b: Bytes, w: nat)
    requires SameOutside(a, b, w) && Crc(a) == Crc(b)
    ensures a == b
  {
    hide Register, Complement;
    ComplementInjective(Register(0xffff_ffff, a), Register(0xffff_ffff, b));
    var pad: Bytes := seq(if w + 4 <= |a| then 0 else w + 4 - |a|, _ => 0);
    RegisterAppend(0xffff_ffff, a, pad);
    RegisterAppend(0xffff_ffff, b, pad);
    WindowDetermined(0xffff_ffff, a + pad, b + pad, w);
    assert a == (a + pad)[..|a|] && b == (b + pad)[..|b|];
  }

  /** Every error burst inside four consecutive bytes changes the checksum. */
  lemma {:induction false} BurstDetected(a: Bytes, b: Bytes, w: nat)
    requires SameOutside(a, b, w) && a != b
    ensures Crc(a) != Crc(b)
  {
    if Crc(a) == Crc(b) {
      BurstDetermined(a, b, w);
    }
  }

  lemma {:induction false} SingleByteDetected(a: Bytes, i: nat, x: byte)
    requires i < |a| && a[i] != x
    ensures Crc(a) != Crc(a[i := x])
  {
    BurstDetected(a, a[i := x], i);
  }

  // ---- a known checksum ----

  /** The nine characters 1 to 9. */
  const CHECK_INPUT: Bytes := [49, 50, 51, 52, 53, 54, 55, 56, 57]

  lemma FedBytes()
    ensures Feed(0xffffffff, 49) == 0x6f0a661c
    ensures Feed(0x6f0a661c, 50) == 0x8caa3b9f
    ensures Feed(0x8caa3b9f, 51) == 0xef84d04d
    ensures Feed(0xef84d04d, 52) == 0x09c50b11
    ensures Feed(0x09c50b11, 53) == 0xe72edcca
    ensures Feed(0xe72edcca, 54) == 0xbeca8e79
    ensures Feed(0xbeca8e79, 55) == 0xedbd6815
    ensures Feed(0xedbd6815, 56) == 0x9f787f65
    ensures Feed(0x9f787f65, 57) == 0x1cf96d7c
  {
  }

  lemma {:induction false} RegisterNext(crc: bv32, b: Bytes, k: nat)
    requires k < |b|
    ensures Register(crc, b[..k + 1]) == Feed(Register(crc, b[..k]), b[k])
  {
    assert b[..k + 1][..k] == b[..k];
  }

  /** The check value by which implementations of CRC-32C are told: the checksum of 1 to 9. */
  lemma {:induction false} CheckValue()
    ensures Crc(CHECK_INPUT) == 0xe306_9283
  {
    hide Register, Feed;
    var b := CHECK_INPUT;
    FedBytes();
    RegisterOfNone(b);
    RegisterNext(0xffff_ffff, b, 0);
    RegisterNext(0xffff_ffff, b, 1);
    RegisterNext(0xffff_ffff, b, 2);
    RegisterNext(0xffff_ffff, b, 3);
    RegisterNext(0xffff_ffff, b, 4);
    RegisterNext(0xffff_ffff, b, 5);
    RegisterNext(0xffff_ffff, b, 6);
    RegisterNext(0xffff_ffff, b, 7);
    RegisterNext(0xffff_ffff, b, 8);
    assert b[..9] == b;
  }

  lemma RegisterOfNone(b: Bytes)
    ensures Register(0xffff_ffff, b[..0]) == 0xffff_ffff
  {
  }
}
