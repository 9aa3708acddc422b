/** The reflected CRC-32 of the image format and the error bursts it is bound to detect
    (the CRC of section 8 of RFC 1952). */
module Crc {
  import opened Base

  const POLYNOMIAL: bv32 := 0xedb88320

  /** One pass of the inner loop: shift right, and fold the polynomial in when a one falls out. */
  function BitStep(c: bv32): bv32 {
    (c >> 1) ^ (if c & 1 == 1 then POLYNOMIAL else 0)
  }

  function ByteShift(c: bv32): bv32 {
    BitStep(BitStep(BitStep(BitStep(BitStep(BitStep(BitStep(BitStep(c))))))))
  }

  function Bits(b: byte): bv8 {
    b as bv8
  }

  function Word(b: byte): bv32 {
    Bits(b) as bv32
  }

  function ByteStep(c: bv32, b: byte): bv32 {
    ByteShift(Xor(c, Word(b)))
  }

  /** The running value after the bytes of `data`, started at `c`. */
  function Register(c: bv32, data: seq<byte>): bv32
    decreases |data|
  {
    if data == [] then c else Register(ByteStep(c, data[0]), data[1..])
  }

  function Crc32(data: seq<byte>): u32 {
    Finish(Register(0xffffffff, data))
  }

  function Finish(c: bv32): u32 {
    ToInt(!c)
  }

  function ToInt(v: bv32): u32 {
    v as int
  }

  method ComputeCrc32(data: seq<byte>) returns (checksum: u32)
    ensures checksum == Crc32(data)
  {
    hide BitStep, ByteShift, Xor, Word, Finish;
    var running: bv32 := 0xffffffff;
    var index := 0;
    while index < |data|
      invariant 0 <= index <= |data|
      invariant Register(running, data[index..]) == Register(0xffffffff, data)
    {
      ghost var before := running;
      running := Xor(running, Word(data[index]));
      var bit := 0;
      while bit < 8
        invariant 0 <= bit <= 8
        invariant running == Steps(Xor(before, Word(data[index])), bit)
      {
        running := BitStep(running);
        bit := bit + 1;
      }
      EightSteps(Xor(before, Word(data[index])));
      assert data[index..][1..] == data[index + 1..];
      index := index + 1;
    }
    return Finish(running);
  }

  function Steps(c: bv32, n: nat): bv32 {
    if n == 0 then c else BitStep(Steps(c, n - 1))
  }

  lemma EightSteps(c: bv32)
    ensures Steps(c, 8) == ByteShift(c)
  {
    hide BitStep;
    assert Steps(c, 1) == BitStep(Steps(c, 0));
    assert Steps(c, 2) == BitStep(Steps(c, 1));
    assert Steps(c, 3) == BitStep(Steps(c, 2));
    assert Steps(c, 4) == BitStep(Steps(c, 3));
    assert Steps(c, 5) == BitStep(Steps(c, 4));
    assert Steps(c, 6) == BitStep(Steps(c, 5));
    assert Steps(c, 7) == BitStep(Steps(c, 6));
  }

  // ----- The bit step is a linear bijection of 32-bit states -----

  function Xor(a: bv32, b: bv32): bv32 {
    a ^ b
  }

  /** The same byte, eight bits higher. */
  function Up(y: bv32): bv32 {
    y << 8
  }

  lemma BitStepInjective(a: bv32, b: bv32)
    requires BitStep(a) == BitStep(b)
    ensures a == b
  {
  }

  lemma XorShift(a: bv32, b: bv32)
    ensures (a ^ b) >> 1 == (a >> 1) ^ (b >> 1)
    ensures (a ^ b) & 1 == (a & 1) ^ (b & 1)
    ensures a & 1 == 0 || a & 1 == 1
    ensures b & 1 == 0 || b & 1 == 1
  {
  }

  lemma XorCancel(a: bv32, b: bv32, p: bv32)
    ensures (a ^ p) ^ (b ^ p) == a ^ b
    ensures (a ^ p) ^ b == (a ^ b) ^ p
    ensures a ^ (b ^ p) == (a ^ b) ^ p
  {
  }

  lemma XorAssociate(a: bv32, b: bv32, c: bv32)
    ensures Xor(Xor(a, b), c) == Xor(a, Xor(b, c))
  {
  }

  lemma XorInjective(c: bv32, p: bv32, q: bv32)
    ensures Xor(c, p) == Xor(c, q) ==> p == q
    ensures Xor(p, c) == Xor(q, c) ==> p == q
  {
  }

  lemma BitStepLinearBits(a: bv32, b: bv32)
    ensures BitStep(a ^ b) == BitStep(a) ^ BitStep(b)
  {
    XorShift(a, b);
    XorCancel(a >> 1, b >> 1, POLYNOMIAL);
  }

  lemma BitStepLinear(a: bv32, b: bv32)
    ensures BitStep(Xor(a, b)) == Xor(BitStep(a), BitStep(b))
  {
    hide BitStep;
    BitStepLinearBits(a, b);
  }

  lemma ByteShiftLinear(a: bv32, b: bv32)
    ensures ByteShift(Xor(a, b)) == Xor(ByteShift(a), ByteShift(b))
  {
    hide BitStep, Xor;
    var x, y := a, b;
    BitStepLinear(x, y); x, y := BitStep(x), BitStep(y);
    BitStepLinear(x, y); x, y := BitStep(x), BitStep(y);
    BitStepLinear(x, y); x, y := BitStep(x), BitStep(y);
    BitStepLinear(x, y); x, y := BitStep(x), BitStep(y);
    BitStepLinear(x, y); x, y := BitStep(x), BitStep(y);
    BitStepLinear(x, y); x, y := BitStep(x), BitStep(y);
    BitStepLinear(x, y); x, y := BitStep(x), BitStep(y);
    BitStepLinear(x, y);
  }

  lemma ByteShiftInjective(a: bv32, b: bv32)
    requires ByteShift(a) == ByteShift(b)
    ensures a == b
  {
    hide BitStep;
    var a1, b1 := BitStep(a), BitStep(b);
    var a2, b2 := BitStep(a1), BitStep(b1);
    var a3, b3 := BitStep(a2), BitStep(b2);
    var a4, b4 := BitStep(a3), BitStep(b3);
    var a5, b5 := BitStep(a4), BitStep(b4);
    var a6, b6 := BitStep(a5), BitStep(b5);
    var a7, b7 := BitStep(a6), BitStep(b6);
    BitStepInjective(a7, b7);
    BitStepInjective(a6, b6);
    BitStepInjective(a5, b5);
    BitStepInjective(a4, b4);
    BitStepInjective(a3, b3);
    BitStepInjective(a2, b2);
    BitStepInjective(a1, b1);
    BitStepInjective(a, b);
  }

  predicate Even(x: bv32) {
    x & 1 == 0
  }

  function Half(x: bv32): bv32 {
    x >> 1
  }

  /** A zero bit falls out without touching the rest of the register. */
  lemma ZeroBitDrops(x: bv32)
    requires Even(x)
    ensures BitStep(x) == Half(x)
  {
  }

  lemma HalfDownEight(y: bv32)
    requires y <= 0xff_ffff
    ensures Even(Up(y)) && Even(Half(Up(y))) && Even(Half(Half(Up(y))))
    ensures Even(Half(Half(Half(Up(y))))) && Even(Half(Half(Half(Half(Up(y))))))
    ensures Even(Half(Half(Half(Half(Half(Up(y)))))))
    ensures Even(Half(Half(Half(Half(Half(Half(Up(y))))))))
    ensures Even(Half(Half(Half(Half(Half(Half(Half(Up(y)))))))))
    ensures Half(Half(Half(Half(Half(Half(Half(Half(Up(y))))))))) == y
  {
  }

  /** Bits above the low eight survive a whole byte shift unchanged, eight places lower. */
  lemma HighBitsDrop(y: bv32)
    requires y <= 0xff_ffff
    ensures ByteShift(Up(y)) == y
  {
    hide BitStep, Half, Even, Up;
    HalfDownEight(y);
    var x := Up(y);
    ZeroBitDrops(x); x := Half(x);
    ZeroBitDrops(x); x := Half(x);
    ZeroBitDrops(x); x := Half(x);
    ZeroBitDrops(x); x := Half(x);
    ZeroBitDrops(x); x := Half(x);
    ZeroBitDrops(x); x := Half(x);
    ZeroBitDrops(x); x := Half(x);
    ZeroBitDrops(x);
  }

  // ----- Equal states stay equal, different states stay different -----

  lemma {:induction false} RegisterConcat(c: bv32, left: seq<byte>, right: seq<byte>)
    ensures Register(c, left + right) == Register(Register(c, left), right)
    decreases |left|
  {
    hide ByteStep;
    if left == [] {
      assert left + right == right;
    } else {
      assert (left + right)[1..] == left[1..] + right;
      RegisterConcat(ByteStep(c, left[0]), left[1..], right);
    }
  }

  lemma {:induction false} RegisterInjective(a: bv32, b: bv32, data: seq<byte>)
    requires Register(a, data) == Register(b, data)
    ensures a == b
    decreases |data|
  {
    hide ByteShift, Word, Xor;
    if data != [] {
      RegisterInjective(ByteStep(a, data[0]), ByteStep(b, data[0]), data[1..]);
      ByteShiftInjective(Xor(a, Word(data[0])), Xor(b, Word(data[0])));
      XorInjective(Word(data[0]), a, b);
    }
  }

  // ----- Four bytes at a time -----

  /** Four bytes as the word the register sees, first byte lowest. */
  function Packed(b0: byte, b1: byte, b2: byte, b3: byte): bv32 {
    Xor(Word(b0), Up(Xor(Word(b1), Up(Xor(Word(b2), Up(Word(b3)))))))
  }

  lemma BitsRoundTrip(b: byte)
    ensures Bits(b) as int == b
  {
    assert b % 256 == b;
  }

  lemma BitsInjective(b: byte, c: byte)
    ensures Bits(b) == Bits(c) ==> b == c
  {
    hide Bits;
    BitsRoundTrip(b);
    BitsRoundTrip(c);
  }

  lemma PackedInjective(b0: byte, b1: byte, b2: byte, b3: byte, c0: byte, c1: byte, c2: byte, c3: byte)
    requires Packed(b0, b1, b2, b3) == Packed(c0, c1, c2, c3)
    ensures b0 == c0 && b1 == c1 && b2 == c2 && b3 == c3
  {
    hide Bits, Xor, Up;
    PackedBits(Bits(b0), Bits(b1), Bits(b2), Bits(b3), Bits(c0), Bits(c1), Bits(c2), Bits(c3));
    BitsInjective(b0, c0);
    BitsInjective(b1, c1);
    BitsInjective(b2, c2);
    BitsInjective(b3, c3);
  }

  function PackBits(b0: bv8, b1: bv8, b2: bv8, b3: bv8): bv32 {
    Xor(b0 as bv32, Up(Xor(b1 as bv32, Up(Xor(b2 as bv32, Up(b3 as bv32))))))
  }

  lemma PackedBits(b0: bv8, b1: bv8, b2: bv8, b3: bv8, c0: bv8, c1: bv8, c2: bv8, c3: bv8)
    requires PackBits(b0, b1, b2, b3) == PackBits(c0, c1, c2, c3)
    ensures b0 == c0 && b1 == c1 && b2 == c2 && b3 == c3
  {
  }

  lemma PackBounds(b1: byte, b2: byte, b3: byte)
    ensures Word(b3) <= 0xff_ffff
    ensures Xor(Word(b2), Up(Word(b3))) <= 0xff_ffff
    ensures Xor(Word(b1), Up(Xor(Word(b2), Up(Word(b3))))) <= 0xff_ffff
  {
    hide Bits, Xor, Up;
    var c1, c2, c3 := Bits(b1), Bits(b2), Bits(b3);
    assert Word(b1) == c1 as bv32 && Word(b2) == c2 as bv32 && Word(b3) == c3 as bv32;
    hide Word;
    PackBoundsBits(c1, c2, c3);
  }

  lemma PackBoundsBits(b1: bv8, b2: bv8, b3: bv8)
    ensures (b3 as bv32) <= 0xff_ffff
    ensures Xor(b2 as bv32, Up(b3 as bv32)) <= 0xff_ffff
    ensures Xor(b1 as bv32, Up(Xor(b2 as bv32, Up(b3 as bv32)))) <= 0xff_ffff
  {
  }

  /** Feeding bits after a byte shift is feeding them eight places higher before it. */
  lemma FeedEarlier(x: bv32, y: bv32)
    requires y <= 0xff_ffff
    ensures Xor(ByteShift(x), y) == ByteShift(Xor(x, Up(y)))
  {
    hide ByteShift, Xor, Up;
    ByteShiftLinear(x, Up(y));
    HighBitsDrop(y);
  }

  function ShiftFour(c: bv32): bv32 {
    ByteShift(ByteShift(ByteShift(ByteShift(c))))
  }

  lemma FourSteps(c: bv32, b0: byte, b1: byte, b2: byte, b3: byte)
    ensures Register(c, [b0, b1, b2, b3]) == ShiftFour(Xor(c, Packed(b0, b1, b2, b3)))
  {
    hide ByteShift, Word, Register, Xor, Up;
    UnrollFour(c, b0, b1, b2, b3);
    PackBounds(b1, b2, b3);
    var y3 := Word(b3);
    var y2 := Xor(Word(b2), Up(y3));
    var y1 := Xor(Word(b1), Up(y2));
    var s1 := ByteStep(c, b0);
    var s2 := ByteStep(s1, b1);
    FeedEarlier(Xor(s2, Word(b2)), y3);
    XorAssociate(s2, Word(b2), Up(y3));
    FeedEarlier(Xor(s1, Word(b1)), y2);
    XorAssociate(s1, Word(b1), Up(y2));
    FeedEarlier(Xor(c, Word(b0)), y1);
    XorAssociate(c, Word(b0), Up(y1));
  }

  lemma UnrollFour(c: bv32, b0: byte, b1: byte, b2: byte, b3: byte)
    ensures Register(c, [b0, b1, b2, b3]) == ByteStep(ByteStep(ByteStep(ByteStep(c, b0), b1), b2), b3)
  {
    hide ByteStep;
    RegisterOne(c, b0, [b1, b2, b3]);
    RegisterOne(ByteStep(c, b0), b1, [b2, b3]);
    RegisterOne(ByteStep(ByteStep(c, b0), b1), b2, [b3]);
    RegisterOne(ByteStep(ByteStep(ByteStep(c, b0), b1), b2), b3, []);
  }

  lemma RegisterOne(c: bv32, b: byte, rest: seq<byte>)
    ensures Register(c, [b] + rest) == Register(ByteStep(c, b), rest)
  {
    hide ByteStep;
    assert ([b] + rest)[1..] == rest;
  }

  lemma BurstOfFour(c: bv32, left: seq<byte>, right: seq<byte>)
    requires |left| == |right| == 4 && left != right
    ensures Register(c, left) != Register(c, right)
  {
    hide ByteShift, Packed, Register, Xor;
    assert left == [left[0], left[1], left[2], left[3]];
    assert right == [right[0], right[1], right[2], right[3]];
    FourSteps(c, left[0], left[1], left[2], left[3]);
    FourSteps(c, right[0], right[1], right[2], right[3]);
    if Register(c, left) == Register(c, right) {
      var p := Packed(left[0], left[1], left[2], left[3]);
      var q := Packed(right[0], right[1], right[2], right[3]);
      var x, y := Xor(c, p), Xor(c, q);
      ByteShiftInjective(ByteShift(ByteShift(ByteShift(x))), ByteShift(ByteShift(ByteShift(y))));
      ByteShiftInjective(ByteShift(ByteShift(x)), ByteShift(ByteShift(y)));
      ByteShiftInjective(ByteShift(x), ByteShift(y));
      ByteShiftInjective(x, y);
      XorInjective(c, p, q);
      PackedInjective(left[0], left[1], left[2], left[3], right[0], right[1], right[2], right[3]);
    }
  }

  /** Two blocks of the same length that differ, and only inside four consecutive bytes. */
  predicate Burst(left: seq<byte>, right: seq<byte>, at: nat) {
    && |left| == |right|
    && left != right
    && forall i :: 0 <= i < |left| && left[i] != right[i] ==> at <= i < at + 4
  }

  lemma FinishInjective(a: bv32, b: bv32)
    requires Finish(a) == Finish(b)
    ensures a == b
  {
    FromInt(!a);
    FromInt(!b);
    assert !!a == a && !!b == b;
  }

  lemma FromInt(v: bv32)
    ensures ToInt(v) as bv32 == v
  {
  }

  lemma LongBurstDetected(left: seq<byte>, right: seq<byte>, at: nat)
    requires Burst(left, right, at) && at + 4 <= |left|
    ensures Register(0xffffffff, left) != Register(0xffffffff, right)
  {
    hide Register;
    var start := 0xffffffff as bv32;
    assert left == left[..at] + (left[at..at + 4] + left[at + 4..]);
    assert right == right[..at] + (right[at..at + 4] + right[at + 4..]);
    assert left[..at] == right[..at];
    assert left[at + 4..] == right[at + 4..];
    RegisterConcat(start, left[..at], left[at..at + 4] + left[at + 4..]);
    RegisterConcat(start, right[..at], right[at..at + 4] + right[at + 4..]);
    var middle := Register(start, left[..at]);
    RegisterConcat(middle, left[at..at + 4], left[at + 4..]);
    RegisterConcat(middle, right[at..at + 4], right[at + 4..]);
    BurstOfFour(middle, left[at..at + 4], right[at..at + 4]);
    if Register(start, left) == Register(start, right) {
      RegisterInjective(Register(middle, left[at..at + 4]), Register(middle, right[at..at + 4]), left[at + 4..]);
    }
  }

  /** Every change confined to four consecutive bytes changes the checksum. */
  lemma BurstDetected(left: seq<byte>, right: seq<byte>, at: nat)
    requires Burst(left, right, at)
    ensures Crc32(left) != Crc32(right)
  {
    hide Register, Finish;
    var start := 0xffffffff as bv32;
    var padding: seq<byte> := [0, 0, 0, 0];
    assert (left + padding)[..|left|] == left && (right + padding)[..|right|] == right;
    LongBurstDetected(left + padding, right + padding, at);
    RegisterConcat(start, left, padding);
    RegisterConcat(start, right, padding);
    if Crc32(left) == Crc32(right) {
      FinishInjective(Register(start, left), Register(start, right));
    }
  }
}
