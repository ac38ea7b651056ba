/**
  CRC-16/CCITT-FALSE.  The byte-fed loop is shown equal to a bit-serial shift register, which
  is linear; its error-detection guarantees follow for messages of any length.
  */
module Crc {
  import opened Digits
  import opened BitInts
  import BitLists

  /** The generator `0x1021` with its implicit top bit `x^16`. */
  const GENERATOR: nat := 0x11021

  // ----- one shift of the register -----

  /** Shift left by one; what falls out at the top is folded back in. */
  function Shift(c: nat): (s: nat)
    requires c < 0x1_0000
    ensures s < 0x1_0000
  {
    if c < 0x8000 then 2 * c
    else
      FoldBound(c);
      Xor(2 * c, GENERATOR)
  }

  lemma Widths()
    ensures Pow2(1) == 2 && Pow2(15) == 0x8000 && Pow2(16) == 0x1_0000 && Pow2(17) == 0x2_0000
  {
    assert Pow2(5) == 32;
    Pow2Add(5, 5);
    Pow2Add(5, 10);
    assert Pow2(16) == 2 * Pow2(15) && Pow2(17) == 2 * Pow2(16);
  }

  lemma LengthOf17(c: nat)
    requires 0x1_0000 <= c < 0x2_0000
    ensures BitLength(c) == 17
  {
    Widths();
    BitLengthBound(c, 16);
    BitLengthBound(c, 17);
  }

  lemma FoldBound(c: nat)
    requires 0x8000 <= c < 0x1_0000
    ensures Xor(2 * c, GENERATOR) < 0x1_0000
  {
    LengthOf17(2 * c);
    LengthOf17(GENERATOR);
    BitLengthOfXor(2 * c, GENERATOR);
    BitLengthBound(Xor(2 * c, GENERATOR), 16);
    Widths();
  }

  lemma XorDoubles(a: nat, b: nat)
    ensures Xor(2 * a, 2 * b) == 2 * Xor(a, b)
  {
    XorHalf(2 * a, 2 * b);
  }

  /** Exclusive-or of registers: in range, and with top bit exactly when one of them has it. */
  lemma XorRegisters(a: nat, b: nat)
    requires a < 0x1_0000 && b < 0x1_0000
    ensures Xor(a, b) < 0x1_0000
    ensures Xor(a, b) < 0x8000 <==> (a < 0x8000 <==> b < 0x8000)
  {
    Widths();
    XorBound(a, b, 16);
    BitLengthOfXor(a, b);
    BitLengthBound(a, 15); BitLengthBound(b, 15); BitLengthBound(Xor(a, b), 15);
    BitLengthBound(a, 16); BitLengthBound(b, 16);
    if a < 0x8000 && b < 0x8000 { XorBound(a, b, 15); }
  }

  /** The shift is linear. */
  lemma ShiftLinear(a: nat, b: nat)
    requires a < 0x1_0000 && b < 0x1_0000
    ensures Xor(a, b) < 0x1_0000 && Shift(Xor(a, b)) == Xor(Shift(a), Shift(b))
  {
    XorRegisters(a, b);
    XorDoubles(a, b);
    if a >= 0x8000 && b >= 0x8000 {
      XorMoves(2 * a, 2 * b, GENERATOR);
    } else if a >= 0x8000 {
      XorMoves(2 * a, 2 * b, GENERATOR);
    } else if b >= 0x8000 {
      XorAssociates(2 * a, 2 * b, GENERATOR);
    }
  }

  lemma XorMoves(u: nat, v: nat, g: nat)
    ensures Xor(Xor(u, v), g) == Xor(Xor(u, g), v)
    ensures Xor(Xor(u, g), Xor(v, g)) == Xor(u, v)
  {
    XorAssociates(u, v, g);
    XorAssociates(u, g, v);
    XorCommutes(v, g);
    XorAssociates(u, g, Xor(v, g));
    XorCancel(v, g);
  }

  /** The shift loses nothing: only zero shifts to zero. */
  lemma ShiftNonZero(c: nat)
    requires c < 0x1_0000 && Shift(c) == 0
    ensures c == 0
  {
    XorHalf(2 * c, GENERATOR);
  }

  /** Hence the shift is injective on registers. */
  lemma ShiftInjective(a: nat, b: nat)
    requires a < 0x1_0000 && b < 0x1_0000 && Shift(a) == Shift(b)
    ensures a == b
  {
    ShiftLinear(a, b);
    XorSelf(Shift(a));
    ShiftNonZero(Xor(a, b));
    XorCancel(a, b);
    XorZero(b);
  }

  /** The shift preserves the parity of the number of set bits. */
  lemma ShiftParity(c: nat)
    requires c < 0x1_0000
    ensures Parity(Shift(c)) <==> Parity(c)
  {
    ParityHalf(2 * c);
    if c >= 0x8000 {
      ParityXor(2 * c, GENERATOR);
      GeneratorParity();
    }
  }

  lemma GeneratorParity()
    ensures !Parity(GENERATOR)
  {
    hide Parity;
    assert GENERATOR == 0x11021;
    ParityHalf(0x11021); ParityHalf(0x8810); ParityHalf(0x4408); ParityHalf(0x2204); ParityHalf(0x1102);
    ParityHalf(0x881); ParityHalf(0x440); ParityHalf(0x220); ParityHalf(0x110); ParityHalf(0x88);
    ParityHalf(0x44); ParityHalf(0x22); ParityHalf(0x11); ParityHalf(0x8); ParityHalf(0x4); ParityHalf(0x2); ParityHalf(0x1);
    ParityOfZero();
  }

  function Shifts(c: nat, n: nat): (s: nat)
    requires c < 0x1_0000
    ensures s < 0x1_0000
    decreases n
  {
    if n == 0 then c else Shifts(Shift(c), n - 1)
  }

  lemma {:induction false} ShiftsNonZero(c: nat, n: nat)
    requires c < 0x1_0000
    ensures Shifts(c, n) == 0 <==> c == 0
    decreases n
  {
    if n > 0 {
      ShiftsNonZero(Shift(c), n - 1);
      if Shift(c) == 0 { ShiftNonZero(c); }
    }
  }

  // ----- the bit-serial register -----

  /** A message bit at the top of the register. */
  function AtTop(b: bit): (t: nat)
    ensures t < 0x1_0000
  {
    if b == 1 then 0x8000 else 0
  }

  /** Feed one message bit at the top of the register. */
  function Feed(c: nat, b: bit): (s: nat)
    requires c < 0x1_0000
    ensures s < 0x1_0000
  {
    XorRegisters(c, AtTop(b));
    Shift(Xor(c, AtTop(b)))
  }

  function Register(c: nat, bits: Bits): (s: nat)
    requires c < 0x1_0000
    ensures s < 0x1_0000
    decreases |bits|
  {
    if bits == [] then c else Register(Feed(c, bits[0]), bits[1..])
  }

  lemma {:induction false} RegisterConcat(c: nat, a: Bits, b: Bits)
    requires c < 0x1_0000
    ensures Register(c, a + b) == Register(Register(c, a), b)
    decreases |a|
  {
    if a == [] {
      assert a + b == b;
    } else {
      assert (a + b)[1..] == a[1..] + b;
      RegisterConcat(Feed(c, a[0]), a[1..], b);
    }
  }

  /** `xor_bits` */
  function XorBits(a: Bits, b: Bits): (e: Bits)
    requires |a| == |b|
    ensures |e| == |a| && forall i :: 0 <= i < |a| ==> (e[i] == 0 <==> a[i] == b[i])
  {
    seq(|a|, i requires 0 <= i < |a| => if a[i] == b[i] then 0 else 1)
  }

  lemma FeedLinear(c: nat, d: nat, a: bit, b: bit)
    requires c < 0x1_0000 && d < 0x1_0000
    ensures Xor(c, d) < 0x1_0000
    ensures Feed(Xor(c, d), if a == b then 0 else 1) == Xor(Feed(c, a), Feed(d, b))
  {
    hide Shift;
    var x, y := AtTop(a), AtTop(b);
    XorRegisters(c, d); XorRegisters(c, x); XorRegisters(d, y);
    ShiftLinear(Xor(c, x), Xor(d, y));
    XorExchange(c, x, d, y);
    TopsXor(a, b);
  }

  lemma TopsXor(a: bit, b: bit)
    ensures Xor(AtTop(a), AtTop(b)) == AtTop(if a == b then 0 else 1)
  {
    XorSelf(0x8000); XorZero(0x8000); XorZero(0);
  }

  lemma XorExchange(c: nat, x: nat, d: nat, y: nat)
    ensures Xor(Xor(c, x), Xor(d, y)) == Xor(Xor(c, d), Xor(x, y))
  {
    XorAssociates(c, x, Xor(d, y));
    XorAssociates(x, d, y);
    XorCommutes(x, d);
    XorAssociates(d, x, y);
    XorAssociates(c, d, Xor(x, y));
  }

  /** The register is linear in its start value and its message together. */
  lemma {:induction false} RegisterLinear(c: nat, d: nat, a: Bits, b: Bits)
    requires c < 0x1_0000 && d < 0x1_0000 && |a| == |b|
    ensures Xor(c, d) < 0x1_0000
    ensures Register(Xor(c, d), XorBits(a, b)) == Xor(Register(c, a), Register(d, b))
    decreases |a|
  {
    XorRegisters(c, d);
    if a != [] {
      FeedLinear(c, d, a[0], b[0]);
      assert XorBits(a, b)[1..] == XorBits(a[1..], b[1..]);
      RegisterLinear(Feed(c, a[0]), Feed(d, b[0]), a[1..], b[1..]);
    }
  }

  /** Feeding `n` zero bits is shifting `n` times. */
  lemma {:induction false} RegisterOfZeros(c: nat, bits: Bits)
    requires c < 0x1_0000 && forall i :: 0 <= i < |bits| ==> bits[i] == 0
    ensures Register(c, bits) == Shifts(c, |bits|)
    decreases |bits|
  {
    if bits != [] {
      XorZero(c);
      RegisterOfZeros(Shift(c), bits[1..]);
    }
  }

  // ----- feeding a word at once -----

  /** Adding a bit above the set bits is exclusive-or. */
  lemma {:induction false} AddTopBit(low: nat, k: nat)
    requires low < Pow2(k)
    ensures Xor(Pow2(k), low) == Pow2(k) + low
  {
    XorHalf(Pow2(k), low);
    if k > 0 { AddTopBit(low / 2, k - 1); } else { XorZero(1); }
  }

  /** The word `bits` aligned with the top of the register. */
  function Aligned(bits: Bits): (w: nat)
    requires |bits| <= 16
  {
    BitsToInt(bits) * Pow2(16 - |bits|)
  }

  lemma AlignedSplit(bits: Bits)
    requires 0 < |bits| <= 16
    ensures Aligned(bits[1..]) % 2 == 0 && Aligned(bits[1..]) / 2 < 0x8000
    ensures Aligned(bits) == Xor(AtTop(bits[0]), Aligned(bits[1..]) / 2) == AtTop(bits[0]) + Aligned(bits[1..]) / 2
  {
    hide FromDigits, Power, Xor, Pow2;
    var n, rest := |bits| - 1, bits[1..];
    var v, p := BitsToInt(rest), Pow2(15 - n);
    FirstBit(bits);
    BitLists.PowerOfTwo(n);
    ValueRoundTrip(2, rest);
    Pow2Add(n, 15 - n);
    Pow2Add(1, 15 - n);
    Widths();
    StrictScale(v, Pow2(n), p);
    DoubleScale(v, p);
    AlignBits(bits[0], Pow2(n), v, p);
    AddTopBit(v * p, 15);
    XorZero(v * p);
  }

  lemma AlignBits(b: bit, m: nat, v: nat, p: nat)
    requires m * p == 0x8000
    ensures (b as nat * m + v) * p == AtTop(b) + v * p
  {
    if b == 1 { assert (m + v) * p == m * p + v * p; }
  }

  lemma DoubleScale(v: nat, p: nat)
    ensures v * (2 * p) == 2 * (v * p) && v * (2 * p) / 2 == v * p && v * (2 * p) % 2 == 0
  {
  }

  /** The value of bits, split after the first. */
  lemma FirstBit(bits: Bits)
    requires bits != []
    ensures BitsToInt(bits) == bits[0] as nat * Power(2, |bits| - 1) + BitsToInt(bits[1..])
  {
    hide FromDigits, Power;
    assert bits == [bits[0]] + bits[1..];
    FromDigitsConcat(2, [bits[0]], bits[1..]);
    FromDigitsSnoc(2, [], bits[0]);
    FromNoDigits(2);
    assert [] + [bits[0]] == [bits[0]];
  }

  lemma StrictScale(v: nat, m: nat, p: nat)
    requires v < m && p > 0
    ensures v * p < m * p
  {
    ScaleMonotone(p, v + 1, m);
  }

  /** Feeding up to 16 bits one by one is one exclusive-or and as many shifts. */
  lemma {:induction false} FeedWord(c: nat, bits: Bits)
    requires c < 0x1_0000 && |bits| <= 16
    ensures Aligned(bits) < 0x1_0000 && Xor(c, Aligned(bits)) < 0x1_0000
    ensures Register(c, bits) == Shifts(Xor(c, Aligned(bits)), |bits|)
    decreases |bits|
  {
    if bits == [] {
      XorZero(c);
    } else {
      var top, low := AtTop(bits[0]), Aligned(bits[1..]) / 2;
      AlignedSplit(bits);
      XorRegisters(c, Aligned(bits));
      XorRegisters(c, top);
      ShiftLinear(Xor(c, top), low);
      XorAssociates(c, top, low);
      FeedWord(Feed(c, bits[0]), bits[1..]);
    }
  }

  // ----- the checksum -----

  /** The checksum of a message, as the bit-serial register defines it. */
  function Crc16(data: Bytes): (crc: nat)
    ensures crc < 0x1_0000
  {
    Register(0xFFFF, BytesToBits(data))
  }

  /** One turn of the source's inner loop is one shift. */
  lemma MaskOfShift(c: nat)
    requires c < 0x1_0000
    ensures And(c, 0x8000) != 0 <==> c >= 0x8000
    ensures c < 0x8000 ==> And(2 * c, 0xFFFF) == Shift(c)
    ensures c >= 0x8000 ==> And(Xor(2 * c, 0x1021), 0xFFFF) == Shift(c)
  {
    hide And, Xor, Pow2;
    Widths();
    TopMask(c, 15);
    if c < 0x8000 {
      LowMask(2 * c, 16);
    } else {
      LowMask(Xor(2 * c, 0x1021), 16);
      FoldBound(c);
      FoldIsMask(2 * c);
    }
  }

  /** Cancelling the top bit is the same as masking it away. */
  lemma FoldIsMask(d: nat)
    requires Xor(d, GENERATOR) < 0x1_0000
    ensures Xor(d, 0x1021) == 0x1_0000 + Xor(d, GENERATOR)
  {
    hide Xor;
    Widths();
    var y := Xor(d, GENERATOR);
    AddTopBit(0x1021, 16);
    AddTopBit(y, 16);
    XorAssociates(d, 0x1021, 0x1_0000);
    XorCommutes(0x1_0000, 0x1021);
    XorCancel(Xor(d, 0x1021), 0x1_0000);
    XorCommutes(y, 0x1_0000);
  }

  /** `n & (2^k - 1)` keeps the low `k` bits. */
  lemma {:induction false} LowMask(n: nat, k: nat)
    ensures And(n, Pow2(k) - 1) == n % Pow2(k)
    decreases k
  {
    if n == 0 || k == 0 {} else {
      LowMask(n / 2, k - 1);
      assert (Pow2(k) - 1) / 2 == Pow2(k - 1) - 1 && (Pow2(k) - 1) % 2 == 1;
      HalfModulus(n, Pow2(k - 1));
    }
  }

  lemma HalfModulus(n: nat, p: nat)
    requires p > 0
    ensures n % (2 * p) == 2 * ((n / 2) % p) + n % 2
  {
    var q, r := (n / 2) / p, (n / 2) % p;
    assert n == 2 * (p * q + r) + n % 2;
    assert n == (2 * p) * q + (2 * r + n % 2);
    QuotientUnique(n, 2 * p, q, 2 * r + n % 2);
  }

  lemma {:induction false} TopMask(n: nat, k: nat)
    requires n < 2 * Pow2(k)
    ensures And(n, Pow2(k)) != 0 <==> n >= Pow2(k)
    decreases k
  {
    if n > 0 && k > 0 { TopMask(n / 2, k - 1); }
  }

  /** The byte-fed loop computes the checksum. */
  method Crc16CcittFalse(data: Bytes) returns (crc: nat)
    ensures crc == Crc16(data)
  {
    hide Shift, And, Xor, IntToBits, BytesToBits;
    crc := 0xFFFF;
    for i := 0 to |data|
      invariant crc < 0x1_0000 && crc == Register(0xFFFF, BytesToBits(data[..i]))
    {
      ghost var before := crc;
      ghost var bits := IntToBits(data[i], 8);
      ByteAligned(data[i]);
      FeedWord(before, bits);
      crc := Xor(crc, data[i] as nat * 256);
      for k := 0 to 8
        invariant crc < 0x1_0000 && Shifts(crc, 8 - k) == Register(before, bits)
      {
        MaskOfShift(crc);
        if And(crc, 0x8000) != 0 {
          crc := And(Xor(2 * crc, 0x1021), 0xFFFF);
        } else {
          crc := And(2 * crc, 0xFFFF);
        }
      }
      assert data[..i + 1] == data[..i] + [data[i]];
      BytesToBitsSnoc(data[..i], data[i]);
      RegisterConcat(0xFFFF, BytesToBits(data[..i]), bits);
    }
    assert data[..|data|] == data;
  }

  lemma ByteAligned(b: byte)
    ensures Aligned(IntToBits(b, 8)) == b as nat * 256
  {
    BitsOfByte(b);
    assert Pow2(8) == 256;
  }

  // ----- error detection -----

  /** A message followed by its sixteen check bits. */
  function Codeword(data: Bytes, crc: nat): (m: Bits)
    ensures |m| == 8 * |data| + 16
  {
    BytesToBits(data) + IntToBits(crc, 16)
  }

  lemma WordAligned(w: nat)
    requires w < 0x1_0000
    ensures Aligned(IntToBits(w, 16)) == w
  {
    BitLists.PowerOfTwo(16);
    Widths();
    DigitsRoundTrip(2, w, 16);
  }

  /** The check bits are right exactly when the register over the whole codeword ends at zero. */
  lemma ValidIffZero(data: Bytes, crc: nat)
    requires crc < 0x1_0000
    ensures Register(0xFFFF, Codeword(data, crc)) == 0 <==> crc == Crc16(data)
  {
    var c := Crc16(data);
    RegisterConcat(0xFFFF, BytesToBits(data), IntToBits(crc, 16));
    FeedWord(c, IntToBits(crc, 16));
    WordAligned(crc);
    ShiftsNonZero(Xor(c, crc), 16);
    XorCancel(c, crc);
    XorSelf(c);
    XorZero(crc);
  }

  /** Two check bytes are their sixteen bits. */
  lemma CheckBytes(data: Bytes, crc: nat)
    requires crc < 0x1_0000
    ensures BytesToBits(data + IntToBytes(crc, 2)) == Codeword(data, crc)
  {
    hide FromDigits, ToDigits, BytesToBits, IntToBytes, IntToBits;
    var hi, lo := crc / 256, crc % 256;
    TwoBytes(crc);
    assert crc == 256 * hi + lo;
    assert data + [hi, lo] == (data + [hi]) + [lo];
    BytesToBitsSnoc(data, hi);
    BytesToBitsSnoc(data + [hi], lo);
    SixteenBits(hi, lo);
  }

  lemma TwoBytes(crc: nat)
    requires crc < 0x1_0000
    ensures IntToBytes(crc, 2) == [crc / 256, crc % 256]
  {
    hide Quot, Rem;
    QuotRem(crc, 256);
    QuotRem(crc / 256, 256);
    assert ToDigits(256, crc / 256, 1) == ToDigits(256, Quot(crc / 256, 256), 0) + [Rem(crc / 256, 256)];
    assert ToDigits(256, crc, 2) == [crc / 256, crc % 256];
  }

  lemma SixteenBits(hi: byte, lo: byte)
    ensures IntToBits(256 * hi + lo, 16) == IntToBits(hi, 8) + IntToBits(lo, 8)
  {
    hide FromDigits, ToDigits, Power;
    assert Power(2, 8) == 256 && Power(2, 16) == 0x1_0000 by { BitLists.PowerOfTwo(8); BitLists.PowerOfTwo(16); Widths(); assert Pow2(8) == 256; }
    var bits := IntToBits(hi, 8) + IntToBits(lo, 8);
    DigitsRoundTrip(2, hi, 8);
    DigitsRoundTrip(2, lo, 8);
    FromDigitsConcat(2, IntToBits(hi, 8), IntToBits(lo, 8));
    ValueRoundTrip(2, bits);
  }

  /** The check the program runs: the CRC of the data with two check bytes behind it is 0 exactly for the right ones. */
  lemma CheckedIffZero(data: Bytes, crc: nat)
    requires crc < 0x1_0000
    ensures Crc16(data + IntToBytes(crc, 2)) == 0 <==> crc == Crc16(data)
  {
    hide IntToBytes, Codeword, BytesToBits, Register;
    CheckBytes(data, crc);
    ValidIffZero(data, crc);
  }

  /**
    Whether damage goes unnoticed depends on the error pattern alone: it does exactly when the
    pattern drives the register from zero to zero.
    */
  lemma AcceptedIffPatternVanishes(data: Bytes, data': Bytes, crc': nat)
    requires |data'| == |data| && crc' < 0x1_0000
    ensures crc' == Crc16(data') <==>
      Register(0, XorBits(Codeword(data, Crc16(data)), Codeword(data', crc'))) == 0
  {
    var m, m' := Codeword(data, Crc16(data)), Codeword(data', crc');
    ValidIffZero(data, Crc16(data));
    ValidIffZero(data', crc');
    XorSelf(0xFFFF);
    RegisterLinear(0xFFFF, 0xFFFF, m, m');
    XorZero(Register(0xFFFF, m'));
  }

  /** All set bits lie within sixteen consecutive positions, the first of which is `at`. */
  predicate BurstAt(e: Bits, at: nat) {
    forall i :: 0 <= i < |e| && e[i] != 0 ==> at <= i < at + 16
  }

  /** The parity of the number of set bits. */
  predicate OddWeight(e: Bits) {
    if e == [] then false else OddWeight(e[1..]) != (e[0] == 1)
  }

  lemma {:induction false} NonZeroWord(bits: Bits)
    requires |bits| <= 16 && exists i :: 0 <= i < |bits| && bits[i] != 0
    ensures BitsToInt(bits) > 0
  {
    ValueRoundTrip(2, bits);
    if BitsToInt(bits) == 0 {
      ValueRoundTrip(2, seq(|bits|, _ => 0));
      ZeroDigits(|bits|);
    }
  }

  lemma {:induction false} ZeroDigits(n: nat)
    ensures forall i :: 0 <= i < n ==> ToDigits(2, 0, n)[i] == 0
  {
    if n > 0 { ZeroDigits(n - 1); }
  }

  /** A non-zero burst of at most sixteen bits never returns the register to zero. */
  lemma BurstNeverVanishes(e: Bits, at: nat)
    requires |e| >= 16 && BurstAt(e, at) && exists i :: 0 <= i < |e| && e[i] != 0
    ensures Register(0, e) != 0
  {
    hide Register, Shifts, Xor, FromDigits;
    var start := if at <= |e| - 16 then at else |e| - 16;
    var before, word, behind := e[..start], e[start..start + 16], e[start + 16..];
    assert e == before + word + behind;
    RegisterConcat(0, before + word, behind);
    RegisterConcat(0, before, word);
    RegisterOfZeros(0, before);
    ShiftsNonZero(0, start);
    assert word != [] && exists i :: 0 <= i < |word| && word[i] != 0 by {
      var i :| 0 <= i < |e| && e[i] != 0;
      assert word[i - start] != 0;
    }
    NonZeroWord(word);
    FeedWord(0, word);
    XorZero(Aligned(word));
    ShiftsNonZero(Aligned(word), 16);
    RegisterOfZeros(Register(0, word), behind);
    ShiftsNonZero(Register(0, word), |behind|);
  }

  /** The register's parity is that of its start value and of the bits fed. */
  lemma {:induction false} RegisterParity(c: nat, bits: Bits)
    requires c < 0x1_0000
    ensures Parity(Register(c, bits)) <==> (Parity(c) != OddWeight(bits))
    decreases |bits|
  {
    if bits != [] {
      var b := bits[0];
      XorRegisters(c, AtTop(b));
      ParityXor(c, AtTop(b));
      TopBitParity();
      ShiftParity(Xor(c, AtTop(b)));
      RegisterParity(Feed(c, b), bits[1..]);
    }
  }

  lemma TopBitParity()
    ensures Parity(0x8000) && !Parity(0)
  {
    hide Parity;
    ParityHalf(0x8000); ParityHalf(0x4000); ParityHalf(0x2000); ParityHalf(0x1000); ParityHalf(0x800);
    ParityHalf(0x400); ParityHalf(0x200); ParityHalf(0x100); ParityHalf(0x80); ParityHalf(0x40);
    ParityHalf(0x20); ParityHalf(0x10); ParityHalf(0x8); ParityHalf(0x4); ParityHalf(0x2); ParityHalf(0x1);
    ParityOfZero();
  }

  lemma ParityOfZero()
    ensures !Parity(0)
  {
  }

  // ----- two flips -----

  /** Flip the bit of weight `p`. */
  function Flip(n: nat, p: nat): (r: nat)
    requires p > 0
  {
    if n / p % 2 == 1 then n - p else n + p
  }

  lemma FlipIsXor(n: nat, k: nat)
    ensures Xor(n, Pow2(k)) == Flip(n, Pow2(k))
  {
    XorOneBit(n, k);
    BitIsShift(n, k);
  }

  /** The shift in ordinary arithmetic. */
  function Next(c: nat): (s: nat) {
    if c < 0x8000 then 2 * c else Flip(Flip(Flip(Flip(2 * c, 0x1_0000), 0x1000), 0x20), 1)
  }

  lemma ShiftIsNext(c: nat)
    requires c < 0x1_0000
    ensures Shift(c) == Next(c)
  {
    hide Xor, Flip;
    Widths();
    assert Pow2(0) == 1 && Pow2(5) == 0x20 && Pow2(12) == 0x1000 by { SmallPowers(); }
    var d := 2 * c;
    XorAssociates(d, 0x1_1020, 1);
    XorAssociates(d, 0x1_1000, 0x20);
    XorAssociates(d, 0x1_0000, 0x1000);
    FlipIsXor(0x1_0000, 12);
    FlipIsXor(0x1_1000, 5);
    FlipIsXor(0x1_1020, 0);
    GeneratorFlips();
    FlipIsXor(d, 16);
    FlipIsXor(Xor(d, 0x1_0000), 12);
    FlipIsXor(Xor(d, 0x1_1000), 5);
    FlipIsXor(Xor(d, 0x1_1020), 0);
  }

  lemma SmallPowers()
    ensures Pow2(0) == 1 && Pow2(5) == 0x20 && Pow2(12) == 0x1000
  {
    assert Pow2(6) == 0x40;
    Pow2Add(6, 6);
  }

  lemma GeneratorFlips()
    ensures Flip(0x1_0000, 0x1000) == 0x1_1000 && Flip(0x1_1000, 0x20) == 0x1_1020 && Flip(0x1_1020, 1) == GENERATOR
  {
  }

  /** The checksum of no data is the start value, and the checksum of the letter `A` is 0xB915. */
  lemma KnownChecksums()
    ensures Crc16([]) == 0xFFFF && Crc16([0x41]) == 0xB915
  {
    hide Next, Flip, Xor, Shift, FromDigits, IntToBits;
    var bits := IntToBits(0x41, 8);
    assert BytesToBits([0x41]) == bits && BytesToBits([]) == [] by { BytesToBitsSnoc([], 0x41); assert [] + [0x41] == [0x41]; }
    hide BytesToBits;
    assert Aligned(bits) == 0x4100 by { BitsOfByte(0x41); LetterPowers(); }
    hide Aligned, Shifts;
    FeedWord(0xFFFF, bits);
    LetterXor();
    LetterShifts();
  }

  lemma LetterPowers()
    ensures Pow2(8) == 0x100 && Pow2(14) == 0x4000
  {
    Widths();
    Pow2Add(1, 14);
    assert Pow2(8) == 0x100;
  }

  lemma LetterXor()
    ensures Xor(0xFFFF, 0x4100) == 0xBEFF
  {
    LetterPowers();
    hide Xor, Pow2, Flip;
    LetterFlips();
    XorAssociates(0xFFFF, 0x4000, 0x100);
    FlipIsXor(0xFFFF, 14);
    FlipIsXor(0x4000, 8);
    FlipIsXor(0xBFFF, 8);
  }

  lemma LetterFlips()
    ensures Flip(0xFFFF, 0x4000) == 0xBFFF && Flip(0x4000, 0x100) == 0x4100 && Flip(0xBFFF, 0x100) == 0xBEFF
  {
  }

  lemma LetterShifts()
    ensures Shifts(0xBEFF, 8) == 0xB915
  {
    assert Next(0xBEFF) == 0x6DDF && Next(0x6DDF) == 0xDBBE && Next(0xDBBE) == 0xA75D && Next(0xA75D) == 0x5E9B;
    assert Next(0x5E9B) == 0xBD36 && Next(0xBD36) == 0x6A4D && Next(0x6A4D) == 0xD49A && Next(0xD49A) == 0xB915;
    hide Next, Shift;
    ShiftIsNext(0xBEFF); ShiftIsNext(0x6DDF); ShiftIsNext(0xDBBE); ShiftIsNext(0xA75D);
    ShiftIsNext(0x5E9B); ShiftIsNext(0xBD36); ShiftIsNext(0x6A4D); ShiftIsNext(0xD49A);
    ShiftedFour(0xBEFF, 0x5E9B, 4);
    ShiftedFour(0x5E9B, 0xB915, 0);
  }

  /** Four shifts more. */
  lemma ShiftedFour(c: nat, d: nat, n: nat)
    requires c < 0x1_0000 && d == Shift(Shift(Shift(Shift(c))))
    ensures Shifts(c, n + 4) == Shifts(d, n)
  {
    hide Shift;
    assert Shifts(c, n + 4) == Shifts(Shift(c), n + 3) && Shifts(Shift(c), n + 3) == Shifts(Shift(Shift(c)), n + 2);
    assert Shifts(Shift(Shift(c)), n + 2) == Shifts(Shift(Shift(Shift(c))), n + 1);
  }

  /** The register after 0, 1, ..., 39 shifts of its top bit. */
  const POWERS: seq<nat> := [
    0x8000, 0x1021, 0x2042, 0x4084, 0x8108, 0x1231, 0x2462, 0x48C4, 0x9188, 0x3331,
    0x6662, 0xCCC4, 0x89A9, 0x373, 0x6E6, 0xDCC, 0x1B98, 0x3730, 0x6E60, 0xDCC0,
    0xA9A1, 0x4363, 0x86C6, 0x1DAD, 0x3B5A, 0x76B4, 0xED68, 0xCAF1, 0x85C3, 0x1BA7,
    0x374E, 0x6E9C, 0xDD38, 0xAA51, 0x4483, 0x8906, 0x22D, 0x45A, 0x8B4, 0x1168]

  lemma Powers1()
    ensures forall k :: 0 <= k < 10 ==> Next(POWERS[k]) == POWERS[k + 1]
  {
    assert Next(0x8000) == 0x1021 && Next(0x1021) == 0x2042 && Next(0x2042) == 0x4084;
    assert Next(0x4084) == 0x8108 && Next(0x8108) == 0x1231 && Next(0x1231) == 0x2462;
    assert Next(0x2462) == 0x48C4 && Next(0x48C4) == 0x9188 && Next(0x9188) == 0x3331;
    assert Next(0x3331) == 0x6662;
  }

  lemma Powers2()
    ensures forall k :: 10 <= k < 20 ==> Next(POWERS[k]) == POWERS[k + 1]
  {
    assert Next(0x6662) == 0xCCC4 && Next(0xCCC4) == 0x89A9 && Next(0x89A9) == 0x373;
    assert Next(0x373) == 0x6E6 && Next(0x6E6) == 0xDCC && Next(0xDCC) == 0x1B98;
    assert Next(0x1B98) == 0x3730 && Next(0x3730) == 0x6E60 && Next(0x6E60) == 0xDCC0;
    assert Next(0xDCC0) == 0xA9A1;
  }

  lemma Powers3()
    ensures forall k :: 20 <= k < 30 ==> Next(POWERS[k]) == POWERS[k + 1]
  {
    assert Next(0xA9A1) == 0x4363 && Next(0x4363) == 0x86C6 && Next(0x86C6) == 0x1DAD;
    assert Next(0x1DAD) == 0x3B5A && Next(0x3B5A) == 0x76B4 && Next(0x76B4) == 0xED68;
    assert Next(0xED68) == 0xCAF1 && Next(0xCAF1) == 0x85C3 && Next(0x85C3) == 0x1BA7;
    assert Next(0x1BA7) == 0x374E;
  }

  lemma Powers4()
    ensures forall k :: 30 <= k < 39 ==> Next(POWERS[k]) == POWERS[k + 1]
  {
    assert Next(0x374E) == 0x6E9C && Next(0x6E9C) == 0xDD38 && Next(0xDD38) == 0xAA51;
    assert Next(0xAA51) == 0x4483 && Next(0x4483) == 0x8906 && Next(0x8906) == 0x22D;
    assert Next(0x22D) == 0x45A && Next(0x45A) == 0x8B4 && Next(0x8B4) == 0x1168;
  }

  lemma {:induction false} PowersShift(k: nat, d: nat)
    requires k + d < 40
    ensures |POWERS| == 40 && POWERS[k] < 0x1_0000 && Shifts(POWERS[k], d) == POWERS[k + d]
    decreases d
  {
    PowersFit();
    if d > 0 {
      Powers1(); Powers2(); Powers3(); Powers4();
      hide Next, POWERS;
      ShiftIsNext(POWERS[k]);
      PowersShift(k + 1, d - 1);
    }
  }

  /** No shift of the top bit by 1 to 39 places returns to it. */
  lemma PowersFit()
    ensures |POWERS| == 40 && POWERS[0] == 0x8000 && forall k :: 0 <= k < 40 ==> POWERS[k] < 0x1_0000
    ensures forall k :: 1 <= k < 40 ==> POWERS[k] != 0x8000
  {
  }

  /** Exactly two bits are set, fewer than 40 places apart. */
  predicate PairAt(e: Bits, i: nat, j: nat) {
    i < j < |e| && j < i + 40 && forall k :: 0 <= k < |e| ==> (e[k] == 1 <==> k == i || k == j)
  }

  /** Two flips fewer than 40 places apart never return the register to zero. */
  lemma PairNeverVanishes(e: Bits, i: nat, j: nat)
    requires PairAt(e, i, j)
    ensures Register(0, e) != 0
  {
    hide Shifts, Xor, POWERS;
    var a, b, c, d := e[..i + 1], e[i + 1..j], e[j..j + 1], e[j + 1..];
    assert e == ((a + b) + c) + d;
    RegisterConcat(0, (a + b) + c, d);
    RegisterConcat(0, a + b, c);
    RegisterConcat(0, a, b);
    var r := Shift(0x8000);
    assert Register(0, a) == r by {
      assert a == e[..i] + [1];
      RegisterConcat(0, e[..i], [1]);
      RegisterOfZeros(0, e[..i]);
      ShiftsNonZero(0, i);
      OneBit(0);
    }
    RegisterOfZeros(r, b);
    var p := Shifts(r, |b|);
    assert p < 0x1_0000 && p != 0x8000 by { ShiftedApart(|b|); }
    assert c == [1];
    OneBit(p);
    assert Register(p, c) != 0 by {
      XorRegisters(p, 0x8000);
      if Shift(Xor(p, 0x8000)) == 0 {
        ShiftNonZero(Xor(p, 0x8000));
        XorCancel(p, 0x8000);
        XorZero(0x8000);
      }
    }
    RegisterOfZeros(Register(p, c), d);
    ShiftsNonZero(Register(p, c), |d|);
  }

  lemma OneBit(c: nat)
    requires c < 0x1_0000
    ensures Xor(c, 0x8000) < 0x1_0000 && Register(c, [1]) == Shift(Xor(c, 0x8000)) && Register(0, [1]) == Shift(0x8000)
  {
    XorRegisters(c, 0x8000);
    XorZero(0x8000);
    hide Xor, Shift;
    assert [1][1..] == [];
  }

  lemma ShiftedApart(n: nat)
    requires n < 39
    ensures Shifts(Shift(0x8000), n) != 0x8000
  {
    PowersFit();
    PowersShift(0, n + 1);
    assert Shifts(0x8000, n + 1) == Shifts(Shift(0x8000), n);
  }

  /** The error patterns CRC-16 is guaranteed to detect. */
  ghost predicate Detectable(e: Bits) {
    || OddWeight(e) || (exists i, j :: PairAt(e, i, j))
    || ((exists at: nat {:trigger BurstAt(e, at)} :: BurstAt(e, at)) && exists i :: 0 <= i < |e| && e[i] != 0)
  }

  lemma DetectableNeverVanishes(e: Bits)
    requires |e| >= 16 && Detectable(e)
    ensures Register(0, e) != 0
  {
    if OddWeight(e) {
      TopBitParity();
      RegisterParity(0, e);
    } else if i, j :| PairAt(e, i, j) {
      PairNeverVanishes(e, i, j);
    } else {
      var at: nat :| BurstAt(e, at);
      BurstNeverVanishes(e, at);
    }
  }

  /**
    Detection, for data of any length: a codeword damaged by an odd number of flips, by two
    flips fewer than 40 places apart, or by any non-empty set of flips within sixteen
    consecutive bits, no longer checks.
    */
  lemma DamageDetected(data: Bytes, data': Bytes, crc': nat)
    requires |data'| == |data| && crc' < 0x1_0000
    requires Detectable(XorBits(Codeword(data, Crc16(data)), Codeword(data', crc')))
    ensures crc' != Crc16(data')
  {
    AcceptedIffPatternVanishes(data, data', crc');
    DetectableNeverVanishes(XorBits(Codeword(data, Crc16(data)), Codeword(data', crc')));
  }
}
