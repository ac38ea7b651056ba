/**
  Big-endian positional notation, used for bits (base 2) and bytes (base 256): the source's
  `int_to_bits`/`bits_to_int` and `int.to_bytes`/`int.from_bytes`.
  */
module Digits {

  type bit = b: nat | b < 2
  type byte = b: nat | b < 256

  type Bits = seq<bit>
  type Bytes = seq<byte>

  const U64_LIMIT: nat := 0x1_0000_0000_0000_0000

  function Power(base: nat, n: nat): (r: nat) {
    if n == 0 then 1 else base * Power(base, n - 1)
  }

  /** The value of big-endian digits: shift in one digit after another. */
  function FromDigits(base: nat, ds: seq<nat>): (n: nat) {
    if ds == [] then 0 else base * FromDigits(base, ds[..|ds| - 1]) + ds[|ds| - 1]
  }

  /** `n // d` */
  function Quot(n: nat, d: nat): (q: nat)
    requires d > 0
    ensures d * q <= n < d * q + d
  {
    assert n == d * (n / d) + n % d;
    n / d
  }

  /** `n % d` */
  function Rem(n: nat, d: nat): (r: nat)
    requires d > 0
    ensures r < d
  {
    n % d
  }

  lemma QuotRem(n: nat, d: nat)
    requires d > 0
    ensures n == d * Quot(n, d) + Rem(n, d)
  {
    assert n == d * (n / d) + n % d;
  }

  /** Exactly `count` big-endian digits of `n`. */
  function ToDigits(base: nat, n: nat, count: nat): (ds: seq<nat>)
    requires base > 0
    ensures |ds| == count && forall i :: 0 <= i < count ==> ds[i] < base
    decreases count
  {
    if count == 0 then [] else ToDigits(base, Quot(n, base), count - 1) + [Rem(n, base)]
  }

  lemma SplitDigit(base: nat, n: nat, d: nat)
    requires d < base
    ensures Quot(base * n + d, base) == n && Rem(base * n + d, base) == d
  {
    var m := base * n + d;
    QuotRem(m, base);
    MultipleGap(base, Quot(m, base), n, d - Rem(m, base));
  }

  lemma MultipleGap(base: nat, q: int, n: int, gap: int)
    requires base * q - base * n == gap && -gap < base && gap < base
    ensures q == n
  {
    var e := q - n;
    assert base * e == gap;
    if e >= 1 { ScaleMonotone(base, 1, e); }
    if e <= -1 { ScaleMonotone(base, e, -1); }
  }

  lemma ScaleMonotone(a: nat, x: int, y: int)
    requires x <= y
    ensures a * x <= a * y
  {
  }

  /** Digits of a value that fits denote the value. */
  lemma {:induction false} DigitsRoundTrip(base: nat, n: nat, count: nat)
    requires base > 0 && n < Power(base, count)
    ensures FromDigits(base, ToDigits(base, n, count)) == n
  {
    hide Quot, Rem, Power, FromDigits;
    PowerUnfold(base, count);
    if count == 0 {
      FromNoDigits(base);
    } else {
      var q, r := Quot(n, base), Rem(n, base);
      QuotientBound(base, q, Power(base, count - 1), n);
      DigitsRoundTrip(base, q, count - 1);
      QuotRem(n, base);
      FromDigitsSnoc(base, ToDigits(base, q, count - 1), r);
    }
  }

  lemma PowerUnfold(base: nat, n: nat)
    ensures Power(base, n) == if n == 0 then 1 else base * Power(base, n - 1)
  {
  }

  /** Four digits more. */
  lemma FromDigitsByFour(base: nat, ds: seq<nat>, at: nat)
    requires at + 4 <= |ds|
    ensures FromDigits(base, ds[..at + 4]) ==
      base * (base * (base * (base * FromDigits(base, ds[..at]) + ds[at]) + ds[at + 1]) + ds[at + 2]) + ds[at + 3]
  {
    hide FromDigits;
    forall i | at <= i < at + 4 ensures FromDigits(base, ds[..i + 1]) == base * FromDigits(base, ds[..i]) + ds[i] {
      assert ds[..i + 1] == ds[..i] + [ds[i]];
      FromDigitsSnoc(base, ds[..i], ds[i]);
    }
  }

  lemma FromNoDigits(base: nat)
    ensures FromDigits(base, []) == 0
  {
  }

  lemma FromDigitsSnoc(base: nat, ds: seq<nat>, d: nat)
    ensures FromDigits(base, ds + [d]) == base * FromDigits(base, ds) + d
  {
    assert (ds + [d])[..|ds|] == ds;
  }

  lemma QuotientBound(d: nat, q: nat, m: nat, n: nat)
    requires d * q <= n < d * m
    ensures q < m
  {
    if m <= q { ScaleMonotone(d, m, q); }
  }

  predicate AllDigits(base: nat, ds: seq<nat>) {
    forall i :: 0 <= i < |ds| ==> ds[i] < base
  }

  /** Digits are recovered from their value. */
  lemma {:induction false} ValueRoundTrip(base: nat, ds: seq<nat>)
    requires base > 0 && AllDigits(base, ds)
    ensures FromDigits(base, ds) < Power(base, |ds|)
    ensures ToDigits(base, FromDigits(base, ds), |ds|) == ds
  {
    hide Quot, Rem;
    if ds != [] {
      var init, last := ds[..|ds| - 1], ds[|ds| - 1];
      assert ds == init + [last];
      ValueRoundTrip(base, init);
      FromDigitsSnoc(base, init, last);
      SplitDigit(base, FromDigits(base, init), last);
      DigitBound(base, FromDigits(base, init), last, Power(base, |init|));
    }
  }

  lemma DigitBound(base: nat, v: nat, d: nat, p: nat)
    requires d < base && v < p
    ensures base * v + d < base * p
  {
    ScaleMonotone(base, v + 1, p);
  }

  /** The value of a concatenation. */
  lemma {:induction false} FromDigitsConcat(base: nat, a: seq<nat>, b: seq<nat>)
    ensures FromDigits(base, a + b) == FromDigits(base, a) * Power(base, |b|) + FromDigits(base, b)
  {
    hide FromDigits, Power;
    PowerUnfold(base, |b|);
    if b == [] {
      assert a + b == a;
      FromNoDigits(base);
    } else {
      var init, last := b[..|b| - 1], b[|b| - 1];
      assert b == init + [last];
      assert a + b == (a + init) + [last];
      FromDigitsConcat(base, a, init);
      FromDigitsSnoc(base, a + init, last);
      FromDigitsSnoc(base, init, last);
      Distribute(base, FromDigits(base, a), Power(base, |init|), FromDigits(base, init), last);
    }
  }

  lemma Distribute(base: nat, x: nat, p: nat, y: nat, d: nat)
    ensures base * (x * p + y) + d == x * (base * p) + (base * y + d)
  {
  }

  // ----- bits and bytes -----

  /** `int_to_bits(value, width)` on a value that fits */
  function IntToBits(n: nat, width: nat): (bits: Bits)
    ensures |bits| == width && bits == ToDigits(2, n, width)
  {
    var ds := ToDigits(2, n, width);
    seq(width, i requires 0 <= i < width => ds[i] as bit)
  }

  function BitsToInt(bits: Bits): (n: nat) {
    FromDigits(2, bits)
  }

  /** `n.to_bytes(count, "big")` on a value that fits */
  function IntToBytes(n: nat, count: nat): (bytes: Bytes)
    ensures |bytes| == count && bytes == ToDigits(256, n, count)
  {
    var ds := ToDigits(256, n, count);
    seq(count, i requires 0 <= i < count => ds[i] as byte)
  }

  function BytesToInt(bytes: Bytes): (n: nat) {
    FromDigits(256, bytes)
  }

  function BytesToBits(data: Bytes): (bits: Bits)
    ensures |bits| == 8 * |data|
  {
    if data == [] then [] else BytesToBits(data[..|data| - 1]) + IntToBits(data[|data| - 1], 8)
  }

  lemma BytesToBitsSnoc(data: Bytes, b: byte)
    ensures BytesToBits(data + [b]) == BytesToBits(data) + IntToBits(b, 8)
  {
    assert (data + [b])[..|data|] == data;
  }

  /** The bytes of a bit list, padded with zero bits to a whole number of bytes. */
  function BitsToBytes(bits: Bits): (data: Bytes)
    ensures |data| == (|bits| + 7) / 8
  {
    PackBytes(if |bits| % 8 == 0 then bits else bits + seq(8 - |bits| % 8, _ => 0))
  }

  function PackBytes(bits: Bits): (data: Bytes)
    requires |bits| % 8 == 0
    ensures |data| == |bits| / 8
  {
    if bits == [] then []
    else
      var init, last := bits[..|bits| - 8], bits[|bits| - 8..];
      ByteOfBits(last);
      PackBytes(init) + [BitsToInt(last)]
  }

  lemma ByteOfBits(bits: Bits)
    requires |bits| == 8
    ensures BitsToInt(bits) < 256
    ensures IntToBits(BitsToInt(bits), 8) == bits
  {
    ValueRoundTrip(2, bits);
    assert Power(2, 8) == 256;
  }

  lemma BitsOfByte(b: byte)
    ensures BitsToInt(IntToBits(b, 8)) == b
  {
    assert Power(2, 8) == 256;
    DigitsRoundTrip(2, b, 8);
  }

  /** Unpacking whole bytes and packing them again gives the bits back. */
  lemma {:induction false} BitsBytesRoundTrip(bits: Bits)
    requires |bits| % 8 == 0
    ensures BytesToBits(BitsToBytes(bits)) == bits
    decreases |bits|
  {
    hide IntToBits, BitsToInt, FromDigits, ToDigits;
    if bits != [] {
      var init, last := bits[..|bits| - 8], bits[|bits| - 8..];
      BitsBytesRoundTrip(init);
      ByteOfBits(last);
      BytesToBitsSnoc(BitsToBytes(init), BitsToInt(last));
      assert BitsToBytes(bits) == BitsToBytes(init) + [BitsToInt(last)];
      hide BitsToBytes, BytesToBits;
      assert bits == init + last;
    }
  }

  /** Packing whole bytes, the last byte apart. */
  lemma PackOneMore(bits: Bits, last: Bits)
    requires |bits| % 8 == 0 && |last| == 8
    ensures BitsToInt(last) < 256 && BitsToBytes(bits + last) == BitsToBytes(bits) + [BitsToInt(last)]
  {
    hide IntToBits, BitsToInt;
    ByteOfBits(last);
    var all := bits + last;
    assert all[..|all| - 8] == bits && all[|all| - 8..] == last;
  }

  /** Packing the bits of bytes gives the bytes back. */
  lemma {:induction false} BytesBitsRoundTrip(data: Bytes)
    ensures BitsToBytes(BytesToBits(data)) == data
  {
    hide IntToBits, BitsToInt, FromDigits, ToDigits;
    if data != [] {
      var init, last := data[..|data| - 1], data[|data| - 1];
      BytesBitsRoundTrip(init);
      BitsOfByte(last);
      PackOneMore(BytesToBits(init), IntToBits(last, 8));
    }
  }

  /** Bytes and their bits denote the same number. */
  lemma {:induction false} BitsDenoteBytes(data: Bytes)
    ensures BitsToInt(BytesToBits(data)) == BytesToInt(data)
  {
    hide FromDigits, IntToBits;
    if data == [] {
      FromNoDigits(2);
      FromNoDigits(256);
    } else {
      var init, last := data[..|data| - 1], data[|data| - 1];
      assert data == init + [last];
      BitsDenoteBytes(init);
      BitsOfByte(last);
      FromDigitsSnoc(256, init, last);
      FromDigitsConcat(2, BytesToBits(init), IntToBits(last, 8));
      assert Power(2, 8) == 256;
    }
  }
}
