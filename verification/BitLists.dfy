/** The bit-list conversions, with the checks they make on their arguments. */
module BitLists {
  import opened Wrappers
  import opened Digits
  import opened BitInts

  lemma {:induction false} PowerOfTwo(n: nat)
    ensures Power(2, n) == Pow2(n)
  {
    if n > 0 { PowerOfTwo(n - 1); }
  }

  lemma {:induction false} PowerOfBytes(n: nat)
    ensures Power(256, n) == Pow2(8 * n)
  {
    if n > 0 {
      PowerOfBytes(n - 1);
      Pow2Add(8, 8 * (n - 1));
      assert Pow2(8) == 256;
    }
  }

  /** `int_to_bits`: exactly the numbers that fit have bits, and the bits denote the number. */
  function FromInt(value: int, width: int): (r: Result<Bits>)
    ensures r.Ok? <==> width >= 0 && 0 <= value < Pow2(width)
    ensures r.Ok? ==> |r.value| == width && BitsToInt(r.value) == value
  {
    if width < 0 || value < 0 || value >= Pow2(width) then Err
    else
      PowerOfTwo(width);
      DigitsRoundTrip(2, value, width);
      Ok(IntToBits(value, width))
  }

  /** `bits_to_int` */
  method ToInt(bits: Bits) returns (n: nat)
    ensures n == BitsToInt(bits) && n < Pow2(|bits|) && IntToBits(n, |bits|) == bits
  {
    n := 0;
    for i := 0 to |bits|
      invariant n == BitsToInt(bits[..i])
    {
      assert bits[..i + 1] == bits[..i] + [bits[i]];
      FromDigitsSnoc(2, bits[..i], bits[i]);
      n := 2 * n + bits[i];
    }
    assert bits[..|bits|] == bits;
    ValueRoundTrip(2, bits);
    PowerOfTwo(|bits|);
  }

  /** `bytes_to_bits` */
  method FromBytes(data: Bytes) returns (bits: Bits)
    ensures bits == BytesToBits(data) && BitsToBytes(bits) == data
  {
    bits := [];
    for i := 0 to |data|
      invariant bits == BytesToBits(data[..i])
    {
      assert data[..i + 1] == data[..i] + [data[i]];
      BytesToBitsSnoc(data[..i], data[i]);
      bits := bits + IntToBits(data[i], 8);
    }
    assert data[..|data|] == data;
    BytesBitsRoundTrip(data);
  }

  lemma PackStep(bits: Bits, at: nat)
    requires at % 8 == 0 && at + 8 <= |bits|
    ensures BitsToInt(bits[at..at + 8]) < 256
    ensures PackBytes(bits[..at + 8]) == PackBytes(bits[..at]) + [BitsToInt(bits[at..at + 8])]
  {
    hide BitsToInt, IntToBits;
    var b := bits[..at + 8];
    ByteOfBits(bits[at..at + 8]);
    assert b[..|b| - 8] == bits[..at] && b[|b| - 8..] == bits[at..at + 8];
  }

  /** `bits_to_bytes`: without padding, whole bytes only; padding is with zero bits at the end. */
  method ToBytes(bits: Bits, pad: bool) returns (r: Result<Bytes>)
    ensures r.Ok? <==> pad || |bits| % 8 == 0
    ensures r.Ok? ==> r.value == BitsToBytes(bits) && bits <= BytesToBits(r.value)
    ensures r.Ok? ==> forall i :: |bits| <= i < 8 * |r.value| ==> BytesToBits(r.value)[i] == 0
  {
    hide IntToBits, BitsToInt, PackBytes, BytesToBits;
    if |bits| % 8 != 0 && !pad {
      return Err;
    }
    var normalized := if |bits| % 8 == 0 then bits else bits + seq(8 - |bits| % 8, _ => 0);
    var out := Pack(normalized);
    PaddedBytes(bits, normalized);
    r := Ok(out);
  }

  method Pack(normalized: Bits) returns (out: Bytes)
    requires |normalized| % 8 == 0
    ensures out == PackBytes(normalized)
  {
    hide BitsToInt, PackBytes;
    out := [];
    var i := 0;
    NothingPacked(normalized);
    while i < |normalized|
      invariant 0 <= i <= |normalized| && i % 8 == 0 && out == PackBytes(normalized[..i])
    {
      PackStep(normalized, i);
      out := out + [BitsToInt(normalized[i..i + 8])];
      i := i + 8;
    }
    assert normalized[..i] == normalized;
  }

  lemma NothingPacked(bits: Bits)
    ensures PackBytes(bits[..0]) == []
  {
  }

  lemma PaddedBytes(bits: Bits, normalized: Bits)
    requires normalized == if |bits| % 8 == 0 then bits else bits + seq(8 - |bits| % 8, _ => 0)
    ensures PackBytes(normalized) == BitsToBytes(bits) && BytesToBits(BitsToBytes(bits)) == normalized
  {
    hide BitsToInt, IntToBits, PackBytes, BytesToBits;
    BitsBytesRoundTrip(normalized);
  }
}
