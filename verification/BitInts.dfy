/**
  Python's non-negative integers seen as bit vectors.

  The rateless solver, the CRC register and the sparse-tree indices all use shift, mask and
  exclusive-or on plain integers.  Those operators are defined here on `nat`, one bit at a
  time, with the algebra the proofs rest on.
  */
module BitInts {

  /** `1 << n` */
  function Pow2(n: nat): (r: nat)
    ensures r > 0
  {
    if n == 0 then 1 else 2 * Pow2(n - 1)
  }

  /** `(n >> i) & 1`, as a truth value */
  predicate Bit(n: nat, i: nat)
    decreases i
  {
    if i == 0 then n % 2 == 1 else Bit(n / 2, i - 1)
  }

  /** `a ^ b` */
  function Xor(a: nat, b: nat): (r: nat)
    decreases a + b
  {
    if a == 0 && b == 0 then 0 else 2 * Xor(a / 2, b / 2) + (if a % 2 == b % 2 then 0 else 1)
  }

  /** `a & b` */
  function And(a: nat, b: nat): (r: nat)
  {
    if a == 0 || b == 0 then 0 else 2 * And(a / 2, b / 2) + (if a % 2 == 1 && b % 2 == 1 then 1 else 0)
  }

  /** `n.bit_count() & 1`, as a truth value */
  predicate Parity(n: nat) {
    if n == 0 then false else Parity(n / 2) != (n % 2 == 1)
  }

  /** The inner product over GF(2), `parity(a & x)`. */
  predicate Dot(a: nat, x: nat) {
    Parity(And(a, x))
  }

  /** `n.bit_length()` */
  function BitLength(n: nat): (r: nat)
    ensures n == 0 <==> r == 0
  {
    if n == 0 then 0 else 1 + BitLength(n / 2)
  }

  lemma {:induction false} Pow2Add(m: nat, n: nat)
    ensures Pow2(m + n) == Pow2(m) * Pow2(n)
  {
    if m > 0 {
      Pow2Add(m - 1, n);
      assert Pow2(m + n) == 2 * Pow2(m + n - 1);
    }
  }

  lemma {:induction false} Pow2Monotone(m: nat, n: nat)
    requires m <= n
    ensures Pow2(m) <= Pow2(n)
    ensures m < n ==> 2 * Pow2(m) <= Pow2(n)
  {
    if m < n { Pow2Monotone(m, n - 1); }
  }

  lemma {:induction false} Pow2Injective(m: nat, n: nat)
    requires Pow2(m) == Pow2(n)
    ensures m == n
  {
    if m < n { Pow2Monotone(m, n); } else if n < m { Pow2Monotone(n, m); }
  }

  /** The recursive reading of a bit is the shift-and-mask reading. */
  lemma {:induction false} BitIsShift(n: nat, i: nat)
    ensures Bit(n, i) <==> (n / Pow2(i)) % 2 == 1
  {
    if i > 0 {
      BitIsShift(n / 2, i - 1);
      ShiftAgain(n, i - 1);
    }
  }

  /** Flipping one bit adds or removes its power of two. */
  lemma {:induction false} XorOneBit(n: nat, k: nat)
    ensures Xor(n, Pow2(k)) == if Bit(n, k) then n - Pow2(k) else n + Pow2(k)
  {
    XorHalf(n, Pow2(k));
    if k == 0 { XorZero(n / 2); } else { XorOneBit(n / 2, k - 1); }
  }

  /** `n >> k` */
  function Shr(n: nat, k: nat): (r: nat)
    decreases k
  {
    if k == 0 then n else Shr(n / 2, k - 1)
  }

  lemma {:induction false} ShrIsDivision(n: nat, k: nat)
    ensures Shr(n, k) == n / Pow2(k)
  {
    if k > 0 {
      ShrIsDivision(n / 2, k - 1);
      ShiftAgain(n, k - 1);
    }
  }

  lemma {:induction false} ShrStep(n: nat, k: nat)
    ensures Shr(n, k + 1) == Shr(n, k) / 2
  {
    if k > 0 { ShrStep(n / 2, k - 1); }
  }

  lemma {:induction false} ShrBound(n: nat, w: nat, k: nat)
    requires n < Pow2(w + k)
    ensures Shr(n, k) < Pow2(w)
  {
    if k > 0 { ShrBound(n / 2, w, k - 1); }
  }

  lemma ShiftAgain(n: nat, i: nat)
    ensures n / Pow2(i + 1) == (n / 2) / Pow2(i) == (n / Pow2(i)) / 2
  {
    var p := Pow2(i);
    assert Pow2(i + 1) == 2 * p;
    hide Pow2;
    HalveFirst(n, p);
    HalveLast(n, p);
  }

  lemma HalveFirst(n: nat, p: nat)
    requires p > 0
    ensures n / (2 * p) == (n / 2) / p
  {
    var q, r := n / 2 / p, n / 2 % p;
    DivMod(n / 2, p);
    Regroup(p, q, 0);
    QuotientUnique(n, 2 * p, q, 2 * r + n % 2);
  }

  lemma HalveLast(n: nat, p: nat)
    requires p > 0
    ensures n / (2 * p) == (n / p) / 2
  {
    var q, r := n / p, n % p;
    var s, t := q / 2, q % 2;
    DivMod(n, p);
    assert q == 2 * s + t;
    Regroup(p, s, t);
    QuotientUnique(n, 2 * p, s, (if t == 0 then 0 else p) + r);
  }

  lemma DivMod(n: nat, d: nat)
    requires d > 0
    ensures n == d * (n / d) + n % d && n % d < d
  {
  }

  lemma Regroup(p: nat, s: nat, t: nat)
    requires t < 2
    ensures (2 * p) * s == 2 * (p * s)
    ensures p * (2 * s + t) == (2 * p) * s + (if t == 0 then 0 else p)
  {
  }

  lemma MulMonotone(a: nat, x: int, y: int)
    requires x <= y
    ensures a * x <= a * y
  {
  }

  lemma QuotientUnique(n: nat, d: nat, q: nat, r: nat)
    requires 0 <= r < d && n == d * q + r
    ensures n / d == q && n % d == r
  {
    var e := n / d - q;
    assert d * e == r - n % d;
    if e >= 1 { MulMonotone(d, 1, e); }
    if e <= -1 { MulMonotone(d, e, -1); }
  }

  lemma {:induction false} BitOfZero(i: nat)
    ensures !Bit(0, i)
  {
    if i > 0 { BitOfZero(i - 1); }
  }

  lemma {:induction false} BitOfPow2(k: nat, i: nat)
    ensures Bit(Pow2(k), i) <==> i == k
  {
    if k == 0 {
      if i > 0 { BitOfZero(i - 1); }
    } else if i > 0 {
      BitOfPow2(k - 1, i - 1);
    }
  }

  /** Bits at and above the width are clear. */
  lemma {:induction false} HighBitsClear(n: nat, w: nat, i: nat)
    requires n < Pow2(w) && w <= i
    ensures !Bit(n, i)
  {
    if w == 0 { BitOfZero(i); } else { HighBitsClear(n / 2, w - 1, i - 1); }
  }

  /** Integers with the same bits are equal. */
  lemma {:induction false} SameBitsEqual(a: nat, b: nat, w: nat)
    requires a < Pow2(w) && b < Pow2(w)
    requires forall i :: 0 <= i < w ==> (Bit(a, i) <==> Bit(b, i))
    ensures a == b
  {
    if w > 0 {
      assert Bit(a, 0) == Bit(b, 0);
      forall i | 0 <= i < w - 1 ensures Bit(a / 2, i) <==> Bit(b / 2, i) {
        assert Bit(a, i + 1) == Bit(b, i + 1);
      }
      SameBitsEqual(a / 2, b / 2, w - 1);
    }
  }

  lemma {:induction false} XorBit(a: nat, b: nat, i: nat)
    ensures Bit(Xor(a, b), i) <==> (Bit(a, i) != Bit(b, i))
    decreases i
  {
    XorHalf(a, b);
    if i > 0 { XorBit(a / 2, b / 2, i - 1); }
  }

  lemma XorHalf(a: nat, b: nat)
    ensures Xor(a, b) / 2 == Xor(a / 2, b / 2)
    ensures Xor(a, b) % 2 == 1 <==> (a % 2 == 1) != (b % 2 == 1)
  {
  }

  /** A number is its half and its low bit. */
  lemma HalvesEqual(a: nat, b: nat)
    requires a / 2 == b / 2 && (a % 2 == 1 <==> b % 2 == 1)
    ensures a == b
  {
  }

  lemma {:induction false} XorBound(a: nat, b: nat, w: nat)
    requires a < Pow2(w) && b < Pow2(w)
    ensures Xor(a, b) < Pow2(w)
  {
    if w > 0 {
      XorBound(a / 2, b / 2, w - 1);
      XorHalf(a, b);
    }
  }

  lemma {:induction false} XorSelf(a: nat)
    ensures Xor(a, a) == 0
  {
    if a > 0 { XorSelf(a / 2); }
  }

  lemma {:induction false} XorZero(a: nat)
    ensures Xor(a, 0) == a == Xor(0, a)
  {
    if a > 0 { XorZero(a / 2); }
  }

  lemma {:induction false} XorCommutes(a: nat, b: nat)
    ensures Xor(a, b) == Xor(b, a)
    decreases a + b
  {
    if a > 0 || b > 0 { XorCommutes(a / 2, b / 2); }
  }

  lemma {:induction false} XorAssociates(a: nat, b: nat, c: nat)
    ensures Xor(Xor(a, b), c) == Xor(a, Xor(b, c))
    decreases a + b + c
  {
    if a > 0 || b > 0 || c > 0 {
      XorAssociates(a / 2, b / 2, c / 2);
      XorHalf(a, b);
      XorHalf(b, c);
      XorHalf(Xor(a, b), c);
      XorHalf(a, Xor(b, c));
      HalvesEqual(Xor(Xor(a, b), c), Xor(a, Xor(b, c)));
    }
  }

  /** Exclusive-or with the same value twice undoes itself. */
  lemma XorCancel(a: nat, b: nat)
    ensures Xor(Xor(a, b), b) == a
    ensures Xor(b, Xor(b, a)) == a
  {
    XorAssociates(a, b, b);
    XorAssociates(b, b, a);
    XorSelf(b);
    XorZero(a);
  }

  lemma {:induction false} ParityXor(a: nat, b: nat)
    ensures Parity(Xor(a, b)) <==> (Parity(a) != Parity(b))
    decreases a + b
  {
    if a > 0 || b > 0 {
      ParityXor(a / 2, b / 2);
      XorHalf(a, b);
      ParityHalf(a); ParityHalf(b); ParityHalf(Xor(a, b));
    }
  }

  lemma ParityHalf(n: nat)
    ensures Parity(n) <==> (Parity(n / 2) != (n % 2 == 1))
  {
  }

  /** The inner product, one bit at a time. */
  lemma DotHalf(a: nat, x: nat)
    ensures Dot(a, x) <==> (Dot(a / 2, x / 2) != (a % 2 == 1 && x % 2 == 1))
  {
    if a == 0 || x == 0 {
      assert And(a, x) == 0 && And(a / 2, x / 2) == 0;
    } else {
      var h := And(a / 2, x / 2);
      var b := if a % 2 == 1 && x % 2 == 1 then 1 else 0;
      assert And(a, x) == 2 * h + b;
      ParityHalf(2 * h + b);
      assert (2 * h + b) / 2 == h && (2 * h + b) % 2 == b;
    }
  }

  lemma {:induction false} DotCommutes(a: nat, x: nat)
    ensures Dot(a, x) <==> Dot(x, a)
  {
    if a == 0 || x == 0 {} else {
      DotHalf(a, x); DotHalf(x, a);
      DotCommutes(a / 2, x / 2);
    }
  }

  lemma {:induction false} DotXorLeft(a: nat, b: nat, x: nat)
    ensures Dot(Xor(a, b), x) <==> (Dot(a, x) != Dot(b, x))
    decreases a + b + x
  {
    if a == 0 && b == 0 {
      DotZero(x);
    } else {
      var r := Xor(a, b);
      DotXorLeft(a / 2, b / 2, x / 2);
      XorHalf(a, b);
      DotHalf(a, x); DotHalf(b, x); DotHalf(r, x);
      DotCombine(Dot(a / 2, x / 2), Dot(b / 2, x / 2), a % 2 == 1, b % 2 == 1, x % 2 == 1);
    }
  }

  lemma DotCombine(p: bool, q: bool, a: bool, b: bool, x: bool)
    ensures ((p != q) != ((a != b) && x)) <==> ((p != (a && x)) != (q != (b && x)))
  {
  }

  lemma DotXorRight(a: nat, x: nat, y: nat)
    ensures Dot(a, Xor(x, y)) <==> (Dot(a, x) != Dot(a, y))
  {
    DotXorLeft(x, y, a);
    DotCommutes(a, x); DotCommutes(a, y); DotCommutes(a, Xor(x, y));
  }

  lemma DotZero(x: nat)
    ensures !Dot(0, x) && !Dot(x, 0)
  {
  }

  lemma {:induction false} DotPow2(x: nat, k: nat)
    ensures Dot(x, Pow2(k)) <==> Bit(x, k)
    decreases k
  {
    DotHalf(x, Pow2(k));
    if k > 0 {
      DotPow2(x / 2, k - 1);
    } else {
      DotZero(x / 2);
    }
  }

  /** `bit_length() - 1` is the position of the highest set bit. */
  lemma {:induction false} TopBit(n: nat)
    requires n > 0
    ensures Bit(n, BitLength(n) - 1)
    ensures n < Pow2(BitLength(n))
    ensures forall i :: BitLength(n) <= i ==> !Bit(n, i)
  {
    if n == 1 {
      assert BitLength(1) == 1 + BitLength(0);
    } else {
      TopBit(n / 2);
      assert BitLength(n) == 1 + BitLength(n / 2);
    }
    forall i | BitLength(n) <= i ensures !Bit(n, i) { HighBitsClear(n, BitLength(n), i); }
  }

  lemma {:induction false} BitLengthBound(n: nat, w: nat)
    ensures n < Pow2(w) <==> BitLength(n) <= w
  {
    if n > 0 {
      if w == 0 {} else { BitLengthBound(n / 2, w - 1); }
    }
  }

  lemma {:induction false} BitLengthOfXor(a: nat, b: nat)
    ensures BitLength(a) < BitLength(b) ==> BitLength(Xor(a, b)) == BitLength(b)
    ensures BitLength(b) < BitLength(a) ==> BitLength(Xor(a, b)) == BitLength(a)
    ensures a > 0 && BitLength(a) == BitLength(b) ==> BitLength(Xor(a, b)) < BitLength(a)
    decreases a + b
  {
    XorHalf(a, b);
    XorZero(a); XorZero(b);
    if a > 0 && b > 0 { BitLengthOfXor(a / 2, b / 2); }
  }

  /** `a | b` */
  function Or(a: nat, b: nat): (r: nat)
    decreases a + b
  {
    if a == 0 && b == 0 then 0 else 2 * Or(a / 2, b / 2) + (if a % 2 == 1 || b % 2 == 1 then 1 else 0)
  }

  lemma OrHalf(a: nat, b: nat)
    ensures Or(a, b) / 2 == Or(a / 2, b / 2)
    ensures Or(a, b) % 2 == 1 <==> (a % 2 == 1 || b % 2 == 1)
  {
  }

  lemma {:induction false} OrZero(q: nat)
    ensures Or(q, 0) == q
  {
    if q > 0 { OrZero(q / 2); }
  }

  lemma {:induction false} OrBit(a: nat, b: nat, i: nat)
    ensures Bit(Or(a, b), i) <==> (Bit(a, i) || Bit(b, i))
    decreases i
  {
    OrHalf(a, b);
    if i > 0 { OrBit(a / 2, b / 2, i - 1); }
  }

  lemma {:induction false} OrBound(a: nat, b: nat, w: nat)
    requires a < Pow2(w) && b < Pow2(w)
    ensures Or(a, b) < Pow2(w)
  {
    OrHalf(a, b);
    if w > 0 { OrBound(a / 2, b / 2, w - 1); }
  }
}
