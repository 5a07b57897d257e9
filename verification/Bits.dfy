/** Unsigned machine words as natural numbers: their bits, the bitwise operators the
    program applies to them, and the arithmetic meaning of masks. */
module Bits {

  type byte = b: nat | b < 256

  const U64: nat := 0x1_0000_0000_0000_0000

  function Pow2(k: nat): (p: nat)
    ensures p >= 1
  {
    if k == 0 then 1 else 2 * Pow2(k - 1)
  }

  /** Bit `i` of `w`, bit 0 being the least significant. */
  predicate Bit(w: nat, i: nat) {
    if i == 0 then w % 2 == 1 else Bit(w / 2, i - 1)
  }

  /** `a & b` */
  function And(a: nat, b: nat): nat {
    if a == 0 then 0 else 2 * And(a / 2, b / 2) + (if a % 2 == 1 && b % 2 == 1 then 1 else 0)
  }

  /** `a | b` */
  function Or(a: nat, b: nat): nat
    decreases a + b
  {
    if a == 0 then b
    else if b == 0 then a
    else 2 * Or(a / 2, b / 2) + (if a % 2 == 1 || b % 2 == 1 then 1 else 0)
  }

  /** `a & !b` */
  function AndNot(a: nat, b: nat): nat {
    if a == 0 then 0 else 2 * AndNot(a / 2, b / 2) + (if a % 2 == 1 && b % 2 == 0 then 1 else 0)
  }

  /** `1 << k` */
  function Shl1(k: nat): (p: nat)
    ensures p >= 1
  {
    Pow2(k)
  }

  /** `v >> k` */
  function Shr(v: nat, k: nat): nat {
    if k == 0 then v else Shr(v / 2, k - 1)
  }

  lemma {:induction false} BitOfZero(i: nat)
    ensures !Bit(0, i)
  {
    if i > 0 { BitOfZero(i - 1); }
  }

  lemma {:induction false} BitOfAnd(a: nat, b: nat, i: nat)
    ensures Bit(And(a, b), i) <==> Bit(a, i) && Bit(b, i)
  {
    if a == 0 {
      BitOfZero(i);
    } else if i > 0 {
      assert And(a, b) / 2 == And(a / 2, b / 2);
      BitOfAnd(a / 2, b / 2, i - 1);
    }
  }

  lemma {:induction false} BitOfOr(a: nat, b: nat, i: nat)
    ensures Bit(Or(a, b), i) <==> Bit(a, i) || Bit(b, i)
  {
    if a == 0 || b == 0 {
      BitOfZero(i);
    } else {
      OrHalves(a, b);
      if i > 0 { BitOfOr(a / 2, b / 2, i - 1); }
    }
  }

  lemma OrHalves(a: nat, b: nat)
    requires a > 0 && b > 0
    ensures Or(a, b) / 2 == Or(a / 2, b / 2)
    ensures Or(a, b) % 2 == 1 <==> a % 2 == 1 || b % 2 == 1
  {}

  lemma {:induction false} BitOfAndNot(a: nat, b: nat, i: nat)
    ensures Bit(AndNot(a, b), i) <==> Bit(a, i) && !Bit(b, i)
  {
    if a == 0 {
      BitOfZero(i);
    } else if i > 0 {
      assert AndNot(a, b) / 2 == AndNot(a / 2, b / 2);
      BitOfAndNot(a / 2, b / 2, i - 1);
    }
  }

  lemma {:induction false} BitOfShl1(k: nat, i: nat)
    ensures Bit(Shl1(k), i) <==> i == k
  {
    if k == 0 {
      if i > 0 { BitOfZero(i - 1); }
    } else if i > 0 {
      assert Pow2(k) / 2 == Pow2(k - 1);
      BitOfShl1(k - 1, i - 1);
    }
  }

  /** `(1 << k) - 1` has exactly the bits below `k`. */
  lemma {:induction false} BitOfLowMask(k: nat, i: nat)
    ensures Bit(Shl1(k) - 1, i) <==> i < k
  {
    if k == 0 {
      BitOfZero(i);
    } else {
      HalvedMask(Pow2(k - 1));
      if i > 0 { BitOfLowMask(k - 1, i - 1); }
    }
  }

  lemma HalvedMask(p: nat)
    requires p >= 1
    ensures (2 * p - 1) / 2 == p - 1 && (2 * p - 1) % 2 == 1
  {}

  /** Masking with `(1 << k) - 1` is the remainder modulo `1 << k`. */
  lemma {:induction false} AndLowMask(a: nat, k: nat)
    ensures And(a, Shl1(k) - 1) == a % Pow2(k)
  {
    if k == 0 {
      AndZero(a);
    } else if a != 0 {
      HalvedMask(Pow2(k - 1));
      AndLowMask(a / 2, k - 1);
      HalvedRemainder(a, Pow2(k - 1));
    }
  }

  /** `a & b` and `a & !b` split the bits of `a`. */
  lemma {:induction false} AndNotIsRest(a: nat, b: nat)
    ensures AndNot(a, b) + And(a, b) == a
  {
    if a != 0 { AndNotIsRest(a / 2, b / 2); }
  }

  lemma {:induction false} AndZero(a: nat)
    ensures And(a, 0) == 0
  {
    if a != 0 { AndZero(a / 2); }
  }

  lemma HalvedRemainder(a: nat, p: nat)
    requires p > 0
    ensures a % (2 * p) == 2 * (a / 2 % p) + a % 2
  {
    var q, r := a / 2 / p, a / 2 % p;
    assert a / 2 == q * p + r;
    assert a == (2 * p) * q + (2 * r + a % 2);
    RemainderIsUnique(a, 2 * p, q, 2 * r + a % 2);
  }

  lemma RemainderIsUnique(a: int, m: int, q: int, r: int)
    requires m > 0 && a == m * q + r && 0 <= r < m
    ensures a / m == q && a % m == r
  {
    QuotientIsUnique(m, q, r, a / m, a % m);
  }

  lemma QuotientIsUnique(m: int, q: int, r: int, q': int, r': int)
    requires m > 0 && 0 <= r < m && 0 <= r' < m
    requires m * q + r == m * q' + r'
    ensures q == q' && r == r'
  {
    if q > q' {
      MulStep(m, q', q);
    } else if q < q' {
      MulStep(m, q, q');
    }
  }

  lemma MulStep(m: int, lo: int, hi: int)
    requires m > 0 && lo < hi
    ensures m * lo + m <= m * hi
  {
    assert m * (hi - lo - 1) >= 0;
    assert m * hi == m * lo + m + m * (hi - lo - 1);
  }

  /** Reducing modulo a multiple of `c` first does not change the remainder modulo `c`. */
  lemma ModOfMultiple(n: nat, c: nat, d: nat)
    requires c > 0 && d > 0
    ensures c * d > 0 && n % (c * d) % c == n % c
  {
    MulStep(c, 0, d);
    var m := c * d;
    var q, r := n / m, n % m;
    assert n == m * q + r;
    MulAssoc(c, d, q);
    assert n == c * (d * q) + r;
    assert r == c * (r / c) + r % c;
    MulDistributes(c, d * q, r / c);
    RemainderIsUnique(n, c, d * q + r / c, r % c);
  }

  /** Numbers at most `c` apart have the same remainder only when equal or exactly `c` apart. */
  lemma SameRemainder(a: nat, b: nat, c: nat)
    requires c > 0 && b <= a <= b + c
    ensures a % c == b % c <==> a == b || a == b + c
  {
    if a == b + c {
      RemainderIsUnique(a, c, b / c + 1, b % c);
    } else if a > b && a % c == b % c {
      assert c * (a / c) == a - a % c && c * (b / c) == b - b % c;
      if a / c > b / c {
        MulStep(c, b / c, a / c);
      } else if a / c < b / c {
        MulStep(c, a / c, b / c);
      }
    }
  }

  lemma MulAssoc(a: int, b: int, c: int)
    ensures a * b * c == a * (b * c)
  {}

  lemma MulDistributes(a: int, b: int, c: int)
    ensures a * (b + c) == a * b + a * c
  {}

  /** Two words of at most `n` bits with the same bits are the same word. */
  lemma {:induction false} SameBits(a: nat, b: nat, n: nat)
    requires a < Pow2(n) && b < Pow2(n)
    requires forall i :: 0 <= i < n ==> Bit(a, i) == Bit(b, i)
    ensures a == b
  {
    if n > 0 {
      assert Bit(a, 0) == Bit(b, 0);
      forall i | 0 <= i < n - 1
        ensures Bit(a / 2, i) == Bit(b / 2, i)
      {
        assert Bit(a, i + 1) == Bit(b, i + 1);
      }
      SameBits(a / 2, b / 2, n - 1);
    }
  }

  /** A word of at most `n` bits has no bit at `n` or above. */
  lemma {:induction false} NoHighBit(a: nat, n: nat, i: nat)
    requires a < Pow2(n) && n <= i
    ensures !Bit(a, i)
  {
    if n == 0 {
      BitOfZero(i);
    } else {
      NoHighBit(a / 2, n - 1, i - 1);
    }
  }

  /** `And` and `AndNot` stay below their first operand; `Or` stays within the word. */
  lemma {:induction false} StaysInWord(a: nat, b: nat, n: nat)
    requires a < Pow2(n) && b < Pow2(n)
    ensures And(a, b) <= a && AndNot(a, b) <= a && Or(a, b) < Pow2(n)
  {
    if n > 0 {
      StaysInWord(a / 2, b / 2, n - 1);
    }
  }

  /** `w.trailing_zeros()` for a word that is not zero. */
  function TrailingZeros(w: nat): (k: nat)
    requires w > 0
    ensures Bit(w, k)
    ensures forall i :: 0 <= i < k ==> !Bit(w, i)
  {
    if w % 2 == 1 then 0
    else
      var k := 1 + TrailingZeros(w / 2);
      assert forall i {:trigger Bit(w, i)} :: 0 < i < k ==> !Bit(w / 2, i - 1);
      k
  }

  lemma {:induction false} Pow2Increases(a: nat, b: nat)
    requires a <= b
    ensures Pow2(a) <= Pow2(b)
  {
    if a < b { Pow2Increases(a, b - 1); }
  }

  lemma {:induction false} Pow2Adds(a: nat, b: nat)
    ensures Pow2(a + b) == Pow2(a) * Pow2(b)
  {
    if a > 0 { Pow2Adds(a - 1, b); }
  }

  lemma Pow2Squares(k: nat, p: nat)
    requires Pow2(k) == p
    ensures Pow2(2 * k) == p * p
  {
    Pow2Adds(k, k);
  }

  /** The powers the word sizes need. */
  lemma Pow64()
    ensures Pow2(16) == 0x1_0000 && Pow2(32) == 0x1_0000_0000 && Pow2(64) == U64
  {
    assert Pow2(4) == 16;
    Pow2Squares(4, 16);
    Pow2Squares(8, 0x100);
    Pow2Squares(16, 0x1_0000);
    Pow2Squares(32, 0x1_0000_0000);
  }

  /** Setting a bit of a 64-bit word keeps it one. */
  lemma SetBitStaysInWord(w: nat, k: nat)
    requires w < U64 && k < 64
    ensures Or(w, Shl1(k)) < U64
  {
    Pow64();
    Pow2Increases(k, 63);
    assert Pow2(64) == 2 * Pow2(63);
    StaysInWord(w, Shl1(k), 64);
  }

  /** The lowest one bit of a 64-bit word is one of its 64 bits. */
  lemma LowestBitInWord(w: nat)
    requires 0 < w < U64
    ensures TrailingZeros(w) < 64
  {
    if TrailingZeros(w) >= 64 {
      Pow64();
      NoHighBit(w, 64, TrailingZeros(w));
    }
  }

  /** The number of one bits among the lowest `k`. */
  function OnesBelow(w: nat, k: nat): nat {
    if k == 0 then 0 else OnesBelow(w, k - 1) + (if Bit(w, k - 1) then 1 else 0)
  }

  /** `w.count_ones()` of a 64-bit word. */
  function CountOnes(w: nat): nat {
    OnesBelow(w, 64)
  }
}
