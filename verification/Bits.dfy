/**
  Machine-word arithmetic used by the cache simulator: powers of two, the bitwise AND of two
  unsigned words, and the three log2 helpers at the top of pin_cache.H.

  Words are naturals; every operation that can wrap does so explicitly. The bitwise AND is
  defined bit by bit, so that the masks of the source can be related to division and remainder.
 */
module Bits {

  const WORD32: nat := 0x1_0000_0000

  function Pow2(k: nat): (r: nat)
    ensures r >= 1
  {
    if k == 0 then 1 else 2 * Pow2(k - 1)
  }

  /** The bitwise AND of two unsigned words. */
  function And(x: nat, y: nat): nat
  {
    if x == 0 || y == 0 then 0
    else (if x % 2 == 1 && y % 2 == 1 then 1 else 0) + 2 * And(x / 2, y / 2)
  }

  /**
    Quotient and remainder by repeated subtraction. They are `/` and `%` on naturals; proofs use
    the lemmas below and so stay clear of the solver's nonlinear division.
   */
  function Quot(x: nat, d: nat): nat
    requires d >= 1
  {
    if x < d then 0 else 1 + Quot(x - d, d)
  }

  function Rem(x: nat, d: nat): (r: nat)
    requires d >= 1
    ensures r < d
  {
    if x < d then x else Rem(x - d, d)
  }

  /** The logical right shift of an unsigned word. */
  function ShiftRight(x: nat, k: nat): nat {
    Quot(x, Pow2(k))
  }

  /** 32-bit subtraction of one, with the wrap-around at zero. */
  function Pred32(n: nat): nat {
    if n == 0 then WORD32 - 1 else n - 1
  }

  ghost predicate IsPowerOfTwo(n: nat) {
    exists k: nat :: n == Pow2(k)
  }

  // ---------- powers of two ----------

  lemma {:induction false} Pow2Add(a: nat, b: nat)
    ensures Pow2(a + b) == Pow2(a) * Pow2(b)
  {
    if a != 0 {
      Pow2Add(a - 1, b);
      assert Pow2(a + b) == 2 * Pow2((a - 1) + b);
    }
  }

  lemma {:induction false} Pow2Monotone(a: nat, b: nat)
    requires a < b
    ensures 2 * Pow2(a) <= Pow2(b)
  {
    if a + 1 != b {
      Pow2Monotone(a, b - 1);
    }
  }

  /** Of two powers of two the smaller divides the larger. */
  lemma Pow2Divides(a: nat, b: nat)
    requires Pow2(a) <= Pow2(b)
    ensures a <= b && Pow2(b) == Pow2(a) * Pow2(b - a) && Rem(Pow2(b), Pow2(a)) == 0
  {
    if b < a {
      Pow2Monotone(b, a);
    } else {
      Pow2Add(a, b - a);
      DivModUnique(Pow2(b), Pow2(a), Pow2(b - a), 0);
    }
  }

  // ---------- division ----------

  lemma {:induction false} DivMod(x: nat, d: nat)
    requires d >= 1
    ensures x == d * Quot(x, d) + Rem(x, d)
  {
    if x >= d {
      DivMod(x - d, d);
    }
  }

  lemma {:induction false} DivModUnique(x: nat, d: nat, q: nat, r: nat)
    requires r < d && x == d * q + r
    ensures Quot(x, d) == q && Rem(x, d) == r
  {
    if q != 0 {
      assert x == d * (q - 1) + r + d;
      assert x - d == d * (q - 1) + r >= 0 by { Times(0, q - 1, d); }
      DivModUnique(x - d, d, q - 1, r);
    }
  }

  lemma NativeDivision(x: nat, d: nat)
    requires d >= 1
    ensures Quot(x, d) == x / d && Rem(x, d) == x % d
  {
    assert x == d * (x / d) + x % d;
    DivModUnique(x, d, x / d, x % d);
  }

  lemma Times(a: nat, b: nat, d: nat)
    requires a <= b
    ensures a * d <= b * d
  {
  }

  lemma TimesIf(a: nat, b: nat, d: nat)
    ensures a <= b ==> a * d <= b * d
  {
    if a <= b {
      Times(a, b, d);
    }
  }

  lemma QuotBounds(n: nat, d: nat)
    requires d >= 1
    ensures Quot(n, d) <= n && d * Quot(n, d) <= n
    ensures Quot(n, d) == 0 <==> n < d
  {
    DivMod(n, d);
    Times(1, d, Quot(n, d));
  }

  lemma RemSuccessor(n: nat, d: nat)
    requires d >= 1
    ensures Rem(Rem(n, d) + 1, d) == Rem(n + 1, d)
  {
    DivMod(n, d);
    var q, r := Quot(n, d), Rem(n, d);
    if r + 1 == d {
      DivModUnique(n + 1, d, q + 1, 0);
      DivModUnique(r + 1, d, 1, 0);
    } else {
      DivModUnique(n + 1, d, q, r + 1);
      DivModUnique(r + 1, d, 0, r + 1);
    }
  }

  /** Numbers less than n apart have different remainders modulo n. */
  lemma NearbyRemainders(x: nat, y: nat, n: nat)
    requires x < y < x + n
    ensures Rem(x, n) != Rem(y, n)
  {
    DivMod(x, n);
    DivMod(y, n);
    var qx, qy := Quot(x, n), Quot(y, n);
    if qy <= qx {
      Times(qy, qx, n);
    } else {
      Times(qx + 1, qy, n);
      assert n * (qx + 1) == n * qx + n;
    }
  }

  /** Remainders modulo 2d split off the lowest bit. */
  lemma ModDouble(x: nat, d: nat)
    requires d >= 1
    ensures Rem(x, 2 * d) == x % 2 + 2 * Rem(x / 2, d)
  {
    var h, q, r := x / 2, Quot(x / 2, d), Rem(x / 2, d);
    DivMod(h, d);
    assert h == d * q + r;
    assert (2 * d) * q == 2 * (d * q);
    DivModUnique(x, 2 * d, q, x % 2 + 2 * r);
  }

  // ---------- masks ----------

  /** Masking with 2^k - 1 keeps the remainder modulo 2^k. */
  lemma {:induction false} AndLowMask(x: nat, k: nat)
    ensures And(x, Pow2(k) - 1) == Rem(x, Pow2(k))
  {
    if k != 0 && x != 0 {
      var m := Pow2(k) - 1;
      assert m % 2 == 1 && m / 2 == Pow2(k - 1) - 1;
      ModDouble(x, Pow2(k - 1));
      AndLowMask(x / 2, k - 1);
    }
  }

  lemma AndEven(x: nat, h: nat)
    ensures And(x, 2 * h) == 2 * And(x / 2, h)
  {
    assert (2 * h) / 2 == h && (2 * h) % 2 == 0;
  }

  /** Masking a w-bit word with 2^w - 2^k clears its k lowest bits. */
  lemma {:induction false} AndHighMask(x: nat, w: nat, k: nat)
    requires k <= w && x < Pow2(w)
    ensures Pow2(k) <= Pow2(w)
    ensures And(x, Pow2(w) - Pow2(k)) == x - Rem(x, Pow2(k))
  {
    if k == 0 {
      AndAllOnes(x, w);
    } else {
      var half, d := Pow2(w - 1), Pow2(k - 1);
      AndHighMask(x / 2, w - 1, k - 1);
      HighMaskStep(x, half, d, Pow2(w) - Pow2(k), Pow2(k));
    }
  }

  lemma AndAllOnes(x: nat, w: nat)
    requires x < Pow2(w)
    ensures And(x, Pow2(w) - 1) == x - Rem(x, 1)
  {
    AndLowMask(x, w);
    DivModUnique(x, Pow2(w), 0, x);
    DivModUnique(x, 1, x, 0);
  }

  lemma HighMaskStep(x: nat, half: nat, d: nat, mask: nat, twice: nat)
    requires mask == 2 * half - 2 * d && twice == 2 * d
    requires 1 <= d <= half && And(x / 2, half - d) == x / 2 - Rem(x / 2, d)
    ensures And(x, mask) == x - Rem(x, twice)
  {
    ModDouble(x, d);
    AndEven(x, half - d);
    assert 2 * half - 2 * d == 2 * (half - d);
  }

  lemma {:induction false} AndSelf(x: nat)
    ensures And(x, x) == x
  {
    if x != 0 {
      AndSelf(x / 2);
    }
  }

  // ---------- IsPower2 ----------

  predicate IsPower2(n: nat)
    requires n < WORD32
  {
    And(n, Pred32(n)) == 0
  }

  /** The bit trick accepts exactly the powers of two, and zero. */
  lemma IsPower2Exact(n: nat)
    requires n < WORD32
    ensures IsPower2(n) <==> n == 0 || IsPowerOfTwo(n)
  {
    if n != 0 {
      ClearLowestBit(n);
    }
  }

  lemma {:induction false} ClearLowestBit(n: nat)
    requires n >= 1
    ensures And(n, n - 1) == 0 <==> IsPowerOfTwo(n)
  {
    if n == 1 {
      assert n == Pow2(0);
    } else if n % 2 == 1 {
      assert (n - 1) / 2 == n / 2;
      AndSelf(n / 2);
      assert forall k: nat :: n != Pow2(k) by {
        forall k: nat ensures n != Pow2(k) {
          assert k == 0 || Pow2(k) % 2 == 0;
        }
      }
    } else {
      assert (n - 1) / 2 == n / 2 - 1;
      ClearLowestBit(n / 2);
      if IsPowerOfTwo(n / 2) {
        var k: nat :| n / 2 == Pow2(k);
        assert n == Pow2(k + 1);
      }
      if IsPowerOfTwo(n) {
        var k: nat :| n == Pow2(k);
        assert k != 0 && n / 2 == Pow2(k - 1);
      }
    }
  }

  // ---------- FloorLog2 and CeilLog2 ----------

  /** One halving step of FloorLog2: a nonzero masked upper half means n >= 2^k. */
  lemma UpperHalf(n: nat, k: nat, mask: nat)
    requires k >= 1 && n < Pow2(k + k) && mask == Pow2(k + k) - Pow2(k)
    ensures And(n, mask) != 0 <==> n >= Pow2(k)
    ensures ShiftRight(n, k) < Pow2(k)
    ensures n >= Pow2(k) ==> ShiftRight(n, k) >= 1
  {
    assert Pow2(k + k) == Pow2(k) * Pow2(k) by { Pow2Add(k, k); }
    HighPart(n, Pow2(k), Pow2(k + k));
    AndHighMask(n, k + k, k);
  }

  lemma HighPart(n: nat, d: nat, square: nat)
    requires d >= 1 && n < square == d * d
    ensures Quot(n, d) < d
    ensures n >= d ==> Quot(n, d) >= 1
    ensures n - Rem(n, d) != 0 <==> n >= d
  {
    DivMod(n, d);
    QuotBounds(n, d);
    TimesIf(d, Quot(n, d), d);
  }

  /** Shifting by k takes k off the position of the most significant bit. */
  lemma ShiftPosition(n: nat, k: nat, p: nat)
    requires Pow2(p) <= ShiftRight(n, k) < Pow2(p + 1)
    ensures Pow2(p + k) <= n < Pow2(p + k + 1)
  {
    Pow2Add(p, k);
    Pow2Add(p + 1, k);
    Scaled(n, Pow2(k), Pow2(p), Pow2(p + 1));
  }

  lemma Scaled(n: nat, d: nat, low: nat, high: nat)
    requires d >= 1 && low <= Quot(n, d) < high
    ensures low * d <= n < high * d
  {
    var q := Quot(n, d);
    DivMod(n, d);
    Times(low, q, d);
    assert (q + 1) * d == q * d + d;
    Times(q + 1, high, d);
  }

  lemma WordPowers()
    ensures Pow2(1) == 2 && Pow2(2) == 4 && Pow2(4) == 16 && Pow2(8) == 256 && Pow2(16) == 65536
    ensures Pow2(31) == 0x8000_0000 && Pow2(32) == WORD32
  {
    Pow2Add(8, 8);
    Pow2Add(16, 16);
    assert Pow2(32) == 2 * Pow2(31);
  }

  /** p is the position of the most significant bit of n: 2^p <= n < 2^(p+1). */
  ghost predicate TopBit(n: nat, p: nat) {
    Pow2(p) <= n < Pow2(p + 1)
  }

  lemma ShiftTwice(n: nat, j: nat, k: nat, p: nat)
    requires TopBit(ShiftRight(ShiftRight(n, j), k), p)
    ensures TopBit(n, p + k + j)
  {
    ShiftPosition(ShiftRight(n, j), k, p);
    ShiftPosition(n, j, p + k);
  }

  /** One conditional halving of FloorLog2: k is added to p when the upper half is not empty. */
  method Halve(n: nat, k: nat, mask: nat) returns (m: nat, step: nat)
    requires k >= 1 && n < Pow2(k + k) && mask == Pow2(k + k) - Pow2(k)
    ensures m < Pow2(k) && m == ShiftRight(n, step)
    ensures step == if n >= Pow2(k) then k else 0
    ensures n >= 1 ==> m >= 1
  {
    UpperHalf(n, k, mask);
    if And(n, mask) != 0 { return ShiftRight(n, k), k; }
    DivModUnique(n, 1, n, 0);
    return n, 0;
  }

  method FloorLog2(n: nat) returns (p: int)
    requires n < WORD32
    ensures n == 0 ==> p == -1
    ensures n != 0 ==> 0 <= p < 32 && TopBit(n, p)
  {
    if n == 0 { return -1; }
    WordPowers();
    assert Pow2(16 + 16) == WORD32 && Pow2(8 + 8) == 65536 && Pow2(4 + 4) == 256 && Pow2(2 + 2) == 16 && Pow2(1 + 1) == 4;
    var m1, p1 := Halve(n, 16, 0xffff0000);
    var m2, p2 := Halve(m1, 8, 0xff00);
    var m3, p3 := Halve(m2, 4, 0xf0);
    var m4, p4 := Halve(m3, 2, 0xc);
    var _, p5 := Halve(m4, 1, 0x2);
    p := p1 + p2 + p3 + p4 + p5;
    SumOfSteps(n, p1, p2, p3, p4, p5, p);
  }

  /** Four shifts that leave a word with its top bit at p5 add up. */
  lemma SumOfSteps(n: nat, p1: nat, p2: nat, p3: nat, p4: nat, p5: nat, p: nat)
    requires p == p1 + p2 + p3 + p4 + p5
    requires TopBit(ShiftRight(ShiftRight(ShiftRight(ShiftRight(n, p1), p2), p3), p4), p5)
    ensures TopBit(n, p)
  {
    ShiftTwice(ShiftRight(ShiftRight(n, p1), p2), p3, p4, p5);
    ShiftTwice(n, p1, p2, p5 + p4 + p3);
  }

  /** The least c with n <= 2^c, for n >= 1; for n == 0 the wrapped n - 1 gives 32. */
  method CeilLog2(n: nat) returns (c: int)
    requires n < WORD32
    ensures n == 0 ==> c == 32
    ensures n != 0 ==> 0 <= c <= 32 && n <= Pow2(c) && forall b: nat :: n <= Pow2(b) ==> c <= b
  {
    var p := FloorLog2(Pred32(n));
    c := p + 1;
    WordPowers();
    if n == 0 {
      if p < 31 { Pow2Monotone(p + 1, 32); }
    } else if n != 1 {
      forall b: nat | n <= Pow2(b) ensures c <= b {
        if b < p { Pow2Monotone(b, p); }
      }
    }
  }
}
