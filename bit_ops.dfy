/*
 * Unsigned integers as natural numbers, with the C++ bitwise operators the
 * CRC engines use. Each operator is defined by recursion on the binary
 * representation and characterised bit by bit (`Bit`); two numbers with the
 * same bits are equal (`BitsEqual`). Fixed-width truncation is an explicit
 * `And` with `Ones(n)`.
 */
module BitOps {

  /** uint8_t */
  type Byte = b: nat | b < 256

  function Pow2(n: nat): (r: nat)
    ensures r >= 1
  {
    if n == 0 then 1 else 2 * Pow2(n - 1)
  }

  /** The powers the 16-bit engine names as literals. */
  lemma Pow2Literals()
    ensures Pow2(8) == 0x100 && Pow2(15) == 0x8000 && Pow2(16) == 0x10000
    ensures Ones(8) == 0xFF && Ones(16) == 0xFFFF
  {
    assert Pow2(8) == 0x100;
    assert Pow2(12) == 0x1000;
    assert Pow2(15) == 0x8000;
  }

  /** `Ones(n)` is 2^n - 1: the low n bits set. */
  function Ones(n: nat): nat
  {
    Pow2(n) - 1
  }

  /** Bit i of x, i.e. `(x >> i) & 1`. */
  predicate Bit(x: nat, i: nat)
  {
    if i == 0 then x % 2 == 1 else Bit(x / 2, i - 1)
  }

  /** x ^ y */
  function Xor(x: nat, y: nat): nat
    decreases x + y
  {
    if x == 0 then y
    else if y == 0 then x
    else 2 * Xor(x / 2, y / 2) + (if x % 2 == y % 2 then 0 else 1)
  }

  /** x & y */
  function And(x: nat, y: nat): nat
    decreases x + y
  {
    if x == 0 || y == 0 then 0
    else 2 * And(x / 2, y / 2) + (if x % 2 == 1 && y % 2 == 1 then 1 else 0)
  }

  /** x | y */
  function Or(x: nat, y: nat): nat
    decreases x + y
  {
    if x == 0 then y
    else if y == 0 then x
    else 2 * Or(x / 2, y / 2) + (if x % 2 == 1 || y % 2 == 1 then 1 else 0)
  }

  /** x << k, without truncation. */
  function Shl(x: nat, k: nat): nat
  {
    if k == 0 then x else 2 * Shl(x, k - 1)
  }

  /** x >> k */
  function Shr(x: nat, k: nat): nat
  {
    if k == 0 then x else Shr(x / 2, k - 1)
  }

  // ---------------------------------------------------------------------------
  // Bitwise characterisation of each operator
  // ---------------------------------------------------------------------------

  lemma {:induction false} BitXor(x: nat, y: nat, i: nat)
    ensures Bit(Xor(x, y), i) <==> (Bit(x, i) != Bit(y, i))
    decreases i
  {
    if x == 0 {
      BitZero(i);
    } else if y == 0 {
      BitZero(i);
    } else if i > 0 {
      BitXor(x / 2, y / 2, i - 1);
    }
  }

  lemma {:induction false} BitAnd(x: nat, y: nat, i: nat)
    ensures Bit(And(x, y), i) <==> (Bit(x, i) && Bit(y, i))
    decreases i
  {
    if x == 0 || y == 0 {
      BitZero(i);
    } else if i > 0 {
      BitAnd(x / 2, y / 2, i - 1);
    }
  }

  lemma {:induction false} BitOr(x: nat, y: nat, i: nat)
    ensures Bit(Or(x, y), i) <==> (Bit(x, i) || Bit(y, i))
    decreases i
  {
    if x == 0 {
      BitZero(i);
    } else if y == 0 {
      BitZero(i);
    } else if i > 0 {
      BitOr(x / 2, y / 2, i - 1);
    }
  }

  lemma {:induction false} BitShl(x: nat, k: nat, i: nat)
    ensures Bit(Shl(x, k), i) <==> (i >= k && Bit(x, i - k))
    decreases k
  {
    if k > 0 {
      if i > 0 {
        BitShl(x, k - 1, i - 1);
      }
    }
  }

  lemma {:induction false} BitShr(x: nat, k: nat, i: nat)
    ensures Bit(Shr(x, k), i) <==> Bit(x, i + k)
    decreases k
  {
    if k > 0 {
      BitShr(x / 2, k - 1, i);
    }
  }

  lemma {:induction false} BitZero(i: nat)
    ensures !Bit(0, i)
  {
    if i > 0 {
      BitZero(i - 1);
    }
  }

  lemma {:induction false} BitOnes(n: nat, i: nat)
    ensures Bit(Ones(n), i) <==> i < n
    decreases n
  {
    if n == 0 {
      BitZero(i);
    } else if i > 0 {
      BitOnes(n - 1, i - 1);
    }
  }

  // ---------------------------------------------------------------------------
  // Equality and bounds from bits
  // ---------------------------------------------------------------------------

  /** Two numbers with the same bits are the same number. */
  lemma {:induction false} BitsEqual(x: nat, y: nat)
    requires forall i: nat :: Bit(x, i) == Bit(y, i)
    ensures x == y
    decreases x + y
  {
    if x + y != 0 {
      assert x % 2 == y % 2 by { assert Bit(x, 0) == Bit(y, 0); }
      forall i: nat ensures Bit(x / 2, i) == Bit(y / 2, i) {
        assert Bit(x, i + 1) == Bit(y, i + 1);
      }
      BitsEqual(x / 2, y / 2);
    }
  }

  /** A nonzero number has a set bit. */
  lemma {:induction false} Nonzero(x: nat)
    requires x != 0
    ensures exists i: nat :: Bit(x, i)
    decreases x
  {
    if x % 2 == 1 {
      assert Bit(x, 0);
    } else {
      Nonzero(x / 2);
      var i: nat :| Bit(x / 2, i);
      assert Bit(x, i + 1);
    }
  }

  /** x < 2^n exactly when no bit at or above n is set. */
  lemma {:induction false} BelowPow2(x: nat, n: nat)
    ensures x < Pow2(n) ==> forall i: nat :: i >= n ==> !Bit(x, i)
    ensures (forall i: nat :: i >= n ==> !Bit(x, i)) ==> x < Pow2(n)
    decreases n
  {
    if n == 0 {
      if x != 0 {
        Nonzero(x);
        var i: nat :| Bit(x, i);
        assert i >= n;
      } else {
        forall i: nat ensures !Bit(x, i) { BitZero(i); }
      }
    } else {
      BelowPow2(x / 2, n - 1);
      if x < Pow2(n) {
        assert x / 2 < Pow2(n - 1);
        assert forall j: nat :: j >= n - 1 ==> !Bit(x / 2, j);
        forall i: nat | i >= n ensures !Bit(x, i) {
          assert !Bit(x / 2, i - 1);
        }
      } else {
        assert x / 2 >= Pow2(n - 1);
        assert exists i: nat :: i >= n - 1 && Bit(x / 2, i);
        var i: nat :| i >= n - 1 && Bit(x / 2, i);
        var j: nat := i + 1;
        assert j >= n && Bit(x, j);
      }
    }
  }

  /** Pow2 is monotone. */
  lemma {:induction false} Pow2Mono(m: nat, n: nat)
    requires m <= n
    ensures Pow2(m) <= Pow2(n)
    decreases n
  {
    if m < n {
      Pow2Mono(m, n - 1);
    }
  }

  // ---------------------------------------------------------------------------
  // Consequences used by the CRC engines
  // ---------------------------------------------------------------------------

  /** XOR of two n-bit numbers is an n-bit number. */
  lemma XorBelow(x: nat, y: nat, n: nat)
    requires x < Pow2(n) && y < Pow2(n)
    ensures Xor(x, y) < Pow2(n)
  {
    BelowPow2(x, n);
    BelowPow2(y, n);
    forall i: nat | i >= n ensures !Bit(Xor(x, y), i) { BitXor(x, y, i); }
    BelowPow2(Xor(x, y), n);
  }

  /** `x & Ones(n)` keeps exactly the low n bits of x. */
  lemma BitLow(x: nat, n: nat, i: nat)
    ensures Bit(And(x, Ones(n)), i) <==> (i < n && Bit(x, i))
  {
    BitAnd(x, Ones(n), i);
    BitOnes(n, i);
  }

  /** `x & Ones(n)` is an n-bit number. */
  lemma LowBelow(x: nat, n: nat)
    ensures And(x, Ones(n)) < Pow2(n)
  {
    forall i: nat | i >= n ensures !Bit(And(x, Ones(n)), i) { BitLow(x, n, i); }
    BelowPow2(And(x, Ones(n)), n);
  }

  /** Masking an n-bit number to n bits changes nothing. */
  lemma LowOfBelow(x: nat, n: nat)
    requires x < Pow2(n)
    ensures And(x, Ones(n)) == x
  {
    BelowPow2(x, n);
    forall i: nat ensures Bit(And(x, Ones(n)), i) == Bit(x, i) { BitLow(x, n, i); }
    BitsEqual(And(x, Ones(n)), x);
  }

  /** x >> k of an n-bit number is an (n-k)-bit number. */
  lemma ShrBelow(x: nat, n: nat, k: nat)
    requires k <= n && x < Pow2(n)
    ensures Shr(x, k) < Pow2(n - k)
  {
    BelowPow2(x, n);
    forall i: nat | i >= n - k ensures !Bit(Shr(x, k), i) { BitShr(x, k, i); }
    BelowPow2(Shr(x, k), n - k);
  }

  /** x << k of an m-bit number is an (m+k)-bit number. */
  lemma ShlBelow(x: nat, m: nat, k: nat)
    requires x < Pow2(m)
    ensures Shl(x, k) < Pow2(m + k)
  {
    BelowPow2(x, m);
    forall i: nat | i >= m + k ensures !Bit(Shl(x, k), i) { BitShl(x, k, i); }
    BelowPow2(Shl(x, k), m + k);
  }

  /** `x & (1 << k)` is nonzero exactly when bit k of x is set. */
  lemma TestBit(x: nat, k: nat)
    ensures And(x, Shl(1, k)) != 0 <==> Bit(x, k)
  {
    var t := And(x, Shl(1, k));
    BitAnd(x, Shl(1, k), k);
    BitShl(1, k, k);
    if t == 0 {
      BitZero(k);
    } else {
      Nonzero(t);
      var i: nat :| Bit(t, i);
      BitAnd(x, Shl(1, k), i);
      ShlOneBit(k, i);
    }
  }

  /** `1 << k` has bit k and no other. */
  lemma ShlOneBit(k: nat, i: nat)
    ensures Bit(Shl(1, k), i) <==> i == k
  {
    BitShl(1, k, i);
    if i > k {
      BitZero(i - k - 1);
    }
  }

  /** 0 is the unit of XOR. */
  lemma XorZero(x: nat)
    ensures Xor(x, 0) == x
  {
  }

  /** OR of two numbers with no common bit is their sum. */
  lemma {:induction false} OrDisjoint(x: nat, y: nat)
    requires And(x, y) == 0
    ensures Or(x, y) == x + y
    decreases x + y
  {
    if x != 0 && y != 0 {
      OrDisjoint(x / 2, y / 2);
    }
  }

  /** x & y never exceeds x. */
  lemma {:induction false} AndAtMost(x: nat, y: nat)
    ensures And(x, y) <= x
    decreases x + y
  {
    if x != 0 && y != 0 {
      AndAtMost(x / 2, y / 2);
    }
  }

  /** A number is its high part (bits k and up) plus its low k bits. */
  lemma SplitLow(x: nat, hi: nat, k: nat)
    requires forall j: nat :: Bit(hi, j) <==> (j >= k && Bit(x, j))
    ensures x == hi + And(x, Ones(k))
  {
    var lo := And(x, Ones(k));
    forall j: nat ensures Bit(And(hi, lo), j) == Bit(0, j) {
      BitAnd(hi, lo, j);
      BitLow(x, k, j);
      BitZero(j);
    }
    BitsEqual(And(hi, lo), 0);
    OrDisjoint(hi, lo);
    forall j: nat ensures Bit(Or(hi, lo), j) == Bit(x, j) {
      BitOr(hi, lo, j);
      BitLow(x, k, j);
    }
    BitsEqual(Or(hi, lo), x);
  }
}
