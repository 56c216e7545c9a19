// Powers of two and the index arithmetic of a binary tree over n leaves.
// Shifts and ceilings are defined one halving at a time, so that every fact
// below is proved by induction on the height with division by 2 only.
module Arith {

  /** Indices and counts are unsigned 64-bit values: arithmetic on them
      wraps modulo U64. */
  const U64: nat := 0x1_0000_0000_0000_0000

  /** 2^k, the number of leaves under a complete subtree of height k. */
  function Pow2(k: nat): (r: nat)
    ensures r >= 1
  {
    if k == 0 then 1 else 2 * Pow2(k - 1)
  }

  function Min(a: nat, b: nat): nat
  {
    if a <= b then a else b
  }

  /** x >> k: the index of the node of height k above leaf x. */
  function Shr(x: nat, k: nat): nat
  {
    if k == 0 then x else Shr(x, k - 1) / 2
  }

  /** ceil(x / 2^k): the number of nodes of height k over leaves [0, x). */
  function CeilPow2(x: nat, k: nat): nat
  {
    if k == 0 then x else (CeilPow2(x, k - 1) + 1) / 2
  }

  /** x is a multiple of 2^k: a subtree of height k may start at leaf x. */
  predicate Aligned(x: nat, k: nat)
  {
    k == 0 || (Aligned(x, k - 1) && Shr(x, k - 1) % 2 == 0)
  }

  // One step up: the definitions above, stated at k + 1 so that callers
  // need not match k + 1 - 1 against k.

  lemma {:induction false} Pow2Succ(k: nat)
    ensures Pow2(k + 1) == 2 * Pow2(k)
  {
    var k1 := k + 1;
    assert k1 - 1 == k;
  }

  lemma {:induction false} ShrSucc(x: nat, k: nat)
    ensures Shr(x, k + 1) == Shr(x, k) / 2
  {
    var k1 := k + 1;
    assert k1 - 1 == k;
  }

  lemma {:induction false} CeilSucc(x: nat, k: nat)
    ensures CeilPow2(x, k + 1) == (CeilPow2(x, k) + 1) / 2
  {
    var k1 := k + 1;
    assert k1 - 1 == k;
  }

  lemma {:induction false} AlignedSucc(x: nat, k: nat)
    ensures Aligned(x, k + 1) <==> Aligned(x, k) && Shr(x, k) % 2 == 0
  {
    var k1 := k + 1;
    assert k1 - 1 == k;
  }

  lemma {:induction false} Pow2Monotone(a: nat, b: nat)
    requires a <= b
    ensures Pow2(a) <= Pow2(b)
    decreases b
  {
    if a < b {
      Pow2Monotone(a, b - 1);
    }
  }

  lemma {:induction false} ShrMonotone(x: nat, y: nat, k: nat)
    requires x <= y
    ensures Shr(x, k) <= Shr(y, k)
  {
    if k > 0 {
      ShrMonotone(x, y, k - 1);
    }
  }

  lemma {:induction false} CeilMonotone(x: nat, y: nat, k: nat)
    requires x <= y
    ensures CeilPow2(x, k) <= CeilPow2(y, k)
  {
    if k > 0 {
      CeilMonotone(x, y, k - 1);
    }
  }

  /** Moving 2^k leaves to the right moves one node of height k. */
  lemma {:induction false} ShrAddPow2(x: nat, k: nat)
    ensures Shr(x + Pow2(k), k) == Shr(x, k) + 1
    decreases k
  {
    if k > 0 {
      var q := Pow2(k - 1);
      ShrAddPow2(x, k - 1);
      ShrAddPow2(x + q, k - 1);
    }
  }

  lemma {:induction false} CeilAddPow2(x: nat, k: nat)
    ensures CeilPow2(x + Pow2(k), k) == CeilPow2(x, k) + 1
    decreases k
  {
    if k > 0 {
      var q := Pow2(k - 1);
      CeilAddPow2(x, k - 1);
      CeilAddPow2(x + q, k - 1);
    }
  }

  lemma {:induction false} ShrLeCeil(x: nat, k: nat)
    ensures Shr(x, k) <= CeilPow2(x, k) <= Shr(x, k) + 1
  {
    if k > 0 {
      ShrLeCeil(x, k - 1);
    }
  }

  lemma {:induction false} CeilPositive(x: nat, k: nat)
    requires x >= 1
    ensures CeilPow2(x, k) >= 1
  {
    if k > 0 {
      CeilPositive(x, k - 1);
    }
  }

  /** At an aligned leaf, rounding up and rounding down agree. */
  lemma {:induction false} CeilAligned(x: nat, k: nat)
    requires Aligned(x, k)
    ensures CeilPow2(x, k) == Shr(x, k)
  {
    if k > 0 {
      CeilAligned(x, k - 1);
    }
  }

  /** A leaf below e lies under one of the first ceil(e / 2^k) nodes. */
  lemma {:induction false} ShrBelowCeil(x: nat, e: nat, k: nat)
    requires x < e
    ensures Shr(x, k) < CeilPow2(e, k)
  {
    if k > 0 {
      ShrBelowCeil(x, e, k - 1);
    }
  }

  /** Below an aligned leaf, the node index is strictly smaller. */
  lemma {:induction false} AlignedLess(x: nat, y: nat, k: nat)
    requires Aligned(y, k) && x < y
    ensures Shr(x, k) < Shr(y, k)
  {
    if k > 0 {
      AlignedLess(x, y, k - 1);
    }
  }

  lemma {:induction false} AlignedWeaken(x: nat, a: nat, b: nat)
    requires b <= a && Aligned(x, a)
    ensures Aligned(x, b)
    decreases a
  {
    if b < a {
      AlignedWeaken(x, a - 1, b);
    }
  }

  lemma {:induction false} AlignedZero(k: nat)
    ensures Aligned(0, k) && Shr(0, k) == 0 && CeilPow2(0, k) == 0
  {
    if k > 0 {
      AlignedZero(k - 1);
    }
  }

  lemma {:induction false} AlignedAddPow2(x: nat, k: nat)
    requires Aligned(x, k)
    ensures Aligned(x + Pow2(k), k)
    decreases k
  {
    if k > 0 {
      var q := Pow2(k - 1);
      AlignedAddPow2(x, k - 1);
      AlignedAddPow2(x + q, k - 1);
      ShrAddPow2(x, k - 1);
      ShrAddPow2(x + q, k - 1);
    }
  }

  /** 2^k itself is a multiple of 2^k, with quotient one. */
  lemma {:induction false} Pow2Aligned(k: nat)
    ensures Aligned(Pow2(k), k) && Shr(Pow2(k), k) == 1
  {
    AlignedZero(k);
    AlignedAddPow2(0, k);
    ShrAddPow2(0, k);
  }

  /** Half-way between two multiples of 2^(k+1) is not one. */
  lemma {:induction false} AlignedHalfway(x: nat, k: nat)
    requires Aligned(x, k + 1)
    ensures Aligned(x + Pow2(k), k) && Shr(x + Pow2(k), k) % 2 == 1
    ensures !Aligned(x + Pow2(k), k + 1)
  {
    AlignedAddPow2(x, k);
    ShrAddPow2(x, k);
  }

  /** Not a multiple of 2^(k+1) means not a multiple of any larger power. */
  lemma {:induction false} NotAlignedAbove(x: nat, k: nat, j: nat)
    requires !Aligned(x, k + 1) && k <= j
    ensures !Aligned(x, j + 1)
  {
    if Aligned(x, j + 1) {
      AlignedWeaken(x, j + 1, k + 1);
    }
  }

  /** Dropping an aligned prefix of leaves shifts every count by its nodes. */
  lemma {:induction false} CeilSubAligned(x: nat, d: nat, k: nat)
    requires d <= x && Aligned(d, k)
    ensures CeilPow2(x - d, k) + Shr(d, k) == CeilPow2(x, k)
    ensures Shr(x - d, k) + Shr(d, k) == Shr(x, k)
  {
    if k > 0 {
      CeilSubAligned(x, d, k - 1);
    }
  }

  lemma {:induction false} ShrSmall(x: nat, k: nat)
    requires x < Pow2(k)
    ensures Shr(x, k) == 0
  {
    Pow2Aligned(k);
    AlignedLess(x, Pow2(k), k);
  }

  /** At most 2^k leaves fit under one node of height k. */
  lemma {:induction false} CeilOne(x: nat, k: nat)
    requires 1 <= x <= Pow2(k)
    ensures CeilPow2(x, k) == 1
  {
    CeilPositive(x, k);
    CeilMonotone(x, Pow2(k), k);
    AlignedZero(k);
    CeilAddPow2(0, k);
  }

  /** Leaf x lies under the node of height k that starts at aligned leaf lo
      exactly when lo <= x < lo + 2^k. */
  lemma {:induction false} ShrRange(x: nat, lo: nat, k: nat)
    requires Aligned(lo, k)
    ensures Shr(x, k) == Shr(lo, k) <==> lo <= x < lo + Pow2(k)
  {
    ShrAddPow2(lo, k);
    if x < lo {
      AlignedLess(x, lo, k);
    } else if x < lo + Pow2(k) {
      ShrMonotone(lo, x, k);
      AlignedAddPow2(lo, k);
      AlignedLess(x, lo + Pow2(k), k);
    } else {
      ShrMonotone(lo + Pow2(k), x, k);
    }
  }

  /** An aligned leaf lo is at least x exactly when its node is at least
      ceil(x / 2^k). */
  lemma {:induction false} CeilRange(x: nat, lo: nat, k: nat)
    requires Aligned(lo, k)
    ensures x <= lo <==> CeilPow2(x, k) <= Shr(lo, k)
  {
    CeilAligned(lo, k);
    if x <= lo {
      CeilMonotone(x, lo, k);
    } else {
      ShrBelowCeil(lo, x, k);
    }
  }

  /** Rounding up a more levels and then b more is rounding up a + b levels. */
  lemma {:induction false} CeilCompose(x: nat, a: nat, b: nat, c: nat)
    requires c == a + b
    ensures CeilPow2(CeilPow2(x, a), b) == CeilPow2(x, c)
    decreases b
  {
    if b > 0 {
      CeilCompose(x, a, b - 1, c - 1);
      assert CeilPow2(CeilPow2(x, a), b) == (CeilPow2(CeilPow2(x, a), b - 1) + 1) / 2;
      assert CeilPow2(x, c) == (CeilPow2(x, c - 1) + 1) / 2;
    }
  }

  /** ceil(x / 2^k) <= 1 exactly when x <= 2^k. */
  lemma {:induction false} CeilAtMostOne(x: nat, k: nat)
    ensures CeilPow2(x, k) <= 1 <==> x <= Pow2(k)
  {
    Pow2Aligned(k);
    CeilRange(x, Pow2(k), k);
  }

  /** Once a single node covers x leaves, every greater height does too. */
  lemma {:induction false} CeilAtMostOneAbove(x: nat, a: nat, b: nat)
    requires a <= b && CeilPow2(x, a) <= 1
    ensures CeilPow2(x, b) <= 1
  {
    CeilAtMostOne(x, a);
    Pow2Monotone(a, b);
    CeilAtMostOne(x, b);
  }

  /** Where rounding up and rounding down agree, x is a multiple of 2^k. */
  lemma {:induction false} AlignedOfCeil(x: nat, k: nat)
    requires CeilPow2(x, k) == Shr(x, k)
    ensures Aligned(x, k)
  {
    if k > 0 {
      ShrLeCeil(x, k - 1);
      assert CeilPow2(x, k - 1) == Shr(x, k - 1);
      AlignedOfCeil(x, k - 1);
    }
  }

  /** One step of 2^k back from a multiple of 2^k is a multiple of 2^k. */
  lemma {:induction false} AlignedSubPow2(x: nat, k: nat)
    requires Aligned(x + Pow2(k), k)
    ensures Aligned(x, k) && Shr(x + Pow2(k), k) == Shr(x, k) + 1
  {
    ShrAddPow2(x, k);
    CeilAddPow2(x, k);
    CeilAligned(x + Pow2(k), k);
    AlignedOfCeil(x, k);
  }

  /** Two multiples of 2^k with the same quotient are equal. */
  lemma {:induction false} AlignedUnique(a: nat, b: nat, k: nat)
    requires Aligned(a, k) && Aligned(b, k) && Shr(a, k) == Shr(b, k)
    ensures a == b
  {
    CeilAligned(a, k);
    CeilAligned(b, k);
    CeilRange(a, b, k);
    CeilRange(b, a, k);
  }

  /** A multiple of 2^k is at least 2^k exactly when its quotient is at
      least one. */
  lemma {:induction false} AlignedAtLeastPow2(x: nat, k: nat)
    requires Aligned(x, k)
    ensures Pow2(k) <= x <==> Shr(x, k) >= 1
  {
    Pow2Aligned(k);
    CeilAligned(Pow2(k), k);
    CeilRange(Pow2(k), x, k);
  }

  /** x rounded down to a multiple of 2^j: x with its j lowest bits cleared. */
  function Trunc(x: nat, j: nat): int
  {
    if j == 0 then x
    else Trunc(x, j - 1) - (if Shr(x, j - 1) % 2 == 1 then Pow2(j - 1) else 0)
  }

  lemma {:induction false} TruncFacts(x: nat, j: nat)
    ensures 0 <= Trunc(x, j) <= x < Trunc(x, j) + Pow2(j)
    ensures Aligned(Trunc(x, j), j) && Shr(Trunc(x, j), j) == Shr(x, j)
  {
    if j > 0 {
      var l := j - 1;
      var t := Trunc(x, l);
      TruncFacts(x, l);
      if Shr(x, l) % 2 == 1 {
        AlignedAtLeastPow2(t, l);
        AlignedSubPow2(t - Pow2(l), l);
      }
    }
  }

  /** The bits [a, b) of x are all zero. */
  ghost predicate ZeroBits(x: nat, a: nat, b: nat)
  {
    forall i :: a <= i < b ==> Shr(x, i) % 2 == 0
  }

  /** Clearing zero bits changes nothing. */
  lemma {:induction false} TruncSkip(x: nat, a: nat, b: nat)
    requires a <= b && ZeroBits(x, a, b)
    ensures Trunc(x, a) == Trunc(x, b)
    decreases b - a
  {
    if a < b {
      var a1 := a + 1;
      assert a1 - 1 == a;
      TruncSkip(x, a1, b);
    }
  }

  /** With no bit set from a up, clearing the bits below a leaves zero. */
  lemma {:induction false} TruncZero(x: nat, a: nat)
    requires Shr(x, a) == 0
    ensures Trunc(x, a) == 0
  {
    TruncFacts(x, a);
    AlignedZero(a);
    AlignedUnique(Trunc(x, a), 0, a);
  }

  /** The j lowest bits of x are all ones. */
  ghost predicate TrailingOnes(x: nat, j: nat)
  {
    forall i :: 0 <= i < j ==> Shr(x, i) % 2 == 1
  }

  /** Adding one to x whose k lowest bits are ones carries into bit k. */
  lemma {:induction false} Carry(x: nat, k: nat)
    requires TrailingOnes(x, k)
    ensures Trunc(x, k) + Pow2(k) == x + 1
    ensures Aligned(x + 1, k) && Shr(x + 1, k) == Shr(x, k) + 1
  {
    if k > 0 {
      var l := k - 1;
      assert TrailingOnes(x, l);
      Carry(x, l);
      assert Shr(x, l) % 2 == 1;
    }
  }

  /** Bits at and above a point where two numbers agree agree too. */
  lemma {:induction false} ShrAgreeAbove(x: nat, y: nat, a: nat, b: nat)
    requires a <= b && Shr(x, a) == Shr(y, a)
    ensures Shr(x, b) == Shr(y, b)
    decreases b - a
  {
    if a < b {
      ShrSucc(x, a);
      ShrSucc(y, a);
      ShrAgreeAbove(x, y, a + 1, b);
    }
  }

  /** Shifting further gives a smaller quotient. */
  lemma {:induction false} ShrAntitone(x: nat, a: nat, b: nat)
    requires a <= b
    ensures Shr(x, b) <= Shr(x, a)
    decreases b - a
  {
    if a < b {
      ShrSucc(x, a);
      ShrAntitone(x, a + 1, b);
    }
  }

  /** The bits below k of a multiple of 2^k are zero. */
  lemma {:induction false} AlignedLowBits(x: nat, k: nat, i: nat)
    requires Aligned(x, k) && i < k
    ensures Shr(x, i) % 2 == 0
    decreases k
  {
    if i < k - 1 {
      AlignedLowBits(x, k - 1, i);
    }
  }

  /** For x >= 1, ceil(x / 2^k) is (x - 1) / 2^k + 1. */
  lemma {:induction false} CeilIsShr(x: nat, k: nat)
    requires 1 <= x
    ensures CeilPow2(x, k) == Shr(x - 1, k) + 1
  {
    if k > 0 {
      CeilIsShr(x, k - 1);
      ShrSucc(x - 1, k - 1);
      CeilSucc(x, k - 1);
    }
  }

  /** A multiple of 2^k is 2^k times its quotient. */
  lemma {:induction false} AlignedMul(x: nat, k: nat)
    requires Aligned(x, k)
    ensures Pow2(k) * Shr(x, k) == x
  {
    if k > 0 {
      var l := k - 1;
      AlignedMul(x, l);
      AlignedSucc(x, l);
      ShrSucc(x, l);
      Pow2Succ(l);
      var s := Shr(x, l);
      var q := s / 2;
      assert s == 2 * q;
      calc {
        Pow2(k) * Shr(x, k);
        (2 * Pow2(l)) * q;
        Pow2(l) * (2 * q);
        x;
      }
    }
  }

  /** A quotient never exceeds the number divided. */
  lemma {:induction false} ShrAtMost(x: nat, k: nat)
    ensures Shr(x, k) <= x
  {
    ShrAntitone(x, 0, k);
  }

  /** Adding an even number keeps the parity. */
  lemma EvenShift(x: int, d: int)
    requires d % 2 == 0
    ensures (x + d) % 2 == x % 2
  {
  }
}
