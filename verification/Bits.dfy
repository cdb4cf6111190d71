/** The bitwise operators of unsigned integers, by recursion on the low bit. */
module Bits {
  import opened Powers

  function And(a: nat, b: nat): nat {
    if a == 0 then 0 else 2 * And(a / 2, b / 2) + (if a % 2 == 1 && b % 2 == 1 then 1 else 0)
  }

  function Or(a: nat, b: nat): nat
    decreases a + b
  {
    if a == 0 then b
    else 2 * Or(a / 2, b / 2) + (if a % 2 == 1 || b % 2 == 1 then 1 else 0)
  }

  function Xor(a: nat, b: nat): nat
    decreases a + b
  {
    if a == 0 then b
    else 2 * Xor(a / 2, b / 2) + (if a % 2 != b % 2 then 1 else 0)
  }

  const ONES := 0xffff_ffff

  /** `~a` on 32 bits. */
  function Not(a: nat): nat
    requires a <= ONES
  {
    ONES - a
  }

  function Times2(a: nat, s: nat): nat {
    if s == 0 then a else 2 * Times2(a, s - 1)
  }

  /** `a << s` on 32 bits. */
  function Shl(a: nat, s: nat): nat {
    Times2(a, s) % 0x1_0000_0000
  }

  /** `a >> k`. */
  function Shr(a: nat, k: nat): nat {
    if k == 0 then a else Shr(a / 2, k - 1)
  }

  /** `a & ((1 << k) - 1)`. */
  function Low(a: nat, k: nat): nat {
    if k == 0 then 0 else 2 * Low(a / 2, k - 1) + a % 2
  }

  /** How many bits up to and including the highest one set. */
  function BitLen(a: nat): nat {
    if a == 0 then 0 else 1 + BitLen(a / 2)
  }

  /** The index of the most significant bit set, 1 for the top one; 0 for no bit. */
  function FfsMsb(a: nat): (n: int)
  {
    if a == 0 then 0 else 33 - BitLen(a)
  }

  ghost predicate Subset(a: nat, b: nat) {
    And(a, b) == a
  }

  lemma {:induction false} BitLenBounds(a: nat)
    ensures a < Pow2(BitLen(a))
    ensures a > 0 ==> BitLen(a) > 0 && Pow2(BitLen(a) - 1) <= a
  {
    if a > 0 {
      BitLenBounds(a / 2);
    }
  }

  lemma {:induction false} AndBounds(a: nat, b: nat)
    ensures And(a, b) <= a && And(a, b) <= b
  {
    if a > 0 {
      AndBounds(a / 2, b / 2);
    }
  }

  lemma {:induction false} AndSymmetric(a: nat, b: nat)
    ensures And(a, b) == And(b, a)
    decreases a + b
  {
    if a > 0 && b > 0 {
      AndSymmetric(a / 2, b / 2);
    } else if a > 0 {
      AndZero(a);
    } else {
      AndZero(b);
    }
  }

  lemma {:induction false} AndZero(a: nat)
    ensures And(a, 0) == 0
  {
    if a > 0 {
      AndZero(a / 2);
    }
  }

  lemma {:induction false} AndSubset(a: nat, b: nat)
    ensures Subset(And(a, b), b)
  {
    if a > 0 {
      AndSubset(a / 2, b / 2);
      var c := And(a, b);
      assert c / 2 == And(a / 2, b / 2);
      if c == 0 {
      } else {
        assert And(c, b) == 2 * And(c / 2, b / 2) + (if c % 2 == 1 && b % 2 == 1 then 1 else 0);
      }
    }
  }

  /** Every bit of `m` is a bit of `w` or a bit of `~w`, and not both. */
  lemma {:induction false} Complement(w: nat, n: nat, m: nat)
    requires w < Pow2(n) && m < Pow2(n)
    ensures And(w, m) + And(Pow2(n) - 1 - w, m) == m
    ensures And(And(Pow2(n) - 1 - w, m), w) == 0
    decreases n
  {
    if n > 0 {
      var c := Pow2(n) - 1 - w;
      assert c / 2 == Pow2(n - 1) - 1 - w / 2 && c % 2 == 1 - w % 2;
      Complement(w / 2, n - 1, m / 2);
      Unfold(w, m);
      Unfold(c, m);
      Unfold(And(c, m), w);
    }
  }

  lemma Unfold(a: nat, b: nat)
    ensures And(a, b) == 2 * And(a / 2, b / 2) + (if a % 2 == 1 && b % 2 == 1 then 1 else 0)
    ensures And(a, b) / 2 == And(a / 2, b / 2)
    ensures And(a, b) % 2 == if a % 2 == 1 && b % 2 == 1 then 1 else 0
  {
  }

  lemma {:induction false} AndSplit(a: nat, b: nat, k: nat)
    ensures Shr(And(a, b), k) == And(Shr(a, k), Shr(b, k))
    ensures Low(And(a, b), k) == And(Low(a, k), Low(b, k))
  {
    if k > 0 {
      Unfold(a, b);
      AndSplit(a / 2, b / 2, k - 1);
      Unfold(Low(a, k), Low(b, k));
    }
  }

  /** Two numbers compare by their high parts and then by their low parts. */
  lemma {:induction false} CompareSplit(a: nat, b: nat, k: nat)
    ensures a > b <==> Shr(a, k) > Shr(b, k) || (Shr(a, k) == Shr(b, k) && Low(a, k) > Low(b, k))
    ensures a == b <==> Shr(a, k) == Shr(b, k) && Low(a, k) == Low(b, k)
  {
    if k > 0 {
      CompareSplit(a / 2, b / 2, k - 1);
    }
  }

  lemma {:induction false} LowBound(a: nat, k: nat)
    ensures Low(a, k) < Pow2(k) && Low(a, k) <= a
    ensures a < Pow2(k) <==> Shr(a, k) == 0
    ensures a < Pow2(k) <==> Low(a, k) == a
  {
    if k > 0 {
      LowBound(a / 2, k - 1);
    }
  }

  /** Adding one either stays within the low part or carries out of it. */
  lemma {:induction false} Increment(a: nat, k: nat)
    ensures if Low(a, k) == Pow2(k) - 1
            then Shr(a + 1, k) == Shr(a, k) + 1 && Low(a + 1, k) == 0
            else Shr(a + 1, k) == Shr(a, k) && Low(a + 1, k) == Low(a, k) + 1
  {
    if k > 0 {
      LowBound(a / 2, k - 1);
      Increment(a / 2, k - 1);
    }
  }

  /** A number is recovered from its two parts. */
  lemma {:induction false} Recover(a: nat, k: nat)
    ensures a == Shr(a, k) * Pow2(k) + Low(a, k)
  {
    if k > 0 {
      Recover(a / 2, k - 1);
      assert Shr(a, k) * Pow2(k) == 2 * (Shr(a / 2, k - 1) * Pow2(k - 1));
    }
  }

  lemma SameHigh(a: nat, b: nat, k: nat)
    requires Shr(a, k) == Shr(b, k) && Low(b, k) == 0
    ensures a == b + Low(a, k)
  {
    Recover(a, k);
    Recover(b, k);
  }

  lemma {:induction false} ShrZero(k: nat)
    ensures Shr(0, k) == 0 && Low(0, k) == 0
  {
    if k > 0 {
      ShrZero(k - 1);
    }
  }

  /** Taking the bits of a subset out of a mask leaves the difference. */
  lemma AndDifference(u: nat, m: nat, n: nat)
    requires m < Pow2(n) && Subset(u, m)
    ensures u <= m && And(m, Pow2(n) - 1 - u) == m - u
  {
    AndBounds(u, m);
    Complement(u, n, m);
    AndSymmetric(m, Pow2(n) - 1 - u);
  }

  lemma {:induction false} ShrBound(a: nat, n: nat, k: nat)
    requires k <= n && a < Pow2(n)
    ensures Shr(a, k) < Pow2(n - k)
  {
    if k > 0 {
      ShrBound(a / 2, n - 1, k - 1);
    }
  }

  lemma {:induction false} ShrNot(w: nat, n: nat, k: nat)
    requires k <= n && w < Pow2(n)
    ensures Shr(w, k) < Pow2(n - k) && Shr(Pow2(n) - 1 - w, k) == Pow2(n - k) - 1 - Shr(w, k)
  {
    if k > 0 {
      assert (Pow2(n) - 1 - w) / 2 == Pow2(n - 1) - 1 - w / 2;
      ShrNot(w / 2, n - 1, k - 1);
    }
  }

  /** The part of a number from its top bit up. */
  lemma {:induction false} ShrTop(a: nat, k: nat)
    requires Pow2(k) <= a < Pow2(k + 1)
    ensures Shr(a, k) == 1
  {
    if k > 0 {
      ShrTop(a / 2, k - 1);
    }
  }
}
