/**
 * Relational tests of a header field, and the tree of mask-and-compare tests
 * they are compiled to: `Primitive::set_mask` and
 * `Primitive::add_comparison_exprs` (bfclick/ip/ipfilter.cc).
 */
module IPFilters {
  import opened Powers
  import opened Bits

  // ---- the classifier's expression trees

  datatype Expr =
    | Test(offset: nat, value: nat, mask: nat)
    | Negated(e: Expr)
    | All(es: seq<Expr>)
    | Any(es: seq<Expr>)

  /** A packet, as the 32-bit word at each offset. */
  type Packet = nat -> nat

  ghost predicate Eval(e: Expr, pkt: Packet) {
    match e
    case Test(offset, value, mask) => And(pkt(offset), mask) == value
    case Negated(f) => !Eval(f, pkt)
    case All(es) => forall k :: 0 <= k < |es| ==> Eval(es[k], pkt)
    case Any(es) => exists k :: 0 <= k < |es| && Eval(es[k], pkt)
  }

  /** An expression under construction: the unfinished subtrees, outermost first. */
  class ExprTree {
    var frames: seq<seq<Expr>>

    constructor ()
      ensures frames == [[]]
    {
      frames := [[]];
    }

    ghost predicate Valid()
      reads this
    {
      frames != []
    }

    method StartSubtree()
      modifies this
      ensures frames == old(frames) + [[]]
    {
      frames := frames + [[]];
    }

    method AddExpr(e: Expr)
      requires Valid()
      modifies this
      ensures Valid() && frames == Appended(old(frames), e)
    {
      frames := frames[|frames| - 1 := frames[|frames| - 1] + [e]];
    }

    /** Negates the last thing added. */
    method NegateSubtree()
      requires Valid() && frames[|frames| - 1] != []
      modifies this
      ensures Valid()
      ensures var top := old(frames[|frames| - 1]);
        frames == old(frames)[|old(frames)| - 1 := top[|top| - 1 := Negated(top[|top| - 1])]]
    {
      var top := frames[|frames| - 1];
      frames := frames[|frames| - 1 := top[|top| - 1 := Negated(top[|top| - 1])]];
    }

    /** Closes the innermost subtree with the given connective. */
    method FinishSubtree(conjunction: bool)
      requires |frames| >= 2
      modifies this
      ensures Valid()
      ensures frames == Appended(old(frames)[..|old(frames)| - 1], Joined(conjunction, old(frames)[|old(frames)| - 1]))
    {
      var es := frames[|frames| - 1];
      frames := frames[..|frames| - 1];
      frames := frames[|frames| - 1 := frames[|frames| - 1] + [Joined(conjunction, es)]];
    }
  }

  function Joined(conjunction: bool, es: seq<Expr>): Expr {
    if conjunction then All(es) else Any(es)
  }

  function Appended(frames: seq<seq<Expr>>, e: Expr): (r: seq<seq<Expr>>)
    requires frames != []
    ensures |r| == |frames|
  {
    frames[|frames| - 1 := frames[|frames| - 1] + [e]]
  }

  // ---- the arithmetic of one test

  /** The bits of `mask` from bit `k` up: line 597. */
  function Upper(mask: nat, k: nat): nat
    requires k <= 32 && Pow2(k) - 1 <= ONES
  {
    And(mask, Not(Pow2(k) - 1))
  }

  lemma {:induction false} Pow2Monotone(k: nat, n: nat)
    requires k <= n
    ensures Pow2(k) <= Pow2(n)
  {
    if k > 0 {
      Pow2Monotone(k - 1, n - 1);
    }
  }

  lemma Width(k: nat)
    requires k <= 32
    ensures Pow2(k) - 1 <= ONES && Pow2(32) == ONES + 1
  {
    assert Pow2(8) == 256;
    Pow2Add(8, 8);
    Pow2Add(16, 16);
    Pow2Monotone(k, 32);
  }

  lemma {:induction false} AndOnes(a: nat, n: nat)
    requires a < Pow2(n)
    ensures And(a, Pow2(n) - 1) == a
    ensures And(Pow2(n) - 1, a) == a
  {
    if n > 0 {
      AndOnes(a / 2, n - 1);
      Unfold(a, Pow2(n) - 1);
      Unfold(Pow2(n) - 1, a);
    }
  }

  /** The bits of a mask from bit `k` up, and what is left without them. */
  lemma {:induction false} UpperParts(mask: nat, n: nat, k: nat)
    requires mask < Pow2(n) && k <= n
    ensures Pow2(k) <= Pow2(n)
    ensures Shr(And(mask, Pow2(n) - Pow2(k)), k) == Shr(mask, k)
    ensures Low(And(mask, Pow2(n) - Pow2(k)), k) == 0
    decreases k
  {
    Pow2Monotone(k, n);
    if k == 0 {
      AndOnes(mask, n);
    } else {
      UpperParts(mask / 2, n - 1, k - 1);
      var h := Pow2(n) - Pow2(k);
      assert h / 2 == Pow2(n - 1) - Pow2(k - 1) && h % 2 == 0;
      Unfold(mask, h);
    }
  }

  lemma {:induction false} AndSelf(a: nat)
    ensures And(a, a) == a
  {
    if a > 0 {
      AndSelf(a / 2);
    }
  }

  /** `x & mask > u`. */
  ghost predicate Greater(x: nat, mask: nat, u: nat) {
    And(x, mask) > u
  }

  /** A mask falls into the part a test uses and the part left to later tests. */
  lemma MaskParts(mask: nat, k: nat)
    requires mask <= ONES && k <= 32
    ensures Pow2(k) - 1 <= ONES && Upper(mask, k) <= mask
    ensures Shr(Upper(mask, k), k) == Shr(mask, k) && Low(Upper(mask, k), k) == 0
    ensures And(mask, Not(Upper(mask, k))) == Low(mask, k) <= mask
  {
    Width(k);
    UpperParts(mask, 32, k);
    var h := Not(Pow2(k) - 1);
    var u := And(mask, h);
    AndSymmetric(mask, h);
    AndSubset(h, mask);
    AndDifference(u, mask, 32);
    SameHigh(mask, u, k);
  }

  /** So do the bound and the field. */
  lemma ValueParts(x: nat, mask: nat, u: nat, k: nat)
    requires Subset(u, mask)
    ensures And(u, Low(mask, k)) == Low(u, k) && Subset(Low(u, k), Low(mask, k))
    ensures Subset(Shr(u, k), Shr(mask, k))
    ensures And(x, Low(mask, k)) == Low(And(x, mask), k)
  {
    LowOfLow(x, mask, k);
    LowOfLow(u, mask, k);
    AndSplit(u, mask, k);
  }

  /** What the test of the upper part of the mask sees. */
  lemma TestParts(x: nat, mask: nat, k: nat)
    requires mask <= ONES && k <= 32
    ensures Pow2(k) - 1 <= ONES
    ensures And(x, Upper(mask, k)) == 0 <==> Shr(And(x, mask), k) == 0
    ensures And(x, Upper(mask, k)) == Upper(mask, k) <==> Shr(And(x, mask), k) == Shr(mask, k)
  {
    MaskParts(mask, k);
    AndSplit(x, mask, k);
    AndSplit(x, Upper(mask, k), k);
    AndZero(Low(x, k));
    CompareSplit(And(x, Upper(mask, k)), Upper(mask, k), k);
    CompareSplit(And(x, Upper(mask, k)), 0, k);
    ShrZero(k);
  }

  /** Masking with low bits only sees low bits. */
  lemma {:induction false} LowOfLow(x: nat, mask: nat, k: nat)
    ensures And(x, Low(mask, k)) == Low(And(x, mask), k)
  {
    if k > 0 {
      LowOfLow(x / 2, mask / 2, k - 1);
      Unfold(x, mask);
      Unfold(x, Low(mask, k));
    } else {
      AndZero(x);
    }
  }

  /** A bound with no bit above `k`: any masked bit above `k` wins. */
  lemma LowStep(x: nat, mask: nat, u: nat, k: nat)
    requires mask <= ONES && Subset(u, mask) && k <= 32 && u < Pow2(k)
    ensures Pow2(k) - 1 <= ONES
    ensures Greater(x, mask, u) <==> And(x, Upper(mask, k)) != 0 || Greater(x, Low(mask, k), Low(u, k))
  {
    Width(k);
    TestParts(x, mask, k);
    ValueParts(x, mask, u, k);
    LowBound(u, k);
    CompareSplit(And(x, mask), u, k);
  }

  /** A bound whose successor has every masked bit above `k`: they must all be there. */
  lemma HighStep(x: nat, mask: nat, u: nat, k: nat)
    requires u < mask <= ONES && Subset(u, mask) && k <= 32
    requires Subset(Shr(mask, k), Shr(u + 1, k))
    ensures Pow2(k) - 1 <= ONES
    ensures Greater(x, mask, u) <==>
      And(x, Upper(mask, k)) == Upper(mask, k) && (Low(u, k) >= Low(mask, k) || Greater(x, Low(mask, k), Low(u, k)))
  {
    Width(k);
    TestParts(x, mask, k);
    ValueParts(x, mask, u, k);
    Increment(u, k);
    AndSplit(x, mask, k);
    AndBounds(Shr(x, k), Shr(mask, k));
    AndBounds(Shr(u, k), Shr(mask, k));
    AndBounds(Shr(mask, k), Shr(u + 1, k));
    AndBounds(Low(u, k), Low(mask, k));
    CompareSplit(And(x, mask), u, k);
    CompareSplit(mask, u, k);
    LowBound(mask, k);
    LowBound(And(x, mask), k);
  }

  /** The bits of the mask that the bound's successor lacks: line 592. */
  function Missing(mask: nat, u: nat): (y: nat)
    requires u < mask <= ONES
    ensures y <= mask
  {
    AndBounds(Not(u + 1), mask);
    And(Not(u + 1), mask)
  }

  lemma LenBound(y: nat)
    requires y <= ONES
    ensures BitLen(y) <= 32
  {
    BitLenBounds(y);
    Width(32);
    if BitLen(y) > 32 {
      Pow2Monotone(32, BitLen(y) - 1);
    }
  }

  /** Above the highest missing bit the successor has the whole mask. */
  lemma MissingAbove(mask: nat, u: nat, k: nat)
    requires u < mask <= ONES && k <= 32 && Missing(mask, u) < Pow2(k)
    ensures Subset(Shr(mask, k), Shr(u + 1, k))
  {
    Width(32);
    var y := Missing(mask, u);
    LowBound(y, k);
    AndSplit(Not(u + 1), mask, k);
    ShrNot(u + 1, 32, k);
    ShrBound(mask, 32, k);
    Complement(Shr(u + 1, k), 32 - k, Shr(mask, k));
    AndSymmetric(Shr(u + 1, k), Shr(mask, k));
  }

  /** More than half of a mask, within the mask, has the mask's top bit. */
  lemma TopBit(mask: nat, u: nat, t: nat)
    requires Pow2(t) <= mask < Pow2(t + 1) && Subset(u, mask) && u > mask / 2
    ensures u >= Pow2(t)
  {
    if u < Pow2(t) {
      ShrTop(mask, t);
      Recover(mask, t);
      AndSplit(u, mask, t);
      LowBound(u, t);
      AndBounds(Low(u, t), Low(mask, t));
    }
  }

  /** The test always uses up part of the mask. */
  lemma LowProgress(mask: nat, u: nat, k: nat)
    requires u < mask && u <= mask / 2 && k == BitLen(u)
    ensures Shr(mask, k) != 0 && u < Pow2(k)
  {
    BitLenBounds(u);
    LowBound(mask, k);
  }

  lemma HighProgress(mask: nat, u: nat, k: nat)
    requires u < mask <= ONES && Subset(u, mask) && u > mask / 2 && k == BitLen(Missing(mask, u))
    ensures Shr(mask, k) != 0
  {
    var y := Missing(mask, u);
    var w := u + 1;
    BitLenBounds(y);
    LowBound(mask, k);
    if k > 0 && Shr(mask, k) == 0 {
      var t := k - 1;
      TopBit(mask, u, t);
      ShrTop(w, t);
      ShrTop(y, t);
      Width(32);
      Complement(w, 32, mask);
      AndSplit(y, w, t);
      ShrZero(t);
    }
  }

  lemma LenBelow(a: nat, b: nat, k: nat)
    requires a < Pow2(k) && Shr(b, k) != 0
    ensures BitLen(a) < BitLen(b)
  {
    BitLenBounds(a);
    BitLenBounds(b);
    LowBound(b, k);
    if a > 0 && BitLen(a) - 1 >= k {
      Pow2Monotone(k, BitLen(a) - 1);
    }
    if BitLen(b) <= k {
      Pow2Monotone(BitLen(b), k);
    }
  }

  /** What is still to be tested after a test has used part of the mask. */
  ghost predicate Remains(x: nat, mask: nat, u: nat, last: bool) {
    if u < mask then Greater(x, mask, u) else last
  }

  /** The test of the mask's part above bit `k`, and what it leaves. */
  ghost predicate Splits(mask: nat, u: nat, highBit: bool, upperMask: nat)
    requires upperMask <= ONES
  {
    var mask' := And(mask, Not(upperMask));
    && BitLen(mask') < BitLen(mask) && mask' <= mask && Subset(And(u, mask'), mask')
    && forall x :: Greater(x, mask, u) <==>
         var rest := Remains(x, mask', And(u, mask'), highBit);
         if highBit then And(x, upperMask) == upperMask && rest else And(x, upperMask) != 0 || rest
  }

  lemma SplitAt(mask: nat, u: nat, k: nat, highBit: bool)
    requires u < mask <= ONES && Subset(u, mask) && k <= 32 && Shr(mask, k) != 0
    requires if highBit then Subset(Shr(mask, k), Shr(u + 1, k)) else u < Pow2(k)
    ensures Pow2(k) - 1 <= ONES && 0 < Upper(mask, k) <= mask && Splits(mask, u, highBit, Upper(mask, k))
  {
    MaskParts(mask, k);
    ShrZero(k);
    LowBound(mask, k);
    LenBelow(Low(mask, k), mask, k);
    ValueParts(0, mask, u, k);
    forall x
      ensures Greater(x, mask, u) <==>
        var rest := Remains(x, Low(mask, k), Low(u, k), highBit);
        if highBit then And(x, Upper(mask, k)) == Upper(mask, k) && rest else And(x, Upper(mask, k)) != 0 || rest
    {
      AndBounds(x, Low(mask, k));
      if highBit {
        HighStep(x, mask, u, k);
      } else {
        LowStep(x, mask, u, k);
      }
    }
  }

  /** Lines 591-598: the next test, and why it is the right one. */
  method NextTest(mask: nat, u: nat) returns (highBit: bool, upperMask: nat)
    requires u < mask <= ONES && Subset(u, mask)
    ensures 0 < upperMask <= mask && Splits(mask, u, highBit, upperMask)
  {
    assert Shr(mask, 1) == Shr(mask / 2, 0) == mask / 2;
    highBit := u > Shr(mask, 1);
    var y := if highBit then Missing(mask, u) else u;
    var firstDifferentBit := 33 - FfsMsb(y);
    ghost var k := BitLen(y);
    LenBound(y);
    BitLenBounds(y);
    if highBit {
      HighProgress(mask, u, k);
      MissingAbove(mask, u, k);
    } else {
      LowProgress(mask, u, k);
    }
    SplitAt(mask, u, k, highBit);
    if firstDifferentBit == 33 {
      upperMask := mask;
      AllOnes(mask);
    } else {
      // no shift by 32: the mask has a bit at or above the split
      assert firstDifferentBit < 32 by {
        Width(32);
        LowBound(mask, k);
      }
      upperMask := And(mask, Not(Pow2(firstDifferentBit) - 1));
    }
    assert upperMask == Upper(mask, k);
  }

  lemma AllOnes(mask: nat)
    requires mask <= ONES
    ensures Upper(mask, 0) == mask
  {
    Width(32);
    AndOnes(mask, 32);
  }

  // ---- tests against a word, and the tree of them

  /** A test of a field of the word is a test of the word. */
  lemma {:induction false} FieldTest(w: nat, m: nat, s: nat)
    ensures And(w, Times2(m, s)) == Times2(And(Shr(w, s), m), s)
  {
    if s > 0 {
      FieldTest(w / 2, m, s - 1);
      Unfold(w, Times2(m, s));
    }
  }

  lemma {:induction false} Times2Order(a: nat, b: nat, s: nat)
    ensures Times2(a, s) <= Times2(b, s) <==> a <= b
  {
    if s > 0 {
      Times2Order(a, b, s - 1);
    }
  }

  lemma ShlFits(a: nat, s: nat)
    requires Times2(a, s) <= ONES
    ensures Shl(a, s) == Times2(a, s)
  {
  }

  lemma Times2Same(a: nat, b: nat, s: nat)
    ensures Times2(a, s) == Times2(b, s) <==> a == b
  {
    Times2Order(a, b, s);
    Times2Order(b, a, s);
  }

  /** The test lines 567 and 601 add holds of a word when the field has the value. */
  lemma ShiftedTest(w: nat, m: nat, v: nat, s: nat)
    requires Times2(m, s) <= ONES && v <= m
    ensures And(w, Shl(m, s)) == Shl(v, s) <==> And(Shr(w, s), m) == v
  {
    Times2Order(v, m, s);
    ShlFits(m, s);
    ShlFits(v, s);
    FieldTest(w, m, s);
    Times2Same(And(Shr(w, s), m), v, s);
  }

  /** The tests, each deciding by itself or leaving the rest to the next. */
  ghost predicate Chain(tests: seq<Expr>, highs: seq<bool>, pkt: Packet, tail: bool)
    requires |tests| == |highs|
  {
    if tests == [] then tail
    else if highs[0] then Eval(tests[0], pkt) && Chain(tests[1..], highs[1..], pkt, tail)
    else Eval(tests[0], pkt) || Chain(tests[1..], highs[1..], pkt, tail)
  }

  lemma {:induction false} ChainAppend(tests: seq<Expr>, highs: seq<bool>, t: Expr, h: bool, pkt: Packet, tail: bool)
    requires |tests| == |highs|
    ensures Chain(tests + [t], highs + [h], pkt, tail)
      <==> Chain(tests, highs, pkt, if h then Eval(t, pkt) && tail else Eval(t, pkt) || tail)
  {
    if tests == [] {
      assert (tests + [t])[1..] == [] && (highs + [h])[1..] == [];
    } else {
      ChainAppend(tests[1..], highs[1..], t, h, pkt, tail);
      assert (tests + [t])[1..] == tests[1..] + [t] && (highs + [h])[1..] == highs[1..] + [h];
    }
  }

  /** The tree lines 611-615 leave: each test joined with the tree of the later ones. */
  ghost function Nest(tests: seq<Expr>, highs: seq<bool>): Expr
    requires |tests| == |highs| > 0
  {
    if |tests| == 1 then Joined(highs[0], [tests[0]])
    else Joined(highs[0], [tests[0], Nest(tests[1..], highs[1..])])
  }

  lemma {:induction false} NestIsChain(tests: seq<Expr>, highs: seq<bool>, pkt: Packet)
    requires |tests| == |highs| > 0
    ensures Eval(Nest(tests, highs), pkt) <==> Chain(tests, highs, pkt, highs[|highs| - 1])
  {
    if |tests| == 1 {
      assert Chain(tests[1..], highs[1..], pkt, highs[0]) == highs[0];
      assert [tests[0]][0] == tests[0];
    } else {
      NestIsChain(tests[1..], highs[1..], pkt);
      var es := [tests[0], Nest(tests[1..], highs[1..])];
      assert es[0] == tests[0] && es[1] == Nest(tests[1..], highs[1..]);
    }
  }

  /** `high_bit_record`: one bit a test, the last in the lowest place. */
  ghost function Record(highs: seq<bool>): nat {
    if highs == [] then 0
    else 2 * Record(highs[..|highs| - 1]) + (if highs[|highs| - 1] then 1 else 0)
  }

  /** A subtree holding one test has been opened for each. */
  ghost function Opened(base: seq<seq<Expr>>, tests: seq<Expr>): seq<seq<Expr>> {
    base + seq(|tests|, i requires 0 <= i < |tests| => [tests[i]])
  }

  /** The tests so far, and what they leave to be tested, decide `mask0` against `u0`. */
  ghost predicate Decided(tests: seq<Expr>, highs: seq<bool>, offset: nat, shift: nat,
                          mask0: nat, u0: nat, mask: nat, u: nat)
    requires |tests| == |highs|
  {
    forall pkt: Packet :: Greater(Shr(pkt(offset), shift), mask0, u0)
      <==> Chain(tests, highs, pkt, Remains(Shr(pkt(offset), shift), mask, u, highs != [] && highs[|highs| - 1]))
  }

  /** The expression lines 600-603 add. */
  function TestOf(offset: nat, shift: nat, highBit: bool, upperMask: nat): Expr {
    var upperU := if highBit then upperMask else 0;
    var t := Test(offset, Shl(upperU, shift), Shl(upperMask, shift));
    if highBit then t else Negated(t)
  }

  lemma OpenedOne(base: seq<seq<Expr>>, tests: seq<Expr>, t: Expr)
    ensures Opened(base, tests + [t]) == Opened(base, tests) + [[t]]
  {
  }

  /** Lines 600-603. */
  method AddTest(tree: ExprTree, offset: nat, shift: nat, highBit: bool, upperMask: nat)
    modifies tree
    ensures tree.frames == old(tree.frames) + [[TestOf(offset, shift, highBit, upperMask)]]
  {
    tree.StartSubtree();
    var t := Test(offset, Shl(if highBit then upperMask else 0, shift), Shl(upperMask, shift));
    tree.AddExpr(t);
    assert tree.frames[|tree.frames| - 1] == [] + [t] == [t];
    assert tree.frames == old(tree.frames) + [[t]];
    if !highBit {
      tree.NegateSubtree();
      assert [t][0 := Negated(t)] == [Negated(t)];
    }
  }

  lemma OneMoreTest(tests: seq<Expr>, highs: seq<bool>, offset: nat, shift: nat,
                    mask0: nat, u0: nat, mask: nat, u: nat, h: bool, upper: nat)
    requires |tests| == |highs| && Decided(tests, highs, offset, shift, mask0, u0, mask, u)
    requires u < mask <= ONES && upper <= mask && Times2(mask, shift) <= ONES
    requires forall x :: Greater(x, mask, u) <==>
      var mask' := And(mask, Not(upper));
      var rest := Remains(x, mask', And(u, mask'), h);
      if h then And(x, upper) == upper && rest else And(x, upper) != 0 || rest
    ensures var mask' := And(mask, Not(upper));
      Decided(tests + [TestOf(offset, shift, h, upper)], highs + [h], offset, shift, mask0, u0, mask', And(u, mask'))
  {
    var mask' := And(mask, Not(upper));
    var t := TestOf(offset, shift, h, upper);
    Times2Order(upper, mask, shift);
    forall pkt: Packet
      ensures Greater(Shr(pkt(offset), shift), mask0, u0)
        <==> Chain(tests + [t], highs + [h], pkt, Remains(Shr(pkt(offset), shift), mask', And(u, mask'), h))
    {
      var x := Shr(pkt(offset), shift);
      ShiftedTest(pkt(offset), upper, if h then upper else 0, shift);
      ChainAppend(tests, highs, t, h, pkt, Remains(x, mask', And(u, mask'), h));
      assert Eval(t, pkt) <==> if h then And(x, upper) == upper else And(x, upper) != 0;
    }
  }

  // ---- normalising a relation

  /** A field of low ones below a value. */
  lemma {:induction false} OrOnes(a: nat, t: nat)
    ensures Shr(Or(a, Pow2(t) - 1), t) == Shr(a, t)
    ensures Low(Or(a, Pow2(t) - 1), t) == Pow2(t) - 1
  {
    if t > 0 {
      OrOnes(a / 2, t - 1);
      if a == 0 {
        ShrZero(t);
        LowBound(Pow2(t) - 1, t);
      } else {
        assert (Pow2(t) - 1) / 2 == Pow2(t - 1) - 1 && (Pow2(t) - 1) % 2 == 1;
      }
    } else {
      OrZero(a);
    }
  }

  lemma {:induction false} OrZero(a: nat)
    ensures Or(a, 0) == a
  {
    if a > 0 {
      OrZero(a / 2);
    }
  }

  lemma {:induction false} ShrTimes2(a: nat, s: nat)
    ensures Shr(Times2(a, s), s) == a
  {
    if s > 0 {
      ShrTimes2(a, s - 1);
    }
  }

  /** `0xffffffff >> n`. */
  lemma {:induction false} ShrOnes(n: nat, k: nat)
    requires k <= n
    ensures Shr(Pow2(n) - 1, k) == Pow2(n - k) - 1
  {
    if k > 0 {
      ShrOnes(n - 1, k - 1);
    }
  }

  lemma {:induction false} XorPart(a: nat, m: nat)
    ensures Xor(And(a, m), a) == a - And(a, m)
  {
    AndBounds(a, m);
    if a > 0 {
      XorPart(a / 2, m / 2);
      AndBounds(a / 2, m / 2);
      Unfold(a, m);
    }
  }

  /** Lines 242-245: the bound with a mask bit it lacks is brought inside the mask. */
  function Lowered(u: nat, mask: nat, missing: nat): nat
    requires 0 < missing <= ONES
  {
    LenBound(missing);
    And(Or(u, Shr(ONES, FfsMsb(missing))), mask)
  }

  /** No masked value lies between a bound and the bound brought inside the mask. */
  lemma LoweredSame(x: nat, u: nat, mask: nat)
    requires u <= ONES && mask <= ONES && !Subset(u, mask)
    ensures 0 < u - And(u, mask) <= ONES
    ensures Greater(x, mask, u) <==> Greater(x, mask, Lowered(u, mask, u - And(u, mask)))
  {
    AndBounds(u, mask);
    var missing := u - And(u, mask);
    LenBound(missing);
    BitLenBounds(missing);
    var t := BitLen(missing) - 1;
    Width(32);
    ShrOnes(32, FfsMsb(missing));
    LoweredParts(u, mask, t);
    var u' := Lowered(u, mask, missing);
    OrOnes(u, t);
    AndSplit(Or(u, Pow2(t) - 1), mask, t);
    AndOnesLow(mask, t);
    AndSplit(x, mask, t);
    Unfold(Shr(x, t), Shr(mask, t));
    AndBounds(Low(x, t), Low(mask, t));
    CompareSplit(And(x, mask), u, t);
    CompareSplit(And(x, mask), u', t);
  }

  lemma LoweredBound(u: nat, mask: nat)
    requires u < mask <= ONES && !Subset(u, mask)
    ensures 0 < u - And(u, mask) <= ONES
    ensures var l := Lowered(u, mask, u - And(u, mask)); And(l, mask) == l < mask
    ensures forall y: nat :: Greater(y, mask, Lowered(u, mask, u - And(u, mask))) <==> Greater(y, mask, u)
  {
    AndBounds(u, mask);
    var missing := u - And(u, mask);
    LenBound(missing);
    AndSubset(Or(u, Shr(ONES, FfsMsb(missing))), mask);
    forall y: nat
      ensures Greater(y, mask, Lowered(u, mask, missing)) <==> Greater(y, mask, u)
    {
      LoweredSame(y, u, mask);
    }
    AndSelf(mask);
    assert Greater(mask, mask, u);
  }

  lemma AndOnesLow(mask: nat, t: nat)
    ensures And(Pow2(t) - 1, Low(mask, t)) == Low(mask, t)
  {
    LowBound(mask, t);
    AndOnes(Low(mask, t), t);
  }

  lemma OutOfMask(u: nat, mask: nat)
    requires u <= ONES && mask <= ONES
    ensures And(Not(mask), u) == u - And(u, mask)
  {
    Width(32);
    Complement(mask, 32, u);
    AndSymmetric(mask, u);
  }

  /** The highest bit of the bound outside the mask, seen from above. */
  lemma LoweredParts(u: nat, mask: nat, t: nat)
    requires u <= ONES && mask <= ONES && And(u, mask) < u && t + 1 == BitLen(u - And(u, mask)) && t < 32
    ensures And(Shr(u, t), Shr(mask, t)) == Shr(u, t) - 1
    ensures Shr(u, t) % 2 == 1 && Shr(mask, t) % 2 == 0
  {
    OutOfMask(u, mask);
    BitLenBounds(u - And(u, mask));
    ShrTop(u - And(u, mask), t);
    TopOutside(u, mask, t);
  }

  lemma TopOutside(u: nat, mask: nat, t: nat)
    requires u <= ONES && mask <= ONES && t < 32 && Shr(And(Not(mask), u), t) == 1
    ensures And(Shr(u, t), Shr(mask, t)) == Shr(u, t) - 1
    ensures Shr(u, t) % 2 == 1 && Shr(mask, t) % 2 == 0
  {
    AndSplit(Not(mask), u, t);
    TopBits(u, mask, t);
    OneMissing(Shr(u, t), Shr(mask, t), 32 - t);
  }

  lemma TopBits(u: nat, mask: nat, t: nat)
    requires u <= ONES && mask <= ONES && t < 32
    ensures Shr(u, t) < Pow2(32 - t) && Shr(mask, t) < Pow2(32 - t)
    ensures Shr(Not(mask), t) == Pow2(32 - t) - 1 - Shr(mask, t)
  {
    Width(32);
    ShrNot(mask, 32, t);
    ShrBound(u, 32, t);
    ShrBound(mask, 32, t);
  }

  lemma OneMissing(a: nat, m: nat, n: nat)
    requires n > 0 && a < Pow2(n) && m < Pow2(n) && And(Pow2(n) - 1 - m, a) == 1
    ensures And(a, m) == a - 1 && a % 2 == 1 && m % 2 == 0
  {
    Complement(m, n, a);
    AndSymmetric(m, a);
    Unfold(Pow2(n) - 1 - m, a);
    NotParity(m, n);
  }

  lemma NotParity(a: nat, n: nat)
    requires n > 0 && a < Pow2(n)
    ensures (Pow2(n) - 1 - a) % 2 == 1 - a % 2
  {
    assert Pow2(n) == 2 * Pow2(n - 1);
  }

  datatype Op = Eq | Gt | Lt

  /** The relation as the user wrote it, on the masked field. */
  ghost predicate Relation(op: Op, negated: bool, x: nat, mask: nat, data: nat) {
    var v := And(x, mask);
    (match op
     case Eq => v == data
     case Gt => v > data
     case Lt => v < data) != negated
  }

  /** Lines 235-236: a bound and a mask with `shift` ones below them. */
  lemma Widened(y: nat, m: nat, d: nat, shift: nat)
    requires shift <= 32
    ensures Pow2(shift) - 1 <= ONES
    ensures var ones := Pow2(shift) - 1;
      Greater(y, Or(Times2(m, shift), ones), Or(Times2(d, shift), ones)) <==> Greater(Shr(y, shift), m, d)
  {
    Width(shift);
    var ones := Pow2(shift) - 1;
    OrOnes(Times2(m, shift), shift);
    OrOnes(Times2(d, shift), shift);
    ShrTimes2(m, shift);
    ShrTimes2(d, shift);
    var mask, u := Or(Times2(m, shift), ones), Or(Times2(d, shift), ones);
    AndSplit(y, mask, shift);
    LowBound(And(y, mask), shift);
    CompareSplit(And(y, mask), u, shift);
  }

  lemma {:induction false} WidenedBound(m: nat, bits: nat, shift: nat)
    requires m < Pow2(bits)
    ensures Or(Times2(m, shift), Pow2(shift) - 1) < Pow2(bits + shift)
    ensures Times2(m, shift) < Pow2(bits + shift)
  {
    if shift > 0 {
      WidenedBound(m, bits, shift - 1);
      var a := Times2(m, shift);
      assert a / 2 == Times2(m, shift - 1) && a % 2 == 0;
      assert (Pow2(shift) - 1) / 2 == Pow2(shift - 1) - 1 && (Pow2(shift) - 1) % 2 == 1;
    } else {
      OrZero(m);
    }
  }

  /** No masked value exceeds its mask; a zero mask sees nothing. */
  lemma Always(m: nat)
    ensures forall x: nat :: And(x, m) <= m
    ensures forall x: nat :: And(x, 0) == 0
  {
    forall x: nat
      ensures And(x, m) <= m && And(x, 0) == 0
    {
      AndBounds(x, m);
      AndZero(x);
    }
  }

  lemma FieldFits(m: nat, bits: nat, shift: nat)
    requires m < Pow2(bits) && bits + shift <= 32
    ensures Shl(m, shift) == Times2(m, shift) <= ONES && Times2(m, shift) < Pow2(bits + shift)
  {
    WidenedBound(m, bits, shift);
    Width(bits + shift);
  }

  lemma EqualityShifted(d: nat, m: nat, bits: nat, shift: nat)
    requires m < Pow2(bits) && d < Pow2(bits) && bits + shift <= 32
    ensures Shl(m, shift) <= ONES
    ensures (forall y: nat :: And(y, Shl(m, shift)) == And(Shl(d, shift), Shl(m, shift)) <==> And(Shr(y, shift), m) == d)
      <==> Subset(d, m)
  {
    FieldFits(m, bits, shift);
    FieldFits(d, bits, shift);
    FieldTest(Times2(d, shift), m, shift);
    ShrTimes2(d, shift);
    forall y: nat
      ensures And(y, Shl(m, shift)) == And(Shl(d, shift), Shl(m, shift)) <==> And(Shr(y, shift), m) == And(d, m)
    {
      FieldTest(y, m, shift);
      Times2Same(And(Shr(y, shift), m), And(d, m), shift);
    }
    var y := Times2(d, shift);
    assert And(y, Shl(m, shift)) == And(Shl(d, shift), Shl(m, shift)) <==> And(Shr(y, shift), m) == And(d, m);
  }

  lemma WidenedFits(m: nat, d: nat, bits: nat, shift: nat)
    requires d < m < Pow2(bits) && bits + shift <= 32
    ensures Shl(m, shift) == Times2(m, shift) && Shl(d, shift) == Times2(d, shift)
    ensures Or(Shl(d, shift), Pow2(shift) - 1) < Or(Shl(m, shift), Pow2(shift) - 1) < Pow2(bits + shift) <= ONES + 1
  {
    FieldFits(m, bits, shift);
    FieldFits(d, bits, shift);
    WidenedBound(m, bits, shift);
    Width(bits + shift);
    OrOnes(Times2(m, shift), shift);
    OrOnes(Times2(d, shift), shift);
    ShrTimes2(m, shift);
    ShrTimes2(d, shift);
    CompareSplit(Or(Times2(m, shift), Pow2(shift) - 1), Or(Times2(d, shift), Pow2(shift) - 1), shift);
  }

  lemma {:induction false} WidenedOnes(bits: nat, shift: nat)
    ensures Or(Times2(Pow2(bits) - 1, shift), Pow2(shift) - 1) == Pow2(bits + shift) - 1
  {
    if shift > 0 {
      WidenedOnes(bits, shift - 1);
      var a := Times2(Pow2(bits) - 1, shift);
      assert a / 2 == Times2(Pow2(bits) - 1, shift - 1) && a % 2 == 0;
      assert (Pow2(shift) - 1) / 2 == Pow2(shift - 1) - 1 && (Pow2(shift) - 1) % 2 == 1;
    } else {
      OrZero(Pow2(bits) - 1);
    }
  }

  /** Lines 242-243: the bits of the bound outside the mask. */
  lemma InsideFull(u: nat, mask: nat, n: nat)
    requires u < Pow2(n)
    ensures Xor(And(u, mask), And(u, Pow2(n) - 1)) == u - And(u, mask)
  {
    AndOnes(u, n);
    XorPart(u, mask);
  }

  class Primitive {
    var u: nat
    var mask: nat
    var op: Op
    var negated: bool

    constructor (op: Op, negated: bool, data: nat)
      ensures this.op == op && this.negated == negated && u == data
    {
      this.op := op;
      this.negated := negated;
      u := data;
      mask := 0;
    }

    /** What the normalised primitive says of a field value. */
    ghost predicate Holds(x: nat)
      reads this
    {
      (if op == Gt then Greater(x, mask, And(u, mask)) else And(x, mask) == And(u, mask)) != negated
    }

    /**
     * Lines 208-256, for a field of `bits` bits. A zero `providedMask` is no
     * mask. The primitive is left comparing `>` or `=` only, and says of every
     * field what the relation said, an equality with bits outside its mask apart.
     */
    method SetMask(fullMask: nat, bits: nat, shift: nat, providedMask: nat) returns (ok: bool)
      requires fullMask == Pow2(bits) - 1 && bits + shift <= 32
      requires u <= ONES && providedMask <= ONES
      modifies this
      ensures var m := if providedMask != 0 then providedMask else fullMask;
        && (ok <==> Subset(m, fullMask) && (old(op) == Eq ==> old(u) <= fullMask))
        && (ok ==> ((forall y: nat :: Holds(y) <==> Relation(old(op), old(negated), Shr(y, shift), m, old(u)))
              <==> (old(op) == Eq ==> Subset(old(u), m))))
      ensures ok ==> op != Lt && mask < Pow2(bits + shift) <= ONES + 1 && (op == Gt ==> And(u, mask) < mask)
      ensures !ok ==> u == old(u) && mask == old(mask) && op == old(op) && negated == old(negated)
    {
      var data := u;
      var thisMask := if providedMask != 0 then providedMask else fullMask;
      if And(thisMask, fullMask) != thisMask {
        return false;
      }
      Width(bits);
      Width(bits + shift);
      AndBounds(thisMask, fullMask);
      if op == Gt || op == Lt {
        if (op == Lt && (data == 0 || data > thisMask)) || (op == Gt && data >= thisMask) {
          var willBe := if op == Lt && data > thisMask then !negated else negated;
          Always(thisMask);
          u, mask := 0, 0;
          negated := !willBe;
          op := Eq;
          return true;
        }
        if op == Lt {
          u := u - 1;
          negated := !negated;
          op := Gt;
        }
        NormaliseBound(thisMask, fullMask, bits, shift);
        return true;
      }
      if data > fullMask {
        return false;
      }
      EqualityShifted(data, thisMask, bits, shift);
      FieldFits(thisMask, bits, shift);
      u := Shl(data, shift);
      mask := Shl(thisMask, shift);
      return true;
    }

    /** Lines 235-246. */
    method NormaliseBound(thisMask: nat, fullMask: nat, bits: nat, shift: nat)
      requires op == Gt && u < thisMask <= fullMask == Pow2(bits) - 1 && bits + shift <= 32
      modifies this`u, this`mask
      ensures And(u, mask) < mask < Pow2(bits + shift) <= ONES + 1
      ensures forall y: nat :: Greater(y, mask, And(u, mask)) <==> Greater(Shr(y, shift), thisMask, old(u))
    {
      WidenedFits(thisMask, u, bits, shift);
      forall y: nat
        ensures Greater(y, Or(Times2(thisMask, shift), Pow2(shift) - 1), Or(Times2(u, shift), Pow2(shift) - 1))
          <==> Greater(Shr(y, shift), thisMask, u)
      {
        Widened(y, thisMask, u, shift);
      }
      u := Or(Shl(u, shift), Pow2(shift) - 1);
      mask := Or(Shl(thisMask, shift), Pow2(shift) - 1);
      LowerBound(fullMask, bits, shift);
    }

    /** Lines 237-246. */
    method LowerBound(fullMask: nat, bits: nat, shift: nat)
      requires fullMask == Pow2(bits) - 1 && bits + shift <= 32
      requires u < mask < Pow2(bits + shift) <= ONES + 1
      modifies this`u
      ensures And(u, mask) < mask
      ensures forall y: nat :: Greater(y, mask, And(u, mask)) <==> Greater(y, mask, old(u))
    {
      if And(u, mask) != u {
        var fullMaskU := Or(Shl(fullMask, shift), Pow2(shift) - 1);
        var missingBits := Xor(And(u, mask), And(u, fullMaskU));
        FieldFits(fullMask, bits, shift);
        WidenedOnes(bits, shift);
        InsideFull(u, mask, bits + shift);
        LoweredBound(u, mask);
        LenBound(missingBits);
        var addMask := Shr(ONES, FfsMsb(missingBits));
        u := And(Or(u, addMask), mask);
      }
    }

    /** Lines 590-609: the tests, each in a subtree of its own. */
    method AddTests(tree: ExprTree, offset: nat, shift: nat)
      returns (ghost tests: seq<Expr>, ghost highs: seq<bool>, record: nat, count: nat)
      requires tree.Valid() && op == Gt && Times2(mask, shift) <= ONES && mask <= ONES && And(u, mask) < mask
      modifies tree
      ensures tree.frames == Opened(old(tree.frames), tests) && record == Record(highs)
      ensures count == |tests| == |highs| && 0 < count <= 32
      ensures Decided(tests, highs, offset, shift, mask, And(u, mask), 0, 0)
    {
      var m: nat := mask;
      var v: nat := And(u, mask);
      ghost var base := tree.frames;
      tests, highs, record, count := [], [], 0, 0;
      AndSubset(u, mask);
      LenBound(m);
      while v < m
        invariant m <= mask && Subset(v, m) && count + BitLen(m) <= 32 && (count > 0 || v < m)
        invariant count == |tests| == |highs| && record == Record(highs)
        invariant tree.frames == Opened(base, tests)
        invariant Decided(tests, highs, offset, shift, mask, And(u, mask), m, v)
        decreases BitLen(m)
      {
        var highBit, upperMask := NextTest(m, v);
        Times2Order(m, mask, shift);
        OneMoreTest(tests, highs, offset, shift, mask, And(u, mask), m, v, highBit, upperMask);
        var t := TestOf(offset, shift, highBit, upperMask);
        AddTest(tree, offset, shift, highBit, upperMask);
        OpenedOne(base, tests, t);
        record := 2 * record + if highBit then 1 else 0;
        count := count + 1;
        tests, highs := tests + [t], highs + [highBit];
        assert highs[..|highs| - 1] + [highBit] == highs;
        m := And(m, Not(upperMask));
        v := And(v, m);
      }
    }

    /** Lines 612-614: the innermost subtree still open is closed. */
    method CloseNext(tree: ExprTree, record: nat, left: nat,
                     ghost base: seq<seq<Expr>>, ghost tests: seq<Expr>, ghost highs: seq<bool>) returns (r: nat)
      requires base != [] && 0 < left <= |tests| == |highs| && record == Record(highs[..left])
      requires tree.frames == Closed(base, tests, highs, left)
      modifies tree
      ensures tree.frames == Closed(base, tests, highs, left - 1) && r == Record(highs[..left - 1])
    {
      CloseOne(base, tests, highs, left);
      tree.FinishSubtree(record % 2 == 1);
      r := record / 2;
    }

    /** Lines 611-615: the subtrees are closed from the innermost out. */
    method CloseTests(tree: ExprTree, record: nat, count: nat,
                      ghost base: seq<seq<Expr>>, ghost tests: seq<Expr>, ghost highs: seq<bool>)
      requires base != [] && tree.frames == Opened(base, tests)
      requires count == |tests| == |highs| > 0 && record == Record(highs)
      modifies tree
      ensures tree.frames == Appended(base, Nest(tests, highs))
    {
      var left, r := count, record;
      assert highs[..left] == highs;
      while left > 0
        invariant 0 <= left <= count && r == Record(highs[..left])
        invariant tree.frames == Closed(base, tests, highs, left)
      {
        r := CloseNext(tree, r, left, base, tests, highs);
        left := left - 1;
      }
      assert tests[0..] == tests && highs[0..] == highs;
      assert Opened(base, []) == base;
    }

    /** Lines 555-619: one expression is added, and it says what the primitive says. */
    method AddComparisonExprs(tree: ExprTree, offset: nat, shift: nat, opNegate: bool) returns (ghost e: Expr)
      requires tree.Valid() && op != Lt && Times2(mask, shift) <= ONES && mask <= ONES
      requires op == Gt ==> And(u, mask) < mask
      modifies tree
      ensures tree.frames == Appended(old(tree.frames), e)
      ensures forall pkt: Packet :: Eval(e, pkt) <==>
        (Holds(Shr(pkt(offset), shift)) != (negated && !opNegate))
    {
      AndBounds(u, mask);
      if op == Eq {
        e := Test(offset, Shl(And(u, mask), shift), Shl(mask, shift));
        forall pkt: Packet {
          ShiftedTest(pkt(offset), mask, And(u, mask), shift);
        }
        tree.AddExpr(Test(offset, Shl(And(u, mask), shift), Shl(mask, shift)));
      } else {
        var tests, highs, record, count := AddTests(tree, offset, shift);
        CloseTests(tree, record, count, old(tree.frames), tests, highs);
        e := Nest(tests, highs);
        forall pkt: Packet {
          NestIsChain(tests, highs, pkt);
        }
      }
      if negated && opNegate {
        NegateAppended(old(tree.frames), e);
        tree.NegateSubtree();
        e := Negated(e);
      }
    }
  }

  /**
   * A relation normalised where it is parsed and compiled where it is used, as
   * for `ip[offset]` and transport data: the expression added means the
   * relation, and for an equality with bits outside its mask it does not.
   */
  method CompileRelation(tree: ExprTree, op: Op, negated: bool, data: nat, bits: nat, providedMask: nat,
                         offset: nat, shift: nat) returns (ok: bool, ghost e: Expr)
    requires tree.Valid() && bits + shift <= 32 && data <= ONES && providedMask <= ONES
    modifies tree
    ensures var m := if providedMask != 0 then providedMask else Pow2(bits) - 1;
      && (ok <==> Subset(m, Pow2(bits) - 1) && (op == Eq ==> data < Pow2(bits)))
      && (ok ==> ((forall pkt: Packet :: Eval(e, pkt) <==> Relation(op, negated, Shr(pkt(offset), shift), m, data))
            <==> (op == Eq ==> Subset(data, m))))
    ensures tree.frames == if ok then Appended(old(tree.frames), e) else old(tree.frames)
  {
    e := All([]);
    var prim := new Primitive(op, negated, data);
    ok := prim.SetMask(Pow2(bits) - 1, bits, 0, providedMask);
    if ok {
      MaskFits(prim.mask, bits, shift);
      e := prim.AddComparisonExprs(tree, offset, shift, true);
      assert forall x: nat :: Shr(x, 0) == x;
      assert forall pkt: Packet :: Eval(e, pkt) <==> prim.Holds(Shr(pkt(offset), shift));
      var m := if providedMask != 0 then providedMask else Pow2(bits) - 1;
      if forall pkt: Packet :: Eval(e, pkt) <==> Relation(op, negated, Shr(pkt(offset), shift), m, data) {
        forall y: nat
          ensures prim.Holds(y) <==> Relation(op, negated, y, m, data)
        {
          ghost var pkt: Packet := _ => Times2(y, shift);
          ShrTimes2(y, shift);
          assert Eval(e, pkt) <==> Relation(op, negated, Shr(pkt(offset), shift), m, data);
        }
      }
    }
  }

  lemma MaskFits(mask: nat, bits: nat, shift: nat)
    requires mask < Pow2(bits) && bits + shift <= 32
    ensures Times2(mask, shift) <= ONES
  {
    WidenedBound(mask, bits, shift);
    Width(bits + shift);
  }

  lemma NegateAppended(frames: seq<seq<Expr>>, e: Expr)
    requires frames != []
    ensures var top := Appended(frames, e)[|frames| - 1];
      && top != [] && top[|top| - 1] == e
      && Appended(frames, e)[|frames| - 1 := top[|top| - 1 := Negated(e)]] == Appended(frames, Negated(e))
  {
    var top := frames[|frames| - 1];
    assert (top + [e])[|top| := Negated(e)] == top + [Negated(e)];
  }

  /** The frames when all but the first `left` tests have had their subtrees closed. */
  ghost function Closed(base: seq<seq<Expr>>, tests: seq<Expr>, highs: seq<bool>, left: nat): seq<seq<Expr>>
    requires base != [] && left <= |tests| == |highs|
  {
    if left == |tests| then Opened(base, tests)
    else Appended(Opened(base, tests[..left]), Nest(tests[left..], highs[left..]))
  }

  lemma CloseOne(base: seq<seq<Expr>>, tests: seq<Expr>, highs: seq<bool>, left: nat)
    requires base != [] && 0 < left <= |tests| == |highs|
    ensures highs[..left][..left - 1] == highs[..left - 1] && highs[..left][left - 1] == highs[left - 1]
    ensures var open := Closed(base, tests, highs, left);
      && |open| >= 2
      && Appended(open[..|open| - 1], Joined(highs[left - 1], open[|open| - 1])) == Closed(base, tests, highs, left - 1)
  {
    var open := Closed(base, tests, highs, left);
    assert tests[left - 1..][1..] == tests[left..] && highs[left - 1..][1..] == highs[left..];
    assert open[..|open| - 1] == Opened(base, tests[..left - 1]);
    if left == |tests| {
      assert open[|open| - 1] == [tests[left - 1]];
    } else {
      assert open[|open| - 1] == [tests[left - 1], Nest(tests[left..], highs[left..])];
    }
  }
}
