/**
 * Checksums kept right under rewriting: the deltas of `Mapping::initialize`
 * and their use in `Mapping::apply` (bfclick/ip/iprw.cc), after section 3 of RFC 1624.
 */
module Checksums {

  const ONES := 0xFFFF

  type Word = x: nat | x <= ONES

  ghost function Sum(ws: seq<Word>): nat {
    if ws == [] then 0 else ws[0] + Sum(ws[1..])
  }

  lemma {:induction false} SumUpdate(ws: seq<Word>, i: nat, w: Word)
    requires i < |ws|
    ensures Sum(ws[i := w]) == Sum(ws) - ws[i] + w
  {
    if i == 0 {
      assert ws[0 := w][1..] == ws[1..];
    } else {
      SumUpdate(ws[1..], i - 1, w);
      assert ws[i := w][1..] == ws[1..][i - 1 := w];
    }
  }

  lemma {:induction false} SumBound(ws: seq<Word>, i: nat)
    requires i < |ws|
    ensures Sum(ws) >= ws[i]
  {
    if i > 0 {
      SumBound(ws[1..], i - 1);
    }
  }

  /** `(x & 0xFFFF) + (x >> 16)`. */
  function Fold(x: nat): nat {
    x % 0x1_0000 + x / 0x1_0000
  }

  /** The one's complement sum: folded until it fits. */
  ghost function FoldAll(x: nat): nat {
    if x <= ONES then x else FoldAll(Fold(x))
  }

  /** `click_in_cksum`. */
  ghost function InCksum(ws: seq<Word>): int {
    ONES - FoldAll(Sum(ws))
  }

  lemma FoldCongruent(x: nat)
    ensures (x - Fold(x)) % ONES == 0 && (x > 0 ==> Fold(x) > 0)
  {
    assert x - Fold(x) == ONES * (x / 0x1_0000);
  }

  lemma {:induction false} FoldAllMeans(x: nat)
    ensures FoldAll(x) <= ONES && (x - FoldAll(x)) % ONES == 0 && (x > 0 ==> FoldAll(x) > 0)
  {
    if x > ONES {
      FoldCongruent(x);
      FoldAllMeans(Fold(x));
    }
  }

  /** A checksum is right when the words add up to a positive multiple of 0xFFFF. */
  lemma ValidMeans(ws: seq<Word>)
    ensures InCksum(ws) == 0 <==> Sum(ws) > 0 && Sum(ws) % ONES == 0
  {
    FoldAllMeans(Sum(ws));
  }

  /** Two folds and 16 bits: lines 73-74, and 105-107 but for the complement. */
  function TwiceFolded(x: nat): (w: Word)
  {
    (Fold(x) + Fold(x) / 0x1_0000) % 0x1_0000
  }

  /** Two folds are enough for what 16 words and their complements can add up to. */
  lemma TwiceIsEnough(x: nat)
    requires x < 0x10_0000
    ensures (x - TwiceFolded(x)) % ONES == 0 && (x > 0 ==> TwiceFolded(x) > 0)
  {
    FoldCongruent(x);
    FoldCongruent(Fold(x));
    FoldSmall(x, x / 0x1_0000, x % 0x1_0000);
    Added(x, Fold(x), Fold(Fold(x)));
  }

  lemma FoldSmall(x: nat, q: nat, r: nat)
    requires x == 0x1_0000 * q + r && r < 0x1_0000 && q < 16
    ensures TwiceFolded(x) == Fold(Fold(x))
  {
    assert Fold(x) == q + r;
    if q + r >= 0x1_0000 {
      assert (q + r) / 0x1_0000 == 1;
    }
  }

  lemma Added(x: int, y: int, z: int)
    requires (x - y) % ONES == 0 && (y - z) % ONES == 0
    ensures (x - z) % ONES == 0
  {
  }

  /** A flow's addresses and ports, as 16-bit words. */
  datatype Flow = Flow(srcHigh: Word, srcLow: Word, dstHigh: Word, dstLow: Word, sport: Word, dport: Word)
  {
    ghost function Addresses(): nat { srcHigh + srcLow + dstHigh + dstLow }

    ghost function Ports(): nat { sport + dport }

    function Words(): seq<Word> { [srcHigh, srcLow, dstHigh, dstLow, sport, dport] }
  }

  ghost function Partial(s: seq<Word>, d: seq<Word>, i: nat): nat
    requires i <= |s| && |s| == |d|
  {
    if i == 0 then 0 else Partial(s, d, i - 1) + (ONES - s[i - 1]) + d[i - 1]
  }

  lemma Partials(source: Flow, dest: Flow)
    ensures Partial(source.Words(), dest.Words(), 4) == 4 * ONES - source.Addresses() + dest.Addresses()
    ensures Partial(source.Words(), dest.Words(), 6)
      == Partial(source.Words(), dest.Words(), 4) + 2 * ONES - source.Ports() + dest.Ports()
  {
    var s, d := source.Words(), dest.Words();
    assert Partial(s, d, 1) == ONES - s[0] + d[0];
    assert Partial(s, d, 2) == Partial(s, d, 1) + (ONES - s[1]) + d[1];
    assert Partial(s, d, 3) == Partial(s, d, 2) + (ONES - s[2]) + d[2];
    assert Partial(s, d, 4) == Partial(s, d, 3) + (ONES - s[3]) + d[3];
    assert Partial(s, d, 5) == Partial(s, d, 4) + (ONES - s[4]) + d[4];
    assert Partial(s, d, 6) == Partial(s, d, 5) + (ONES - s[5]) + d[5];
  }

  /** A delta stands for the difference of two sums. */
  ghost predicate Stands(delta: int, old_: int, new_: int) {
    (delta - new_ + old_) % ONES == 0
  }

  /** Lines 69-72 and 76-79. */
  method AddWords(s: seq<Word>, d: seq<Word>, from: nat, to: nat, delta: nat) returns (r: nat)
    requires from <= to <= |s| == |d|
    ensures r == delta + Partial(s, d, to) - Partial(s, d, from) <= delta + 2 * ONES * (to - from)
  {
    r := delta;
    for i := from to to
      invariant r == delta + Partial(s, d, i) - Partial(s, d, from) <= delta + 2 * ONES * (i - from)
    {
      r := r + (ONES - s[i]) + d[i];
    }
  }

  /** Lines 66-82: the deltas for the addresses, and for addresses and ports. */
  method Deltas(source: Flow, dest: Flow) returns (ip: Word, udp: Word)
    ensures Stands(ip, source.Addresses(), dest.Addresses())
    ensures Stands(udp, source.Addresses() + source.Ports(), dest.Addresses() + dest.Ports())
  {
    var s, d := source.Words(), dest.Words();
    Partials(source, dest);
    var all := AddWords(s, d, 0, 4, 0);
    FirstDelta(all, source, dest);
    ip := TwiceFolded(all);
    var delta := AddWords(s, d, 4, 6, Fold(all));
    SecondDelta(all, delta, source, dest);
    udp := TwiceFolded(delta);
  }

  lemma FirstDelta(all: nat, source: Flow, dest: Flow)
    requires all == 4 * ONES - source.Addresses() + dest.Addresses()
    ensures Stands(TwiceFolded(all), source.Addresses(), dest.Addresses())
  {
    TwiceIsEnough(all);
  }

  lemma SecondDelta(all: nat, delta: nat, source: Flow, dest: Flow)
    requires all == 4 * ONES - source.Addresses() + dest.Addresses()
    requires delta == Fold(all) + 2 * ONES - source.Ports() + dest.Ports()
    ensures Stands(TwiceFolded(delta), source.Addresses() + source.Ports(), dest.Addresses() + dest.Ports())
  {
    FoldCongruent(all);
    FoldLow(all);
    TwiceIsEnough(delta);
    BothParts(all, Fold(all), delta, TwiceFolded(delta), source.Addresses(), dest.Addresses(), source.Ports(), dest.Ports());
  }

  lemma FoldLow(x: nat)
    requires x < 0x10_0000
    ensures Fold(x) < 0x1_0010
  {
  }

  lemma BothParts(all: int, first: int, delta: int, w: int, a: int, b: int, p: int, q: int)
    requires all == 4 * ONES - a + b && (all - first) % ONES == 0
    requires delta == first + 2 * ONES - p + q && (delta - w) % ONES == 0
    ensures Stands(w, a + p, b + q)
  {
  }

  /** Lines 105-107, and `click_update_in_cksum` with nothing taken out. */
  function NewSum(sum: Word, delta: Word): Word {
    ONES - TwiceFolded(ONES - sum + delta)
  }

  /** A right checksum stays right when the words it covers change as its delta says. */
  lemma StillRight(total: int, total': int, old_: int, new_: int, sum: Word, delta: Word)
    requires total % ONES == 0 && Stands(delta, old_, new_)
    requires total' == total - old_ + new_ - sum + NewSum(sum, delta)
    ensures total' % ONES == 0
  {
    TwiceIsEnough(ONES - sum + delta);
  }

  const SUM := 5
  const SRC := 6

  /** Lines 99-107, on the words of an IP header. */
  function Rewritten(ws: seq<Word>, f: Flow, delta: Word): (r: seq<Word>)
    requires |ws| >= 10
    ensures |r| == |ws|
  {
    ws[SUM := NewSum(ws[SUM], delta)][SRC := f.srcHigh][SRC + 1 := f.srcLow][SRC + 2 := f.dstHigh][SRC + 3 := f.dstLow]
  }

  /** The header is of the flow's addresses. */
  ghost predicate Carries(ws: seq<Word>, f: Flow)
    requires |ws| >= 10
  {
    ws[SRC] == f.srcHigh && ws[SRC + 1] == f.srcLow && ws[SRC + 2] == f.dstHigh && ws[SRC + 3] == f.dstLow
  }

  /** A rewritten header carries the new addresses, and its checksum is right if it was. */
  lemma RewriteKeepsRight(ws: seq<Word>, source: Flow, dest: Flow, delta: Word)
    requires |ws| >= 10 && ws[0] > 0 && Carries(ws, source) && InCksum(ws) == 0
    requires Stands(delta, source.Addresses(), dest.Addresses())
    ensures Carries(Rewritten(ws, dest, delta), dest) && InCksum(Rewritten(ws, dest, delta)) == 0
    ensures forall i :: 0 <= i < |ws| && i != SUM && !(SRC <= i < SRC + 4) ==> Rewritten(ws, dest, delta)[i] == ws[i]
  {
    var w1 := ws[SUM := NewSum(ws[SUM], delta)];
    var w2 := w1[SRC := dest.srcHigh];
    var w3 := w2[SRC + 1 := dest.srcLow];
    var w4 := w3[SRC + 2 := dest.dstHigh];
    SumUpdate(ws, SUM, NewSum(ws[SUM], delta));
    SumUpdate(w1, SRC, dest.srcHigh);
    SumUpdate(w2, SRC + 1, dest.srcLow);
    SumUpdate(w3, SRC + 2, dest.dstHigh);
    SumUpdate(w4, SRC + 3, dest.dstLow);
    ValidMeans(ws);
    ValidMeans(Rewritten(ws, dest, delta));
    StillRight(Sum(ws), Sum(Rewritten(ws, dest, delta)), source.Addresses(), dest.Addresses(), ws[SUM], delta);
    SumBound(Rewritten(ws, dest, delta), 0);
  }

  /** There and back again: the addresses are as before, and so is the checksum up to the two forms of zero. */
  lemma ThereAndBack(ws: seq<Word>, inner: Flow, outer: Flow, there: Word, back: Word)
    requires |ws| >= 10 && Carries(ws, inner)
    requires Stands(there, inner.Addresses(), outer.Addresses()) && Stands(back, outer.Addresses(), inner.Addresses())
    ensures var r := Rewritten(Rewritten(ws, outer, there), inner, back);
      Carries(r, inner) && (r[SUM] == ws[SUM] || (ws[SUM] == ONES && r[SUM] == 0) || (ws[SUM] == 0 && r[SUM] == ONES))
      && forall i :: 0 <= i < |ws| && i != SUM ==> r[i] == ws[i]
  {
    var s1 := NewSum(ws[SUM], there);
    var s2 := NewSum(s1, back);
    TwiceIsEnough(ONES - ws[SUM] + there);
    TwiceIsEnough(ONES - s1 + back);
    BackToStart(ws[SUM], s1, s2, there, back, inner.Addresses(), outer.Addresses());
  }

  lemma BackToStart(s: Word, s1: Word, s2: Word, there: Word, back: Word, a: int, b: int)
    requires (ONES - s + there - (ONES - s1)) % ONES == 0 && (ONES - s1 + back - (ONES - s2)) % ONES == 0
    requires Stands(there, a, b) && Stands(back, b, a)
    ensures s2 == s || (s == ONES && s2 == 0) || (s == 0 && s2 == ONES)
  {
    assert (s2 - s) % ONES == 0;
  }
}
