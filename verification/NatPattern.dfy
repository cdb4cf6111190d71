/**
 * Choosing an outside flow: `IPRw::Pattern` and its `create_mapping`
 * (bfclick/ip/iprw.cc).
 */
module NatPatterns {
  import opened Powers

  const WORD := 0x1_0000_0000

  datatype FlowId = FlowId(saddr: nat, sport: nat, daddr: nat, dport: nat)
  {
    function Reverse(): FlowId { FlowId(daddr, dport, saddr, sport) }
  }

  // ---- odd steps through a power of two

  /** Where the walk is after `c` steps. */
  ghost function Visit(start: nat, step: nat, size: nat, c: nat): nat
    requires size > 0
  {
    if c == 0 then start else Mod(Visit(start, step, size, c - 1) + step, size)
  }

  function Mod(x: nat, n: nat): nat
    requires n > 0
  {
    x % n
  }

  lemma {:induction false} VisitIs(start: nat, step: nat, size: nat, c: nat)
    requires size > 0
    ensures (Visit(start, step, size, c) - (start + c * step)) % size == 0
    ensures c > 0 ==> Visit(start, step, size, c) < size
  {
    if c > 0 {
      VisitIs(start, step, size, c - 1);
      var v := Visit(start, step, size, c - 1);
      MulSucc(c, step);
      SameRemainder(v + step, start + c * step, size);
    }
  }

  lemma MulSucc(c: nat, step: nat)
    requires c > 0
    ensures c * step == (c - 1) * step + step
  {
  }

  lemma SameRemainder(x: nat, y: int, size: nat)
    requires size > 0 && (x - y) % size == 0
    ensures (x % size - y) % size == 0
  {
    var q := (x - y) / size;
    var r := x / size;
    assert x % size - y == (q - r) * size by {
      assert x - y == q * size && x == r * size + x % size;
      assert (q - r) * size == q * size - r * size;
    }
    DivUnique((q - r) * size, size, q - r, 0);
  }

  /** An odd step reaches every remainder of a power of two. */
  lemma {:induction false} OddReaches(step: nat, t: int, b: nat) returns (c: nat)
    requires step % 2 == 1
    ensures c < Pow2(b) && (c * step - t) % Pow2(b) == 0
  {
    if b == 0 {
      c := 0;
    } else {
      var c0 := OddReaches(step, t, b - 1);
      c := OneMoreBit(c0, step, t, Pow2(b - 1));
    }
  }

  /** Reaching the target up to `h`, or else going `h` steps further, reaches it up to `2h`. */
  lemma OneMoreBit(c0: nat, step: nat, t: int, h: nat) returns (c: nat)
    requires step % 2 == 1 && h > 0 && (c0 * step - t) % h == 0
    ensures (c == c0 || c == c0 + h) && (c * step - t) % (2 * h) == 0
  {
    var q := (c0 * step - t) / h;
    assert c0 * step - t == q * h;
    if q % 2 == 0 {
      c := c0;
      Halved(q, q / 2, h);
    } else {
      c := c0 + h;
      FurtherBy(c0, step, t, h, q);
      Halved(q + step, (q + step) / 2, h);
    }
  }

  lemma FurtherBy(c0: nat, step: nat, t: int, h: nat, q: int)
    requires c0 * step - t == q * h
    ensures (c0 + h) * step - t == (q + step) * h
  {
  }

  lemma Halved(q: int, k: int, h: nat)
    requires q == 2 * k && h > 0
    ensures (q * h) % (2 * h) == 0
  {
    assert q * h == k * (2 * h);
    DivUnique(q * h, 2 * h, k, 0);
  }

  /** The walk of `create_mapping`, started inside the range, visits every value in it. */
  lemma WalkVisits(start: nat, step: nat, b: nat, v: nat) returns (c: nat)
    requires step % 2 == 1 && start < Pow2(b) && v < Pow2(b)
    ensures c < Pow2(b) && Visit(start, step, Pow2(b), c) == v
  {
    var size := Pow2(b);
    c := OddReaches(step, v - start, b);
    VisitIs(start, step, size, c);
    if c == 0 {
      assert c * step == 0;
    }
    SameInRange(Visit(start, step, size, c), start + c * step, v, size);
  }

  lemma SameInRange(w: nat, x: int, v: nat, size: nat)
    requires w < size && v < size && (w - x) % size == 0 && (x - v) % size == 0
    ensures w == v
  {
    var q1, q2 := (w - x) / size, (x - v) / size;
    assert w - x == q1 * size && x - v == q2 * size;
    assert (q1 + q2) * size == q1 * size + q2 * size;
    MulAway(q1 + q2, size);
  }

  /** Started one past the range, as a sequential walk may be, it visits all but 0. */
  lemma {:induction false} WalkFromPast(size: nat, c: nat)
    requires size > 1 && 0 < c < size
    ensures Visit(size, 1, size, c) == c
  {
    if c == 1 {
      assert Visit(size, 1, size, 1) == (Visit(size, 1, size, 0) + 1) % size;
      DivUnique(size + 1, size, 1, 1);
    } else {
      WalkFromPast(size, c - 1);
      DivUnique(c, size, 0, c);
    }
  }

  /** Steps of 1 from inside the range go up to its end, and then on from 0. */
  lemma {:induction false} StepByStep(start: nat, size: nat, c: nat)
    requires start < size && c < size
    ensures Visit(start, 1, size, c) == if start + c < size then start + c else start + c - size
  {
    if c > 0 {
      StepByStep(start, size, c - 1);
      if start + c < size {
        DivUnique(start + c, size, 0, start + c);
      } else if start + c == size {
        DivUnique(size, size, 1, 0);
      } else {
        DivUnique(start + c - size, size, 0, start + c - size);
      }
    }
  }

  class Pattern {
    const saddr: nat            // 0 leaves the field alone, as in the three below
    const sport: nat
    const daddr: nat
    const dport: nat
    const top: nat              // _variation_top
    const mask: nat             // _variation_mask
    const isNapt: bool
    const sequential: bool
    var next: nat               // _next_variation
    ghost const bits: nat

    ghost predicate Valid()
      reads this
    {
      top > 0 ==> bits > 0 && mask == Pow2(bits) - 1 && top <= mask < WORD - 1 && next <= mask + 1
    }

    /** Lines 154-164. A mask of all 32 bits would make the search endless. */
    constructor (saddr: nat, sport: nat, daddr: nat, dport: nat, isNapt: bool, sequential: bool, top: nat)
      requires top < WORD / 2
      ensures Valid() && next == 0 && this.top == top && this.isNapt == isNapt && this.sequential == sequential
      ensures this.saddr == saddr && this.sport == sport && this.daddr == daddr && this.dport == dport
      ensures top > 0 ==> mask < 2 * top || mask == 1
    {
      var m, b := 1, 1;
      assert Pow2(1) == 2;
      while m < top
        invariant b > 0 && m == Pow2(b) - 1 && (m < 2 * top || m == 1)
      {
        m := 2 * m + 1;
        b := b + 1;
      }
      this.saddr, this.sport, this.daddr, this.dport := saddr, sport, daddr, dport;
      this.isNapt, this.sequential, this.top := isNapt, sequential, top;
      mask, bits, next := m, b, 0;
    }

    /** Lines 344-352: the fixed fields. */
    function Fixed(flow: FlowId): FlowId {
      FlowId(if saddr != 0 then saddr else flow.saddr, if sport != 0 then sport else flow.sport,
             if daddr != 0 then daddr else flow.daddr, if dport != 0 then dport else flow.dport)
    }

    /** Lines 361-369: the outside flow of variation `v`. */
    function Varied(flow: FlowId, v: nat): FlowId {
      var out := Fixed(flow);
      if isNapt then out.(sport := (this.sport + v) % 0x1_0000) else out.(saddr := (this.saddr + v) % WORD)
    }

    /** `out` has the fields the pattern sets, and otherwise those of `flow`; the one that varies is left open. */
    ghost predicate Keeps(flow: FlowId, out: FlowId) {
      && out.daddr == (if daddr != 0 then daddr else flow.daddr)
      && out.dport == (if dport != 0 then dport else flow.dport)
      && (top == 0 || isNapt ==> out.saddr == if saddr != 0 then saddr else flow.saddr)
      && (top == 0 || !isNapt ==> out.sport == if sport != 0 then sport else flow.sport)
    }

    /** What varies: the source port, or the source address. */
    function Field(out: FlowId): nat { if isNapt then out.sport else out.saddr }

    /** The addresses or ports of the range, from the pattern's own on: `parse_napt` and `parse_nat` see that they do not wrap. */
    ghost predicate NoWrap() {
      if isNapt then sport + top < 0x1_0000 else saddr + top < 0x1_0000_0000
    }

    ghost predicate InRange(out: FlowId) {
      if isNapt then sport <= out.sport <= sport + top else saddr <= out.saddr <= saddr + top
    }

    /** An outside flow that may be given: in the range, its way back not in the map, and perhaps not the first. */
    ghost predicate MayGive(flow: FlowId, out: FlowId, keys: set<FlowId>, from: nat) {
      && Keeps(flow, out) && InRange(out) && FlowId(out.daddr, out.dport, out.saddr, out.sport) !in keys
      && (sequential && from > mask ==> Field(out) != if isNapt then sport else saddr)
    }

    lemma Wraps(x: nat, n: nat)
      requires n > 0
      ensures (x % n - x) % n == 0
    {
      DivUnique(x % n - x, n, -(x / n), 0);
    }

    /** A variation is an outside flow of the range, and each of those is a variation. */
    lemma VariationIs(flow: FlowId, keys: set<FlowId>, from: nat, v: nat)
      requires top > 0 && NoWrap() && Offers(flow, v, keys, from)
      ensures MayGive(flow, Varied(flow, v), keys, from) && Field(Varied(flow, v)) == v + if isNapt then sport else saddr
    {
    }

    lemma VariationOf(flow: FlowId, out: FlowId, keys: set<FlowId>, from: nat) returns (v: nat)
      requires top > 0 && NoWrap() && MayGive(flow, out, keys, from)
      ensures Offers(flow, v, keys, from)
    {
      v := Field(out) - if isNapt then sport else saddr;
      assert Varied(flow, v) == out;
    }

    /** The variation is taken: some mapping already answers to its outside flow. */
    ghost predicate Taken(flow: FlowId, v: nat, keys: set<FlowId>) {
      Varied(flow, v).Reverse() in keys
    }

    /** A variation that may be given out: a sequential walk misses 0 when it starts past its range. */
    ghost predicate Offers(flow: FlowId, v: nat, keys: set<FlowId>, from: nat) {
      v <= top && !Taken(flow, v, keys) && (sequential && from > mask ==> v != 0)
    }

    /** The walk from `first` in steps of `step` comes to `v` before any other that is free. */
    ghost predicate FirstFree(flow: FlowId, keys: set<FlowId>, first: nat, step: nat, v: nat)
      requires top > 0
    {
      !Passed(flow, keys, v) && exists c: nat :: c <= mask && ReachedAt(flow, keys, first, step, Size(), c, v)
    }

    function Size(): (n: nat)
      ensures n > 0
    {
      mask + 1
    }

    ghost predicate ReachedAt(flow: FlowId, keys: set<FlowId>, first: nat, step: nat, size: nat, c: nat, v: nat)
      requires size > 0
    {
      Visit(first, step, size, c) == v && forall d :: 0 <= d < c ==> Passed(flow, keys, Visit(first, step, size, d))
    }

    /** Lines 355-356: where the walk starts, and its step. */
    function First(from: nat, start: nat): nat { if sequential then from else start % (mask + 1) }

    /** `stride | 1`. */
    function Stride(stride: nat): (s: nat)
      ensures s % 2 == 1 && if sequential then s == 1 else stride <= s <= stride + 1
    {
      if sequential then 1 else stride - stride % 2 + 1
    }

    /** If the first value of the walk is free, it is the one. */
    lemma FirstIsFree(flow: FlowId, keys: set<FlowId>, first: nat, step: nat, v: nat)
      requires top > 0 && FirstFree(flow, keys, first, step, v) && !Passed(flow, keys, first)
      ensures v == first
    {
      var c: nat :| c <= mask && ReachedAt(flow, keys, first, step, Size(), c, v);
      assert Visit(first, step, Size(), 0) == first;
    }

    /** A sequential walk gives the next value in turn that is free: from 0 again if there is none further on. */
    lemma NextInTurn(flow: FlowId, keys: set<FlowId>, from: nat, v: nat)
      requires Valid() && top > 0 && from <= mask && FirstFree(flow, keys, from, 1, v)
      ensures v <= top && !Taken(flow, v, keys)
      ensures forall u :: from <= u <= top && (u < v || v < from) ==> Taken(flow, u, keys)
      ensures forall u :: 0 <= u < v < from && u <= top ==> Taken(flow, u, keys)
    {
      var c: nat :| c <= mask && ReachedAt(flow, keys, from, 1, Size(), c, v);
      StepByStep(from, Size(), c);
      forall u: nat | u <= top && u <= mask && c > InTurn(from, u)
        ensures Taken(flow, u, keys)
      {
        PassedInTurn(flow, keys, from, c, v, u);
      }
    }

    /** After how many steps of 1 the walk is at `u`. */
    ghost function InTurn(from: nat, u: nat): int {
      if from <= u then u - from else u + Size() - from
    }

    lemma PassedInTurn(flow: FlowId, keys: set<FlowId>, from: nat, c: nat, v: nat, u: nat)
      requires from <= mask && u <= mask && c <= mask && InTurn(from, u) < c && ReachedAt(flow, keys, from, 1, Size(), c, v)
      ensures Passed(flow, keys, u)
    {
      StepByStep(from, Size(), InTurn(from, u));
    }

    /**
     * Lines 338-375. `keys` are the flows in the map, `start` and `stride` what
     * `click_random` gives. It fails only if no variation may be given out: when each address of
     * the range, perhaps but for the first, has its way back in the map.
     */
    method Choose(flow: FlowId, keys: set<FlowId>, start: nat, stride: nat) returns (found: bool, out: FlowId)
      requires Valid()
      modifies `next
      ensures Valid()
      ensures top == 0 ==> found && out == Fixed(flow) && next == old(next)
      ensures top > 0 ==> (found <==> exists v: nat :: Offers(flow, v, keys, old(next)))
      ensures top > 0 && found ==>
        next > 0 && Offers(flow, next - 1, keys, old(next)) && out == Varied(flow, next - 1) &&
        FirstFree(flow, keys, First(old(next), start), Stride(stride), next - 1)
      ensures !found ==> next == old(next)
      ensures found ==> Keeps(flow, out)
      // beyond its range a field wraps in its 16 or 32 bits
      ensures top > 0 && found ==> if isNapt then out.sport < 0x1_0000 && (out.sport - sport - next + 1) % 0x1_0000 == 0
                                   else out.saddr < 0x1_0000_0000 && (out.saddr - saddr - next + 1) % 0x1_0000_0000 == 0
      ensures top > 0 && NoWrap() ==> (found <==> exists o: FlowId :: MayGive(flow, o, keys, old(next)))
      ensures top > 0 && NoWrap() && found ==>
        MayGive(flow, out, keys, old(next)) && next == Field(out) + 1 - if isNapt then sport else saddr
    {
      ghost var from := next;
      if top == 0 {
        return true, Fixed(flow);
      }
      var val;
      found, val := Search(flow, keys, First(next, start), Stride(stride));
      if !found {
        forall o: FlowId | NoWrap()
          ensures !MayGive(flow, o, keys, from)
        {
          if MayGive(flow, o, keys, from) {
            var v := VariationOf(flow, o, keys, from);
          }
        }
        return false, flow;
      }
      assert Offers(flow, val, keys, from);
      Wraps(if isNapt then sport + val else saddr + val, if isNapt then 0x1_0000 else 0x1_0000_0000);
      if NoWrap() {
        VariationIs(flow, keys, from, val);
      }
      out := Varied(flow, val);
      next := val + 1;
    }

    /** The walk itself. */
    method Search(flow: FlowId, keys: set<FlowId>, first: nat, step: nat) returns (found: bool, val: nat)
      requires Valid() && top > 0 && step % 2 == 1
      requires if sequential then first == next && step == 1 else first <= mask
      ensures found ==> Offers(flow, val, keys, next) && FirstFree(flow, keys, first, step, val)
      ensures !found ==> forall v: nat :: !Offers(flow, v, keys, next)
    {
      val := first;
      ghost var size := Size();
      var count := 0;
      while count <= mask
        invariant count <= size && val == Visit(first, step, size, count)
        invariant ReachedAt(flow, keys, first, step, size, count, val)
      {
        if val <= top && Varied(flow, val).Reverse() !in keys {
          NotZeroFromPast(size, first, step, count);
          assert ReachedAt(flow, keys, first, step, Size(), count, val);
          return true, val;
        }
        OneFurther(flow, keys, first, step, size, count, val);
        count, val := count + 1, Mod(val + step, mask + 1);
      }
      AllPassed(flow, keys, first, step, size);
      return false, 0;
    }

    lemma OneFurther(flow: FlowId, keys: set<FlowId>, first: nat, step: nat, size: nat, c: nat, v: nat)
      requires size > 0 && ReachedAt(flow, keys, first, step, size, c, v) && Passed(flow, keys, v)
      ensures ReachedAt(flow, keys, first, step, size, c + 1, Mod(v + step, size))
    {
    }

    ghost predicate Passed(flow: FlowId, keys: set<FlowId>, v: nat) {
      v > top || Taken(flow, v, keys)
    }

    lemma NotZeroFromPast(size: nat, first: nat, step: nat, count: nat)
      requires size > 1 && count < size
      ensures first == size && step == 1 ==> Visit(first, step, size, count) != 0
    {
      if first == size && step == 1 && count > 0 {
        WalkFromPast(size, count);
      }
    }

    /** When the whole walk has passed, nothing could have been given out. */
    lemma AllPassed(flow: FlowId, keys: set<FlowId>, first: nat, step: nat, size: nat)
      requires Valid() && top > 0 && step % 2 == 1 && (if sequential then first == next && step == 1 else first <= mask)
      requires size == mask + 1 && forall c :: 0 <= c < size ==> Passed(flow, keys, Visit(first, step, size, c))
      ensures forall v: nat :: !Offers(flow, v, keys, next)
    {
      forall v: nat | v <= top
        ensures !Offers(flow, v, keys, next)
      {
        if first <= mask {
          var c := WalkVisits(first, step, bits, v);
          assert Passed(flow, keys, Visit(first, step, size, c));
        } else if v > 0 {
          WalkFromPast(size, v);
          assert Passed(flow, keys, Visit(first, step, size, v));
        }
      }
    }
  }
}
