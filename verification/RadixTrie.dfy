/**
 * The geometry of the radix trie (bfclick/ip/radixiplookup.cc): which node of
 * the trie a prefix is kept at, and which of the node's slots it covers.
 */
module RadixGeometry {
  import opened Powers
  import opened Prefixes

  const ROOT := Prefix(0, 0)

  /** The lengths nodes are found at: the root has 256 slots, every other node 16. */
  predicate Level(len: nat) {
    len == 0 || (8 <= len <= 28 && len % 4 == 0)
  }

  /** `_bitshift`. */
  function Shift(len: nat): nat
    requires Level(len)
  {
    if len == 0 then 24 else 28 - len
  }

  function Fan(len: nat): nat { if len == 0 then 256 else 16 }

  /** The length of the prefix a slot stands for. */
  function SlotLen(len: nat): (s: nat)
    requires Level(len)
    ensures s == 32 - Shift(len) && len < s <= 32
  {
    if len == 0 then 8 else len + 4
  }

  /** The length of the node a prefix of length `m` is kept at. */
  function HomeLen(m: nat): (len: nat)
    requires 0 < m <= 32
    ensures Level(len) && len < m <= SlotLen(len)
  {
    if m <= 8 then 0 else 8 + 4 * ((m - 9) / 4)
  }

  lemma HomeUnique(m: nat, len: nat)
    requires Level(len) && len < m <= SlotLen(len)
    ensures HomeLen(m) == len
  {
  }

  function Slot(q: Prefix, i: nat): Prefix
    requires Level(q.len)
  {
    Prefix(q.addr + i * Pow2(Shift(q.len)), SlotLen(q.len))
  }

  lemma Fans(len: nat)
    requires Level(len)
    ensures Size(len) == Fan(len) * Pow2(Shift(len)) && Size(SlotLen(len)) == Pow2(Shift(len))
  {
    if len == 0 {
      Pow2Add(8, 24);
      assert Pow2(8) == 256;
    } else {
      Pow2Add(4, 28 - len);
      assert Pow2(4) == 16;
    }
  }

  // ---- arithmetic

  lemma MulOrder(x: nat, y: nat, s: nat)
    requires s > 0
    ensures x <= y <==> x * s <= y * s
  {
    MulAway(y - x, s);
    assert (y - x) * s == y * s - x * s;
  }

  lemma Step(x: nat, s: nat)
    ensures (x + 1) * s == x * s + s
  {
  }

  lemma SumTimes(x: nat, y: nat, s: nat)
    ensures (x + y) * s == x * s + y * s
  {
  }

  lemma Assoc(q: nat, s: nat, t: nat)
    ensures q * (s * t) == (q * t) * s
  {
  }

  lemma NonNegative(a: nat, s: nat)
    requires s > 0
    ensures a / s >= 0 && a % s >= 0
  {
  }

  lemma MultipleOf(a: nat, s: nat, t: nat)
    requires s > 0 && t > 0 && s * t > 0 && a % (s * t) == 0
    ensures a % s == 0
  {
    var q := a / (s * t);
    Quotient(a, s * t);
    Assoc(q, s, t);
    DivUnique(a, s, q * t, 0);
  }

  lemma AddMultiple(a: nat, r: nat, s: nat)
    requires s > 0 && a % s == 0
    ensures (a + r) % s == r % s && (a + r) - (a + r) % s == a + (r / s) * s
  {
    Quotient(a, s);
    Quotient(r, s);
    SumTimes(a / s, r / s, s);
    DivUnique(a + r, s, a / s + r / s, r % s);
  }

  lemma Below(x: nat, n: nat, s: nat)
    requires s > 0 && x < n * s
    ensures x / s < n
  {
    Quotient(x, s);
    MulOrder(n, x / s, s);
  }

  /** Blocks of `s` from block `x` to block `x + c` hold the starts of blocks `x` to `x + c - 1`. */
  lemma BlocksWithin(x: nat, c: nat, i: nat, s: nat)
    requires s > 0
    ensures x * s <= i * s < x * s + c * s <==> x <= i < x + c
  {
    MulOrder(x, i, s);
    MulOrder(x + c, i, s);
    SumTimes(x, c, s);
  }

  // ---- nodes and slots

  /** Multiples of a larger power of two are multiples of a smaller one. */
  lemma Multiple(a: nat, len: nat, longer: nat)
    requires len <= longer <= 32 && Trunc(a, len) == a
    ensures a % Size(longer) == 0
  {
    ClearMod(a, 32 - len);
    SizeSplit(len, longer);
    MultipleOf(a, Size(longer), Pow2(longer - len));
  }

  /** An address of a node lies in exactly one slot. */
  lemma SlotOf(q: Prefix, a: nat)
    requires Level(q.len) && Canonical(q) && Contains(q, a)
    ensures q.addr <= a && (a - q.addr) / Pow2(Shift(q.len)) < Fan(q.len)
    ensures At(a, SlotLen(q.len)) == Slot(q, (a - q.addr) / Pow2(Shift(q.len)))
  {
    ContainsRange(q, a);
    Fans(q.len);
    Multiple(q.addr, q.len, SlotLen(q.len));
    var s := Pow2(Shift(q.len));
    AddMultiple(q.addr, a - q.addr, s);
    ClearMod(a, Shift(q.len));
    Below(a - q.addr, Fan(q.len), s);
  }

  lemma SlotStart(q: Prefix, i: nat)
    requires Level(q.len) && Canonical(q) && i < Fan(q.len)
    ensures Contains(q, Slot(q, i).addr) && Slot(q, i).addr < q.addr + Size(q.len)
    ensures (Slot(q, i).addr - q.addr) / Pow2(Shift(q.len)) == i
  {
    SlotOffset(q, i);
    ContainsRange(q, Slot(q, i).addr);
  }

  lemma SlotOffset(q: Prefix, i: nat)
    requires Level(q.len) && i < Fan(q.len)
    ensures q.addr <= Slot(q, i).addr < q.addr + Size(q.len)
    ensures (Slot(q, i).addr - q.addr) / Pow2(Shift(q.len)) == i
  {
    Fans(q.len);
    BlockStart(i, Pow2(Shift(q.len)), Fan(q.len));
    assert Slot(q, i).addr - q.addr == i * Pow2(Shift(q.len));
  }

  lemma BlockStart(i: nat, s: nat, n: nat)
    requires s > 0 && i < n
    ensures i * s + s <= n * s && (i * s) / s == i
  {
    MulOrder(i + 1, n, s);
    Step(i, s);
    DivUnique(i * s, s, i, 0);
  }

  lemma SlotCanonical(q: Prefix, i: nat)
    requires Level(q.len) && Canonical(q) && i < Fan(q.len)
    ensures Canonical(Slot(q, i)) && Contains(q, Slot(q, i).addr)
  {
    SlotStart(q, i);
    SlotOf(q, Slot(q, i).addr);
    NodeEnds(q);
  }

  lemma NodeEnds(q: Prefix)
    requires Canonical(q)
    ensures q.addr + Size(q.len) <= ADDRESSES
  {
    Multiple(q.addr, q.len, q.len);
    Pow2Add(q.len, 32 - q.len);
    Pow2Is32();
    BlockFits(q.addr, Size(q.len), Pow2(q.len));
  }

  lemma BlockFits(a: nat, s: nat, n: nat)
    requires s > 0 && a % s == 0 && a < n * s
    ensures a + s <= n * s
  {
    Below(a, n, s);
    Quotient(a, s);
    MulOrder(a / s + 1, n, s);
    Step(a / s, s);
  }

  lemma Pow2Is32()
    ensures Pow2(32) == ADDRESSES
  {
    assert Pow2(8) == 256;
    Pow2Add(8, 8);
    Pow2Add(16, 16);
  }

  /** `p` is kept at node `q`. */
  ghost predicate Under(q: Prefix, p: Prefix) {
    Level(q.len) && q.len < p.len <= SlotLen(q.len) && At(p.addr, q.len) == q
  }

  /** Where a prefix of a node lies, in slots, and how many of them it takes. */
  lemma InSlots(q: Prefix, p: Prefix) returns (c: nat)
    requires Under(q, p) && Canonical(q) && Canonical(p)
    ensures var s := Pow2(Shift(q.len));
      p.addr >= q.addr && p.addr == q.addr + ((p.addr - q.addr) / s) * s
      && Size(p.len) == c * s && Size(p.len) / s == c && c > 0
  {
    var s := Pow2(Shift(q.len));
    Fans(q.len);
    c := Pow2(SlotLen(q.len) - p.len);
    Pow2Add(SlotLen(q.len) - p.len, Shift(q.len));
    ContainsRange(q, p.addr);
    Multiple(p.addr, p.len, SlotLen(q.len));
    Multiple(q.addr, q.len, SlotLen(q.len));
    Between(q.addr, p.addr, s);
    DivUnique(c * s, s, c, 0);
  }

  lemma Between(a: nat, b: nat, s: nat)
    requires s > 0 && a % s == 0 && b % s == 0 && a <= b
    ensures b == a + ((b - a) / s) * s
  {
    AddMultiple(a, b - a, s);
  }

  /** Lines 67-81: the slots `p` covers are those from `i1` up to `i2`. */
  lemma SlotsCovered(q: Prefix, p: Prefix, i: nat)
    requires Under(q, p) && Canonical(q) && Canonical(p)
    ensures p.addr >= q.addr
    ensures var s := Pow2(Shift(q.len));
      Contains(p, Slot(q, i).addr) <==> (p.addr - q.addr) / s <= i < (p.addr - q.addr) / s + Size(p.len) / s
  {
    var s := Pow2(Shift(q.len));
    var c := InSlots(q, p);
    NonNegative(p.addr - q.addr, s);
    var x: nat := (p.addr - q.addr) / s;
    BlocksWithin(x, c, i, s);
    ContainsRange(p, Slot(q, i).addr);
    assert Slot(q, i).addr == q.addr + i * s;
    assert Contains(p, Slot(q, i).addr) <==> x * s <= i * s < x * s + c * s;
  }

  lemma SlotsFit(q: Prefix, p: Prefix)
    requires Under(q, p) && Canonical(q) && Canonical(p)
    ensures p.addr >= q.addr
    ensures (p.addr - q.addr) / Pow2(Shift(q.len)) + Size(p.len) / Pow2(Shift(q.len)) <= Fan(q.len)
  {
    var s := Pow2(Shift(q.len));
    var c := InSlots(q, p);
    var x := (p.addr - q.addr) / s;
    assert x * s + c * s <= Fan(q.len) * s by {
      Fans(q.len);
      EndsInside(q, p);
    }
    BlocksFit(x, c, Fan(q.len), s);
  }

  lemma BlocksFit(x: nat, c: nat, n: nat, s: nat)
    requires s > 0 && x * s + c * s <= n * s
    ensures x + c <= n
  {
    SumTimes(x, c, s);
    MulOrder(x + c, n, s);
  }

  /** A prefix of a node ends where the node ends or before. */
  lemma EndsInside(q: Prefix, p: Prefix)
    requires Under(q, p) && Canonical(q) && Canonical(p)
    ensures q.addr <= p.addr && p.addr - q.addr + Size(p.len) <= Size(q.len)
  {
    ContainsRange(q, p.addr);
    Multiple(p.addr, p.len, p.len);
    Multiple(q.addr, q.len, p.len);
    Pow2Add(p.len - q.len, 32 - p.len);
    Apart0(q.addr, p.addr, Size(p.len));
    BlockFits(p.addr - q.addr, Size(p.len), Pow2(p.len - q.len));
  }

  lemma Apart0(a: nat, b: nat, s: nat)
    requires s > 0 && a % s == 0 && b % s == 0 && a <= b
    ensures (b - a) % s == 0
  {
    AddMultiple(a, b - a, s);
  }

  /** `i1 == i2`, the prefix is below one slot, exactly when it is longer than the slot's. */
  lemma OneSlot(q: Prefix, p: Prefix)
    requires Level(q.len) && p.len <= 32
    ensures Size(p.len) / Pow2(Shift(q.len)) == 0 <==> p.len > SlotLen(q.len)
  {
    var s := Pow2(Shift(q.len));
    if p.len > SlotLen(q.len) {
      Pow2Order(Shift(q.len), 32 - p.len);
      DivUnique(Size(p.len), s, 0, Size(p.len));
    } else {
      Pow2Order(Shift(q.len), 32 - p.len);
      Quotient(Size(p.len), s);
    }
  }

  /** The network mask of a length, as a number: `hmask`. */
  function Mask(m: nat): int
    requires m <= 32
  {
    ADDRESSES - Size(m)
  }

  lemma {:induction false} Pow2Order(a: nat, b: nat)
    ensures Pow2(a) <= Pow2(b) <==> a <= b
  {
    if a > 0 && b > 0 {
      Pow2Order(a - 1, b - 1);
    }
  }

  lemma MaskOrder(a: nat, b: nat)
    requires a <= 32 && b <= 32
    ensures Mask(a) <= Mask(b) <==> a <= b
    ensures 0 <= Mask(a) && (Mask(a) == 0 <==> a == 0)
  {
    Pow2Order(32 - a, 32 - b);
    Pow2Order(32 - b, 32 - a);
    Pow2Order(32 - a, 32);
    Pow2Order(32, 32 - a);
    Pow2Is32();
  }
}
