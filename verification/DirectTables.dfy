/**
 * The two lookup arrays of the DIR-24-8 table (bfclick/ip/directiplookup.cc)
 * and the block-skipping loops that rewrite them.
 */
module DirectTables {
  import opened Powers
  import opened Prefixes

  const SLOTS := 0x100_0000     // 2^24 entries in _tbl_0_23
  const FLAG := 0x8000          // set in a primary entry that names a block

  /** `x | ((1 << k) - 1)`. */
  function OrLow(x: nat, k: nat): nat {
    if k == 0 then x else 2 * OrLow(x / 2, k - 1) + 1
  }

  lemma {:induction false} OrLowClear(x: nat, k: nat)
    ensures OrLow(x, k) == Clear(x, k) + Pow2(k) - 1
    ensures OrLow(x, k) == x - x % Pow2(k) + Pow2(k) - 1
  {
    ClearMod(x, k);
    if k > 0 {
      OrLowClear(x / 2, k - 1);
    }
  }

  /** Length `q` is the longest match of `a`, and `w` is what it maps to. */
  ghost predicate Agrees(rt: map<Prefix, nat>, a: nat, q: nat, w: nat) {
    Longest(rt, a, q) && rt[At(a, q)] == w
  }

  /** One route being added, replaced or removed: the map before and after. */
  datatype Edit = Edit(p: Prefix, before: map<Prefix, nat>, after: map<Prefix, nat>) {
    ghost predicate Ok() {
      && Canonical(p)
      && forall q :: q != p ==>
           (q in before <==> q in after) && (q in before ==> before[q] == after[q])
    }
  }

  // ---- what an edit does to the longest match of an address

  lemma EditKeeps(e: Edit, a: nat, q: nat, w: nat)
    requires e.Ok() && Agrees(e.before, a, q, w)
    requires q > e.p.len || !Contains(e.p, a)
    ensures Agrees(e.after, a, q, w)
  {
  }

  lemma AddSets(e: Edit, a: nat, q: nat, w: nat)
    requires e.Ok() && e.p in e.after && Agrees(e.before, a, q, w)
    requires q <= e.p.len && Contains(e.p, a)
    ensures Agrees(e.after, a, e.p.len, e.after[e.p])
  {
    assert At(a, e.p.len) == e.p;
  }

  /** `m` is the length of the longest route strictly covering `p`. */
  ghost predicate Cover(rt: map<Prefix, nat>, p: Prefix, m: nat) {
    && m < p.len <= 32
    && At(p.addr, m) in rt
    && forall l :: m < l < p.len ==> At(p.addr, l) !in rt
  }

  lemma RemoveSets(e: Edit, m: nat, a: nat, w: nat)
    requires e.Ok() && e.p !in e.after && Cover(e.after, e.p, m)
    requires Agrees(e.before, a, e.p.len, w) && Contains(e.p, a)
    ensures Agrees(e.after, a, m, e.after[At(e.p.addr, m)])
  {
    NestUnder(e.p, a, m);
    forall l | m < l <= 32
      ensures At(a, l) !in e.after
    {
      if l < e.p.len {
        NestUnder(e.p, a, l);
        assert At(a, l) == At(e.p.addr, l);
      }
    }
  }

  /** A longer match at `a` is a match, at least as long, all over its block. */
  lemma MatchSpreads(rt: map<Prefix, nat>, a: nat, q: nat, w: nat, b: nat, qb: nat, wb: nat)
    requires Agrees(rt, a, q, w) && Agrees(rt, b, qb, wb)
    requires Trunc(a, q) == Trunc(b, q)
    ensures qb >= q
  {
    assert At(b, q) == At(a, q);
  }

  lemma DefaultMatches(a: nat)
    requires a < ADDRESSES
    ensures Agrees(map[Prefix(0, 0) := 0], a, 0, 0)
  {
    Literals();
    ClearMod(a, 32);
    DivUnique(a, Pow2(32), 0, a);
  }

  // ---- index arithmetic

  /** The address at offset `j` of /24 number `i`. */
  function Addr(i: nat, j: nat): nat { 256 * i + j }

  lemma Div256(i: nat, j: nat)
    requires j < 256
    ensures (256 * i + j) / 256 == i && (256 * i + j) % 256 == j
  {
  }

  lemma BlockEnd(x: nat, t: nat, m: nat)
    requires t > 0 && x < m * t
    ensures x - x % t + t <= m * t
  {
    var d := x / t;
    assert x == d * t + x % t;
    MulMono(m, d, t);
    MulMono(d + 1, m, t);
    assert (d + 1) * t == d * t + t;
  }

  lemma OrLowBounds(x: nat, k: nat, bits: nat)
    requires k <= bits && x < Pow2(bits)
    ensures x <= OrLow(x, k) < Pow2(bits)
  {
    OrLowClear(x, k);
    Pow2Add(bits - k, k);
    BlockEnd(x, Pow2(k), Pow2(bits - k));
  }

  lemma MulMono(x: int, y: int, t: int)
    requires t > 0
    ensures x <= y ==> x * t <= y * t
  {
  }

  lemma OrLowSame(x: nat, y: nat, k: nat)
    requires x <= y <= OrLow(x, k)
    ensures x / Pow2(k) == y / Pow2(k)
  {
    var t := Pow2(k);
    OrLowClear(x, k);
    Quotient(x, t);
    DivUnique(y, t, x / t, y - (x - x % t));
  }

  /** Pow2(24) and Pow2(8) as the literals the code uses. */
  lemma Literals()
    ensures Pow2(24) == SLOTS && Pow2(8) == 256 && Pow2(32) == ADDRESSES
  {
    assert Pow2(8) == 256;
    Pow2Add(8, 8);
    Pow2Add(16, 8);
    Pow2Add(24, 8);
  }

  lemma SizeShort(q: nat)
    requires q <= 24
    ensures Size(q) == 256 * Pow2(24 - q)
  {
    Literals();
    Pow2Add(24 - q, 8);
  }

  lemma SizeLong(q: nat)
    requires 24 <= q <= 32
    ensures Size(q) * Pow2(q - 24) == 256
  {
    Literals();
    Pow2Add(32 - q, q - 24);
  }

  /** `i |= 0x00ffffff >> q` lands on the last /24 of the /q block around `i`. */
  lemma PrimarySkip(i: nat, q: nat, i': nat, j: nat, j': nat)
    requires i < SLOTS && q <= 24 && i <= i' <= OrLow(i, 24 - q)
    requires j < 256 && j' < 256
    ensures Trunc(Addr(i, j), q) == Trunc(Addr(i', j'), q)
  {
    SizeShort(q);
    OrLowSame(i, i', 24 - q);
    DivDiv(256 * i + j, 256, Pow2(24 - q));
    DivDiv(256 * i' + j', 256, Pow2(24 - q));
    Div256(i, j);
    Div256(i', j');
    SameTrunc(256 * i + j, 256 * i' + j', q);
  }

  /** And no further. */
  lemma PrimaryReach(i: nat, q: nat, i': nat, j: nat, j': nat)
    requires q <= 24 && i <= i' && j < 256 && j' < 256
    requires Trunc(Addr(i, j), q) == Trunc(Addr(i', j'), q)
    ensures i' <= OrLow(i, 24 - q)
  {
    SizeShort(q);
    SameTrunc(256 * i + j, 256 * i' + j', q);
    DivDiv(256 * i + j, 256, Pow2(24 - q));
    DivDiv(256 * i' + j', 256, Pow2(24 - q));
    Div256(i, j);
    Div256(i', j');
    OrLowClear(i, 24 - q);
    Quotient(i, Pow2(24 - q));
    Quotient(i', Pow2(24 - q));
  }

  /** Addresses of one /24 share every truncation to 24 bits or fewer. */
  lemma SameBlock(i: nat, q: nat, j: nat, j': nat)
    requires i < SLOTS && q <= 24 && j < 256 && j' < 256
    ensures Trunc(Addr(i, j), q) == Trunc(Addr(i, j'), q)
  {
    Literals();
    OrLowBounds(i, 24 - q, 24);
    PrimarySkip(i, q, i, j, j');
  }

  lemma DivShift(i: nat, j: nat, s: nat, m: nat)
    requires s > 0 && s * m == 256
    ensures (256 * i + j) / s == i * m + j / s
  {
    assert j == (j / s) * s + j % s;
    assert 256 * i == (i * m) * s by {
      assert (i * m) * s == i * (m * s);
    }
    assert (i * m + j / s) * s == (i * m) * s + (j / s) * s;
    DivUnique(256 * i + j, s, i * m + j / s, j % s);
  }

  /** `j |= 0xff >> (q - 24)` lands on the last address of the /q around `j`. */
  lemma SecondarySkip(i: nat, q: nat, j: nat, j': nat)
    requires 24 <= q <= 32 && j < 256 && j <= j' <= OrLow(j, 32 - q)
    ensures j' < 256 && Trunc(Addr(i, j), q) == Trunc(Addr(i, j'), q)
  {
    LastOffset(j, 32 - q);
    OrLowSame(j, j', 32 - q);
    SameOffset(i, q, j, j');
    SameTrunc(256 * i + j, 256 * i + j', q);
  }

  lemma LastOffset(j: nat, k: nat)
    requires j < 256 && k <= 8
    ensures OrLow(j, k) < 256
  {
    Literals();
    OrLowBounds(j, k, 8);
  }

  lemma SameOffset(i: nat, q: nat, j: nat, j': nat)
    requires 24 <= q <= 32 && j / Size(q) == j' / Size(q)
    ensures (256 * i + j) / Size(q) == (256 * i + j') / Size(q)
  {
    SizeLong(q);
    DivShift(i, j, Size(q), Pow2(q - 24));
    DivShift(i, j', Size(q), Pow2(q - 24));
  }

  /** `start`, the /24 index of a prefix, and the number of /24s it spans. */
  function First(p: Prefix): nat { p.addr / 256 }

  function Span(p: Prefix): (n: nat)
    ensures n > 0
  {
    if p.len < 24 then Pow2(24 - p.len) else 1
  }

  function SecFirst(p: Prefix): nat {
    if p.len > 24 then p.addr % 256 else 0
  }

  function SecSpan(p: Prefix): (n: nat)
    requires p.len <= 32
    ensures n > 0
  {
    if p.len > 24 then Pow2(32 - p.len) else 256
  }

  /** The bounds of a prefix of at most 24 bits, counted in /24s. */
  lemma AlignedShort(a: nat, s: nat, m: nat)
    requires m > 0 && s == 256 * m && a % s == 0
    ensures a == 256 * (a / 256) && (a / 256) % m == 0
  {
    var d := a / s;
    assert a == d * s + a % s;
    assert d * s == 256 * (d * m);
    assert a / 256 == d * m;
    DivUnique(d * m, m, d, 0);
  }

  /** The loop bounds of the table walks name exactly the covered addresses. */
  lemma Extent(p: Prefix, i: nat, j: nat)
    requires Canonical(p) && j < 256
    ensures Contains(p, Addr(i, j))
      <==> First(p) <= i < First(p) + Span(p) && SecFirst(p) <= j < SecFirst(p) + SecSpan(p)
    ensures First(p) + Span(p) <= SLOTS && SecFirst(p) + SecSpan(p) <= 256
  {
    ContainsRange(p, Addr(i, j));
    var s := Size(p.len);
    ClearMod(p.addr, 32 - p.len);
    assert p.addr % s == 0;
    if p.len <= 24 {
      SizeShort(p.len);
      AlignedShort(p.addr, s, Pow2(24 - p.len));
      Literals();
      OrLowBounds(First(p), 24 - p.len, 24);
      OrLowClear(First(p), 24 - p.len);
    } else {
      SizeLong(p.len);
      AlignedLow(p.addr, s, Pow2(p.len - 24));
    }
  }

  lemma AlignedLow(a: nat, s: nat, m: nat)
    requires s > 0 && s * m == 256 && a % s == 0
    ensures a % 256 + s <= 256
  {
    var q := a / 256;
    var r := a % 256;
    assert a == 256 * q + r;
    DivShift(q, r, s, m);
    var d := a / s;
    assert a == d * s;
    var e := d - q * m;
    assert (q * m) * s == 256 * q by { assert (q * m) * s == q * (m * s); }
    assert r == e * s by { assert (d - q * m) * s == d * s - (q * m) * s; }
    if e >= m {
      MulMono(m, e, s);
    }
    MulMono(e + 1, m, s);
    assert (e + 1) * s == e * s + s;
  }

  /** The /24 is wholly covered by routes of the one length `q`, longer than /24. */
  ghost predicate Tiled<V>(rt: map<Prefix, V>, i: nat, q: nat) {
    24 < q <= 32 && forall j :: 0 <= j < 256 ==> Longest(rt, Addr(i, j), q)
  }

  ghost predicate AnyTiled<V>(rt: map<Prefix, V>, i: nat) {
    exists q :: Tiled(rt, i, q)
  }

  /** Address `j` of /24 `k`, earlier in `p`, has its longest match longer than `p` but no longer than /24, and it reaches /24 `i`. */
  ghost predicate SkippedFrom<V>(rt: map<Prefix, V>, p: Prefix, i: nat, k: nat, j: nat, q: nat) {
    && First(p) <= k < i && j < 256 && p.len < q <= 24
    && Longest(rt, Addr(k, j), q) && Trunc(Addr(i, 0), q) == Trunc(Addr(k, j), q)
  }

  ghost predicate Skipped<V>(rt: map<Prefix, V>, p: Prefix, i: nat) {
    exists k: nat, j: nat, q: nat :: SkippedFrom(rt, p, i, k, j, q)
  }

  /** Every tiled /24 that `p` reaches is skipped. */
  ghost predicate TiledSkipped<V>(rt: map<Prefix, V>, p: Prefix) {
    forall i :: First(p) <= i < First(p) + Span(p) && AnyTiled(rt, i) ==> Skipped(rt, p, i)
  }

  /** Some address of /24 `i` has its longest match between `p` and /24. */
  ghost predicate ShortMatch<V>(rt: map<Prefix, V>, p: Prefix, i: nat, q: nat) {
    p.len < q <= 24 && exists j :: 0 <= j < 256 && Longest(rt, Addr(i, j), q)
  }

  /** From /24 `i` the walk jumps to the end of such a match, and otherwise stays. */
  ghost predicate Jumps<V>(rt: map<Prefix, V>, p: Prefix, i: nat, next: nat) {
    && (forall q: nat :: ShortMatch(rt, p, i, q) ==> next == OrLow(i, 24 - q))
    && (next != i ==> exists q: nat :: ShortMatch(rt, p, i, q))
  }

  /** A /24 has no two such matches. */
  lemma ShortMatchOne<V>(rt: map<Prefix, V>, p: Prefix, i: nat, q: nat, q': nat)
    requires i < SLOTS && ShortMatch(rt, p, i, q) && ShortMatch(rt, p, i, q')
    ensures q == q'
  {
    var j :| 0 <= j < 256 && Longest(rt, Addr(i, j), q);
    var j' :| 0 <= j' < 256 && Longest(rt, Addr(i, j'), q');
    SameBlock(i, q, j, j');
    SameBlock(i, q', j, j');
    assert At(Addr(i, j'), q) == At(Addr(i, j), q) && At(Addr(i, j), q') == At(Addr(i, j'), q');
  }

  lemma JumpTo<V>(rt: map<Prefix, V>, p: Prefix, i: nat, q: nat)
    requires i < SLOTS && ShortMatch(rt, p, i, q)
    ensures Jumps(rt, p, i, OrLow(i, 24 - q))
  {
    forall q': nat | ShortMatch(rt, p, i, q')
      ensures q' == q
    {
      ShortMatchOne(rt, p, i, q, q');
    }
  }

  /** What a jump passes over is skipped. */
  lemma JumpedOver<V>(rt: map<Prefix, V>, p: Prefix, i: nat, next: nat, x: nat)
    requires First(p) <= i < x <= next && i < SLOTS && Jumps(rt, p, i, next)
    ensures Skipped(rt, p, x)
  {
    var q: nat :| ShortMatch(rt, p, i, q);
    var j: nat :| j < 256 && Longest(rt, Addr(i, j), q);
    PrimarySkip(i, q, x, j, 0);
    assert SkippedFrom(rt, p, x, i, j, q);
  }

  /** And the walk comes to nothing that is skipped. */
  lemma LandsUnskipped<V>(rt: map<Prefix, V>, p: Prefix, i: nat, next: nat)
    requires First(p) <= i <= next && next + 1 < SLOTS && Jumps(rt, p, i, next) && !Skipped(rt, p, i)
    ensures !Skipped(rt, p, next + 1)
  {
    if Skipped(rt, p, next + 1) {
      var k: nat, j: nat, q: nat :| SkippedFrom(rt, p, next + 1, k, j, q);
      PrimaryReach(k, q, next + 1, j, 0);
      if k < i {
        PrimarySkip(k, q, i, j, 0);
        assert SkippedFrom(rt, p, i, k, j, q);
      } else if k == i {
        assert ShortMatch(rt, p, i, q);
      } else {
        JumpsFurther(rt, p, i, next, k, j, q);
      }
    }
  }

  lemma JumpsFurther<V>(rt: map<Prefix, V>, p: Prefix, i: nat, next: nat, k: nat, j: nat, q: nat)
    requires i < k <= next && next + 1 < SLOTS && Jumps(rt, p, i, next)
    ensures !SkippedFrom(rt, p, next + 1, k, j, q)
  {
    if SkippedFrom(rt, p, next + 1, k, j, q) {
      var q': nat :| ShortMatch(rt, p, i, q');
      var j': nat :| j' < 256 && Longest(rt, Addr(i, j'), q');
      PrimarySkip(i, q', k, j', j);
      assert At(Addr(k, j), q') == At(Addr(i, j'), q');
      Nest(Addr(next + 1, 0), Addr(k, j), q', q);
      PrimaryReach(i, q', next + 1, j', 0);
    }
  }

  lemma TiledStart<V>(rt: map<Prefix, V>, i: nat) returns (q: nat)
    requires AnyTiled(rt, i)
    ensures q > 24 && Longest(rt, Addr(i, 0), q)
  {
    q :| Tiled(rt, i, q);
  }

  /** A block of addresses of at least 24 bits lies in its /24. */
  lemma StartsIn(i: nat, j: nat, q: nat)
    requires 24 <= q <= 32 && j < 256
    ensures Trunc(Addr(i, j), q) / 256 == i
  {
    var a := Addr(i, j);
    Div256(i, j);
    ClearRange(a, 32 - q);
    ClearRange(a, 8);
    Literals();
    ClearMod(a, 8);
    Nested(a, 32 - q, 8);
  }

  lemma {:induction false} Nested(a: nat, k: nat, l: nat)
    requires k <= l
    ensures Clear(a, l) <= Clear(a, k)
  {
    if k == 0 {
      ClearRange(a, l);
    } else {
      Nested(a / 2, k - 1, l - 1);
    }
  }

  /** The /24s that have a route longer than /24. */
  ghost function Deep<V>(rt: map<Prefix, V>): set<nat> {
    set p | p in rt && p.len > 24 :: First(p)
  }

  lemma {:induction false} DistinctCount(s: seq<nat>, n: nat)
    requires (forall k :: 0 <= k < |s| ==> s[k] < n) && forall k, l :: 0 <= k < l < |s| ==> s[k] != s[l]
    ensures |set b | b in s && b < n| == |s|
  {
    if s != [] {
      var t := s[1..];
      assert forall k, l :: 0 <= k < l < |t| ==> t[k] == s[k + 1] && t[l] == s[l + 1];
      DistinctCount(t, n);
      assert s[0] !in t;
      assert (set b | b in s && b < n) == (set b | b in t && b < n) + {s[0]};
    } else {
      assert (set b | b in s && b < n) == {};
    }
  }

  class LookupTables {
    const tbl: array<nat>       // _tbl_0_23: a vport index, or FLAG + block
    const tblPlen: array<nat>   // _tbl_0_23_plen
    const sec: array<nat>       // _tbl_24_31, in blocks of 256
    const secPlen: array<nat>   // _tbl_24_31_plen
    const secCapacity: nat      // _tbl_24_31_capacity
    var secSize: nat            // _tbl_24_31_size
    var emptyHead: nat          // _tbl_24_31_empty_head; FLAG is none
    ghost var owner: seq<int>   // which primary entry names a block, or -1
    ghost var free: seq<nat>    // the blocks on the list threaded through `sec`
    ghost var bad: set<nat>     // the /24s a removal has wrongly collapsed

    ghost predicate Shape() {
      && tbl.Length == SLOTS && tblPlen.Length == SLOTS
      && sec.Length == secCapacity && secPlen.Length == secCapacity
      && secCapacity % 256 == 0 && secCapacity <= FLAG * 256
      && tbl != tblPlen && tbl != sec && tbl != secPlen
      && tblPlen != sec && tblPlen != secPlen && sec != secPlen
    }

    /** The block a primary entry names is allocated to that entry alone. */
    ghost predicate Owned()
      requires Shape()
      reads this, tbl
    {
      && secSize % 256 == 0 && secSize <= secCapacity
      && |owner| == secCapacity / 256
      && (forall i :: 0 <= i < SLOTS && tbl[i] >= FLAG ==>
           256 * (tbl[i] - FLAG) < secSize && owner[tbl[i] - FLAG] == i)
      && (forall b :: 0 <= b < |owner| && 256 * b >= secSize ==> owner[b] == -1)
    }

    /** The free blocks, linked through the first entry of each. */
    ghost predicate FreeList()
      requires Shape() && Owned()
      reads this, tbl, sec
    {
      && (forall k :: 0 <= k < |free| ==> 256 * free[k] < secSize && owner[free[k]] == -1)
      && (forall k, l :: 0 <= k < l < |free| ==> free[k] != free[l])
      && emptyHead == FreeAt(0)
      && (forall k :: 0 <= k < |free| ==> FreeLink(k))
    }

    ghost function FreeAt(k: nat): nat
      reads this
    {
      if k < |free| then free[k] else FLAG
    }

    ghost predicate FreeLink(k: nat)
      requires Shape() && k < |free| && 256 * free[k] < secCapacity
      reads this, sec
    {
      sec[256 * free[k]] == FreeAt(k + 1)
    }

    /** Every block ever carved out is in use or on the free list. */
    ghost predicate NoLeak()
      requires Shape() && Owned()
      reads this, tbl
    {
      forall b :: 0 <= b < |owner| && 256 * b < secSize ==> Held(b)
    }

    ghost predicate Held(b: nat)
      requires Shape() && b < |owner|
      reads this, tbl
    {
      if owner[b] == -1 then b in free else 0 <= owner[b] < SLOTS && tbl[owner[b]] == FLAG + b
    }

    ghost function SlotPlen(i: nat, j: nat): nat
      requires Shape() && Owned() && i < SLOTS && j < 256
      reads this, tbl, tblPlen, secPlen
    {
      if tbl[i] >= FLAG then secPlen[256 * (tbl[i] - FLAG) + j] else tblPlen[i]
    }

    ghost function SlotVport(i: nat, j: nat): nat
      requires Shape() && Owned() && i < SLOTS && j < 256
      reads this, tbl, sec
    {
      if tbl[i] >= FLAG then sec[256 * (tbl[i] - FLAG) + j] else tbl[i]
    }

    /** The entry an address is looked up in is its longest match in `rt`. */
    ghost predicate SlotOk(rt: map<Prefix, nat>, i: nat, j: nat)
      requires Shape() && Owned() && i < SLOTS && j < 256
      reads this, tbl, tblPlen, sec, secPlen
    {
      Agrees(rt, Addr(i, j), SlotPlen(i, j), SlotVport(i, j))
    }

    /** A /24 has a block exactly when some route longer than /24 lies in it. */
    ghost predicate DeepEntry(i: nat)
      requires Shape() && Owned() && i < SLOTS
      reads this, tbl, tblPlen, secPlen
    {
      if tbl[i] < FLAG then tblPlen[i] <= 24
      else exists j: nat :: j < 256 && SlotPlen(i, j) > 24
    }

    ghost predicate DeepBut(x: int)
      requires Shape() && Owned()
      reads this, tbl, tblPlen, secPlen
    {
      forall i :: 0 <= i < SLOTS && i !in bad && i != x ==> DeepEntry(i)
    }

    /** Addresses below `upto` hold the edited map, the rest the old one. */
    ghost predicate Mixed(e: Edit, upto: int)
      requires Shape() && Owned()
      reads this, tbl, tblPlen, sec, secPlen
    {
      && (forall i, j :: 0 <= i < SLOTS && i !in bad && 0 <= j < 256 && Addr(i, j) < upto ==> SlotOk(e.after, i, j))
      && (forall i, j :: 0 <= i < SLOTS && i !in bad && 0 <= j < 256 && Addr(i, j) >= upto ==> SlotOk(e.before, i, j))
    }

    ghost predicate Slots(rt: map<Prefix, nat>)
      requires Shape() && Owned()
      reads this, tbl, tblPlen, sec, secPlen
    {
      forall i, j :: 0 <= i < SLOTS && i !in bad && 0 <= j < 256 ==> SlotOk(rt, i, j)
    }

    /** What a wrongly collapsed /24 answers: its first tile, for all of it. */
    ghost predicate Collapsed(rt: map<Prefix, nat>, i: nat)
      requires Shape() && i < SLOTS
      reads tbl, tblPlen
    {
      && tbl[i] < FLAG && Tiled(rt, i, tblPlen[i])
      && Agrees(rt, Addr(i, 0), tblPlen[i], tbl[i])
    }

    ghost predicate BadOk(rt: map<Prefix, nat>)
      requires Shape()
      reads this, tbl, tblPlen
    {
      forall i <- bad :: i < SLOTS && Collapsed(rt, i)
    }

    ghost predicate Base()
      reads this, tbl, sec
    {
      Shape() && Owned() && FreeList()
    }

    /** The tables represent `rt`. */
    ghost predicate Valid(rt: map<Prefix, nat>)
      reads this, tbl, tblPlen, sec, secPlen
    {
      Base() && NoLeak() && DeepBut(-1) && Slots(rt) && bad == {}
    }

    /** The tables represent `rt`, the /24s of `bad` apart. */
    ghost predicate ValidBut(rt: map<Prefix, nat>)
      reads this, tbl, tblPlen, sec, secPlen
    {
      Base() && NoLeak() && DeepBut(-1) && Slots(rt) && BadOk(rt)
    }

    ghost predicate Loop(e: Edit, upto: int)
      reads this, tbl, tblPlen, sec, secPlen
    {
      Base() && DeepBut(-1) && Mixed(e, upto)
    }

    /** The /24s that have a block. */
    ghost function Blocks(): set<nat>
      requires Shape()
      reads tbl
    {
      set i: nat | i < SLOTS && tbl[i] >= FLAG
    }

    /** They are those with a route longer than /24. */
    lemma BlocksAreDeep(rt: map<Prefix, nat>)
      requires Valid(rt) && AllCanonical(rt)
      ensures Blocks() == Deep(rt)
    {
      forall i: nat | i in Blocks()
        ensures i in Deep(rt)
      {
        assert DeepEntry(i);
        var j: nat :| j < 256 && SlotPlen(i, j) > 24;
        assert SlotOk(rt, i, j);
        var p := At(Addr(i, j), SlotPlen(i, j));
        assert Canonical(p);
        StartsIn(i, j, p.len);
        assert p in rt && First(p) == i;
      }
      forall p | p in rt && p.len > 24
        ensures First(p) in Blocks()
      {
        assert Canonical(p);
        LongHasBlock(p, rt);
      }
    }

    /** The /24s that have one of the first `n` blocks, and the free ones of these. */
    ghost function Using(n: nat): set<nat>
      requires Shape()
      reads tbl
    {
      set i: nat | i < SLOTS && FLAG <= tbl[i] < FLAG + n
    }

    static ghost function Spared(free: seq<nat>, n: nat): set<nat> {
      set b | b in free && b < n
    }

    static lemma SparedNext(free: seq<nat>, n: nat)
      ensures |Spared(free, n + 1)| == |Spared(free, n)| + if n in free then 1 else 0
    {
      if n in free {
        assert Spared(free, n + 1) == Spared(free, n) + {n};
      } else {
        assert Spared(free, n + 1) == Spared(free, n);
      }
    }

    lemma UsingNext(n: nat)
      requires Base() && NoLeak() && 256 * n < secSize
      ensures |Using(n + 1)| == |Using(n)| + if n in free then 0 else 1
    {
      assert Held(n);
      if owner[n] == -1 {
        assert Using(n + 1) == Using(n);
      } else {
        var i: nat := owner[n];
        assert i !in Using(n) && Using(n + 1) == Using(n) + {i};
      }
    }

    lemma {:induction false} CountBelow(n: nat)
      requires Base() && NoLeak() && 256 * n <= secSize
      ensures |Using(n)| + |Spared(free, n)| == n
    {
      if n == 0 {
        assert Using(0) == {} && Spared(free, 0) == {};
      } else {
        CountBelow(n - 1);
        UsingNext(n - 1);
        SparedNext(free, n - 1);
      }
    }

    /** Blocks carved out are in use or free. */
    lemma BlocksCounted()
      requires Base() && NoLeak()
      ensures 256 * (|Blocks()| + |free|) == secSize
    {
      var n := secSize / 256;
      CountBelow(n);
      DistinctCount(free, n);
      assert Blocks() == Using(n);
    }

    /** The tables hold no more /24s with longer routes than there are blocks for. */
    lemma DeepFits(rt: map<Prefix, nat>)
      requires Valid(rt) && AllCanonical(rt)
      ensures 256 * |Deep(rt)| <= secCapacity
      ensures secSize == secCapacity && free == [] ==> 256 * |Deep(rt)| == secCapacity
    {
      BlocksAreDeep(rt);
      BlocksCounted();
    }

    /** `initialize` and `flush`: every address resolves to vport 0 by 0.0.0.0/0. */
    constructor (blocks: nat)
      requires blocks <= FLAG
      ensures Valid(map[Prefix(0, 0) := 0]) && secCapacity == 256 * blocks && secSize == 0
      ensures fresh(tbl) && fresh(tblPlen) && fresh(sec) && fresh(secPlen)
    {
      tbl := new nat[SLOTS](_ => 0);
      tblPlen := new nat[SLOTS](_ => 0);
      sec := new nat[256 * blocks](_ => 0);
      secPlen := new nat[256 * blocks](_ => 0);
      secCapacity := 256 * blocks;
      secSize := 0;
      emptyHead := FLAG;
      owner := seq(blocks, _ => -1);
      free := [];
      bad := {};
      new;
      forall i, j | 0 <= i < SLOTS && 0 <= j < 256
        ensures SlotOk(map[Prefix(0, 0) := 0], i, j)
      {
        DefaultMatches(Addr(i, j));
      }
    }

    // ---- how far an edit has come, without touching the tables

    /** Before the first address of `p` the two maps agree. */
    lemma EditEnters(e: Edit)
      requires Base() && Slots(e.before) && e.Ok()
      ensures Mixed(e, Addr(First(e.p), 0))
    {
      forall i, j | 0 <= i < SLOTS && i !in bad && 0 <= j < 256 && Addr(i, j) < Addr(First(e.p), 0)
        ensures SlotOk(e.after, i, j)
      {
        assert SlotOk(e.before, i, j);
        Extent(e.p, i, j);
        EditKeeps(e, Addr(i, j), SlotPlen(i, j), SlotVport(i, j));
      }
    }

    /** And after its last. */
    lemma EditLeaves(e: Edit, upto: int)
      requires e.Ok() && upto >= Addr(First(e.p) + Span(e.p), 0)
      requires Base() && Mixed(e, upto)
      ensures Slots(e.after)
    {
      forall i, j | 0 <= i < SLOTS && i !in bad && 0 <= j < 256
        ensures SlotOk(e.after, i, j)
      {
        if Addr(i, j) >= upto {
          assert SlotOk(e.before, i, j);
          Extent(e.p, i, j);
          EditKeeps(e, Addr(i, j), SlotPlen(i, j), SlotVport(i, j));
        }
      }
    }

    /** Within one /24, everything outside `p` is already as it should be. */
    lemma EditMoves(e: Edit, i: nat, j: nat, j': nat)
      requires e.Ok() && i < SLOTS && j <= j' <= 256
      requires Base() && Mixed(e, Addr(i, j))
      requires forall k :: j <= k < j' ==> !Contains(e.p, Addr(i, k))
      ensures Mixed(e, Addr(i, j'))
    {
      forall i', k | 0 <= i' < SLOTS && i' !in bad && 0 <= k < 256 && Addr(i, j) <= Addr(i', k) < Addr(i, j')
        ensures SlotOk(e.after, i', k)
      {
        assert i' == i && SlotOk(e.before, i, k);
        EditKeeps(e, Addr(i, k), SlotPlen(i, k), SlotVport(i, k));
      }
    }

    /** The part of a /24 before the addresses of `p`. */
    lemma EditLeadIn(i: nat, e: Edit)
      requires e.Ok() && First(e.p) <= i < First(e.p) + Span(e.p) && i < SLOTS
      requires Base() && Mixed(e, Addr(i, 0))
      ensures SecFirst(e.p) + SecSpan(e.p) <= 256 && Mixed(e, Addr(i, SecFirst(e.p)))
    {
      Extent(e.p, i, 0);
      forall j | 0 <= j < SecFirst(e.p)
        ensures !Contains(e.p, Addr(i, j))
      {
        Extent(e.p, i, j);
      }
      EditMoves(e, i, 0, SecFirst(e.p));
    }

    /** And the part after them. */
    lemma EditLeadOut(i: nat, from: nat, e: Edit)
      requires e.Ok() && First(e.p) <= i < First(e.p) + Span(e.p) && i < SLOTS
      requires SecFirst(e.p) + SecSpan(e.p) <= from <= 256 && Base() && Mixed(e, Addr(i, from))
      ensures Mixed(e, Addr(i + 1, 0))
    {
      forall j | from <= j < 256
        ensures !Contains(e.p, Addr(i, j))
      {
        Extent(e.p, i, j);
      }
      EditMoves(e, i, from, 256);
    }

    /** A primary match longer than `p` settles its whole /q: lines 319, 354, 453, 479. */
    lemma EditSkips(e: Edit, i: nat, j: nat)
      requires e.Ok() && i < SLOTS && i !in bad && j < 256 && Base() && Mixed(e, Addr(i, j))
      requires e.p.len < SlotPlen(i, j) <= 24
      ensures i <= OrLow(i, 24 - SlotPlen(i, j)) < SLOTS
      ensures Mixed(e, Addr(OrLow(i, 24 - SlotPlen(i, j)) + 1, 0))
    {
      var q := SlotPlen(i, j);
      var last := OrLow(i, 24 - q);
      Literals();
      OrLowBounds(i, 24 - q, 24);
      assert SlotOk(e.before, i, j);
      forall i', j' | 0 <= i' < SLOTS && i' !in bad && 0 <= j' < 256 && Addr(i, j) <= Addr(i', j') < Addr(last + 1, 0)
        ensures SlotOk(e.after, i', j')
      {
        assert SlotOk(e.before, i', j');
        PrimarySkip(i, q, i', j, j');
        MatchSpreads(e.before, Addr(i, j), q, SlotVport(i, j), Addr(i', j'), SlotPlen(i', j'), SlotVport(i', j'));
        EditKeeps(e, Addr(i', j'), SlotPlen(i', j'), SlotVport(i', j'));
      }
    }

    /** A match longer than `p` inside a block settles its /q: lines 317, 450. */
    lemma BlockSkips(e: Edit, i: nat, j: nat)
      requires e.Ok() && i < SLOTS && i !in bad && j < 256 && Base() && Mixed(e, Addr(i, j))
      requires e.p.len < SlotPlen(i, j) && 24 < SlotPlen(i, j) <= 32
      ensures j <= OrLow(j, 32 - SlotPlen(i, j)) < 256
      ensures Mixed(e, Addr(i, OrLow(j, 32 - SlotPlen(i, j)) + 1))
    {
      var q := SlotPlen(i, j);
      var last := OrLow(j, 32 - q);
      Literals();
      OrLowBounds(j, 32 - q, 8);
      assert SlotOk(e.before, i, j);
      forall i', j' | 0 <= i' < SLOTS && i' !in bad && 0 <= j' < 256 && Addr(i, j) <= Addr(i', j') < Addr(i, last + 1)
        ensures SlotOk(e.after, i', j')
      {
        assert i' == i && SlotOk(e.before, i, j');
        SecondarySkip(i, q, j, j');
        MatchSpreads(e.before, Addr(i, j), q, SlotVport(i, j), Addr(i, j'), SlotPlen(i, j'), SlotVport(i, j'));
        EditKeeps(e, Addr(i, j'), SlotPlen(i, j'), SlotVport(i, j'));
      }
    }

    // ---- what a write to the tables leaves alone

    twostate predicate SameEntry(new i: nat)
      requires old(Shape() && Owned()) && Shape() && Owned() && i < SLOTS
      reads this, tbl, tblPlen, sec, secPlen
    {
      && tbl[i] == old(tbl[i]) && tblPlen[i] == old(tblPlen[i])
      && forall j :: 0 <= j < 256 ==>
           SlotPlen(i, j) == old(SlotPlen(i, j)) && SlotVport(i, j) == old(SlotVport(i, j))
    }

    twostate predicate OnlyBad(new x: int)
      reads this
    {
      bad == old(bad) || (x >= 0 && bad == old(bad) + {x})
    }

    /** Every entry but `x` is as it was; entry `x` has come from `lo` to `hi`. */
    twostate lemma Carry(new x: int, new e: Edit, new lo: int, new hi: int)
      requires old(Shape() && Owned() && Mixed(e, lo)) && Shape() && Owned() && OnlyBad(x)
      requires forall i :: 0 <= i < SLOTS && i != x ==> SameEntry(i)
      requires if x < 0 then lo == hi else 256 * x <= lo <= hi <= 256 * x + 256
      requires forall j :: 0 <= x < SLOTS && x !in bad && 0 <= j < 256 && Addr(x, j) < hi ==> SlotOk(e.after, x, j)
      requires forall j :: 0 <= x < SLOTS && x !in bad && 0 <= j < 256 && Addr(x, j) >= hi ==> SlotOk(e.before, x, j)
      ensures Mixed(e, hi)
    {
      forall i, j | 0 <= i < SLOTS && i !in bad && 0 <= j < 256 && Addr(i, j) < hi
        ensures SlotOk(e.after, i, j)
      {
        if i != x {
          assert SameEntry(i) && old(SlotOk(e.after, i, j));
        }
      }
      forall i, j | 0 <= i < SLOTS && i !in bad && 0 <= j < 256 && Addr(i, j) >= hi
        ensures SlotOk(e.before, i, j)
      {
        if i != x {
          assert SameEntry(i) && old(SlotOk(e.before, i, j));
        }
      }
    }

    twostate lemma CarryDeep(new x: int)
      requires old(Shape() && Owned() && DeepBut(x)) && Shape() && Owned() && OnlyBad(x)
      requires forall i :: 0 <= i < SLOTS && i != x ==> SameEntry(i)
      ensures DeepBut(x)
    {
      forall i | 0 <= i < SLOTS && i !in bad && i != x
        ensures DeepEntry(i)
      {
        assert SameEntry(i) && old(DeepEntry(i));
        if tbl[i] >= FLAG {
          var d: nat :| d < 256 && old(SlotPlen(i, d)) > 24;
          assert SlotPlen(i, d) > 24;
        }
      }
    }

    twostate predicate SameFields()
      reads this
    {
      && secSize == old(secSize) && emptyHead == old(emptyHead)
      && owner == old(owner) && free == old(free) && bad == old(bad)
    }

    /** Only primary entry `x` was written, and it names no block either way. */
    twostate lemma PrimaryFrame(new x: nat)
      requires x < SLOTS && old(Base()) && SameFields() && old(tbl[x]) < FLAG && tbl[x] < FLAG
      requires forall k :: 0 <= k < SLOTS && k != x ==> tbl[k] == old(tbl[k]) && tblPlen[k] == old(tblPlen[k])
      requires forall k :: 0 <= k < secCapacity ==> sec[k] == old(sec[k]) && secPlen[k] == old(secPlen[k])
      ensures Base() && (old(NoLeak()) ==> NoLeak())
      ensures forall i :: 0 <= i < SLOTS && i != x ==> SameEntry(i)
    {
      assert Owned();
      if old(NoLeak()) {
        forall b | 0 <= b < |owner| && 256 * b < secSize
          ensures Held(b)
        {
          assert old(Held(b));
        }
      }
      forall k | 0 <= k < |free|
        ensures FreeLink(k)
      {
        assert old(FreeLink(k));
      }
    }

    /** Only block `b` was written; nothing but entry `x` may name it. */
    twostate lemma BlockFrame(new b: nat, new x: int)
      requires old(Base()) && SameFields() && 256 * b < secSize && owner[b] == x && b !in free
      requires forall k :: 0 <= k < SLOTS ==> tbl[k] == old(tbl[k]) && tblPlen[k] == old(tblPlen[k])
      requires forall k :: 0 <= k < secCapacity && !(256 * b <= k < 256 * b + 256) ==>
        sec[k] == old(sec[k]) && secPlen[k] == old(secPlen[k])
      ensures Base() && (old(NoLeak()) ==> NoLeak())
      ensures forall i :: 0 <= i < SLOTS && i != x ==> SameEntry(i)
    {
      assert Owned();
      if old(NoLeak()) {
        forall c | 0 <= c < |owner| && 256 * c < secSize
          ensures Held(c)
        {
          assert old(Held(c));
        }
      }
      forall k | 0 <= k < |free|
        ensures FreeLink(k)
      {
        assert old(FreeLink(k)) && free[k] in free;
      }
      forall i | 0 <= i < SLOTS && i != x
        ensures SameEntry(i)
      {
        if tbl[i] >= FLAG {
          assert owner[tbl[i] - FLAG] == i;
        }
      }
    }

    lemma OwnedNotFree(i: nat)
      requires Base() && i < SLOTS && tbl[i] >= FLAG
      ensures owner[tbl[i] - FLAG] == i && tbl[i] - FLAG !in free && 256 * (tbl[i] - FLAG) + 256 <= secSize
    {
    }

    /** A primary entry without a block speaks for all of its 256 addresses. */
    lemma DirectCovered(i: nat, e: Edit)
      requires e.Ok() && First(e.p) <= i < First(e.p) + Span(e.p) && i < SLOTS && i !in bad && e.p.len <= 24
      requires Base() && Mixed(e, Addr(i, 0)) && tbl[i] < FLAG
      ensures forall j :: 0 <= j < 256 ==>
        Contains(e.p, Addr(i, j)) && Agrees(e.before, Addr(i, j), tblPlen[i], tbl[i])
    {
      forall j | 0 <= j < 256
        ensures Contains(e.p, Addr(i, j)) && Agrees(e.before, Addr(i, j), tblPlen[i], tbl[i])
      {
        Extent(e.p, i, j);
        assert SlotOk(e.before, i, j);
      }
    }

    /** One store into a primary entry that names no block. */
    method SetDirect(i: nat, v: nat, q: nat)
      requires Base() && i < SLOTS && tbl[i] < FLAG && v < FLAG
      modifies tbl, tblPlen
      ensures Base() && (old(NoLeak()) ==> NoLeak())
      ensures tbl[i] == v && tblPlen[i] == q
      ensures forall k :: 0 <= k < SLOTS && k != i ==> tbl[k] == old(tbl[k]) && tblPlen[k] == old(tblPlen[k])
      ensures forall k :: 0 <= k < SLOTS && k != i ==> SameEntry(k)
    {
      tbl[i] := v;
      tblPlen[i] := q;
      PrimaryFrame(i);
    }

    // ---- adding a route

    /** Lines 329-361: one primary entry without a block. */
    method AddDirect(i: nat, p: Prefix, v: nat, allow: bool, ghost e: Edit) returns (next: nat, ok: bool)
      requires e.Ok() && p == e.p && First(p) <= i < First(p) + Span(p) && i < SLOTS && i !in bad && p.len <= 24
      requires Loop(e, Addr(i, 0)) && NoLeak() && tbl[i] < FLAG && v < FLAG
      requires p in e.after && e.after[p] == v && (p in e.before ==> allow)
      modifies tbl, tblPlen
      ensures ok && i <= next < SLOTS && Loop(e, Addr(next + 1, 0)) && NoLeak()
    {
      next, ok := i, true;
      assert DeepEntry(i);
      DirectCovered(i, e);
      if p.len < tblPlen[i] {
        EditSkips(e, i, 0);
        next := OrLow(i, 24 - tblPlen[i]);
        return;
      }
      forall j | 0 <= j < 256
        ensures Agrees(e.after, Addr(i, j), p.len, v)
      {
        AddSets(e, Addr(i, j), tblPlen[i], tbl[i]);
      }
      assert At(Addr(i, 0), p.len) == p;
      if p.len > tblPlen[i] || allow {
        SetDirect(i, v, p.len);
      } else {
        ok := false;
      }
      Carry(i, e, Addr(i, 0), Addr(i + 1, 0));
      CarryDeep(i);
    }

    /** One store into a block that is in use. */
    method SetCell(i: nat, j: nat, v: nat, q: nat)
      requires Base() && i < SLOTS && j < 256 && tbl[i] >= FLAG
      modifies sec, secPlen
      ensures Base() && (old(NoLeak()) ==> NoLeak())
      ensures SlotVport(i, j) == v && SlotPlen(i, j) == q
      ensures forall k :: 0 <= k < SLOTS && k != i ==> SameEntry(k)
      ensures forall k :: 0 <= k < 256 && k != j ==>
        SlotPlen(i, k) == old(SlotPlen(i, k)) && SlotVport(i, k) == old(SlotVport(i, k))
    {
      OwnedNotFree(i);
      sec[256 * (tbl[i] - FLAG) + j] := v;
      secPlen[256 * (tbl[i] - FLAG) + j] := q;
      BlockFrame(tbl[i] - FLAG, i);
    }

    /** Lines 311-327: one entry that `p` is to take over. */
    method AddCell(i: nat, j: nat, p: Prefix, v: nat, allow: bool, ghost e: Edit) returns (ok: bool)
      requires e.Ok() && p == e.p && i < SLOTS && i !in bad && j < 256 && Contains(p, Addr(i, j))
      requires Loop(e, Addr(i, j)) && NoLeak() && tbl[i] >= FLAG && v < FLAG && SlotPlen(i, j) <= p.len
      requires p in e.after && e.after[p] == v && (p in e.before ==> allow)
      modifies sec, secPlen
      ensures ok && Loop(e, Addr(i, j + 1)) && NoLeak()
    {
      var q := secPlen[256 * (tbl[i] - FLAG) + j];
      AddSetsSlot(i, j, e);
      ghost var d := DeepWitness(i);
      ok := true;
      if p.len > q || allow {
        SetCell(i, j, v, p.len);
      } else {
        ok := false;
      }
      CellCarry(i, j, e);
      CarryDeep(i);
      assert SlotPlen(i, d) > 24;
    }

    lemma AddSetsSlot(i: nat, j: nat, e: Edit)
      requires e.Ok() && e.p in e.after && i < SLOTS && i !in bad && j < 256 && Contains(e.p, Addr(i, j))
      requires Base() && Mixed(e, Addr(i, j)) && SlotPlen(i, j) <= e.p.len
      ensures Agrees(e.after, Addr(i, j), e.p.len, e.after[e.p])
      ensures SlotPlen(i, j) == e.p.len ==> e.p in e.before
    {
      assert SlotOk(e.before, i, j);
      AddSets(e, Addr(i, j), SlotPlen(i, j), SlotVport(i, j));
      assert At(Addr(i, j), e.p.len) == e.p;
    }

    lemma DeepWitness(i: nat) returns (d: nat)
      requires Base() && DeepBut(-1) && i < SLOTS && i !in bad && tbl[i] >= FLAG
      ensures d < 256 && SlotPlen(i, d) > 24
    {
      assert DeepEntry(i);
      d :| d < 256 && SlotPlen(i, d) > 24;
    }

    /** Entry `j` of the block of `i` is settled and its neighbours are untouched. */
    twostate lemma CellCarry(new i: nat, new j: nat, new e: Edit)
      requires i < SLOTS && j < 256 && i !in bad && old(Base() && Mixed(e, Addr(i, j))) && Base() && bad == old(bad)
      requires forall k :: 0 <= k < SLOTS && k != i ==> SameEntry(k)
      requires forall k :: 0 <= k < 256 && k != j ==>
        SlotPlen(i, k) == old(SlotPlen(i, k)) && SlotVport(i, k) == old(SlotVport(i, k))
      requires SlotOk(e.after, i, j)
      ensures Mixed(e, Addr(i, j + 1))
    {
      forall k | 0 <= k < 256 && Addr(i, k) < Addr(i, j + 1)
        ensures SlotOk(e.after, i, k)
      {
        if k != j {
          assert old(SlotOk(e.after, i, k));
        }
      }
      forall k | 0 <= k < 256 && Addr(i, k) >= Addr(i, j + 1)
        ensures SlotOk(e.before, i, k)
      {
        assert old(SlotOk(e.before, i, k));
      }
      Carry(i, e, Addr(i, j), Addr(i, j + 1));
    }

    /** An address the walk stops at is covered by `p` and holds its old match. */
    lemma Covered(i: nat, j: nat, e: Edit)
      requires e.Ok() && First(e.p) <= i < First(e.p) + Span(e.p) && i < SLOTS && i !in bad
      requires SecFirst(e.p) <= j < SecFirst(e.p) + SecSpan(e.p) && j < 256
      requires Base() && Mixed(e, Addr(i, j))
      ensures Contains(e.p, Addr(i, j)) && SlotOk(e.before, i, j) && SlotPlen(i, j) <= 32
    {
      Extent(e.p, i, j);
    }

    /** Lines 311-327, one turn. Either `j'` is the last entry settled, or `next` the last /24. */
    method AddAt(i: nat, j: nat, p: Prefix, v: nat, allow: bool, ghost e: Edit) returns (j': nat, next: nat, ok: bool)
      requires e.Ok() && p == e.p && First(p) <= i < First(p) + Span(p) && i < SLOTS && i !in bad
      requires SecFirst(p) <= j < SecFirst(p) + SecSpan(p) && j < 256
      requires Loop(e, Addr(i, j)) && NoLeak() && tbl[i] >= FLAG && v < FLAG
      requires p in e.after && e.after[p] == v && (p in e.before ==> allow)
      modifies sec, secPlen
      ensures ok && j <= j' < 256 && i <= next < SLOTS && NoLeak()
      ensures if next == i then Loop(e, Addr(i, j' + 1)) else Loop(e, Addr(next + 1, 0))
    {
      j', next, ok := j, i, true;
      Covered(i, j, e);
      var q := secPlen[256 * (tbl[i] - FLAG) + j];
      if p.len >= q {
        ok := AddCell(i, j, p, v, allow, e);
      } else if q > 24 {
        BlockSkips(e, i, j);
        j' := OrLow(j, 32 - q);
      } else {
        EditSkips(e, i, j);
        next := OrLow(i, 24 - q);
        j' := 255;
      }
    }

    /** Lines 300-328: the entries of one block. Returns the last /24 settled. */
    method AddInBlock(i: nat, p: Prefix, v: nat, allow: bool, ghost e: Edit) returns (next: nat, ok: bool)
      requires e.Ok() && p == e.p && First(p) <= i < First(p) + Span(p) && i < SLOTS && i !in bad
      requires Loop(e, Addr(i, 0)) && NoLeak() && tbl[i] >= FLAG && v < FLAG
      requires p in e.after && e.after[p] == v && (p in e.before ==> allow)
      modifies sec, secPlen
      ensures ok && i <= next < SLOTS && Loop(e, Addr(next + 1, 0)) && NoLeak()
    {
      var j := SecFirst(p);
      EditLeadIn(i, e);
      while j < SecFirst(p) + SecSpan(p)
        invariant SecFirst(p) <= j <= 256
        invariant Loop(e, Addr(i, j)) && NoLeak()
      {
        j, next, ok := AddAt(i, j, p, v, allow, e);
        if !ok || next != i { return; }
        j := j + 1;
      }
      EditLeadOut(i, j, e);
      return i, true;
    }

    // ---- giving a /24 its first block

    /** What lines 342-345 put at offset `j` of the new block. */
    ghost predicate Filled(b: nat, i: nat, j: nat, p: Prefix, v: nat)
      requires Shape() && i < SLOTS && j < 256 && 256 * b + 256 <= secCapacity && p.len <= 32
      reads this, tbl, tblPlen, sec, secPlen
    {
      if SecFirst(p) <= j < SecFirst(p) + SecSpan(p)
      then sec[256 * b + j] == v && secPlen[256 * b + j] == p.len
      else sec[256 * b + j] == tbl[i] && secPlen[256 * b + j] == tblPlen[i]
    }

    /** A block on no list and under no entry. */
    ghost predicate Spare(b: nat)
      requires Base()
      reads this, tbl, sec
    {
      256 * b + 256 <= secSize && owner[b] == -1 && b !in free
    }

    lemma PopFree()
      requires Base() && emptyHead < FLAG
      ensures free != [] && free[0] == emptyHead && emptyHead !in free[1..]
      ensures 256 * emptyHead + 256 <= secSize && owner[emptyHead] == -1
      ensures sec[256 * emptyHead] == FreeAt(1)
    {
      assert FreeLink(0);
    }

    /** Line 335: the block at the head of the list, off the list. */
    method TakeBlock() returns (b: nat)
      requires Base() && emptyHead < FLAG
      modifies this`emptyHead, this`free
      ensures Base() && Spare(b) && old(free) == [b] + free
      ensures forall k :: 0 <= k < SLOTS ==> SameEntry(k)
    {
      b := emptyHead;
      PopFree();
      label L:
      emptyHead := sec[256 * b];
      free := free[1..];
      forall k | 0 <= k < |free|
        ensures 256 * free[k] < secSize && owner[free[k]] == -1 && FreeLink(k)
      {
        assert free[k] == old@L(free)[k + 1];
        assert old@L(FreeLink(k + 1));
      }
    }

    /** Lines 339-345: one entry of the new block. */
    method FillCell(i: nat, b: nat, j: nat, p: Prefix, v: nat)
      requires p.len > 24 && Canonical(p) && i < SLOTS && j < 256
      requires Shape() && 256 * b + 256 <= secCapacity
      modifies sec, secPlen
      ensures Filled(b, i, j, p, v)
      ensures forall k :: 0 <= k < 256 && k != j && old(Filled(b, i, k, p, v)) ==> Filled(b, i, k, p, v)
      ensures forall k :: 0 <= k < secCapacity && !(256 * b <= k < 256 * b + 256) ==>
        sec[k] == old(sec[k]) && secPlen[k] == old(secPlen[k])
    {
      var secStart := p.addr % 256;
      var secEnd := secStart + Pow2(32 - p.len);
      if secStart <= j < secEnd {
        sec[256 * b + j] := v;
        secPlen[256 * b + j] := p.len;
      } else {
        sec[256 * b + j] := tbl[i];
        secPlen[256 * b + j] := tblPlen[i];
      }
    }

    /** Lines 338-346: the new block copies its entry, but for the addresses of `p`. */
    method FillBlock(i: nat, b: nat, p: Prefix, v: nat)
      requires p.len > 24 && Canonical(p) && i < SLOTS
      requires Base() && tbl[i] < FLAG && Spare(b)
      modifies sec, secPlen
      ensures Base() && Spare(b)
      ensures forall j :: 0 <= j < 256 ==> Filled(b, i, j, p, v)
      ensures forall k :: 0 <= k < SLOTS ==> SameEntry(k)
    {
      var j := 0;
      while j < 256
        invariant 0 <= j <= 256
        invariant forall k :: 0 <= k < secCapacity && !(256 * b <= k < 256 * b + 256) ==>
          sec[k] == old(sec[k]) && secPlen[k] == old(secPlen[k])
        invariant forall k :: 0 <= k < j ==> Filled(b, i, k, p, v)
      {
        FillCell(i, b, j, p, v);
        j := j + 1;
      }
      BlockFrame(b, -1);
    }

    /** Line 347. */
    method SetHook(i: nat, b: nat)
      requires Base() && Spare(b) && i < SLOTS && tbl[i] < FLAG
      modifies this`owner, tbl
      ensures Base() && owner == old(owner)[b := i] && tbl[i] == FLAG + b
      ensures forall k :: 0 <= k < SLOTS && k != i ==> SameEntry(k)
    {
      label L:
      tbl[i] := FLAG + b;
      owner := owner[b := i];
      forall k | 0 <= k < |free|
        ensures free[k] != b && FreeLink(k)
      {
        assert old@L(FreeLink(k)) && free[k] in free;
      }
    }

    twostate lemma HookedSlot(new i: nat, new b: nat, new v: nat, new j: nat, new e: Edit)
      requires e.Ok() && e.p.len > 24 && i == First(e.p) && i < SLOTS && j < 256
      requires e.p in e.after && e.after[e.p] == v
      requires old(Base() && tbl[i] < FLAG && tblPlen[i] <= 24 && SlotOk(e.before, i, j))
      requires Shape() && Owned() && tbl[i] == FLAG + b && 256 * b + 256 <= secSize
      requires old(Filled(b, i, j, e.p, v))
      requires sec[256 * b + j] == old(sec[256 * b + j]) && secPlen[256 * b + j] == old(secPlen[256 * b + j])
      ensures SlotOk(e.after, i, j) && (j == SecFirst(e.p) ==> SlotPlen(i, j) > 24)
    {
      Extent(e.p, i, j);
      if SecFirst(e.p) <= j < SecFirst(e.p) + SecSpan(e.p) {
        AddSets(e, Addr(i, j), old(tblPlen[i]), old(tbl[i]));
      } else {
        EditKeeps(e, Addr(i, j), old(tblPlen[i]), old(tbl[i]));
      }
    }

    /** The filled block takes its place: the /24 is settled. */
    method HookBlock(i: nat, b: nat, p: Prefix, v: nat, ghost e: Edit)
      requires e.Ok() && p == e.p && p.len > 24 && i == First(p) && i < SLOTS && i !in bad
      requires Loop(e, Addr(i, 0)) && Spare(b) && tbl[i] < FLAG
      requires p in e.after && e.after[p] == v
      requires forall j :: 0 <= j < 256 ==> Filled(b, i, j, p, v)
      modifies this`owner, tbl
      ensures owner == old(owner)[b := i] && tbl[i] == FLAG + b
      ensures forall k :: 0 <= k < SLOTS && k != i ==> tbl[k] == old(tbl[k])
      ensures Loop(e, Addr(i + 1, 0))
    {
      assert DeepEntry(i);
      label L:
      SetHook(i, b);
      forall j | 0 <= j < 256
        ensures SlotOk(e.after, i, j) && (j == SecFirst(p) ==> SlotPlen(i, j) > 24)
      {
        assert old@L(SlotOk(e.before, i, j)) && old@L(Filled(b, i, j, p, v));
        HookedSlot@L(i, b, v, j, e);
      }
      Carry@L(i, e, Addr(i, 0), Addr(i + 1, 0));
      CarryDeep@L(i);
      Extent(p, i, 0);
      assert SlotPlen(i, SecFirst(p)) > 24;
      forall k | 0 <= k < SLOTS && k != i
        ensures tbl[k] == old(tbl[k])
      {
        assert SameEntry@L(k);
      }
    }

    /** Lines 331-347: a /24 without a block receives a route longer than /24. */
    method AddFirst(i: nat, p: Prefix, v: nat, ghost e: Edit)
      requires e.Ok() && p == e.p && p.len > 24 && i == First(p) && i < SLOTS && i !in bad
      requires Loop(e, Addr(i, 0)) && NoLeak() && tbl[i] < FLAG && v < FLAG && emptyHead < FLAG
      requires p in e.after && e.after[p] == v
      modifies this`emptyHead, this`free, this`owner, tbl, sec, secPlen
      ensures Loop(e, Addr(i + 1, 0)) && NoLeak()
    {
      label S:
      var b := TakeBlock();
      Carry@S(-1, e, Addr(i, 0), Addr(i, 0));
      CarryDeep@S(-1);
      label T:
      FillBlock(i, b, p, v);
      Carry@T(-1, e, Addr(i, 0), Addr(i, 0));
      CarryDeep@T(-1);
      HookBlock(i, b, p, v, e);
      HookedNoLeak@S(i, b);
    }

    twostate lemma HookedNoLeak(new i: nat, new b: nat)
      requires old(Base() && NoLeak()) && Base() && i < SLOTS && b < |owner|
      requires secSize == old(secSize) && old(free) == [b] + free && owner == old(owner)[b := i]
      requires old(tbl[i]) < FLAG && tbl[i] == FLAG + b
      requires forall k :: 0 <= k < SLOTS && k != i ==> tbl[k] == old(tbl[k])
      ensures NoLeak()
    {
      forall c | 0 <= c < |owner| && 256 * c < secSize
        ensures Held(c)
      {
        assert old(Held(c));
      }
    }

    /** Lines 243-265: a free block is at hand whenever the walk will need one. */
    method EnsureBlock(p: Prefix, ghost rt: map<Prefix, nat>) returns (ok: bool)
      requires Valid(rt) && AllCanonical(rt) && Canonical(p) && First(p) < SLOTS
      modifies this`secSize, this`emptyHead, this`free, sec
      ensures Valid(rt) && First(p) < SLOTS && secSize <= old(secSize) + 256
      ensures ok ==> p.len > 24 && tbl[First(p)] < FLAG ==> emptyHead < FLAG
      ensures ok <==> (p.len > 24 && p !in rt ==> 256 * |Deep(rt) + {First(p)}| <= secCapacity)
      ensures !ok ==> old(secSize) == secCapacity
    {
      Extent(p, 0, 0);
      if p.len > 24 && tbl[p.addr / 256] < FLAG && emptyHead >= FLAG {
        NoFree();
        if secSize == secCapacity {
          NoneSpare(p, rt);
          return false;
        }
        CarveBlock(rt);
      }
      if p.len > 24 {
        OneSpare(p, rt);
      }
      return true;
    }

    lemma NoFree()
      requires Base() && emptyHead >= FLAG
      ensures free == []
    {
    }

    /** With every block in use, a /24 without one cannot be given one. */
    lemma NoneSpare(p: Prefix, rt: map<Prefix, nat>)
      requires Valid(rt) && AllCanonical(rt) && Canonical(p) && p.len > 24 && First(p) < SLOTS && tbl[First(p)] < FLAG
      requires secSize == secCapacity && free == []
      ensures p !in rt && 256 * |Deep(rt) + {First(p)}| > secCapacity
    {
      if p in rt { LongHasBlock(p, rt); }
      DeepFits(rt);
      BlocksAreDeep(rt);
      assert First(p) !in Blocks();
    }

    /** With a free block, or one of its own, a /24 is not one too many. */
    lemma OneSpare(p: Prefix, rt: map<Prefix, nat>)
      requires Valid(rt) && AllCanonical(rt) && First(p) < SLOTS && (tbl[First(p)] >= FLAG || emptyHead < FLAG)
      ensures 256 * |Deep(rt) + {First(p)}| <= secCapacity
    {
      BlocksAreDeep(rt);
      BlocksCounted();
      if tbl[First(p)] >= FLAG {
        assert Deep(rt) + {First(p)} == Deep(rt);
      } else {
        assert free != [];
      }
    }

    /** A live route longer than /24 has given its /24 a block. */
    lemma LongHasBlock(p: Prefix, rt: map<Prefix, nat>)
      requires Valid(rt) && Canonical(p) && p in rt && p.len > 24
      ensures First(p) < SLOTS && tbl[First(p)] >= FLAG
    {
      Extent(p, First(p), SecFirst(p));
      assert SlotOk(rt, First(p), SecFirst(p)) && DeepEntry(First(p));
      assert At(Addr(First(p), SecFirst(p)), p.len) == p;
    }

    /** Lines 262-264. */
    method CarveBlock(ghost rt: map<Prefix, nat>)
      requires Valid(rt) && free == [] && secSize < secCapacity
      modifies this`secSize, this`emptyHead, this`free, sec
      ensures Valid(rt) && emptyHead < FLAG && secSize == old(secSize) + 256
    {
      emptyHead := secSize / 256;
      sec[256 * emptyHead] := FLAG;
      secSize := secSize + 256;
      free := [emptyHead];
      Carved(emptyHead);
      ghost var e := Edit(Prefix(0, 0), rt, rt);
      CarvedSlots(e);
    }

    twostate lemma Carved(new b: nat)
      requires old(Base() && NoLeak()) && Shape() && old(free) == [] && secSize == old(secSize) + 256 <= secCapacity
      requires 256 * b == old(secSize) && emptyHead == b && free == [b] && owner == old(owner) && sec[256 * b] == FLAG
      requires forall k :: 0 <= k < SLOTS ==> tbl[k] == old(tbl[k]) && tblPlen[k] == old(tblPlen[k])
      requires forall k :: 0 <= k < secCapacity && k != 256 * b ==> sec[k] == old(sec[k])
      requires forall k :: 0 <= k < secCapacity ==> secPlen[k] == old(secPlen[k])
      ensures Base() && NoLeak()
      ensures forall k :: 0 <= k < SLOTS ==> SameEntry(k)
    {
      assert Owned();
      assert FreeLink(0);
      forall c | 0 <= c < |owner| && 256 * c < secSize
        ensures Held(c)
      {
        assert c != b ==> old(Held(c));
        if c == b {
          assert free[0] == b;
        }
      }
    }

    twostate lemma CarvedSlots(new e: Edit)
      requires e.before == e.after && old(Valid(e.before)) && Base() && NoLeak() && bad == old(bad)
      requires forall k :: 0 <= k < SLOTS ==> SameEntry(k)
      ensures Valid(e.before)
    {
      Carry(-1, e, 0, 0);
      CarryDeep(-1);
      forall i, j | 0 <= i < SLOTS && i !in bad && 0 <= j < 256
        ensures SlotOk(e.before, i, j)
      {
        assert Addr(i, j) >= 0;
      }
    }

    /** Lines 300-361: one turn of the walk, however far it skips. */
    method AddStep(i: nat, p: Prefix, v: nat, allow: bool, ghost e: Edit) returns (next: nat, ok: bool)
      requires e.Ok() && p == e.p && First(p) <= i < First(p) + Span(p) && i < SLOTS && i !in bad && v < FLAG
      requires Loop(e, Addr(i, 0)) && NoLeak()
      requires p in e.after && e.after[p] == v && (p in e.before ==> allow)
      requires p.len > 24 && tbl[i] < FLAG ==> emptyHead < FLAG
      modifies this`emptyHead, this`free, this`owner, tbl, tblPlen, sec, secPlen
      ensures ok && i <= next < SLOTS && Loop(e, Addr(next + 1, 0)) && NoLeak()
    {
      assert DeepEntry(i);
      if tbl[i] >= FLAG {
        next, ok := AddInBlock(i, p, v, allow, e);
      } else if p.len > 24 && p.len > tblPlen[i] {
        AddFirst(i, p, v, e);
        next, ok := i, true;
      } else {
        next, ok := AddDirect(i, p, v, allow, e);
      }
    }

    /** Lines 299-364: the walk that writes a new or replaced route in. */
    method AddWalk(p: Prefix, v: nat, allow: bool, ghost e: Edit) returns (ok: bool)
      requires e.Ok() && p == e.p && Valid(e.before) && v < FLAG
      requires p in e.after && e.after[p] == v && (p in e.before ==> allow)
      requires First(p) < SLOTS && (p.len > 24 && tbl[First(p)] < FLAG ==> emptyHead < FLAG)
      modifies this`emptyHead, this`free, this`owner, tbl, tblPlen, sec, secPlen
      ensures ok && Valid(e.after)
    {
      var i := p.addr / 256;
      EditEnters(e);
      Extent(p, 0, 0);
      while i < First(p) + Span(p)
        invariant First(p) <= i <= SLOTS && bad == {}
        invariant Loop(e, Addr(i, 0)) && NoLeak()
        invariant i == First(p) && p.len > 24 && tbl[i] < FLAG ==> emptyHead < FLAG
      {
        i, ok := AddStep(i, p, v, allow, e);
        if !ok { return; }
        i := i + 1;
      }
      EditLeaves(e, Addr(i, 0));
      return true;
    }

    // ---- removing a route

    /** Lines 474-480: one primary entry without a block. */
    method RemoveDirect(i: nat, p: Prefix, m: nat, v: nat, ghost e: Edit) returns (next: nat)
      requires e.Ok() && p == e.p && First(p) <= i < First(p) + Span(p) && i < SLOTS && i !in bad && p.len <= 24
      requires Loop(e, Addr(i, 0)) && NoLeak() && tbl[i] < FLAG && v < FLAG
      requires p in e.before && p !in e.after && Cover(e.after, p, m) && e.after[At(p.addr, m)] == v
      modifies tbl, tblPlen
      ensures i <= next < SLOTS && Loop(e, Addr(next + 1, 0)) && NoLeak() && Jumps(e.after, p, i, next)
      ensures forall k :: 0 <= k < SLOTS && k != i ==> tbl[k] == old(tbl[k]) && tblPlen[k] == old(tblPlen[k])
    {
      next := i;
      assert DeepEntry(i);
      DirectJump(i, e);
      DirectCovered(i, e);
      assert At(Addr(i, 0), p.len) == p;
      if p.len == tblPlen[i] {
        forall j | 0 <= j < 256
          ensures Agrees(e.after, Addr(i, j), m, v)
        {
          RemoveSets(e, m, Addr(i, j), tbl[i]);
        }
        SetDirect(i, v, m);
        Carry(i, e, Addr(i, 0), Addr(i + 1, 0));
        CarryDeep(i);
      } else if p.len < tblPlen[i] {
        EditSkips(e, i, 0);
        next := OrLow(i, 24 - tblPlen[i]);
      }
    }

    /** The match a primary entry without a block makes the walk jump by. */
    lemma DirectJump(i: nat, e: Edit)
      requires e.Ok() && i < SLOTS && i !in bad && Base() && Mixed(e, Addr(i, 0)) && tbl[i] < FLAG && tblPlen[i] <= 24
      ensures if e.p.len < tblPlen[i] then Jumps(e.after, e.p, i, OrLow(i, 24 - tblPlen[i])) else Jumps(e.after, e.p, i, i)
    {
      var q := tblPlen[i];
      assert SlotOk(e.before, i, 0);
      if e.p.len < q {
        assert Longest(e.after, Addr(i, 0), q);
        JumpTo(e.after, e.p, i, q);
      } else {
        forall j, q' | 0 <= j < 256 && e.p.len < q' <= 24
          ensures !Longest(e.after, Addr(i, j), q')
        {
          assert SlotOk(e.before, i, j);
        }
      }
    }

    /** Lines 444-446: one entry of a block falls back to the covering route. */
    method RemoveCell(i: nat, j: nat, p: Prefix, m: nat, v: nat, ghost e: Edit)
      requires e.Ok() && p == e.p && i < SLOTS && i !in bad && j < 256 && Contains(p, Addr(i, j))
      requires Base() && NoLeak() && DeepBut(i) && Mixed(e, Addr(i, j)) && tbl[i] >= FLAG && SlotPlen(i, j) == p.len
      requires p !in e.after && Cover(e.after, p, m) && e.after[At(p.addr, m)] == v
      modifies sec, secPlen
      ensures Base() && NoLeak() && DeepBut(i) && Mixed(e, Addr(i, j + 1))
      ensures forall d :: 0 <= d < 256 && d != j ==> SlotPlen(i, d) == old(SlotPlen(i, d))
    {
      assert SlotOk(e.before, i, j);
      RemoveSets(e, m, Addr(i, j), SlotVport(i, j));
      SetCell(i, j, v, m);
      CellCarry(i, j, e);
      CarryDeep(i);
    }

    /** A route still in the map is matched, or beaten, wherever it reaches. */
    lemma AtLeast(i: nat, j: nat, e: Edit)
      requires e.Ok() && e.p in e.before && i < SLOTS && i !in bad && j < 256 && Contains(e.p, Addr(i, j))
      requires Base() && Mixed(e, Addr(i, j))
      ensures SlotPlen(i, j) >= e.p.len
    {
      assert SlotOk(e.before, i, j);
      assert At(Addr(i, j), e.p.len) == e.p;
    }

    /** The block has entries both longer than /24 and not. */
    ghost predicate Uneven(i: nat)
      requires Base() && i < SLOTS
      reads this, tbl, tblPlen, sec, secPlen
    {
      exists d: nat, d': nat :: d < 256 && d' < 256 && SlotPlen(i, d) > 24 && SlotPlen(i, d') <= 24
    }

    /** No address of the /24 before `j` has a longest match that makes the walk jump. */
    ghost predicate NoJump(rt: map<Prefix, nat>, p: Prefix, i: nat, j: nat) {
      forall d, q :: 0 <= d < j && d < 256 && p.len < q < 24 ==> !Longest(rt, Addr(i, d), q)
    }

    /** At the end of the block. */
    lemma BlockStays(rt: map<Prefix, nat>, p: Prefix, i: nat, j: nat)
      requires i < SLOTS && p.len <= 32 && j >= SecFirst(p) + SecSpan(p) && (NoJump(rt, p, i, j) || Jumps(rt, p, i, i))
      ensures Jumps(rt, p, i, i)
    {
      if NoJump(rt, p, i, j) {
        forall q: nat | ShortMatch(rt, p, i, q)
          ensures q == 24
        {
          var d :| 0 <= d < 256 && Longest(rt, Addr(i, d), q);
        }
      }
    }

    /** Where an entry of length `q` lets the walk pass to within the block, and which /24 it makes it go to. */
    static function PassTo(p: Prefix, q: nat, j: nat): nat
      requires q <= 32
    {
      if q == p.len then j else if q <= 24 then 255 else OrLow(j, 32 - q)
    }

    static function GoTo(p: Prefix, q: nat, i: nat): nat {
      if p.len < q <= 24 then OrLow(i, 24 - q) else i
    }

    ghost predicate Onward(rt: map<Prefix, nat>, p: Prefix, i: nat, j': nat, next: nat) {
      (next == i && NoJump(rt, p, i, j' + 1)) || (j' == 255 && Jumps(rt, p, i, next))
    }

    lemma BlockJump(i: nat, j: nat, e: Edit)
      requires e.Ok() && i < SLOTS && i !in bad && j < 256 && Base() && Mixed(e, Addr(i, j)) && NoJump(e.after, e.p, i, j)
      requires e.p.len <= SlotPlen(i, j) <= 32
      ensures Onward(e.after, e.p, i, PassTo(e.p, SlotPlen(i, j), j), GoTo(e.p, SlotPlen(i, j), i))
    {
      var q := SlotPlen(i, j);
      assert SlotOk(e.before, i, j);
      if e.p.len < q < 24 {
        assert Longest(e.after, Addr(i, j), q);
        JumpTo(e.after, e.p, i, q);
      } else {
        forall d, q' | j <= d <= PassTo(e.p, q, j) && d < 256 && e.p.len < q' < 24
          ensures !Longest(e.after, Addr(i, d), q')
        {
          SameMatch(i, j, d, q, e);
        }
      }
    }

    lemma SameMatch(i: nat, j: nat, d: nat, q: nat, e: Edit)
      requires e.Ok() && i < SLOTS && j <= d < 256 && Longest(e.before, Addr(i, j), q)
      requires if q == e.p.len then d == j else e.p.len < q && q >= 24 && (q == 24 || d <= OrLow(j, 32 - q))
      ensures forall q' :: e.p.len < q' < 24 ==> !Longest(e.after, Addr(i, d), q')
    {
      if q == e.p.len {
      } else {
        if q == 24 {
          SameBlock(i, q, j, d);
        } else {
          SecondarySkip(i, q, j, d);
        }
        assert At(Addr(i, d), q) == At(Addr(i, j), q);
        assert At(Addr(i, d), q) in e.after;
      }
    }

    /** Lines 443-459: one turn. Either `j'` is the last entry settled, or `next` the last /24. */
    method RemoveAt(i: nat, j: nat, p: Prefix, m: nat, v: nat, ghost e: Edit, ghost d: nat)
      returns (j': nat, next: nat, ok: bool)
      requires e.Ok() && p == e.p && First(p) <= i < First(p) + Span(p) && i < SLOTS && i !in bad
      requires SecFirst(p) <= j < SecFirst(p) + SecSpan(p) && j < 256
      requires Base() && NoLeak() && DeepBut(i) && Mixed(e, Addr(i, j)) && tbl[i] >= FLAG
      requires p in e.before && p !in e.after && Cover(e.after, p, m) && e.after[At(p.addr, m)] == v
      requires d < 256 && (p.len <= 24 ==> SlotPlen(i, d) > 24)
      modifies sec, secPlen
      ensures ok && j <= j' < 256 && i <= next < SLOTS
      ensures Base() && NoLeak() && DeepBut(i) && (p.len <= 24 ==> SlotPlen(i, d) > 24)
      ensures if next == i then Mixed(e, Addr(i, j' + 1)) else Mixed(e, Addr(next + 1, 0)) && Uneven(i)
      ensures p.len <= old(SlotPlen(i, j)) <= 32
      ensures j' == PassTo(p, old(SlotPlen(i, j)), j) && next == GoTo(p, old(SlotPlen(i, j)), i)
    {
      j', next, ok := j, i, true;
      Covered(i, j, e);
      AtLeast(i, j, e);
      var q := secPlen[256 * (tbl[i] - FLAG) + j];
      if p.len == q {
        RemoveCell(i, j, p, m, v, e);
      } else if p.len < q {
        if q > 24 {
          BlockSkips(e, i, j);
          j' := OrLow(j, 32 - q);
        } else {
          EditSkips(e, i, j);
          next := OrLow(i, 24 - q);
          j' := 255;
          assert SlotPlen(i, j) <= 24;
        }
      } else {
        ok := false;
      }
    }

    /** ... and how that tells on the walk. */
    method RemoveEntry(i: nat, j: nat, p: Prefix, m: nat, v: nat, ghost e: Edit, ghost d: nat)
      returns (j': nat, next: nat, ok: bool)
      requires e.Ok() && p == e.p && First(p) <= i < First(p) + Span(p) && i < SLOTS && i !in bad
      requires SecFirst(p) <= j < SecFirst(p) + SecSpan(p) && j < 256
      requires Base() && NoLeak() && DeepBut(i) && Mixed(e, Addr(i, j)) && tbl[i] >= FLAG
      requires p in e.before && p !in e.after && Cover(e.after, p, m) && e.after[At(p.addr, m)] == v
      requires d < 256 && (p.len <= 24 ==> SlotPlen(i, d) > 24) && NoJump(e.after, p, i, j)
      modifies sec, secPlen
      ensures ok && j <= j' < 256 && i <= next < SLOTS
      ensures Base() && NoLeak() && DeepBut(i) && (p.len <= 24 ==> SlotPlen(i, d) > 24)
      ensures if next == i then Mixed(e, Addr(i, j' + 1)) else Mixed(e, Addr(next + 1, 0)) && Uneven(i)
      ensures Onward(e.after, p, i, j', next)
    {
      Covered(i, j, e);
      AtLeast(i, j, e);
      assert SlotOk(e.before, i, j);
      BlockJump(i, j, e);
      j', next, ok := RemoveAt(i, j, p, m, v, e, d);
    }

    /** Lines 443-460: the entries of one block. */
    method RemoveInBlock(i: nat, p: Prefix, m: nat, v: nat, ghost e: Edit) returns (next: nat, ok: bool)
      requires e.Ok() && p == e.p && First(p) <= i < First(p) + Span(p) && i < SLOTS && i !in bad
      requires Loop(e, Addr(i, 0)) && NoLeak() && tbl[i] >= FLAG
      requires p in e.before && p !in e.after && Cover(e.after, p, m) && e.after[At(p.addr, m)] == v
      modifies sec, secPlen
      ensures ok && i <= next < SLOTS
      ensures Base() && NoLeak() && DeepBut(i) && Mixed(e, Addr(next + 1, 0))
      ensures (next != i ==> Uneven(i)) && Jumps(e.after, p, i, next)
    {
      var j := SecFirst(p);
      ghost var d := DeepWitness(i);
      EditLeadIn(i, e);
      while j < SecFirst(p) + SecSpan(p)
        invariant SecFirst(p) <= j <= 256
        invariant Base() && NoLeak() && DeepBut(i) && Mixed(e, Addr(i, j))
        invariant p.len <= 24 ==> SlotPlen(i, d) > 24
        invariant NoJump(e.after, p, i, j) || (j == 256 && Jumps(e.after, p, i, i))
      {
        j, next, ok := RemoveEntry(i, j, p, m, v, e, d);
        if !ok || next != i { return; }
        j := j + 1;
      }
      EditLeadOut(i, j, e);
      BlockStays(e.after, p, i, j);
      return i, true;
    }

    /** All entries of the block of `i` have one length. */
    ghost predicate Even(i: nat)
      requires Base() && i < SLOTS
      reads this, tbl, tblPlen, sec, secPlen
    {
      forall j :: 0 <= j < 256 ==> SlotPlen(i, j) == SlotPlen(i, 0)
    }

    /** All addresses of /24 number `i` are looked up right. */
    ghost predicate Settled(rt: map<Prefix, nat>, i: nat)
      requires Base() && i < SLOTS
      reads this, tbl, tblPlen, sec, secPlen
    {
      forall j :: 0 <= j < 256 ==> SlotOk(rt, i, j)
    }

    /** Lines 462-465: do all entries of the block have one length? */
    method Uniform(i: nat) returns (u: bool)
      requires Base() && i < SLOTS && tbl[i] >= FLAG
      ensures u <==> Even(i)
    {
      var base := 256 * (tbl[i] - FLAG);
      var j := 0;
      while j < 255 && secPlen[base + j] == secPlen[base + j + 1]
        invariant 0 <= j <= 255
        invariant forall k :: 0 <= k <= j ==> SlotPlen(i, k) == SlotPlen(i, 0)
      {
        assert SlotPlen(i, j) == secPlen[base + j];
        assert SlotPlen(i, j + 1) == secPlen[base + j + 1];
        j := j + 1;
      }
      u := j == 255;
      assert !u ==> SlotPlen(i, j + 1) != SlotPlen(i, j);
    }

    /** When no entry is longer than /24, they are all the /24's own match. */
    lemma ShortIsEven(i: nat, rt: map<Prefix, nat>)
      requires Base() && i < SLOTS && Settled(rt, i)
      requires forall j :: 0 <= j < 256 ==> SlotPlen(i, j) <= 24
      ensures Even(i)
    {
      forall j | 0 <= j < 256
        ensures SlotPlen(i, j) == SlotPlen(i, 0)
      {
        assert SlotOk(rt, i, j) && SlotOk(rt, i, 0);
        SameBlock(i, SlotPlen(i, j), j, 0);
        SameBlock(i, SlotPlen(i, 0), 0, j);
        MatchSpreads(rt, Addr(i, j), SlotPlen(i, j), SlotVport(i, j), Addr(i, 0), SlotPlen(i, 0), SlotVport(i, 0));
        MatchSpreads(rt, Addr(i, 0), SlotPlen(i, 0), SlotVport(i, 0), Addr(i, j), SlotPlen(i, j), SlotVport(i, j));
      }
    }

    /** What lines 467-471 write, and nothing else. */
    twostate predicate Freed(new i: nat, new b: nat)
      requires Shape() && i < SLOTS && 256 * b < secCapacity && |old(owner)| > b
      reads this, tbl, tblPlen, sec, secPlen
    {
      && old(tbl[i]) == FLAG + b && tbl[i] == old(sec[256 * b]) && tblPlen[i] == old(secPlen[256 * b])
      && sec[256 * b] == old(emptyHead) && emptyHead == b
      && secSize == old(secSize) && owner == old(owner)[b := -1] && free == [b] + old(free)
      && bad == (if tblPlen[i] > 24 then old(bad) + {i} else old(bad))
      && (forall k :: 0 <= k < SLOTS && k != i ==> tbl[k] == old(tbl[k]) && tblPlen[k] == old(tblPlen[k]))
      && (forall k :: 0 <= k < secCapacity && k != 256 * b ==> sec[k] == old(sec[k]))
      && (forall k :: 0 <= k < secCapacity ==> secPlen[k] == old(secPlen[k]))
    }

    twostate lemma FreedOwned(new i: nat, new b: nat)
      requires old(Base()) && i < SLOTS && 256 * b < secCapacity && |old(owner)| > b && Freed(i, b) && tbl[i] < FLAG
      ensures Owned()
      ensures forall k :: 0 <= k < SLOTS && k != i ==> SameEntry(k)
    {
      forall k | 0 <= k < SLOTS && k != i
        ensures tbl[k] >= FLAG ==> tbl[k] - FLAG != b
      {
        assert old(tbl[k]) == tbl[k];
      }
      assert Owned();
      assert forall k :: 0 <= k < SLOTS && k != i ==> SameEntry(k);
    }

    twostate lemma FreedList(new i: nat, new b: nat)
      requires old(Base()) && i < SLOTS && 256 * b < secSize && |old(owner)| > b && Freed(i, b) && Owned()
      ensures FreeList()
    {
      assert old(tbl[i]) >= FLAG;
      assert b !in old(free);
      forall k | 0 <= k < |free|
        ensures 256 * free[k] < secSize && owner[free[k]] == -1 && FreeLink(k)
      {
        if k > 0 {
          assert free[k] == old(free)[k - 1] && free[k] in old(free);
          assert old(FreeLink(k - 1));
        }
      }
    }

    twostate lemma FreedNoLeak(new i: nat, new b: nat)
      requires old(Base() && NoLeak()) && i < SLOTS && 256 * b < secSize && |old(owner)| > b && Freed(i, b) && Owned()
      ensures NoLeak()
    {
      forall c | 0 <= c < |owner| && 256 * c < secSize
        ensures Held(c)
      {
        assert c != b ==> old(Held(c));
        if c == b {
          assert free[0] == b;
        }
      }
    }

    /** Lines 467-471: the block goes back on the free list. */
    method StoreFreed(i: nat, b: nat)
      requires Shape() && i < SLOTS && 256 * b < secCapacity && |owner| > b && tbl[i] == FLAG + b
      modifies this`emptyHead, this`free, this`owner, this`bad, tbl, tblPlen, sec
      ensures Freed(i, b)
    {
      tbl[i] := sec[256 * b];
      tblPlen[i] := secPlen[256 * b];
      sec[256 * b] := emptyHead;
      emptyHead := b;
      owner := owner[b := -1];
      free := [b] + free;
      bad := if tblPlen[i] > 24 then bad + {i} else bad;
    }

    method FreeBlock(i: nat)
      requires Base() && NoLeak() && i < SLOTS && tbl[i] >= FLAG && SlotVport(i, 0) < FLAG
      modifies this`emptyHead, this`free, this`owner, this`bad, tbl, tblPlen, sec
      ensures Base() && NoLeak()
      ensures bad == if tblPlen[i] > 24 then old(bad) + {i} else old(bad)
      ensures tbl[i] == old(SlotVport(i, 0)) && tblPlen[i] == old(SlotPlen(i, 0))
      ensures forall k :: 0 <= k < SLOTS && k != i ==> SameEntry(k)
    {
      ghost var b := tbl[i] - FLAG;
      StoreFreed(i, tbl[i] - FLAG);
      FreedOwned(i, b);
      FreedList(i, b);
      FreedNoLeak(i, b);
    }

    /** The block of `i` can be replaced by its first entry. */
    ghost predicate Replaceable(rt: map<Prefix, nat>, i: nat)
      requires Base() && i < SLOTS
      reads this, tbl, tblPlen, sec, secPlen
    {
      && SlotOk(rt, i, 0) && SlotVport(i, 0) < FLAG
      && if SlotPlen(i, 0) > 24 then Tiled(rt, i, SlotPlen(i, 0))
         else forall j :: 0 <= j < 256 ==> Agrees(rt, Addr(i, j), SlotPlen(i, 0), SlotVport(i, 0))
    }

    lemma EvenIsReplaceable(i: nat, rt: map<Prefix, nat>)
      requires Base() && i < SLOTS && Settled(rt, i) && Even(i)
      requires forall q <- rt :: rt[q] < FLAG
      ensures Replaceable(rt, i)
      ensures SlotPlen(i, 0) > 24 <==> AnyTiled(rt, i)
    {
      assert SlotOk(rt, i, 0);
      forall j | 0 <= j < 256
        ensures Longest(rt, Addr(i, j), SlotPlen(i, 0))
        ensures SlotPlen(i, 0) <= 24 ==> Agrees(rt, Addr(i, j), SlotPlen(i, 0), SlotVport(i, 0))
      {
        assert SlotOk(rt, i, j);
        if SlotPlen(i, 0) <= 24 {
          SameBlock(i, SlotPlen(i, 0), j, 0);
        }
      }
      if q :| Tiled(rt, i, q) {
        TiledIsEven(i, rt, q);
      }
    }

    lemma TiledIsEven(i: nat, rt: map<Prefix, nat>, q: nat)
      requires Base() && i < SLOTS && Tiled(rt, i, q) && Settled(rt, i)
      ensures Even(i) && SlotPlen(i, 0) == q
    {
      forall j | 0 <= j < 256
        ensures SlotPlen(i, j) == q
      {
        assert SlotOk(rt, i, j) && Longest(rt, Addr(i, j), q);
      }
    }

    lemma NotEven(i: nat, rt: map<Prefix, nat>)
      requires Base() && DeepBut(i) && i < SLOTS && tbl[i] >= FLAG && Settled(rt, i) && !Even(i)
      ensures DeepBut(-1) && !AnyTiled(rt, i)
    {
      if forall j :: 0 <= j < 256 ==> SlotPlen(i, j) <= 24 {
        ShortIsEven(i, rt);
      }
      if AnyTiled(rt, i) {
        var q :| Tiled(rt, i, q);
        TiledIsEven(i, rt, q);
      }
    }

    lemma UnevenNotEven(i: nat)
      requires Base() && i < SLOTS && Uneven(i)
      ensures !Even(i)
    {
    }

    twostate lemma Pruned(new i: nat, new e: Edit)
      requires i < SLOTS && old(Base() && DeepBut(i) && Mixed(e, Addr(i + 1, 0)) && BadOk(e.after))
      requires i !in old(bad) && old(Replaceable(e.after, i)) && Base()
      requires tbl[i] == old(SlotVport(i, 0)) && tblPlen[i] == old(SlotPlen(i, 0))
      requires bad == if tblPlen[i] > 24 then old(bad) + {i} else old(bad)
      requires forall k :: 0 <= k < SLOTS && k != i ==> SameEntry(k)
      ensures Loop(e, Addr(i + 1, 0)) && BadOk(e.after)
    {
      Carry(i, e, Addr(i + 1, 0), Addr(i + 1, 0));
      CarryDeep(i);
      StillBad(i, e.after);
    }

    /** Lines 466-472: the entries of the block have one length, so it goes. */
    method PruneEven(i: nat, ghost e: Edit)
      requires i < SLOTS && i !in bad && Base() && tbl[i] >= FLAG
      requires NoLeak() && DeepBut(i) && Mixed(e, Addr(i + 1, 0)) && BadOk(e.after)
      requires Replaceable(e.after, i)
      modifies this`emptyHead, this`free, this`owner, this`bad, tbl, tblPlen, sec
      ensures Loop(e, Addr(i + 1, 0)) && NoLeak() && BadOk(e.after)
      ensures bad == if old(SlotPlen(i, 0)) > 24 then old(bad) + {i} else old(bad)
    {
      FreeBlock(i);
      Pruned(i, e);
    }

    /** Lines 461-472: after the entries of a block, is the block still needed? */
    method Prune(i: nat, next: nat, ghost e: Edit)
      requires i <= next < SLOTS && i !in bad
      requires Base() && tbl[i] >= FLAG
      requires NoLeak() && DeepBut(i) && Mixed(e, Addr(next + 1, 0)) && BadOk(e.after)
      requires next != i ==> Uneven(i)
      requires forall q <- e.after :: e.after[q] < FLAG
      modifies this`emptyHead, this`free, this`owner, this`bad, tbl, tblPlen, sec
      ensures Loop(e, Addr(next + 1, 0)) && NoLeak() && BadOk(e.after)
      ensures bad == if AnyTiled(e.after, i) then old(bad) + {i} else old(bad)
    {
      var u := Uniform(i);
      Decide(i, next, e);
      if u {
        // The source indexes with its advanced loop variable here; the walk
        // has not advanced when the entries are even.
        assert next == i;
        PruneEven(i, e);
      }
    }

    lemma Decide(i: nat, next: nat, e: Edit)
      requires i <= next < SLOTS && i !in bad && Base() && tbl[i] >= FLAG
      requires DeepBut(i) && Mixed(e, Addr(next + 1, 0)) && (next != i ==> Uneven(i))
      requires forall q <- e.after :: e.after[q] < FLAG
      ensures Even(i) ==> next == i && Replaceable(e.after, i)
      ensures if Even(i) then SlotPlen(i, 0) > 24 <==> AnyTiled(e.after, i)
        else DeepBut(-1) && !AnyTiled(e.after, i)
    {
      assert Settled(e.after, i);
      if Even(i) {
        EvenIsReplaceable(i, e.after);
        if next != i { UnevenNotEven(i); }
      } else {
        NotEven(i, e.after);
      }
    }

    twostate lemma StillBad(new i: nat, new rt: map<Prefix, nat>)
      requires old(Base() && BadOk(rt)) && Base() && i < SLOTS && i !in old(bad)
      requires forall k :: 0 <= k < SLOTS && k != i ==> SameEntry(k)
      requires if bad == old(bad) then true else bad == old(bad) + {i} && Collapsed(rt, i)
      ensures BadOk(rt)
    {
      forall k <- bad
        ensures k < SLOTS && Collapsed(rt, k)
      {
        if k != i {
          assert old(Collapsed(rt, k)) && SameEntry(k);
        }
      }
    }

    /** A /24 without a block is under no route longer than /24. */
    lemma DirectIsShort(i: nat, e: Edit)
      requires e.Ok() && First(e.p) <= i < First(e.p) + Span(e.p) && i < SLOTS && i !in bad
      requires Loop(e, Addr(i, 0)) && tbl[i] < FLAG && e.p in e.before && e.p !in e.after
      ensures e.p.len <= 24 && !AnyTiled(e.after, i)
    {
      assert DeepEntry(i);
      Extent(e.p, i, SecFirst(e.p));
      AtLeast(i, SecFirst(e.p), e);
      assert SlotOk(e.before, i, 0);
      if AnyTiled(e.after, i) {
        var q := TiledStart(e.after, i);
        assert false;
      }
    }

    /** Lines 433-482, one turn: one /24, or however many the entry lets it skip. */
    method RemoveStep(i: nat, p: Prefix, m: nat, v: nat, ghost e: Edit) returns (next: nat, ok: bool)
      requires e.Ok() && p == e.p && First(p) <= i < First(p) + Span(p) && i < SLOTS && i !in bad
      requires Loop(e, Addr(i, 0)) && NoLeak() && BadOk(e.after)
      requires p in e.before && p !in e.after && Cover(e.after, p, m) && e.after[At(p.addr, m)] == v
      requires forall q <- e.after :: e.after[q] < FLAG
      modifies this`emptyHead, this`free, this`owner, this`bad, tbl, tblPlen, sec, secPlen
      ensures ok && i <= next < SLOTS && Loop(e, Addr(next + 1, 0)) && NoLeak() && BadOk(e.after)
      ensures Jumps(e.after, p, i, next)
      ensures bad == if AnyTiled(e.after, i) then old(bad) + {i} else old(bad)
    {
      if tbl[i] >= FLAG {
        next, ok := RemoveInBlock(i, p, m, v, e);
        Prune(i, next, e);
      } else {
        DirectIsShort(i, e);
        label L:
        next := RemoveDirect(i, p, m, v, e);
        ok := true;
        assert forall k <- bad :: old@L(Collapsed(e.after, k));
      }
    }

    /** The walk has collapsed the tiled /24s it was not made to skip, and it stands at none that is skipped. */
    ghost predicate CollapsedUpTo(rt: map<Prefix, nat>, p: Prefix, i: nat)
      reads `bad
    {
      && (forall k <- bad :: First(p) <= k < i && k < First(p) + Span(p))
      && (forall k :: First(p) <= k < i && k < First(p) + Span(p) ==> (k in bad <==> AnyTiled(rt, k) && !Skipped(rt, p, k)))
      && (i < SLOTS ==> !Skipped(rt, p, i))
    }

    twostate lemma OneTurn(new rt: map<Prefix, nat>, new p: Prefix, new i: nat, new next: nat)
      requires old(CollapsedUpTo(rt, p, i)) && First(p) <= i <= next < SLOTS && i < First(p) + Span(p)
      requires Jumps(rt, p, i, next)
      requires bad == if AnyTiled(rt, i) then old(bad) + {i} else old(bad)
      ensures CollapsedUpTo(rt, p, next + 1)
    {
      forall k | i < k <= next
        ensures Skipped(rt, p, k)
      {
        JumpedOver(rt, p, i, next, k);
      }
      if next + 1 < SLOTS {
        LandsUnskipped(rt, p, i, next);
      }
    }

    /** The collapsed /24s are the tiled ones not skipped. */
    ghost predicate CollapsedIs(rt: map<Prefix, nat>, p: Prefix)
      reads `bad
    {
      forall k :: k in bad <==> First(p) <= k < First(p) + Span(p) && AnyTiled(rt, k) && !Skipped(rt, p, k)
    }

    lemma ValidIfSkipped(rt: map<Prefix, nat>, p: Prefix, i: nat)
      requires ValidBut(rt) && CollapsedUpTo(rt, p, i) && i >= First(p) + Span(p)
      ensures CollapsedIs(rt, p) && (Valid(rt) <==> TiledSkipped(rt, p))
    {
      NoneIfSkipped(rt, p);
    }

    lemma NoneIfSkipped(rt: map<Prefix, nat>, p: Prefix)
      requires CollapsedIs(rt, p)
      ensures bad == {} <==> TiledSkipped(rt, p)
    {
      if bad != {} {
        var k :| k in bad;
        assert AnyTiled(rt, k) && !Skipped(rt, p, k);
      }
    }

    lemma NoneCollapsedYet(rt: map<Prefix, nat>, p: Prefix)
      requires bad == {}
      ensures CollapsedUpTo(rt, p, First(p))
    {
    }

    /** Where the walk stands: all before /24 `i` is settled, and `i` is not skipped. */
    ghost predicate Withdrawing(e: Edit, i: nat)
      reads this, tbl, tblPlen, sec, secPlen
    {
      i <= SLOTS && Loop(e, Addr(i, 0)) && NoLeak() && BadOk(e.after) && CollapsedUpTo(e.after, e.p, i)
    }

    /** Lines 433-482, one turn, up to the `last` /24 it settles. */
    method RemoveTurn(i: nat, p: Prefix, m: nat, v: nat, ghost e: Edit) returns (last: nat, ok: bool)
      requires e.Ok() && p == e.p && First(p) <= i < First(p) + Span(p) && Withdrawing(e, i) && i < SLOTS
      requires p in e.before && p !in e.after && Cover(e.after, p, m) && e.after[At(p.addr, m)] == v
      requires forall q <- e.after :: e.after[q] < FLAG
      modifies this`emptyHead, this`free, this`owner, this`bad, tbl, tblPlen, sec, secPlen
      ensures ok && i <= last && Withdrawing(e, last + 1)
    {
      last, ok := RemoveStep(i, p, m, v, e);
      OneTurn(e.after, p, i, last);
    }

    lemma WithdrawStart(e: Edit)
      requires e.Ok() && Valid(e.before)
      ensures First(e.p) + Span(e.p) <= SLOTS && Withdrawing(e, First(e.p))
    {
      EditEnters(e);
      Extent(e.p, 0, 0);
      NoneCollapsedYet(e.after, e.p);
    }

    lemma WithdrawEnd(e: Edit, i: nat)
      requires e.Ok() && Withdrawing(e, i) && i >= First(e.p) + Span(e.p)
      ensures ValidBut(e.after) && CollapsedIs(e.after, e.p) && (Valid(e.after) <==> TiledSkipped(e.after, e.p))
    {
      EditLeaves(e, Addr(i, 0));
      ValidIfSkipped(e.after, e.p, i);
    }

    /** Lines 433-482. */
    method RemoveTurns(p: Prefix, m: nat, v: nat, ghost e: Edit) returns (i: nat, ok: bool)
      requires e.Ok() && p == e.p && First(p) + Span(p) <= SLOTS && Withdrawing(e, First(p))
      requires p in e.before && p !in e.after && Cover(e.after, p, m) && e.after[At(p.addr, m)] == v
      requires forall q <- e.after :: e.after[q] < FLAG
      modifies this`emptyHead, this`free, this`owner, this`bad, tbl, tblPlen, sec, secPlen
      ensures ok && i >= First(p) + Span(p) && Withdrawing(e, i)
    {
      i, ok := p.addr / 256, true;
      var end := if p.len >= 24 then i + 1 else i + Pow2(24 - p.len);
      while i < end
        invariant First(p) <= i && ok && Withdrawing(e, i)
      {
        i, ok := RemoveTurn(i, p, m, v, e);
        if !ok { return; }
        i := i + 1;
      }
    }

    /** Lines 428-482: the walk that takes a route out. */
    method RemoveWalk(p: Prefix, m: nat, v: nat, ghost e: Edit) returns (ok: bool)
      requires e.Ok() && p == e.p && Valid(e.before)
      requires p in e.before && p !in e.after && Cover(e.after, p, m) && e.after[At(p.addr, m)] == v
      requires forall q <- e.after :: e.after[q] < FLAG
      modifies this`emptyHead, this`free, this`owner, this`bad, tbl, tblPlen, sec, secPlen
      ensures ok && ValidBut(e.after) && CollapsedIs(e.after, p)
      ensures Valid(e.after) <==> TiledSkipped(e.after, p)
    {
      WithdrawStart(e);
      var i;
      i, ok := RemoveTurns(p, m, v, e);
      WithdrawEnd(e, i);
    }
  }
}
