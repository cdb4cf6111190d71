/**
 * `RangeIPLookup` (bfclick/ip/rangeiplookup.cc): the tables of a `DirectTable`
 * flattened into ranges of addresses with one vport, found by a kickstart
 * index and a binary search.
 */
module RangeLookups {
  import opened Prefixes
  import opened VportPools
  import opened DirectTables
  import opened DirectLookups
  import opened Results

  const BUCKETS := 4096         // 1 << KICKSTART_BITS
  const BUCKET := 0x10_0000     // 1 << RANGE_SHIFT, the addresses of a bucket
  const RANGES_MAX := 0x4_0000
  const NO_VPORT := 0xffff

  /** `vport << RANGE_SHIFT | (start & RANGE_MASK)` in 32 bits: a wide vport loses its high bits. */
  function Word(v: nat, start: nat): nat {
    (v % BUCKETS) * BUCKET + start % BUCKET
  }

  lemma WordParts(v: nat, start: nat)
    ensures Word(v, start) / BUCKET == v % BUCKETS && Word(v, start) % BUCKET == start % BUCKET
  {
  }

  // ---- the ranges of a reading: the vport each address is answered with

  /** A range begins at each bucket and at each change of vport. */
  ghost predicate Starts(f: seq<nat>, a: nat)
    requires a < |f|
  {
    a % BUCKET == 0 || f[a] != f[a - 1]
  }

  /** Where ranges begin below `a`, in order. */
  ghost function Marks(f: seq<nat>, a: nat): (m: seq<nat>)
    requires a <= |f|
  {
    if a == 0 then [] else Marks(f, a - 1) + (if Starts(f, a - 1) then [a - 1] else [])
  }

  lemma {:induction false} MarksSound(f: seq<nat>, a: nat)
    requires a <= |f|
    ensures forall k :: 0 <= k < |Marks(f, a)| ==> Marks(f, a)[k] < a
    ensures forall k, l :: 0 <= k < l < |Marks(f, a)| ==> Marks(f, a)[k] < Marks(f, a)[l]
  {
    if a > 0 {
      MarksSound(f, a - 1);
    }
  }

  lemma {:induction false} MarksGrow(f: seq<nat>, a: nat, b: nat)
    requires a <= b <= |f|
    ensures Marks(f, a) <= Marks(f, b)
    ensures a < b && Starts(f, a) ==> |Marks(f, a)| < |Marks(f, b)| && Marks(f, b)[|Marks(f, a)|] == a
    decreases b - a
  {
    if a < b {
      MarksGrow(f, a + 1, b);
      assert Marks(f, a + 1) == Marks(f, a) + (if Starts(f, a) then [a] else []);
    }
  }

  lemma MarkAt(f: seq<nat>, n: nat, a: nat) returns (l: nat)
    requires a < n <= |f| && Starts(f, a)
    ensures l < |Marks(f, n)| && Marks(f, n)[l] == a
  {
    MarksGrow(f, a, n);
    l := |Marks(f, a)|;
  }

  /** The range an address lies in has the address's vport. */
  lemma {:induction false} RangeHasVport(f: seq<nat>, n: nat, k: nat, a: nat)
    requires n <= |f| && k < |Marks(f, n)| && Marks(f, n)[k] <= a < n
    requires k + 1 == |Marks(f, n)| || a < Marks(f, n)[k + 1]
    ensures Marks(f, n)[k] < |f| && f[Marks(f, n)[k]] == f[a]
    decreases a
  {
    MarksSound(f, n);
    if Marks(f, n)[k] < a {
      if Starts(f, a) {
        var l := MarkAt(f, n, a);
        assert false;
      }
      RangeHasVport(f, n, k, a - 1);
    }
  }

  /** No range begins inside a run of one vport that stays in its bucket. */
  lemma {:induction false} FlatRun(f: seq<nat>, a: nat, b: nat)
    requires a < b <= |f| && a / BUCKET == (b - 1) / BUCKET
    requires forall c :: a < c < b ==> f[c] == f[a]
    ensures Marks(f, b) == Marks(f, a + 1)
    decreases b
  {
    if a + 1 < b {
      FlatRun(f, a, b - 1);
      assert f[b - 2] == f[a];
    }
  }

  /** How many ranges begin below bucket `b`. */
  ghost function Before(f: seq<nat>, b: nat): nat
    requires b * BUCKET <= |f|
  {
    |Marks(f, b * BUCKET)|
  }

  lemma BucketStarts(f: seq<nat>, b: nat)
    requires (b + 1) * BUCKET <= |f|
    ensures Before(f, b) < Before(f, b + 1)
  {
    MarksGrow(f, b * BUCKET, (b + 1) * BUCKET);
  }

  lemma {:induction false} FewTargets(ports: seq<VirtualPort>, n: nat, hops: set<Hop>)
    requires forall h <- hops :: exists v: nat :: v < n && v < |ports| && ports[v].Target() == h
    ensures |hops| <= n
  {
    if n == 0 {
      assert hops == {};
    } else if n - 1 < |ports| {
      var last := ports[n - 1].Target();
      FewTargets(ports, n - 1, hops - {last});
    } else {
      FewTargets(ports, n - 1, hops);
    }
  }

  class RangeTable {
    const helper: DirectTable       // _helper
    const rangeBase: array<nat>     // _range_base
    const rangeLen: array<nat>      // _range_len
    const rangeT: array<nat>        // _range_t
    var active: bool                // _active

    ghost const Repr: set<object> := helper.Repr + {this, rangeBase, rangeLen, rangeT}

    ghost predicate Shape() {
      && rangeBase.Length == BUCKETS && rangeLen.Length == BUCKETS && rangeT.Length == RANGES_MAX
      && rangeBase != rangeLen && rangeBase != rangeT && rangeLen != rangeT
      && this !in helper.Repr && rangeBase !in helper.Repr && rangeLen !in helper.Repr && rangeT !in helper.Repr
    }

    /** The vport the direct tables hold for each address. */
    ghost function Reading(): (f: seq<nat>)
      requires helper.ValidBut()
      reads helper, helper.Repr
      ensures |f| == ADDRESSES
    {
      seq(ADDRESSES, a requires 0 <= a < ADDRESSES && helper.ValidBut() reads helper, helper.Repr =>
        helper.tables.SlotVport(a / 256, a % 256))
    }

    lemma ReadingSmall(i: nat, j: nat)
      requires helper.ValidBut() && i < SLOTS && j < 256
      ensures Reading()[Addr(i, j)] == helper.tables.SlotVport(i, j) < |helper.pool.ports| <= FLAG
    {
      Div256(i, j);
      if i in helper.tables.bad {
        assert helper.tables.Collapsed(helper.rtable, i);
      } else {
        assert helper.tables.SlotOk(helper.rtable, i, j);
      }
    }

    /** The ranges that begin below `a` are the first `n` entries. */
    ghost predicate Written(f: seq<nat>, a: nat, n: nat)
      requires Shape() && a <= |f|
      reads rangeT
    {
      && n == |Marks(f, a)| <= RANGES_MAX
      && forall k :: 0 <= k < n ==> Marks(f, a)[k] < |f| && rangeT[k] == Word(f[Marks(f, a)[k]], Marks(f, a)[k])
    }

    /** A bucket's entries are found where its kickstart says. */
    ghost predicate Kickstart(f: seq<nat>, b: nat)
      requires Shape() && b < BUCKETS && (b + 1) * BUCKET <= |f|
      reads rangeBase, rangeLen
    {
      rangeBase[b] == Before(f, b) && rangeBase[b] + rangeLen[b] + 1 == Before(f, b + 1)
    }

    /** The ranges are those of the direct tables. */
    ghost predicate Synced()
      reads rangeBase, rangeLen, rangeT, helper, helper.Repr
    {
      Shape() && helper.ValidBut() && Ranges(Reading())
    }

    /** The ranges are those of a reading. */
    ghost predicate Ranges(f: seq<nat>)
      requires Shape() && |f| == ADDRESSES
      reads rangeBase, rangeLen, rangeT
    {
      && Written(f, |f|, |Marks(f, |f|)|)
      && Kickstarts(f, BUCKETS)
    }

    ghost predicate Kickstarts(f: seq<nat>, n: nat)
      requires Shape() && |f| == ADDRESSES && n <= BUCKETS
      reads rangeBase, rangeLen
    {
      forall b :: 0 <= b < n ==> Kickstart(f, b)
    }

    constructor (blocks: nat)
      requires blocks <= FLAG
      ensures Shape() && helper.Valid() && !active && fresh(helper.Repr) && fresh({rangeBase, rangeLen, rangeT})
      ensures helper.Hops() == map[DEFAULT := Hop(0, DISCARD_PORT)] && |helper.pool.ports| == 1
    {
      rangeBase := new nat[BUCKETS];
      rangeLen := new nat[BUCKETS];
      rangeT := new nat[RANGES_MAX];
      helper := new DirectTable(blocks);
      active := false;
    }

    /** The vport of the address before `a`, or none at the start of a bucket. */
    ghost predicate Last(f: seq<nat>, a: nat, vport: nat)
      requires a <= |f|
    {
      vport == if a % BUCKET == 0 then NO_VPORT else f[a - 1]
    }

    /** Lines 177-185 and 188-196: an entry, when the vport changes. */
    method Step(v: nat, a: nat, n: nat, vport: nat, ghost f: seq<nat>) returns (fits: bool, n': nat, vport': nat)
      requires Shape() && a < |f| && v == f[a] < NO_VPORT && Written(f, a, n) && Last(f, a, vport)
      modifies rangeT
      ensures if fits then Written(f, a + 1, n') && vport' == v else |Marks(f, |f|)| > RANGES_MAX
    {
      MarksGrow(f, a, |f|);
      MarksSound(f, a + 1);
      if vport == v {
        return true, n, vport;
      }
      if n == RANGES_MAX {
        return false, n, v;
      }
      rangeT[n] := Word(v, a);
      return true, n + 1, v;
    }

    /** Entry `j` of the block at `base` is the reading of address `j` of /24 number `i`. */
    ghost predicate Cell(f: seq<nat>, i: nat, j: nat, base: nat)
      requires |f| == ADDRESSES && i < SLOTS && j < 256 && base + 256 <= helper.tables.sec.Length
      reads helper.tables.sec
    {
      f[Addr(i, j)] == helper.tables.sec[base + j] < NO_VPORT
    }

    /** Lines 169-187: a secondary block. */
    method ExpandBlock(i: nat, base: nat, n: nat, vport: nat, ghost f: seq<nat>)
      returns (fits: bool, n': nat, vport': nat)
      requires Shape() && |f| == ADDRESSES && i < SLOTS && base + 256 <= helper.tables.sec.Length
      requires forall j :: 0 <= j < 256 ==> Cell(f, i, j, base)
      requires Written(f, Addr(i, 0), n) && Last(f, Addr(i, 0), vport)
      modifies rangeT
      ensures if fits then Written(f, Addr(i, 0) + 256, n') && vport' == f[Addr(i, 0) + 255]
              else |Marks(f, |f|)| > RANGES_MAX
    {
      n', vport' := n, vport;
      for j := 0 to 256
        invariant Written(f, Addr(i, j), n')
        invariant if j == 0 then Last(f, Addr(i, 0), vport') else vport' == f[Addr(i, j) - 1]
      {
        assert Cell(f, i, j, base);
        fits, n', vport' := Step(helper.tables.sec[base + j], Addr(i, j), n', vport', f);
        if !fits { return; }
      }
      fits := true;
    }

    lemma BlockReading(i: nat)
      requires helper.ValidBut() && i < SLOTS && helper.tables.tbl[i] >= FLAG
      ensures var base := 256 * (helper.tables.tbl[i] - FLAG);
        base + 256 <= helper.tables.sec.Length && forall j :: 0 <= j < 256 ==> Cell(Reading(), i, j, base)
    {
      var base := 256 * (helper.tables.tbl[i] - FLAG);
      forall j | 0 <= j < 256
        ensures Cell(Reading(), i, j, base)
      {
        ReadingSmall(i, j);
      }
    }

    /** Lines 168-197: the 256 addresses of one primary entry. */
    method ExpandEntry(i: nat, n: nat, vport: nat, ghost f: seq<nat>) returns (fits: bool, n': nat, vport': nat)
      requires Shape() && helper.ValidBut() && f == Reading() && i < SLOTS
      requires Written(f, Addr(i, 0), n) && Last(f, Addr(i, 0), vport)
      modifies rangeT
      ensures if fits then Written(f, Addr(i, 0) + 256, n') && vport' == f[Addr(i, 0) + 255]
              else |Marks(f, |f|)| > RANGES_MAX
    {
      if helper.tables.tbl[i] >= FLAG {
        BlockReading(i);
        fits, n', vport' := ExpandBlock(i, 256 * (helper.tables.tbl[i] - FLAG), n, vport, f);
      } else {
        FlatEntry(i);
        ReadingSmall(i, 0);
        fits, n', vport' := Step(helper.tables.tbl[i], Addr(i, 0), n, vport, f);
      }
    }

    lemma FlatEntry(i: nat)
      requires helper.ValidBut() && i < SLOTS && helper.tables.tbl[i] < FLAG
      ensures Marks(Reading(), Addr(i, 0) + 256) == Marks(Reading(), Addr(i, 0) + 1)
      ensures Reading()[Addr(i, 0) + 255] == Reading()[Addr(i, 0)]
    {
      forall c | Addr(i, 0) <= c < Addr(i, 0) + 256
        ensures Reading()[c] == Reading()[Addr(i, 0)]
      {
        ReadingSmall(i, c - Addr(i, 0));
        ReadingSmall(i, 0);
      }
      FlatRun(Reading(), Addr(i, 0), Addr(i, 0) + 256);
    }

    lemma LastInside(f: seq<nat>, b: nat, i: nat, vport: nat)
      requires b * BUCKETS <= i <= (b + 1) * BUCKETS && Addr(i, 0) <= |f|
      ensures b * BUCKETS < i < (b + 1) * BUCKETS && vport == f[Addr(i, 0) - 1] ==> Last(f, Addr(i, 0), vport)
      ensures b * BUCKETS == i ==> Addr(i, 0) == b * BUCKET && Last(f, Addr(i, 0), NO_VPORT)
      ensures i == (b + 1) * BUCKETS ==> Addr(i, 0) == (b + 1) * BUCKET
    {
    }

    /** Lines 166-199: the primary entries of one bucket. */
    method FillBucket(b: nat, n: nat, ghost f: seq<nat>) returns (fits: bool, n': nat)
      requires Shape() && helper.ValidBut() && f == Reading() && b < BUCKETS && Written(f, b * BUCKET, n)
      modifies rangeT
      ensures if fits then Written(f, (b + 1) * BUCKET, n') else |Marks(f, |f|)| > RANGES_MAX
    {
      var vport: nat := NO_VPORT;
      var i := b * BUCKETS;
      n' := n;
      LastInside(f, b, i, vport);
      while i < (b + 1) * BUCKETS
        invariant b * BUCKETS <= i <= (b + 1) * BUCKETS
        invariant Written(f, Addr(i, 0), n')
        invariant i < (b + 1) * BUCKETS ==> Last(f, Addr(i, 0), vport)
      {
        fits, n', vport := ExpandEntry(i, n', vport, f);
        if !fits { return; }
        i := i + 1;
        LastInside(f, b, i, vport);
      }
      fits := true;
    }

    /** Lines 160-200: one bucket. */
    method ExpandBucket(b: nat, n: nat, ghost f: seq<nat>) returns (fits: bool, n': nat)
      requires Shape() && helper.ValidBut() && f == Reading() && b < BUCKETS
      requires Written(f, b * BUCKET, n) && Kickstarts(f, b)
      modifies rangeBase, rangeLen, rangeT
      ensures if fits then Written(f, (b + 1) * BUCKET, n') && Kickstarts(f, b + 1)
              else |Marks(f, |f|)| > RANGES_MAX
    {
      rangeBase[b] := n;
      fits, n' := FillBucket(b, n, f);
      if fits {
        BucketStarts(f, b);
        rangeLen[b] := n' - n - 1;
        OthersKept(f, b);
      }
    }

    twostate lemma OthersKept(new f: seq<nat>, new b: nat)
      requires Shape() && |f| == ADDRESSES && b < BUCKETS && old(Kickstarts(f, b)) && Kickstart(f, b)
      requires forall c :: 0 <= c < b ==> rangeBase[c] == old(rangeBase[c]) && rangeLen[c] == old(rangeLen[c])
      ensures Kickstarts(f, b + 1)
    {
      forall c | 0 <= c < b
        ensures Kickstart(f, c)
      {
        assert old(Kickstart(f, c));
      }
    }

    /** Lines 160-201: all buckets. */
    method ExpandBuckets(ghost f: seq<nat>) returns (fits: bool)
      requires Shape() && helper.ValidBut() && f == Reading()
      modifies rangeBase, rangeLen, rangeT
      ensures if fits then Ranges(f) else |Marks(f, |f|)| > RANGES_MAX
    {
      var n := 0;
      for b := 0 to BUCKETS
        invariant Written(f, b * BUCKET, n) && Kickstarts(f, b)
      {
        fits, n := ExpandBucket(b, n, f);
        if !fits { return; }
      }
      fits := true;
    }

    /**
     * Lines 154-207: the ranges are rebuilt from the direct tables. The original
     * writes on past a full `_range_t`; here the method stops and says so.
     */
    method Expand() returns (fits: bool)
      requires Shape() && helper.ValidBut()
      modifies rangeBase, rangeLen, rangeT
      ensures helper.ValidBut() && (fits <==> |Marks(Reading(), |Reading()|)| <= 0x4_0000)
      ensures fits ==> Synced()
      ensures helper.Hops() == old(helper.Hops()) && (helper.Valid() <==> old(helper.Valid()))
      ensures active == old(active)
    {
      fits := ExpandBuckets(Reading());
    }

    /** Every entry of bucket `b` begins in it, and the first at its start. */
    lemma InBucket(f: seq<nat>, b: nat)
      requires Shape() && |f| == ADDRESSES && b < BUCKETS && Written(f, |f|, |Marks(f, |f|)|) && Kickstart(f, b)
      ensures rangeBase[b] + rangeLen[b] < |Marks(f, |f|)|
      ensures Marks(f, |f|)[rangeBase[b]] == b * BUCKET
      ensures forall k :: rangeBase[b] <= k <= rangeBase[b] + rangeLen[b] ==>
        b * BUCKET <= Marks(f, |f|)[k] < (b + 1) * BUCKET
      ensures rangeBase[b] + rangeLen[b] + 1 < |Marks(f, |f|)| ==>
        Marks(f, |f|)[rangeBase[b] + rangeLen[b] + 1] >= (b + 1) * BUCKET
    {
      var m := Marks(f, |f|);
      MarksGrow(f, b * BUCKET, |f|);
      MarksGrow(f, (b + 1) * BUCKET, |f|);
      MarksSound(f, |f|);
      MarksSound(f, (b + 1) * BUCKET);
      if (b + 1) * BUCKET < |f| {
        assert Starts(f, (b + 1) * BUCKET);
      }
    }

    /** Comparing with an entry compares the address with where its range begins. */
    ghost predicate Compares(m: seq<nat>, a: nat, k: nat)
      requires Shape() && k < |m| && k < RANGES_MAX
      reads rangeT
    {
      a % BUCKET < rangeT[k] % BUCKET <==> a < m[k]
    }

    /** Lines 97-112: the binary search. No entry past the bucket's last is read. */
    method Search(a: nat, ghost m: seq<nat>) returns (lower: nat)
      requires Shape() && a < ADDRESSES && rangeBase[a / BUCKET] + rangeLen[a / BUCKET] < |m| <= RANGES_MAX
      requires m[rangeBase[a / BUCKET]] <= a
      requires forall k :: rangeBase[a / BUCKET] <= k <= rangeBase[a / BUCKET] + rangeLen[a / BUCKET] ==>
        Compares(m, a, k)
      ensures rangeBase[a / BUCKET] <= lower <= rangeBase[a / BUCKET] + rangeLen[a / BUCKET] && m[lower] <= a
      ensures lower < rangeBase[a / BUCKET] + rangeLen[a / BUCKET] ==> a < m[lower + 1]
    {
      var b, low := a / BUCKET, a % BUCKET;
      lower := rangeBase[b];
      var upper := rangeBase[b] + rangeLen[b];
      ghost var first, last := lower, upper;
      while upper > lower
        invariant first <= lower <= upper <= last && m[lower] <= a && (upper < last ==> a < m[upper])
      {
        var middle := (upper + lower) / 2;
        assert Compares(m, a, middle) && Compares(m, a, middle + 1);
        if low < rangeT[middle] % BUCKET {
          upper := middle;
        } else if low < rangeT[middle + 1] % BUCKET {
          lower := middle;
          break;
        } else {
          lower := middle + 1;
        }
      }
    }

    /** The entries of a bucket compare right. */
    lemma BucketCompares(f: seq<nat>, a: nat)
      requires Shape() && a < |f| == ADDRESSES && Written(f, |f|, |Marks(f, |f|)|) && Kickstart(f, a / BUCKET)
      ensures var first, last := rangeBase[a / BUCKET], rangeBase[a / BUCKET] + rangeLen[a / BUCKET];
        && last < |Marks(f, |f|)| && Marks(f, |f|)[first] <= a
        && (forall k :: first <= k <= last ==> Compares(Marks(f, |f|), a, k))
    {
      InBucket(f, a / BUCKET);
      var m := Marks(f, |f|);
      var first, last := rangeBase[a / BUCKET], rangeBase[a / BUCKET] + rangeLen[a / BUCKET];
      forall k | first <= k <= last
        ensures Compares(m, a, k)
      {
        WordParts(f[m[k]], m[k]);
      }
    }

    /** The range found has the address's vport. */
    lemma Found(f: seq<nat>, a: nat, k: nat)
      requires Shape() && a < |f| == ADDRESSES && Written(f, |f|, |Marks(f, |f|)|) && Kickstart(f, a / BUCKET)
      requires rangeBase[a / BUCKET] <= k <= rangeBase[a / BUCKET] + rangeLen[a / BUCKET] < |Marks(f, |f|)|
      requires Marks(f, |f|)[k] <= a
      requires k < rangeBase[a / BUCKET] + rangeLen[a / BUCKET] ==> a < Marks(f, |f|)[k + 1]
      ensures rangeT[k] / BUCKET == f[a] % BUCKETS
    {
      InBucket(f, a / BUCKET);
      RangeHasVport(f, |f|, k, a);
      WordParts(f[a], Marks(f, |f|)[k]);
    }

    static lemma SmallMod(v: nat)
      ensures v < BUCKETS ==> v % BUCKETS == v
    {
    }

    /** The direct tables answer with the vport read. */
    lemma ReadingAnswers(a: nat)
      requires helper.ValidBut() && a < ADDRESSES
      ensures Reading()[a] < |helper.pool.ports|
      ensures helper.pool.ports[Reading()[a]].Target() == helper.Answer(a)
      ensures Reading()[a] < BUCKETS ==> Reading()[a] % BUCKETS == Reading()[a]
    {
      SmallMod(Reading()[a]);
      ReadingSmall(a / 256, a % 256);
      assert a == Addr(a / 256, a % 256);
      if a / 256 in helper.tables.bad {
        var t := helper.FirstTile(a / 256);
        assert helper.rtable[t] == helper.tables.tbl[a / 256];
        assert helper.tables.Collapsed(helper.rtable, a / 256);
      } else {
        assert helper.tables.SlotOk(helper.rtable, a / 256, a % 256);
      }
    }

    /** Lines 93-115: the vport of the range found. */
    method FindVport(a: nat, ghost f: seq<nat>) returns (vport: nat)
      requires Shape() && a < |f| == ADDRESSES && Ranges(f)
      ensures vport == f[a] % BUCKETS
    {
      BucketCompares(f, a);
      var lower := Search(a, Marks(f, |f|));
      Found(f, a, lower);
      vport := rangeT[lower] / BUCKET;
    }

    /** The ranges' answer: a range keeps 12 bits of its vport. */
    ghost function Answer(a: nat): Hop
      requires helper.ValidBut() && a < ADDRESSES
      reads helper, helper.Repr
    {
      ReadingAnswers(a);
      assert Reading()[a] % BUCKETS <= Reading()[a];
      helper.pool.ports[Reading()[a] % BUCKETS].Target()
    }

    /** What is lost of a vport does not show: the one it turns into has its gateway and port. */
    ghost predicate Survives(v: nat)
      requires v < |helper.pool.ports|
      reads helper, helper.pool
    {
      helper.pool.ports[v % BUCKETS].Target() == helper.pool.ports[v].Target()
    }

    /** Lines 91-118. */
    method LookupRoute(a: nat) returns (hop: Hop)
      requires Synced() && a < ADDRESSES
      ensures hop == Answer(a) && Reading()[a] < |helper.pool.ports|
      ensures hop == helper.Answer(a) <==> Survives(Reading()[a])
      ensures helper.Valid() && Survives(Reading()[a]) ==>
        exists p :: IsLongest(helper.Hops(), a, p) && hop == helper.Hops()[p]
      ensures Reading()[a] < BUCKETS ==> Survives(Reading()[a])
    {
      var vport := FindVport(a, Reading());
      ReadingAnswers(a);
      hop := Hop(helper.pool.ports[vport].gw, helper.pool.ports[vport].port);
      if helper.Valid() {
        helper.ValidAnswers(a);
      }
    }

    /** The ranges answer as the direct tables do exactly when every vport in them survives. */
    lemma AnswersAsTables()
      requires helper.ValidBut()
      ensures (forall a :: 0 <= a < ADDRESSES ==> Answer(a) == helper.Answer(a))
        <==> forall v <- Reading() :: v < |helper.pool.ports| && Survives(v)
    {
      forall a | 0 <= a < ADDRESSES
        ensures Reading()[a] < |helper.pool.ports| && (Answer(a) == helper.Answer(a) <==> Survives(Reading()[a]))
      {
        ReadingAnswers(a);
      }
    }

    /** More hops than there are 12-bit vports cannot all be answered. */
    lemma TooManyHops(hops: set<Hop>, where: map<Hop, nat>)
      requires helper.ValidBut() && |hops| > BUCKETS
      requires forall h <- hops :: h in where && where[h] < ADDRESSES && helper.Answer(where[h]) == h
      ensures exists h <- hops :: Answer(where[h]) != h
    {
      if forall h <- hops :: Answer(where[h]) == h {
        var ports := helper.pool.ports;
        forall h <- hops
          ensures exists v: nat :: v < BUCKETS && v < |ports| && ports[v].Target() == h
        {
          ReadingAnswers(where[h]);
          var v := Reading()[where[h]] % BUCKETS;
        }
        FewTargets(ports, BUCKETS, hops);
        assert false;
      }
    }

    /** Lines 55-61. */
    method Initialize() returns (fits: bool)
      requires Shape() && helper.ValidBut()
      modifies `active, rangeBase, rangeLen, rangeT
      ensures active && (fits ==> Synced())
      ensures helper.ValidBut() && (fits <==> |Marks(Reading(), |Reading()|)| <= RANGES_MAX)
      ensures helper.Hops() == old(helper.Hops()) && (helper.Valid() <==> old(helper.Valid()))
    {
      fits := Expand();
      active := true;
    }

    /** Lines 130 and 139: the update of the direct tables, from which the ranges are apart. */
    method AddHelper(p: Prefix, hop: Hop, allowReplace: bool) returns (status: Status, old_route: Option<Hop>)
      requires Shape() && helper.Valid() && Canonical(p)
      modifies helper.Repr
      ensures helper.Routes() && (status == Ok || status == Exists || status == NoMemory) && (status != NoMemory ==> helper.Valid())
      ensures status == Ok && p != DEFAULT ==> helper.Hops() == old(helper.Hops())[p := hop]
      ensures status == Ok && p == DEFAULT ==> helper.Hops() == old(helper.WithDefault(hop))
      ensures status == Exists ==> unchanged(helper.Repr)
    {
      status, old_route := helper.AddRoute(p, hop, allowReplace);
    }

    method RemoveHelper(p: Prefix, hop: Hop) returns (status: Status, old_route: Option<Hop>)
      requires Shape() && helper.Valid() && Canonical(p)
      modifies helper.Repr
      ensures helper.ValidBut() && (status == Ok || status == NoEntry)
      ensures status == Ok && p != DEFAULT ==> helper.Hops() == old(helper.Hops()) - {p}
      // so the tables are right as `DirectTable.ValidAfterRemoval` says
      ensures status == Ok && p != DEFAULT ==> helper.tables.CollapsedIs(helper.rtable, p)
      ensures status == NoEntry ==> unchanged(helper.Repr)
    {
      status, old_route := helper.RemoveRoute(p, hop);
    }

    /** Lines 127-134: a successful update is followed by a rebuild. */
    method AddRoute(p: Prefix, hop: Hop, allowReplace: bool)
      returns (status: Status, old_route: Option<Hop>, fits: bool)
      requires Shape() && active && helper.Valid() && Canonical(p)
      modifies Repr
      ensures Shape() && active && helper.Routes() && (status == Ok || status == Exists || status == NoMemory)
      ensures status == Ok ==> helper.Valid()
      ensures status == Ok && p != DEFAULT ==> helper.Hops() == old(helper.Hops())[p := hop]
      ensures status == Ok && p == DEFAULT ==> helper.Hops() == old(helper.WithDefault(hop))
      ensures status == Exists ==> helper.Valid() && unchanged(Repr)
      ensures status == Ok ==> (fits <==> |Marks(Reading(), |Reading()|)| <= RANGES_MAX)
      ensures status == Ok && fits ==> Synced()
    {
      fits := true;
      assert this !in helper.Repr;
      status, old_route := AddHelper(p, hop, allowReplace);
      if status == Ok {
        fits := Expand();
      }
    }

    /** Lines 136-143. */
    method RemoveRoute(p: Prefix, hop: Hop) returns (status: Status, old_route: Option<Hop>, fits: bool)
      requires Shape() && active && helper.Valid() && Canonical(p)
      modifies Repr
      ensures Shape() && active && (status == Ok || status == NoEntry)
      ensures status == Ok ==> helper.ValidBut() && (fits ==> Ranges(Reading()))
      ensures status == Ok && p != DEFAULT ==> helper.Hops() == old(helper.Hops()) - {p}
      // so the tables are right as `DirectTable.ValidAfterRemoval` says
      ensures status == Ok && p != DEFAULT ==> helper.tables.CollapsedIs(helper.rtable, p)
      ensures status == NoEntry ==> unchanged(Repr)
      ensures status == Ok ==> (fits <==> |Marks(Reading(), |Reading()|)| <= RANGES_MAX)
    {
      fits := true;
      assert this !in helper.Repr;
      status, old_route := RemoveHelper(p, hop);
      if status == Ok {
        fits := Expand();
      }
    }
  }
}
