/**
 * The chunk list of a packet under reassembly: which stretches of its payload
 * have arrived, in order, each recorded in the hole before it
 * (bfclick/ip/ipreassembler.cc).
 */
module ReassemblyChunks {

  type Byte = x: int | 0 <= x < 256

  datatype Chunk = Chunk(off: nat, lastoff: nat)

  // ---- links in the packet's own bytes

  /** A `ChunkLink` read from the four bytes at `pos`. */
  function LinkAt(mem: seq<Byte>, pos: nat): Chunk
    requires pos + 4 <= |mem|
  {
    Chunk(Word(mem[pos], mem[pos + 1]), Word(mem[pos + 2], mem[pos + 3]))
  }

  function Word(low: nat, high: nat): nat { low + 256 * high }

  function WithLink(mem: seq<Byte>, pos: nat, c: Chunk): (r: seq<Byte>)
    requires pos + 4 <= |mem| && c.off < 0x1_0000 && c.lastoff < 0x1_0000
    ensures |r| == |mem| && LinkAt(r, pos) == c
    ensures forall x :: 0 <= x < |mem| && !(pos <= x < pos + 4) ==> r[x] == mem[x]
  {
    mem[pos := c.off % 256][pos + 1 := c.off / 256][pos + 2 := c.lastoff % 256][pos + 3 := c.lastoff / 256]
  }

  /** `memcpy` of fragment data. */
  function WithData(mem: seq<Byte>, pos: nat, data: seq<Byte>): (r: seq<Byte>)
    requires pos + |data| <= |mem|
    ensures |r| == |mem|
    ensures forall x :: 0 <= x < |mem| ==> r[x] == if pos <= x < pos + |data| then data[x - pos] else mem[x]
  {
    mem[..pos] + data + mem[pos + |data|..]
  }

  /** The chunks end in order, apart from one another, the last at `len`. */
  ghost predicate Ordered(cs: seq<Chunk>, len: nat) {
    && cs != [] && cs[|cs| - 1].lastoff == len
    && (forall k :: 0 <= k < |cs| ==> cs[k].off <= cs[k].lastoff)
    && (forall k, l :: 0 <= k < l < |cs| ==> cs[k].lastoff < cs[l].off)
  }

  /** Chunks cut from a datagram of `n` bytes. */
  ghost predicate Cut(c: Chunk, n: nat) {
    c.off < c.lastoff <= n && c.off % 8 == 0 && (c.lastoff % 8 == 0 || c.lastoff == n)
  }

  /** The hole after chunk `k` holds the link to the next. */
  ghost predicate Linked(mem: seq<Byte>, cs: seq<Chunk>, k: nat)
    requires k + 1 < |cs|
  {
    cs[k].lastoff + 4 <= |mem| && LinkAt(mem, cs[k].lastoff) == cs[k + 1]
  }

  ghost predicate Spans(c: Chunk, x: nat) {
    c.off <= x < c.lastoff
  }

  ghost predicate Covers(cs: seq<Chunk>, x: nat) {
    exists c :: c in cs && Spans(c, x)
  }

  /** `i` is the first chunk that ends at `a` or after it. */
  ghost predicate FirstFrom(cs: seq<Chunk>, a: nat, i: nat) {
    i < |cs| && cs[i].lastoff >= a && forall k :: 0 <= k < i ==> cs[k].lastoff < a
  }

  function Min(a: nat, b: nat): nat { if a < b then a else b }

  /** Lines 313-320, on the list: what `chunk` becomes. */
  ghost function Grown(cs: seq<Chunk>, a: nat, b: nat, i: nat, j: nat): Chunk
    requires i <= j < |cs|
  {
    Chunk(Min(a, cs[i].off), if b < cs[j].off then b else cs[j].lastoff)
  }

  /** Where the chunks that stay as they are after it begin. */
  ghost function Rest(cs: seq<Chunk>, b: nat, j: nat): nat
    requires j < |cs|
  {
    if b < cs[j].off then j else j + 1
  }

  /** The list with `[a, b)` taken in. */
  ghost function Merged(cs: seq<Chunk>, a: nat, b: nat, i: nat, j: nat): seq<Chunk>
    requires i <= j < |cs|
  {
    cs[..i] + [Grown(cs, a, b, i, j)] + cs[Rest(cs, b, j)..]
  }

  /** The same, place by place. */
  ghost predicate IsMerged(cs: seq<Chunk>, a: nat, b: nat, i: nat, j: nat, m: seq<Chunk>)
    requires i <= j < |cs|
  {
    && |m| == i + 1 + |cs| - Rest(cs, b, j)
    && forall k {:trigger m[k]} :: 0 <= k < |m| ==>
         m[k] == if k < i then cs[k] else if k == i then Grown(cs, a, b, i, j) else cs[k - i - 1 + Rest(cs, b, j)]
  }

  lemma MergedIs(cs: seq<Chunk>, a: nat, b: nat, i: nat, j: nat)
    requires i <= j < |cs|
    ensures IsMerged(cs, a, b, i, j, Merged(cs, a, b, i, j))
  {
  }

  ghost predicate MergePoint(cs: seq<Chunk>, len: nat, a: nat, b: nat, i: nat, j: nat) {
    Ordered(cs, len) && a < b && FirstFrom(cs, a, i) && FirstFrom(cs, b, j) && i <= j
  }

  lemma MergedOrdered(cs: seq<Chunk>, len: nat, a: nat, b: nat, i: nat, j: nat, m: seq<Chunk>)
    requires MergePoint(cs, len, a, b, i, j) && IsMerged(cs, a, b, i, j, m)
    ensures Ordered(m, len)
  {
  }

  lemma MergedAdds(cs: seq<Chunk>, len: nat, a: nat, b: nat, i: nat, j: nat, x: nat)
    requires MergePoint(cs, len, a, b, i, j) && Covers(Merged(cs, a, b, i, j), x)
    ensures Covers(cs, x) || a <= x < b
  {
    var c :| c in Merged(cs, a, b, i, j) && Spans(c, x);
    if c == Grown(cs, a, b, i, j) && !(a <= x < b) {
      assert cs[i] in cs && cs[j] in cs;
      assert Spans(cs[i], x) || Spans(cs[j], x);
    }
  }

  lemma MergedKeeps(cs: seq<Chunk>, len: nat, a: nat, b: nat, i: nat, j: nat, k: nat, x: nat)
    requires MergePoint(cs, len, a, b, i, j) && k < |cs| && Spans(cs[k], x)
    ensures Covers(Merged(cs, a, b, i, j), x)
  {
    var m := Merged(cs, a, b, i, j);
    if k < i {
      assert cs[..i][k] in m;
    } else if k >= Rest(cs, b, j) {
      assert cs[Rest(cs, b, j)..][k - Rest(cs, b, j)] in m;
    } else {
      assert Grown(cs, a, b, i, j) in m && Spans(Grown(cs, a, b, i, j), x);
    }
  }

  /** Exactly the fragment's bytes are added to what has arrived. */
  lemma MergedCovers(cs: seq<Chunk>, len: nat, a: nat, b: nat, i: nat, j: nat, x: nat)
    requires MergePoint(cs, len, a, b, i, j)
    ensures Covers(Merged(cs, a, b, i, j), x) <==> Covers(cs, x) || a <= x < b
  {
    if Covers(Merged(cs, a, b, i, j), x) {
      MergedAdds(cs, len, a, b, i, j, x);
    }
    if Covers(cs, x) {
      var c :| c in cs && Spans(c, x);
      var k :| 0 <= k < |cs| && cs[k] == c;
      MergedKeeps(cs, len, a, b, i, j, k, x);
    } else if a <= x < b {
      var g := Grown(cs, a, b, i, j);
      assert g in Merged(cs, a, b, i, j) && Spans(g, x);
    }
  }

  // ---- the same on the bytes

  /** All chunks are cut from the datagram; an extended list ends in an empty one at `b`. */
  ghost predicate AllCut(cs: seq<Chunk>, n: nat) {
    forall k :: 0 <= k < |cs| ==> Cut(cs[k], n)
  }

  ghost predicate CutBut(cs: seq<Chunk>, n: nat, b: nat) {
    forall k :: 0 <= k < |cs| ==> Cut(cs[k], n) || (k == |cs| - 1 && cs[k] == Chunk(b, b))
  }

  ghost predicate Holds(mem: seq<Byte>, cs: seq<Chunk>, whole: seq<Byte>) {
    forall x :: 0 <= x < |whole| && Covers(cs, x) ==> x < |mem| && mem[x] == whole[x]
  }

  /** Everything about the list that the bytes say. */
  ghost predicate Threaded(mem: seq<Byte>, cs: seq<Chunk>) {
    forall k :: 0 <= k && k + 1 < |cs| ==> Linked(mem, cs, k)
  }

  /** The bytes after lines 313-320. */
  ghost function Relinked(mem: seq<Byte>, cs: seq<Chunk>, a: nat, b: nat, i: nat, j: nat): (r: seq<Byte>)
    requires Patchable(mem, cs, a, b, i, j)
    ensures |r| == |mem|
  {
    var mem1 := if b < cs[j].off then WithLink(mem, b, cs[j]) else mem;
    if i > 0 then WithLink(mem1, cs[i - 1].lastoff, Grown(cs, a, b, i, j)) else mem1
  }

  /** The bytes after lines 313-323. */
  ghost function Patched(mem: seq<Byte>, cs: seq<Chunk>, a: nat, data: seq<Byte>, i: nat, j: nat): (r: seq<Byte>)
    requires Patchable(mem, cs, a, a + |data|, i, j)
    ensures |r| == |mem|
  {
    WithData(Relinked(mem, cs, a, a + |data|, i, j), a, data)
  }

  ghost predicate Patchable(mem: seq<Byte>, cs: seq<Chunk>, a: nat, b: nat, i: nat, j: nat) {
    && |mem| >= b >= a && i <= j < |cs| && cs[j].off <= cs[j].lastoff < 0x1_0000 && b < 0x1_0000 && a < 0x1_0000
    && (b < cs[j].off ==> b + 4 <= |mem|)
    && (i > 0 ==> cs[i - 1].lastoff + 4 <= a)
  }

  /** There is room for every link, because offsets are multiples of 8. */
  lemma CanPatch(mem: seq<Byte>, cs: seq<Chunk>, len: nat, n: nat, a: nat, b: nat, i: nat, j: nat)
    requires MergePoint(cs, len, a, b, i, j) && CutBut(cs, n, b) && Cut(Chunk(a, b), n)
    requires n < 0x1_0000 && len <= n && len <= |mem|
    ensures Patchable(mem, cs, a, b, i, j)
    ensures i > 0 ==> cs[i - 1].lastoff + 8 <= a
    ensures b < cs[j].off ==> b + 8 <= cs[j].off
  {
    if i > 0 {
      assert Cut(cs[i - 1], n);
      assert cs[i - 1].lastoff < cs[i].off;
    }
    if b < cs[j].off {
      assert Cut(cs[j], n);
    }
  }

  lemma MergedCut(cs: seq<Chunk>, len: nat, n: nat, a: nat, b: nat, i: nat, j: nat, m: seq<Chunk>)
    requires MergePoint(cs, len, a, b, i, j) && CutBut(cs, n, b) && Cut(Chunk(a, b), n)
    requires IsMerged(cs, a, b, i, j, m)
    ensures AllCut(m, n)
  {
    forall k | 0 <= k < |m|
      ensures Cut(m[k], n)
    {
      if k < i {
        assert m[k] == cs[k] && Cut(cs[k], n);
      } else if k == i {
        assert m[k] == Grown(cs, a, b, i, j);
        assert (Cut(cs[i], n) || cs[i] == Chunk(b, b)) && (Cut(cs[j], n) || cs[j] == Chunk(b, b));
      } else {
        assert m[k] == cs[k - i - 1 + Rest(cs, b, j)];
        var l := k - i - 1 + Rest(cs, b, j);
        assert j < l ==> cs[j].lastoff < cs[l].off;
        assert Cut(cs[l], n);
      }
    }
  }

  /** `r` is `mem` with links rewritten and the data copied in. */
  ghost predicate IsPatched(mem: seq<Byte>, cs: seq<Chunk>, a: nat, data: seq<Byte>, i: nat, j: nat, r: seq<Byte>)
    requires Patchable(mem, cs, a, a + |data|, i, j)
  {
    && |r| == |mem|
    && (i > 0 ==> LinkAt(r, cs[i - 1].lastoff) == Grown(cs, a, a + |data|, i, j))
    && (a + |data| < cs[j].off ==> LinkAt(r, a + |data|) == cs[j])
    && r[a..a + |data|] == data
    && forall x :: 0 <= x < |mem| && !Written(cs, a, a + |data|, i, j, x) ==> r[x] == mem[x]
  }

  /** Some step of the patch writes byte `x`. */
  ghost predicate Written(cs: seq<Chunk>, a: nat, b: nat, i: nat, j: nat, x: int)
    requires i <= j < |cs|
  {
    a <= x < b || (b < cs[j].off && b <= x < b + 4) || (i > 0 && cs[i - 1].lastoff <= x < cs[i - 1].lastoff + 4)
  }

  lemma PatchedIs(mem: seq<Byte>, cs: seq<Chunk>, a: nat, data: seq<Byte>, i: nat, j: nat)
    requires Patchable(mem, cs, a, a + |data|, i, j)
    ensures IsPatched(mem, cs, a, data, i, j, Patched(mem, cs, a, data, i, j))
  {
  }

  lemma SameLink(mem: seq<Byte>, r: seq<Byte>, pos: nat)
    requires pos + 4 <= |mem| == |r| && forall x :: pos <= x < pos + 4 ==> r[x] == mem[x]
    ensures LinkAt(r, pos) == LinkAt(mem, pos)
  {
  }

  /** A link out of reach of the patch. */
  lemma LinkStays(mem: seq<Byte>, cs: seq<Chunk>, a: nat, data: seq<Byte>, i: nat, j: nat, r: seq<Byte>, k: nat)
    requires Patchable(mem, cs, a, a + |data|, i, j) && IsPatched(mem, cs, a, data, i, j, r)
    requires k + 1 < |cs| && Linked(mem, cs, k)
    requires (i > 0 && cs[k].lastoff + 8 <= cs[i - 1].lastoff)
      || (cs[k].lastoff >= a + |data| && (a + |data| < cs[j].off ==> cs[k].lastoff >= a + |data| + 4))
    ensures cs[k].lastoff + 4 <= |r| && LinkAt(r, cs[k].lastoff) == cs[k + 1]
  {
    SameLink(mem, r, cs[k].lastoff);
  }

  lemma LaterStays(mem: seq<Byte>, cs: seq<Chunk>, len: nat, a: nat, data: seq<Byte>, i: nat, j: nat, r: seq<Byte>, l: nat)
    requires MergePoint(cs, len, a, a + |data|, i, j) && Threaded(mem, cs)
    requires Patchable(mem, cs, a, a + |data|, i, j) && IsPatched(mem, cs, a, data, i, j, r)
    requires j <= l && l + 1 < |cs| && (a + |data| < cs[j].off ==> a + |data| + 8 <= cs[j].off)
    ensures cs[l].lastoff + 4 <= |r| && LinkAt(r, cs[l].lastoff) == cs[l + 1]
  {
    assert Linked(mem, cs, l);
    assert l > j ==> cs[j].lastoff < cs[l].off;
    LinkStays(mem, cs, a, data, i, j, r, l);
  }

  lemma EarlierApart(cs: seq<Chunk>, len: nat, n: nat, b: nat, k: nat, l: nat)
    requires Ordered(cs, len) && CutBut(cs, n, b) && k < l < |cs| - 1 && len <= n
    ensures cs[k].lastoff + 8 <= cs[l].lastoff
  {
    assert cs[k].lastoff < cs[l].off;
    assert Cut(cs[k], n) && Cut(cs[l], n);
    Apart(cs[k].lastoff, cs[l].off);
  }

  lemma EarlierStays(mem: seq<Byte>, cs: seq<Chunk>, len: nat, n: nat, a: nat, data: seq<Byte>, i: nat, j: nat, r: seq<Byte>, k: nat)
    requires Ordered(cs, len) && CutBut(cs, n, a + |data|) && k + 1 < i && len <= n && Threaded(mem, cs)
    requires Patchable(mem, cs, a, a + |data|, i, j) && IsPatched(mem, cs, a, data, i, j, r)
    ensures cs[k].lastoff + 4 <= |r| && LinkAt(r, cs[k].lastoff) == cs[k + 1]
  {
    EarlierApart(cs, len, n, a + |data|, k, i - 1);
    assert Linked(mem, cs, k);
    LinkStays(mem, cs, a, data, i, j, r, k);
  }

  lemma LinkHeld(mem: seq<Byte>, cs: seq<Chunk>, a: nat, data: seq<Byte>, i: nat, j: nat, r: seq<Byte>, m: seq<Chunk>, k: nat)
    requires Patchable(mem, cs, a, a + |data|, i, j) && IsPatched(mem, cs, a, data, i, j, r)
    requires IsMerged(cs, a, a + |data|, i, j, m) && k + 1 < |m|
    requires k + 1 < i ==> cs[k].lastoff + 4 <= |r| && LinkAt(r, cs[k].lastoff) == cs[k + 1]
    requires k > i || (k == i && a + |data| >= cs[j].off) ==>
      var l := k - i - 1 + Rest(cs, a + |data|, j);
      cs[l].lastoff + 4 <= |r| && LinkAt(r, cs[l].lastoff) == cs[l + 1]
    ensures Linked(r, m, k)
  {
  }

  /** The patched bytes thread the merged list. */
  lemma PatchedThreads(mem: seq<Byte>, cs: seq<Chunk>, len: nat, n: nat, a: nat, data: seq<Byte>,
                       i: nat, j: nat, r: seq<Byte>, m: seq<Chunk>)
    requires MergePoint(cs, len, a, a + |data|, i, j) && CutBut(cs, n, a + |data|) && len <= n && Threaded(mem, cs)
    requires Patchable(mem, cs, a, a + |data|, i, j) && IsPatched(mem, cs, a, data, i, j, r)
    requires a + |data| < cs[j].off ==> a + |data| + 8 <= cs[j].off
    requires IsMerged(cs, a, a + |data|, i, j, m)
    ensures Threaded(r, m)
  {
    forall k | 0 <= k && k + 1 < |m|
      ensures Linked(r, m, k)
    {
      if k + 1 < i {
        EarlierStays(mem, cs, len, n, a, data, i, j, r, k);
      } else if k > i || (k == i && a + |data| >= cs[j].off) {
        LaterStays(mem, cs, len, a, data, i, j, r, k - i - 1 + Rest(cs, a + |data|, j));
      }
      LinkHeld(mem, cs, a, data, i, j, r, m, k);
    }
  }

  /** The patched bytes hold what the old ones held, and the fragment. */
  lemma PatchedHolds(mem: seq<Byte>, cs: seq<Chunk>, len: nat, whole: seq<Byte>, a: nat, data: seq<Byte>,
                     i: nat, j: nat, r: seq<Byte>, m: seq<Chunk>)
    requires MergePoint(cs, len, a, a + |data|, i, j) && CutBut(cs, |whole|, a + |data|)
    requires Cut(Chunk(a, a + |data|), |whole|) && whole[a..a + |data|] == data
    requires len <= |mem| && Holds(mem, cs, whole)
    requires Patchable(mem, cs, a, a + |data|, i, j) && IsPatched(mem, cs, a, data, i, j, r)
    requires forall x: nat :: Covers(m, x) <==> Covers(cs, x) || a <= x < a + |data|
    ensures Holds(r, m, whole)
  {
    forall x | 0 <= x < |whole| && Covers(m, x)
      ensures x < |r| && r[x] == whole[x]
    {
      HeldAfter(mem, cs, len, whole, a, data, i, j, r, x);
    }
  }

  lemma HeldAfter(mem: seq<Byte>, cs: seq<Chunk>, len: nat, whole: seq<Byte>, a: nat, data: seq<Byte>,
                  i: nat, j: nat, r: seq<Byte>, x: nat)
    requires MergePoint(cs, len, a, a + |data|, i, j) && CutBut(cs, |whole|, a + |data|)
    requires Cut(Chunk(a, a + |data|), |whole|) && whole[a..a + |data|] == data
    requires Holds(mem, cs, whole) && x < |whole| && (Covers(cs, x) || a <= x < a + |data|)
    requires Patchable(mem, cs, a, a + |data|, i, j) && IsPatched(mem, cs, a, data, i, j, r)
    ensures x < |r| && r[x] == whole[x]
  {
    if a <= x < a + |data| {
      NewHeld(mem, cs, whole, a, data, i, j, r, x);
    } else {
      NotInHole(cs, len, |whole|, a, a + |data|, i, j, x);
      OldHeld(mem, cs, whole, a, data, i, j, r, x);
    }
  }

  lemma NewHeld(mem: seq<Byte>, cs: seq<Chunk>, whole: seq<Byte>, a: nat, data: seq<Byte>, i: nat, j: nat, r: seq<Byte>, x: nat)
    requires Patchable(mem, cs, a, a + |data|, i, j) && IsPatched(mem, cs, a, data, i, j, r)
    requires a <= x < a + |data| <= |whole| && whole[a..a + |data|] == data
    ensures x < |r| && r[x] == whole[x]
  {
    assert whole[a..a + |data|][x - a] == r[a..a + |data|][x - a];
  }

  lemma OldHeld(mem: seq<Byte>, cs: seq<Chunk>, whole: seq<Byte>, a: nat, data: seq<Byte>, i: nat, j: nat, r: seq<Byte>, x: nat)
    requires Patchable(mem, cs, a, a + |data|, i, j) && IsPatched(mem, cs, a, data, i, j, r)
    requires Holds(mem, cs, whole) && x < |whole| && Covers(cs, x) && !Written(cs, a, a + |data|, i, j, x)
    ensures x < |r| && r[x] == whole[x]
  {
  }

  /** Links are only written into holes. */
  lemma NotInHole(cs: seq<Chunk>, len: nat, n: nat, a: nat, b: nat, i: nat, j: nat, x: nat)
    requires MergePoint(cs, len, a, b, i, j) && CutBut(cs, n, b) && Cut(Chunk(a, b), n)
    requires Covers(cs, x) && !(a <= x < b)
    ensures !Written(cs, a, b, i, j, x)
  {
    var c :| c in cs && Spans(c, x);
    var k :| 0 <= k < |cs| && cs[k] == c;
    assert Cut(cs[k], n);
    if b < cs[j].off && b <= x {
      assert Cut(cs[j], n);
      assert k > j ==> cs[j].lastoff < cs[k].off;
      Apart(b, cs[j].off);
    }
    if i > 0 && cs[i - 1].lastoff <= x {
      assert k >= i;
      assert Cut(cs[i - 1], n) && cs[i - 1].lastoff < cs[k].off;
      Apart(cs[i - 1].lastoff, cs[k].off);
    }
  }

  lemma Apart(x: nat, y: nat)
    requires x < y && x % 8 == 0 && y % 8 == 0
    ensures x + 8 <= y
  {
  }

  /** Taking a piece in keeps everything there is to say about the list and its bytes. */
  lemma TakenIn(mem: seq<Byte>, cs: seq<Chunk>, len: nat, whole: seq<Byte>, a: nat, data: seq<Byte>,
                i: nat, j: nat, r: seq<Byte>, m: seq<Chunk>)
    requires MergePoint(cs, len, a, a + |data|, i, j) && CutBut(cs, |whole|, a + |data|)
    requires Cut(Chunk(a, a + |data|), |whole|) && whole[a..a + |data|] == data
    requires len <= |mem| && len <= |whole| < 0x1_0000 && Threaded(mem, cs) && Holds(mem, cs, whole)
    requires Patchable(mem, cs, a, a + |data|, i, j) && IsPatched(mem, cs, a, data, i, j, r)
    requires IsMerged(cs, a, a + |data|, i, j, m)
    requires forall x: nat :: Covers(m, x) <==> Covers(cs, x) || a <= x < a + |data|
    ensures Ordered(m, len) && AllCut(m, |whole|) && Threaded(r, m) && Holds(r, m, whole)
  {
    ListTakenIn(cs, len, |whole|, a, a + |data|, i, j, m);
    CanPatch(mem, cs, len, |whole|, a, a + |data|, i, j);
    PatchedThreads(mem, cs, len, |whole|, a, data, i, j, r, m);
    PatchedHolds(mem, cs, len, whole, a, data, i, j, r, m);
  }

  /** What becomes of the list alone. */
  lemma ListTakenIn(cs: seq<Chunk>, len: nat, n: nat, a: nat, b: nat, i: nat, j: nat, m: seq<Chunk>)
    requires MergePoint(cs, len, a, b, i, j) && CutBut(cs, n, b) && Cut(Chunk(a, b), n) && IsMerged(cs, a, b, i, j, m)
    ensures Ordered(m, len) && AllCut(m, n)
  {
    MergedCut(cs, len, n, a, b, i, j, m);
    MergedOrdered(cs, len, a, b, i, j, m);
  }
}
