/**
 * One datagram under reassembly: the part of `IPReassembler::simple_action`
 * that works on the packet it builds (bfclick/ip/ipreassembler.cc).
 */
module ReassemblyQueues {
  import opened ReassemblyChunks
  import opened Packets
  import opened Results

  /** Where a `ChunkLink` is kept: the packet's annotation, or the hole at `pos`. */
  datatype Ref = Annotation | Hole(pos: nat)

  /** The byte positions from `a` up to `b`. */
  ghost function Range(a: nat, b: nat): set<nat> {
    set x: nat | x < b && From(a, x)
  }

  ghost predicate From(a: nat, x: nat) { a <= x }

  /** The merged list, and what it covers. */
  lemma MergedList(cs: seq<Chunk>, len: nat, seen: set<nat>, a: nat, b: nat, i: nat, j: nat) returns (m: seq<Chunk>)
    requires MergePoint(cs, len, a, b, i, j) && forall x: nat :: Covers(cs, x) <==> x in seen
    ensures m != [] && m[0] == (if i == 0 then Grown(cs, a, b, i, j) else cs[0])
    ensures IsMerged(cs, a, b, i, j, m)
    ensures forall x: nat :: Covers(m, x) <==> Covers(cs, x) || a <= x < b
    ensures forall x: nat :: Covers(m, x) <==> x in seen + Range(a, b)
  {
    m := Merged(cs, a, b, i, j);
    MergedIs(cs, a, b, i, j);
    forall x: nat
      ensures Covers(m, x) <==> Covers(cs, x) || a <= x < b
      ensures Covers(m, x) <==> x in seen + Range(a, b)
    {
      MergedCovers(cs, len, a, b, i, j, x);
      assert x in Range(a, b) <==> x < b && From(a, x);
    }
  }

  /** The list after a patch of the bytes. */
  lemma SplicedList(mem: seq<Byte>, cs: seq<Chunk>, len: nat, whole: seq<Byte>, a: nat, data: seq<Byte>,
                    i: nat, j: nat, r: seq<Byte>, seen: set<nat>) returns (m: seq<Chunk>)
    requires MergePoint(cs, len, a, a + |data|, i, j) && CutBut(cs, |whole|, a + |data|)
    requires Cut(Chunk(a, a + |data|), |whole|) && whole[a..a + |data|] == data
    requires len <= |mem| && len <= |whole| < 0x1_0000 && Threaded(mem, cs) && Holds(mem, cs, whole)
    requires Patchable(mem, cs, a, a + |data|, i, j) && IsPatched(mem, cs, a, data, i, j, r)
    requires forall x: nat :: Covers(cs, x) <==> x in seen
    ensures Ordered(m, len) && AllCut(m, |whole|) && Threaded(r, m) && Holds(r, m, whole)
    ensures m[0] == if i == 0 then Grown(cs, a, a + |data|, i, j) else cs[0]
    ensures forall x: nat :: Covers(m, x) <==> x in seen + Range(a, a + |data|)
  {
    m := MergedList(cs, len, seen, a, a + |data|, i, j);
    TakenIn(mem, cs, len, whole, a, data, i, j, r, m);
  }

  class PacketQueue {
    var mem: seq<Byte>      // the buffer from the transport header on, tailroom included
    var len: nat            // transport_length()
    var first: Chunk        // PACKET_CHUNK
    var flow: Flow
    var hlen: nat
    var rest: seq<Byte>
    var df: bool
    var mf: bool
    const stamp: int        // timestamp_anno().sec()
    ghost var chunks: seq<Chunk>

    ghost predicate Valid()
      reads this
    {
      Ordered(chunks, len) && len <= |mem| && first == chunks[0] && Threaded(mem, chunks)
    }

    /** What has arrived of datagram `w` is exactly the positions `seen`, and right. */
    ghost predicate Tracks(w: Packet, seen: set<nat>)
      reads this
    {
      && Valid() && w.Whole() && flow == w.flow && df == w.df
      && AllCut(chunks, |w.data|) && Holds(mem, chunks, w.data)
      && (forall x: nat :: Covers(chunks, x) <==> x in seen)
      && (mf <==> len < |w.data|) && 0 < len <= |w.data|
      && (0 in seen ==> hlen == w.hlen && rest == w.rest)
    }

    /** Lines 181-204. */
    constructor (p: Packet, now: int, ghost w: Packet)
      requires w.Whole() && p.PieceOf(w) && |p.data| == p.len - p.hlen
      ensures Tracks(w, Range(p.off, p.End())) && len == p.End() && mf == p.mf
      ensures stamp == if p.off == 0 then now else 0
    {
      var n := p.End();
      mem := seq(p.off, i => 0) + p.data;
      len, first := n, Chunk(p.off, n);
      flow, df, mf := p.flow, p.df, p.mf;
      hlen, rest := if p.off == 0 then p.hlen else 20, if p.off == 0 then p.rest else p.rest[..Min(2, |p.rest|)];
      stamp := if p.off == 0 then now else 0;
      chunks := [Chunk(p.off, n)];
      new;
      assert chunks[0] in chunks;
      assert p.data == p.data[..p.len - p.hlen];
      forall x | 0 <= x < |w.data| && Covers(chunks, x)
        ensures x < |mem| && mem[x] == w.data[x]
      {
        assert w.data[p.off..n][x - p.off] == p.data[x - p.off];
      }
    }

    function Get(r: Ref): Chunk
      requires r.Hole? ==> r.pos + 4 <= |mem|
      reads this
    {
      match r
      case Annotation => first
      case Hole(pos) => LinkAt(mem, pos)
    }

    /** Where chunk `i` of the list is kept. */
    ghost function RefOf(i: nat): Ref
      requires i < |chunks|
      reads this
    {
      if i == 0 then Annotation else Hole(chunks[i - 1].lastoff)
    }

    lemma RefHolds(i: nat)
      requires Valid() && i < |chunks|
      ensures RefOf(i).Hole? ==> RefOf(i).pos + 4 <= |mem|
      ensures Get(RefOf(i)) == chunks[i]
    {
      if i > 0 {
        assert Linked(mem, chunks, i - 1);
      }
    }

    lemma OnlyLastEnds(i: nat)
      requires Valid() && i < |chunks|
      ensures chunks[i].lastoff >= len <==> i + 1 == |chunks|
    {
      if i + 1 < |chunks| {
        assert chunks[i].lastoff < chunks[|chunks| - 1].off;
      }
    }

    /** Lines 213-220. */
    method NextChunk(r: Ref, ghost i: nat) returns (next: Option<Ref>)
      requires Valid() && i < |chunks| && r == RefOf(i)
      ensures next == if i + 1 < |chunks| then Some(RefOf(i + 1)) else None
    {
      RefHolds(i);
      var chunk := Get(r);
      OnlyLastEnds(i);
      if chunk.lastoff >= len {
        return None;
      }
      next := Some(Hole(chunk.lastoff));
    }

    /** Lines 304-309: from chunk `i`, the first that ends at `x` or after it. */
    method Seek(r: Ref, ghost i: nat, x: nat) returns (r': Ref, ghost i': nat)
      requires Valid() && i < |chunks| && r == RefOf(i) && x <= len
      requires forall k :: 0 <= k < i ==> chunks[k].lastoff < x
      ensures i <= i' < |chunks| && r' == RefOf(i') && FirstFrom(chunks, x, i')
    {
      r', i' := r, i;
      RefHolds(i');
      while Get(r').lastoff < x
        invariant i <= i' < |chunks| && r' == RefOf(i')
        invariant r'.Hole? ==> r'.pos + 4 <= |mem|
        invariant Get(r') == chunks[i']
        invariant forall k :: 0 <= k < i' ==> chunks[k].lastoff < x
        decreases |chunks| - i'
      {
        var next := NextChunk(r', i');
        r', i' := next.value, i' + 1;
        RefHolds(i');
      }
    }

    /** `put` and `take` (lines 283-295): the buffer now reaches to `newLen`, with some room after it. */
    method Resize(newLen: nat, room: nat)
      requires len <= |mem|
      modifies `mem, `len
      ensures len == newLen && |mem| >= newLen + room
      ensures |mem| >= |old(mem)| && forall x :: 0 <= x < old(len) ==> mem[x] == old(mem)[x]
    {
      if newLen + room > |mem| {
        mem := mem + seq(newLen + room - |mem|, i => 0);
      }
      len := newLen;
    }

    /** The list is as `Tracks` has it, or has an empty chunk at the end `b` added. */
    ghost predicate Ready(w: Packet, seen: set<nat>, b: nat)
      reads this
    {
      && Valid() && len <= |w.data| < 0x1_0000 && b <= len
      && CutBut(chunks, |w.data|, b) && Holds(mem, chunks, w.data)
      && (forall x: nat :: Covers(chunks, x) <==> x in seen)
    }

    /** Lines 271-301. */
    method Extend(a: nat, b: nat, more: bool, ghost w: Packet, ghost seen: set<nat>)
      requires Tracks(w, seen) && len < b <= |w.data| && a < b
      modifies `mem, `len, `chunks
      ensures Ready(w, seen, b) && len == b
    {
      var oldLen := len;
      var wantSpace := b - oldLen + 8 + (if more then b - a else 0);
      Resize(b, oldLen + wantSpace - b);
      mem := WithLink(mem, oldLen, Chunk(b, b));
      chunks := chunks + [Chunk(b, b)];
      Extended(b, w, seen);
    }

    twostate lemma Extended(new b: nat, new w: Packet, new seen: set<nat>)
      requires old(Tracks(w, seen)) && old(len) < b <= |w.data| && len == b
      requires first == old(first) && chunks == old(chunks) + [Chunk(b, b)]
      requires |mem| >= old(len) + 4 && |mem| >= b && LinkAt(mem, old(len)) == Chunk(b, b)
      requires forall x :: 0 <= x < old(len) ==> mem[x] == old(mem)[x]
      ensures Ready(w, seen, b)
    {
      var cs := old(chunks);
      forall k | 0 <= k && k + 1 < |chunks|
        ensures Linked(mem, chunks, k)
      {
        if k + 1 < |cs| {
          assert Linked(old(mem), cs, k);
          assert cs[k].lastoff < cs[k + 1].off && Cut(cs[k], |w.data|) && Cut(cs[k + 1], |w.data|);
          Apart(cs[k].lastoff, cs[k + 1].off);
          SameLink(old(mem)[..old(len)], mem[..old(len)], cs[k].lastoff);
        }
      }
      forall x: nat
        ensures Covers(chunks, x) <==> Covers(cs, x)
        ensures Covers(cs, x) ==> x < old(len)
      {
        if Covers(chunks, x) {
          var c :| c in chunks && Spans(c, x);
          assert c in cs;
        }
      }
    }

    method Set(r: Ref, c: Chunk)
      requires r.Hole? ==> r.pos + 4 <= |mem| && c.off < 0x1_0000 && c.lastoff < 0x1_0000
      modifies `mem, `first
      ensures first == if r.Annotation? then c else old(first)
      ensures mem == if r.Hole? then WithLink(old(mem), r.pos, c) else old(mem)
    {
      match r {
        case Annotation => first := c;
        case Hole(pos) => mem := WithLink(mem, pos, c);
      }
    }

    /** Lines 312-320. */
    method Relink(chunk: Ref, last: Ref, a: nat, b: nat, ghost i: nat, ghost j: nat)
      requires Valid() && i <= j < |chunks| && a < b && len < 0x1_0000
      requires Patchable(mem, chunks, a, b, i, j)
      requires chunk == RefOf(i) && last == RefOf(j)
      modifies `mem, `first
      ensures mem == Relinked(old(mem), chunks, a, b, i, j)
      ensures first == if i == 0 then Grown(chunks, a, b, i, j) else old(first)
    {
      RefHolds(i);
      RefHolds(j);
      var c, l := Get(chunk), Get(last);
      if b < l.off {
        mem := WithLink(mem, b, l);
      }
      Set(chunk, Chunk(Min(a, c.off), if b < l.off then b else l.lastoff));
    }

    /** Lines 312-323. */
    method Patch(chunk: Ref, last: Ref, a: nat, data: seq<Byte>, ghost i: nat, ghost j: nat)
      requires Valid() && MergePoint(chunks, len, a, a + |data|, i, j)
      requires Patchable(mem, chunks, a, a + |data|, i, j)
      requires chunk == RefOf(i) && last == RefOf(j) && len < 0x1_0000
      modifies `mem, `first
      ensures IsPatched(old(mem), chunks, a, data, i, j, mem)
      ensures first == if i == 0 then Grown(chunks, a, a + |data|, i, j) else old(first)
    {
      Relink(chunk, last, a, a + |data|, i, j);
      mem := WithData(mem, a, data);
      PatchedIs(old(mem), chunks, a, data, i, j);
    }

    /** Lines 312-323, and what they do to the list. */
    method Splice(chunk: Ref, last: Ref, a: nat, data: seq<Byte>, ghost i: nat, ghost j: nat,
                  ghost w: Packet, ghost seen: set<nat>)
      requires Ready(w, seen, a + |data|) && MergePoint(chunks, len, a, a + |data|, i, j)
      requires Patchable(mem, chunks, a, a + |data|, i, j) && chunk == RefOf(i) && last == RefOf(j)
      requires Cut(Chunk(a, a + |data|), |w.data|) && w.data[a..a + |data|] == data
      modifies `mem, `first, `chunks
      ensures Valid() && AllCut(chunks, |w.data|) && Holds(mem, chunks, w.data)
      ensures forall x: nat :: Covers(chunks, x) <==> x in seen + Range(a, a + |data|)
    {
      ghost var was, cs := mem, chunks;
      Patch(chunk, last, a, data, i, j);
      chunks := SplicedList(was, cs, len, w.data, a, data, i, j, mem, seen);
    }

    /** Lines 303-323. */
    method Insert(a: nat, data: seq<Byte>, ghost w: Packet, ghost seen: set<nat>)
      requires Ready(w, seen, a + |data|)
      requires Cut(Chunk(a, a + |data|), |w.data|) && w.data[a..a + |data|] == data
      modifies `mem, `first, `chunks
      ensures Valid() && AllCut(chunks, |w.data|) && Holds(mem, chunks, w.data)
      ensures forall x: nat :: Covers(chunks, x) <==> x in seen + Range(a, a + |data|)
    {
      var chunk, i := Seek(Annotation, 0, a);
      var last, j := Seek(chunk, i, a + |data|);
      CanPatch(mem, chunks, len, |w.data|, a, a + |data|, i, j);
      Splice(chunk, last, a, data, i, j, w, seen);
    }

    /** Lines 270-342: the queue takes a piece in; a piece past the end of a complete datagram is refused. */
    method Absorb(p: Packet, ghost w: Packet, ghost seen: set<nat>) returns (kept: bool)
      requires Tracks(w, seen) && p.PieceOf(w) && |p.data| == p.len - p.hlen
      modifies this
      ensures kept && Tracks(w, seen + Range(p.off, p.End())) && len == Max(old(len), p.End())
    {
      var a, b := p.off, p.End();
      assert p.data == p.data[..p.len - p.hlen];
      if b > len {
        if !mf {
          return false;
        }
        Extend(a, b, p.mf, w, seen);
      }
      Insert(a, p.data, w, seen);
      if a == 0 {
        hlen, rest, flow := p.hlen, p.rest, p.flow;
      }
      if !p.mf {
        mf := false;
      }
      FirstByte(seen, a, b);
      kept := true;
    }

    /** Byte 0 comes with the piece at offset 0. */
    static lemma FirstByte(seen: set<nat>, a: nat, b: nat)
      requires a < b
      ensures 0 in seen + Range(a, b) <==> 0 in seen || a == 0
    {
      assert 0 in Range(a, b) <==> 0 < b && From(a, 0);
    }

    /** The datagram is complete exactly when every one of its bytes has arrived. */
    lemma Complete(w: Packet, seen: set<nat>)
      requires Tracks(w, seen)
      ensures Done() <==> seen == Range(0, |w.data|)
      ensures Done() ==> len == |w.data| && mem[..len] == w.data && hlen == w.hlen && rest == w.rest
    {
      var n := |w.data|;
      var c := chunks[0];
      assert c in chunks && Cut(c, n);
      if Done() {
        assert |chunks| == 1 by {
          OnlyLastEnds(0);
        }
        forall x: nat
          ensures x in seen <==> x in Range(0, n)
          ensures x < n ==> mem[x] == w.data[x]
        {
          assert x < n ==> Spans(c, x);
          assert x in Range(0, n) <==> x < n && From(0, x);
          assert Covers(chunks, x) <==> x in seen;
        }
      } else if seen == Range(0, n) {
        Reaches(w, seen, 0);
        Reaches(w, seen, c.lastoff);
      }
    }

    /** If all bytes are there, a byte not in the first chunk is past the end. */
    lemma Reaches(w: Packet, seen: set<nat>, x: nat)
      requires Tracks(w, seen) && seen == Range(0, |w.data|) && x < |w.data|
      ensures exists k :: 0 <= k < |chunks| && Spans(chunks[k], x)
      ensures x == 0 ==> chunks[0].off == 0
      ensures x != chunks[0].lastoff
    {
      assert From(0, x) && x in Range(0, |w.data|) && Covers(chunks, x);
      var c :| c in chunks && Spans(c, x);
      var k :| 0 <= k < |chunks| && chunks[k] == c;
      if k > 0 {
        assert chunks[0].lastoff < chunks[k].off && Cut(chunks[0], |w.data|);
      }
    }

    /** Lines 345-347. */
    predicate Done()
      reads this
    {
      !mf && first.off == 0 && first.lastoff == len
    }

    /** Lines 163-171, as a packet: the header length is added to the payload's in 16 bits. */
    method Emit(ghost w: Packet, ghost seen: set<nat>) returns (p: Packet)
      requires Tracks(w, seen) && Done()
      ensures p == w
    {
      Complete(w, seen);
      p := Packet(flow, hlen, rest, df, false, 0, (hlen + len) % 0x1_0000, mem[..len]);
    }
  }

  function Max(a: nat, b: nat): nat { if a > b then a else b }
}
