/**
 * Fragmentation undone: whatever pieces of a datagram the fragmenter makes,
 * in whatever order they arrive, the reassembler gives the datagram back.
 */
module RoundTrips {
  import opened ReassemblyChunks
  import opened Packets
  import opened ReassemblyQueues
  import opened Reassemblers
  import opened Fragmenters
  import opened Results

  lemma SliceOfSlice(s: seq<Byte>, a: nat, b: nat, i: nat, j: nat)
    requires a <= b <= |s| && i <= j <= b - a
    ensures s[a..b][i..j] == s[a + i..a + j]
  {
    var t := s[a..b];
    forall k | 0 <= k < j - i
      ensures t[i..j][k] == s[a + i..a + j][k]
    {
      assert t[i..j][k] == t[i + k] == s[a + i + k];
    }
  }

  lemma SlicedData(f: Packet, p: Packet, w: Packet, mtu: nat)
    requires w.Whole() && p.PieceOf(w) && FragmentOf(f, p, mtu)
    ensures f.data == w.data[f.off..f.End()]
  {
    var i, j := f.off - p.off, f.End() - p.off;
    SliceOfSlice(p.data, 0, p.len - p.hlen, i, j);
    SliceOfSlice(w.data, p.off, p.End(), i, j);
  }

  /** A piece cut again is in pieces of the same datagram. */
  lemma PieceOfPiece(f: Packet, p: Packet, w: Packet, mtu: nat)
    requires w.Whole() && p.PieceOf(w) && FragmentOf(f, p, mtu)
    ensures f.PieceOf(w)
  {
    SlicedData(f, p, w, mtu);
    CutAgainCut(f, p, |w.data|, mtu);
    assert f.data[..f.len - f.hlen] == f.data;
  }

  lemma CutAgainCut(f: Packet, p: Packet, n: nat, mtu: nat)
    requires FragmentOf(f, p, mtu) && p.End() >= 0 && Cut(Chunk(p.off, p.End()), n)
    ensures Cut(Chunk(f.off, f.End()), n)
  {
    Aligned(p.off, f.off);
    if f.End() < p.End() {
      Aligned(p.off, f.End());
    }
  }

  lemma Aligned(a: int, b: int)
    requires a % 8 == 0 && (b - a) % 8 == 0
    ensures b % 8 == 0
  {
  }

  lemma WholeIsPiece(w: Packet)
    requires w.Whole()
    ensures w.PieceOf(w)
  {
    assert w.data[..w.len - w.hlen] == w.data[0..w.End()];
  }

  // ---- which bytes a list of pieces holds

  ghost function Bytes(f: Packet): set<nat> {
    if f.End() < 0 then {} else Range(f.off, f.End())
  }

  ghost predicate Pieces(ps: seq<Packet>, w: Packet) {
    forall p :: p in ps ==> p.PieceOf(w)
  }

  ghost function Union(ps: seq<Packet>): set<nat> {
    if ps == [] then {} else Bytes(ps[0]) + Union(ps[1..])
  }

  ghost function Total(ps: seq<Packet>): int {
    if ps == [] then 0 else ps[0].End() - ps[0].off + Total(ps[1..])
  }

  lemma {:induction false} RangeSize(a: nat, b: nat)
    requires a <= b
    ensures |Range(a, b)| == b - a
    decreases b
  {
    if a < b {
      RangeSize(a, b - 1);
      RangeSplit(a, b - 1, b);
      var c := b - 1;
      assert Range(c, b) == {c} by {
        assert From(c, c) && c in Range(c, b);
        forall x: nat | x in Range(c, b)
          ensures x == c
        {
          assert From(c, x);
        }
      }
    } else {
      forall x: nat
        ensures x !in Range(a, b)
      {
        assert x in Range(a, b) <==> x < b && From(a, x);
      }
      assert Range(a, b) == {};
    }
  }

  lemma RangeSplit(a: nat, m: nat, b: nat)
    requires a <= m <= b
    ensures Range(a, b) == Range(a, m) + Range(m, b) && Range(a, m) !! Range(m, b)
  {
    forall x: nat
      ensures x in Range(a, b) <==> x in Range(a, m) || x in Range(m, b)
      ensures x !in Range(a, m) || x !in Range(m, b)
    {
      assert x in Range(a, b) <==> x < b && From(a, x);
      assert x in Range(a, m) <==> x < m && From(a, x);
      assert x in Range(m, b) <==> x < b && From(m, x);
    }
  }

  lemma {:induction false} UnionSize(ps: seq<Packet>, w: Packet)
    requires Pieces(ps, w)
    ensures |Union(ps)| <= Total(ps)
  {
    if ps != [] {
      UnionSize(ps[1..], w);
      assert ps[0] in ps;
      RangeSize(ps[0].off, ps[0].End());
    }
  }

  lemma {:induction false} UnionHas(ps: seq<Packet>, x: nat)
    ensures x in Union(ps) <==> exists p :: p in ps && x in Bytes(p)
  {
    if ps != [] {
      UnionHas(ps[1..], x);
      assert forall p :: p in ps <==> p == ps[0] || p in ps[1..];
    }
  }

  lemma Pulled(qs: seq<Packet>, i: nat)
    requires i < |qs|
    ensures multiset(qs) == multiset(qs[..i] + qs[i + 1..]) + multiset{qs[i]}
  {
    assert qs == qs[..i] + ([qs[i]] + qs[i + 1..]);
  }

  lemma OneLess(ps: seq<Packet>, qs: seq<Packet>, i: nat)
    requires multiset(ps) == multiset(qs) && ps != [] && i < |qs| && qs[i] == ps[0]
    ensures multiset(ps[1..]) == multiset(qs[..i] + qs[i + 1..])
  {
    Pulled(qs, i);
    Pulled(ps, 0);
    assert ps[..0] + ps[1..] == ps[1..];
    var a, b := multiset(ps[1..]), multiset(qs[..i] + qs[i + 1..]);
    assert a + multiset{ps[0]} == b + multiset{ps[0]};
    assert a == a + multiset{ps[0]} - multiset{ps[0]};
    assert b == b + multiset{ps[0]} - multiset{ps[0]};
  }

  /** The order of the pieces matters to neither. */
  lemma {:induction false} TotalPermutes(ps: seq<Packet>, qs: seq<Packet>)
    requires multiset(ps) == multiset(qs)
    ensures Total(ps) == Total(qs)
  {
    if ps == [] {
      assert |qs| == |multiset(qs)| == |multiset(ps)| == 0;
    } else {
      assert ps[0] in multiset(qs);
      var i :| 0 <= i < |qs| && qs[i] == ps[0];
      OneLess(ps, qs, i);
      TotalPermutes(ps[1..], qs[..i] + qs[i + 1..]);
      TotalWithout(qs, i);
    }
  }

  lemma {:induction false} TotalWithout(qs: seq<Packet>, i: nat)
    requires i < |qs|
    ensures Total(qs) == qs[i].End() - qs[i].off + Total(qs[..i] + qs[i + 1..])
  {
    if i == 0 {
      assert qs[..0] + qs[1..] == qs[1..];
    } else {
      TotalWithout(qs[1..], i - 1);
      assert (qs[..i] + qs[i + 1..])[1..] == qs[1..][..i - 1] + qs[1..][i..];
    }
  }

  lemma UnionPermutes(ps: seq<Packet>, qs: seq<Packet>)
    requires multiset(ps) == multiset(qs)
    ensures Union(ps) == Union(qs)
  {
    assert forall p :: p in ps <==> p in multiset(ps);
    assert forall p :: p in qs <==> p in multiset(qs);
    forall x: nat
      ensures x in Union(ps) <==> x in Union(qs)
    {
      UnionHas(ps, x);
      UnionHas(qs, x);
    }
  }

  lemma Within(f: Packet, p: Packet, mtu: nat)
    requires FragmentOf(f, p, mtu)
    ensures p.off <= f.off < f.End() <= p.End()
  {
  }

  lemma AllButLast(fs: seq<Packet>, p: Packet, mtu: nat, end: int)
    requires SoFar(fs, p, mtu, end) && |fs| > 1
    ensures SoFar(fs[..|fs| - 1], p, mtu, fs[|fs| - 1].off)
  {
    TilesFewer(fs, p, end);
    AllFewer(fs, |fs| - 1, f => FragmentOf(f, p, mtu));
  }

  lemma TilesFewer(fs: seq<Packet>, p: Packet, end: int)
    requires Tiles(fs, p, end) && |fs| > 1
    ensures Tiles(fs[..|fs| - 1], p, fs[|fs| - 1].off)
  {
    var n := |fs| - 1;
    assert Follows(fs, n - 1);
    forall k | 0 <= k && k + 1 < n
      ensures Follows(fs[..n], k)
    {
      assert Follows(fs, k);
    }
  }

  lemma AllFewer<T>(s: seq<T>, n: nat, holds: T -> bool)
    requires n <= |s| && forall k :: 0 <= k < |s| ==> holds(s[k])
    ensures forall k :: 0 <= k < n ==> holds(s[..n][k])
  {
  }

  /** Fragments hold every byte of their packet once. */
  lemma {:induction false} FragmentsTile(fs: seq<Packet>, p: Packet, mtu: nat, end: int)
    requires SoFar(fs, p, mtu, end)
    ensures end >= p.off
    ensures Union(fs) == Range(p.off, end) && Total(fs) == end - p.off
    decreases |fs|
  {
    var n := |fs| - 1;
    Within(fs[n], p, mtu);
    assert fs == fs[..n] + [fs[n]];
    if n == 0 {
      UnionAppend([], fs[0]);
      assert fs == [] + [fs[0]];
    } else {
      AllButLast(fs, p, mtu, end);
      FragmentsTile(fs[..n], p, mtu, fs[n].off);
      UnionAppend(fs[..n], fs[n]);
      RangeSplit(p.off, fs[n].off, end);
    }
  }

  lemma {:induction false} UnionAppend(fs: seq<Packet>, f: Packet)
    ensures Union(fs + [f]) == Union(fs) + Bytes(f) && Total(fs + [f]) == Total(fs) + f.End() - f.off
  {
    if fs == [] {
      assert [f][1..] == [];
    } else {
      UnionAppend(fs[1..], f);
      assert (fs + [f])[1..] == fs[1..] + [f];
    }
  }

  // ---- what the reassembler does with a list of pieces

  /** One output for each piece of `w` that arrives, `seen` having arrived before. */
  ghost function Outputs(seen: set<nat>, ps: seq<Packet>, w: Packet): (outs: seq<Option<Packet>>)
    ensures |outs| == |ps|
    decreases |ps|
  {
    if ps == [] then []
    else
      var next := seen + Bytes(ps[0]);
      if next == Range(0, |w.data|) then [Some(w)] + Outputs({}, ps[1..], w)
      else [None] + Outputs(next, ps[1..], w)
  }

  lemma PieceInRange(p: Packet, w: Packet)
    requires p.PieceOf(w)
    ensures Bytes(p) <= Range(0, |w.data|)
  {
    forall x: nat | x in Bytes(p)
      ensures x in Range(0, |w.data|)
    {
      assert From(0, x) && (x in Range(p.off, p.End()) <==> x < p.End() && From(p.off, x));
    }
  }

  /** Pieces with duplicates and overlaps: once every byte has come, the datagram has. */
  lemma {:induction false} CoveredIsEmitted(seen: set<nat>, ps: seq<Packet>, w: Packet)
    requires Pieces(ps, w) && seen < Range(0, |w.data|) <= seen + Union(ps)
    ensures Some(w) in Outputs(seen, ps, w)
    decreases |ps|
  {
    if ps != [] {
      assert ps[0] in ps;
      PieceInRange(ps[0], w);
      var next := seen + Bytes(ps[0]);
      if next != Range(0, |w.data|) {
        CoveredIsEmitted(next, ps[1..], w);
      }
    }
  }

  ghost function Nones(n: nat): seq<Option<Packet>> {
    if n == 0 then [] else [None] + Nones(n - 1)
  }

  lemma SomeLeft(ps: seq<Packet>, w: Packet)
    requires Pieces(ps, w) && ps != []
    ensures Total(ps) > 0
  {
    assert ps[0] in ps;
    UnionSize(ps[1..], w);
  }

  /** While pieces that hold every byte once keep coming, bytes are missing. */
  lemma StillMissing(seen: set<nat>, ps: seq<Packet>, w: Packet)
    requires Pieces(ps, w) && |ps| > 1 && seen + Union(ps) == Range(0, |w.data|) && |seen| + Total(ps) == |w.data|
    ensures var next := seen + Bytes(ps[0]);
      next != Range(0, |w.data|) && next + Union(ps[1..]) == Range(0, |w.data|) && |next| + Total(ps[1..]) == |w.data|
  {
    var p, rest := ps[0], ps[1..];
    assert p in ps;
    var next := seen + Bytes(p);
    RangeSize(0, |w.data|);
    RangeSize(p.off, p.End());
    SizeOfBoth(seen, Bytes(p));
    SomeLeft(rest, w);
    UnionSize(rest, w);
    assert next + Union(rest) == Range(0, |w.data|);
    SizeOfBoth(next, Union(rest));
  }

  lemma SizeOfBoth(a: set<nat>, b: set<nat>)
    ensures |a + b| <= |a| + |b|
  {
    assert a + b == a + (b - a);
    assert |b| == |b - a| + |b * a| by {
      assert b == (b - a) + (b * a);
    }
  }

  /** Pieces that hold every byte once, in any order: the datagram comes with the last of them. */
  lemma {:induction false} EmittedOnce(seen: set<nat>, ps: seq<Packet>, w: Packet)
    requires Pieces(ps, w) && ps != [] && seen + Union(ps) == Range(0, |w.data|)
    requires |seen| + Total(ps) == |w.data|
    ensures Outputs(seen, ps, w) == Nones(|ps| - 1) + [Some(w)]
    decreases |ps|
  {
    if |ps| == 1 {
      assert ps[1..] == [];
    } else {
      StillMissing(seen, ps, w);
      EmittedOnce(seen + Bytes(ps[0]), ps[1..], w);
    }
  }

  /** The fragments of a datagram, in any order, are pieces of it that hold every byte once. */
  lemma Shuffled(fs: seq<Packet>, w: Packet, mtu: nat, ps: seq<Packet>)
    requires w.Whole() && w.len > mtu && Fragments(fs, w, mtu) && multiset(ps) == multiset(fs)
    ensures |ps| > 1 && Pieces(ps, w) && forall p <- ps :: p.IsFragment()
    ensures Union(ps) == Range(0, |w.data|) && Total(ps) == |w.data|
  {
    ManyFragments(fs, w, mtu);
    assert |ps| == |multiset(ps)| == |multiset(fs)| == |fs|;
    ShuffledPieces(fs, w, mtu, ps);
    FragmentsTile(fs, w, mtu, w.End());
    UnionPermutes(fs, ps);
    TotalPermutes(fs, ps);
  }

  /** ... and with no reaping in between the last to arrive brings the datagram. */
  lemma AnyOrder(fs: seq<Packet>, w: Packet, mtu: nat, ps: seq<Packet>)
    requires w.Whole() && w.len > mtu && Fragments(fs, w, mtu) && multiset(ps) == multiset(fs)
    ensures Outputs({}, ps, w) == Nones(|ps| - 1) + [Some(w)]
  {
    Shuffled(fs, w, mtu, ps);
    NoneSeen(w, ps);
    EmittedOnce({}, ps, w);
  }

  lemma ShuffledPieces(fs: seq<Packet>, w: Packet, mtu: nat, ps: seq<Packet>)
    requires w.Whole() && w.len > mtu && Fragments(fs, w, mtu) && multiset(ps) == multiset(fs)
    ensures ps != [] && Pieces(ps, w) && forall p <- ps :: p.IsFragment()
  {
    WholeIsPiece(w);
    assert |ps| == |multiset(ps)| == |multiset(fs)| == |fs|;
    forall p | p in ps
      ensures p.PieceOf(w) && p.IsFragment()
    {
      assert p in multiset(ps);
      assert FragmentOf(p, w, mtu);
      PieceOfPiece(p, w, w, mtu);
    }
  }

  lemma NoneSeen(w: Packet, ps: seq<Packet>)
    requires Union(ps) == Range(0, |w.data|) && Total(ps) == |w.data|
    ensures var none: set<nat> := {}; none + Union(ps) == Range(0, |w.data|) && |none| + Total(ps) == |w.data|
  {
  }

  ghost function Flatten(fss: seq<seq<Packet>>): seq<Packet> {
    if fss == [] then [] else fss[0] + Flatten(fss[1..])
  }

  lemma {:induction false} UnionConcat(fs: seq<Packet>, gs: seq<Packet>)
    ensures Union(fs + gs) == Union(fs) + Union(gs) && Total(fs + gs) == Total(fs) + Total(gs)
  {
    if fs == [] {
      assert fs + gs == gs;
    } else {
      UnionConcat(fs[1..], gs);
      assert (fs + gs)[1..] == fs[1..] + gs;
    }
  }

  ghost predicate CutEach(fs: seq<Packet>, fss: seq<seq<Packet>>, mtus: seq<nat>) {
    |fss| == |mtus| == |fs| && forall k :: 0 <= k < |fs| ==> Fragments(fss[k], fs[k], mtus[k])
  }

  lemma CutRest(fs: seq<Packet>, fss: seq<seq<Packet>>, mtus: seq<nat>)
    requires CutEach(fs, fss, mtus) && fs != []
    ensures CutEach(fs[1..], fss[1..], mtus[1..])
  {
    forall k | 0 <= k < |fs[1..]|
      ensures Fragments(fss[1..][k], fs[1..][k], mtus[1..][k])
    {
      assert Fragments(fss[k + 1], fs[k + 1], mtus[k + 1]);
    }
  }

  lemma PiecesOfPiece(gs: seq<Packet>, f: Packet, mtu: nat, w: Packet)
    requires w.Whole() && f.PieceOf(w) && Fragments(gs, f, mtu)
    ensures Pieces(gs, w)
  {
    forall g | g in gs
      ensures g.PieceOf(w)
    {
      PieceOfPiece(g, f, w, mtu);
    }
  }

  /** Fragments cut again, each to an MTU of its own, still hold every byte once. */
  lemma {:induction false} CutAgain(fs: seq<Packet>, fss: seq<seq<Packet>>, mtus: seq<nat>, w: Packet)
    requires w.Whole() && Pieces(fs, w) && CutEach(fs, fss, mtus)
    ensures Pieces(Flatten(fss), w)
    ensures Union(Flatten(fss)) == Union(fs) && Total(Flatten(fss)) == Total(fs)
  {
    if fs != [] {
      assert fs[0] in fs && Fragments(fss[0], fs[0], mtus[0]);
      PiecesOfPiece(fss[0], fs[0], mtus[0], w);
      FragmentsTile(fss[0], fs[0], mtus[0], fs[0].End());
      CutRest(fs, fss, mtus);
      CutAgain(fs[1..], fss[1..], mtus[1..], w);
      BothPieces(fss[0], Flatten(fss[1..]), w);
    }
  }

  lemma BothPieces(fs: seq<Packet>, gs: seq<Packet>, w: Packet)
    requires Pieces(fs, w) && Pieces(gs, w)
    ensures Pieces(fs + gs, w)
    ensures Union(fs + gs) == Union(fs) + Union(gs) && Total(fs + gs) == Total(fs) + Total(gs)
  {
    UnionConcat(fs, gs);
  }

  // ---- pieces that arrive over a while

  /** What is held of a datagram: the bytes that have come, the time its queue has, and when the next reaping is due. */
  datatype Held = Held(seen: set<nat>, stamp: int, reapTime: int)

  /** At a reaping a queue whose time is more than 30 seconds past goes. */
  ghost function Reaping(h: Held, now: int): Held {
    if now < h.reapTime then h
    else if h.stamp < now - 30 then Held({}, 0, now + 10)
    else h.(reapTime := now + 10)
  }

  ghost predicate Completes(h: Held, p: Packet, w: Packet) {
    h.seen + Bytes(p) == Range(0, |w.data|)
  }

  ghost function Taking(h: Held, p: Packet, now: int, w: Packet): Held {
    if Completes(h, p, w) then Held({}, 0, h.reapTime)
    else Held(h.seen + Bytes(p), if h.seen != {} then h.stamp else if p.off == 0 then now else 0, h.reapTime)
  }

  /** One output for each piece of `w`, arriving at the times `nows`. */
  ghost function Run(h: Held, ps: seq<Packet>, nows: seq<int>, w: Packet): (outs: seq<Option<Packet>>)
    requires |nows| == |ps|
    ensures |outs| == |ps|
    decreases |ps|
  {
    if ps == [] then []
    else
      var h' := Reaping(h, nows[0]);
      [if Completes(h', ps[0], w) then Some(w) else None] + Run(Taking(h', ps[0], nows[0], w), ps[1..], nows[1..], w)
  }

  ghost function HeldAfter(h: Held, ps: seq<Packet>, nows: seq<int>, w: Packet): Held
    requires |nows| == |ps|
    decreases |ps|
  {
    if ps == [] then h else HeldAfter(Taking(Reaping(h, nows[0]), ps[0], nows[0], w), ps[1..], nows[1..], w)
  }

  /** Only the datagram is ever emitted. */
  lemma {:induction false} NothingElse(h: Held, ps: seq<Packet>, nows: seq<int>, w: Packet, k: nat)
    requires |nows| == |ps| && k < |ps|
    ensures Run(h, ps, nows, w)[k] == None || Run(h, ps, nows, w)[k] == Some(w)
    decreases |ps|
  {
    if k > 0 {
      NothingElse(Taking(Reaping(h, nows[0]), ps[0], nows[0], w), ps[1..], nows[1..], w, k - 1);
    }
  }

  /** No reaping takes anything of the datagram. */
  ghost predicate NothingLost(h: Held, ps: seq<Packet>, nows: seq<int>, w: Packet)
    requires |nows| == |ps|
    decreases |ps|
  {
    ps == [] || (Reaping(h, nows[0]).seen == h.seen
                 && NothingLost(Taking(Reaping(h, nows[0]), ps[0], nows[0], w), ps[1..], nows[1..], w))
  }

  /** Then the times do not matter. */
  lemma {:induction false} RunIsOutputs(h: Held, ps: seq<Packet>, nows: seq<int>, w: Packet)
    requires |nows| == |ps| && NothingLost(h, ps, nows, w)
    ensures Run(h, ps, nows, w) == Outputs(h.seen, ps, w)
    decreases |ps|
  {
    if ps != [] {
      RunIsOutputs(Taking(Reaping(h, nows[0]), ps[0], nows[0], w), ps[1..], nows[1..], w);
    }
  }

  /** When the next reaping is due once a fragment has arrived. */
  function NextReap(reapTime: int, now: int): int {
    if now >= reapTime then now + 10 else reapTime
  }

  /** A queue of this time is there yet after fragments at these times. */
  ghost predicate Survives(stamp: int, reapTime: int, nows: seq<int>)
    decreases |nows|
  {
    nows == [] || ((nows[0] >= reapTime ==> stamp >= nows[0] - 30)
                   && Survives(stamp, NextReap(reapTime, nows[0]), nows[1..]))
  }

  ghost predicate AllBefore(nows: seq<int>, t: int) {
    forall k :: 0 <= k < |nows| ==> nows[k] < t
  }

  lemma BeforeParts(nows: seq<int>, t: int)
    requires nows != []
    ensures AllBefore(nows, t) <==> nows[0] < t && AllBefore(nows[1..], t)
  {
    assert forall k :: 0 < k < |nows| ==> nows[1..][k - 1] == nows[k];
  }

  /** Within 30 seconds of its time a queue is safe. */
  lemma {:induction false} SafeFor30Seconds(stamp: int, reapTime: int, nows: seq<int>)
    requires AllBefore(nows, stamp + 31)
    ensures Survives(stamp, reapTime, nows)
    decreases |nows|
  {
    if nows != [] {
      BeforeParts(nows, stamp + 31);
      SafeFor30Seconds(stamp, NextReap(reapTime, nows[0]), nows[1..]);
    }
  }

  /** And so is any queue until the next reaping is due. */
  lemma {:induction false} SafeBefore(stamp: int, reapTime: int, nows: seq<int>)
    requires AllBefore(nows, reapTime)
    ensures Survives(stamp, reapTime, nows)
    decreases |nows|
  {
    if nows != [] {
      BeforeParts(nows, reapTime);
      SafeBefore(stamp, reapTime, nows[1..]);
    }
  }

  /** A queue with no time of its own is safe no longer than that. */
  lemma {:induction false} NoTimeNoSafety(reapTime: int, nows: seq<int>)
    requires forall k :: 0 <= k < |nows| ==> nows[k] > 30
    ensures Survives(0, reapTime, nows) <==> AllBefore(nows, reapTime)
    decreases |nows|
  {
    if nows != [] {
      BeforeParts(nows, reapTime);
      if nows[0] < reapTime {
        NoTimeNoSafety(reapTime, nows[1..]);
      }
    }
  }

  /** The queue the first of the pieces opens is there for all the rest. */
  ghost predicate KeptThroughout(ps: seq<Packet>, nows: seq<int>, reapTime: int) {
    ps != [] && |nows| == |ps|
    && Survives(if ps[0].off == 0 then nows[0] else 0, NextReap(reapTime, nows[0]), nows[1..])
  }

  /** While no queue goes before it is done with, only the pieces matter. */
  lemma {:induction false} RunKept(h: Held, ps: seq<Packet>, nows: seq<int>, w: Packet)
    requires |nows| == |ps| && Pieces(ps, w) && ps != [] && Survives(h.stamp, h.reapTime, nows) && h.seen != {}
    requires h.seen + Union(ps) == Range(0, |w.data|) && |h.seen| + Total(ps) == |w.data|
    ensures Run(h, ps, nows, w) == Nones(|ps| - 1) + [Some(w)]
    decreases |ps|
  {
    if |ps| == 1 {
      assert ps[1..] == [] && Union(ps) == Bytes(ps[0]);
    } else {
      StillMissing(h.seen, ps, w);
      RunKept(Taking(Reaping(h, nows[0]), ps[0], nows[0], w), ps[1..], nows[1..], w);
    }
  }

  /** Pieces too small together never make the datagram. */
  lemma {:induction false} RunLacking(h: Held, ps: seq<Packet>, nows: seq<int>, w: Packet)
    requires |nows| == |ps| && Pieces(ps, w) && |h.seen| + Total(ps) < |w.data|
    ensures Run(h, ps, nows, w) == Nones(|ps|)
    decreases |ps|
  {
    if ps != [] {
      var p := ps[0];
      assert p in ps;
      var h' := Reaping(h, nows[0]);
      RangeSize(0, |w.data|);
      RangeSize(p.off, p.End());
      SizeOfBoth(h'.seen, Bytes(p));
      UnionSize(ps[1..], w);
      RunLacking(Taking(h', p, nows[0], w), ps[1..], nows[1..], w);
    }
  }

  /** Once a queue has gone, what it held is missed for good. */
  lemma {:induction false} RunLost(h: Held, ps: seq<Packet>, nows: seq<int>, w: Packet)
    requires |nows| == |ps| && Pieces(ps, w) && !Survives(h.stamp, h.reapTime, nows) && h.seen != {}
    requires h.seen + Union(ps) == Range(0, |w.data|) && |h.seen| + Total(ps) == |w.data|
    ensures Run(h, ps, nows, w) == Nones(|ps|)
    decreases |ps|
  {
    if nows[0] >= h.reapTime && h.stamp < nows[0] - 30 {
      RunLacking(Reaping(h, nows[0]), ps, nows, w);
      AlreadyReaped(h, ps, nows, w);
    } else if |ps| > 1 {
      StillMissing(h.seen, ps, w);
      RunLost(Taking(Reaping(h, nows[0]), ps[0], nows[0], w), ps[1..], nows[1..], w);
    }
  }

  lemma AlreadyReaped(h: Held, ps: seq<Packet>, nows: seq<int>, w: Packet)
    requires |nows| == |ps| && ps != []
    ensures Run(h, ps, nows, w) == Run(Reaping(h, nows[0]), ps, nows, w)
  {
    assert Reaping(Reaping(h, nows[0]), nows[0]) == Reaping(h, nows[0]);
  }

  /**
   * Pieces that hold every byte once, in any order and at any times: the last
   * of them brings the datagram if and only if the queue the first opened was
   * never reaped in between.
   */
  lemma KeptOrLost(reapTime: int, ps: seq<Packet>, nows: seq<int>, w: Packet)
    requires |nows| == |ps| > 1 && Pieces(ps, w) && Union(ps) == Range(0, |w.data|) && Total(ps) == |w.data|
    ensures Run(Held({}, 0, reapTime), ps, nows, w)
      == if KeptThroughout(ps, nows, reapTime) then Nones(|ps| - 1) + [Some(w)] else Nones(|ps|)
  {
    FirstOpens(reapTime, ps, nows, w);
    var h := Held(Bytes(ps[0]), if ps[0].off == 0 then nows[0] else 0, NextReap(reapTime, nows[0]));
    if KeptThroughout(ps, nows, reapTime) {
      RunKept(h, ps[1..], nows[1..], w);
    } else {
      RunLost(h, ps[1..], nows[1..], w);
    }
  }

  /** The first of the pieces opens a queue. */
  lemma FirstOpens(reapTime: int, ps: seq<Packet>, nows: seq<int>, w: Packet)
    requires |nows| == |ps| > 1 && Pieces(ps, w) && Union(ps) == Range(0, |w.data|) && Total(ps) == |w.data|
    ensures var h := Held(Bytes(ps[0]), if ps[0].off == 0 then nows[0] else 0, NextReap(reapTime, nows[0]));
      && Run(Held({}, 0, reapTime), ps, nows, w) == [None] + Run(h, ps[1..], nows[1..], w)
      && h.seen != {} && h.seen + Union(ps[1..]) == Range(0, |w.data|) && |h.seen| + Total(ps[1..]) == |w.data|
      && Pieces(ps[1..], w)
  {
    var none: set<nat> := {};
    NoneSeen(w, ps);
    StillMissing(none, ps, w);
    SomethingCame(ps[0], w, ps);
    assert none + Bytes(ps[0]) == Bytes(ps[0]);
    var h := Reaping(Held({}, 0, reapTime), nows[0]);
    assert h.seen == none && h.reapTime == NextReap(reapTime, nows[0]);
  }

  lemma SomethingCame(p: Packet, w: Packet, ps: seq<Packet>)
    requires Pieces(ps, w) && p in ps
    ensures Bytes(p) != {}
  {
    assert From(p.off, p.off) && p.off in Range(p.off, p.End());
  }

  // ---- the reassembler and the fragmenter

  /** What the reassembler has of the flow are pieces of `w`, with no more than `charged` in use besides. */
  ghost predicate Holding(r: Reassembler, w: Packet, charged: int)
    reads r, r.queues
  {
    && r.Valid() && r.Elsewhere(w.flow) <= charged
    && (r.Current(w.flow).Some? ==> r.Current(w.flow).value.w == w && r.Current(w.flow).value.len <= |w.data|)
  }

  ghost function HeldIn(r: Reassembler, f: Flow): Held
    requires r.Valid()
    reads r, r.queues
  {
    Held(Seen(r.Current(f)), if r.Current(f).Some? then r.Current(f).value.stamp else 0, r.reapTime)
  }

  method DeliverOne(r: Reassembler, p: Packet, now: int, ghost w: Packet, ghost charged: int)
    returns (out: Option<Packet>)
    requires Holding(r, w, charged) && w.Whole() && p.PieceOf(w) && p.IsFragment()
    requires charged + 40 + |w.data| <= r.memHigh
    modifies r, r.queues
    ensures Holding(r, w, charged) && fresh(r.queues - old(r.queues))
    ensures out == if Completes(Reaping(old(HeldIn(r, w.flow)), now), p, w) then Some(w) else None
    ensures HeldIn(r, w.flow) == Taking(Reaping(old(HeldIn(r, w.flow)), now), p, now, w)
    ensures forall f :: f != w.flow ==> r.Current(f) == old(r.Reaped(f, now))
  {
    if r.Current(w.flow).Some? {
      r.SomethingSeen(w.flow);
    }
    var o, had := r.SimpleAction(p, now, w);
    out := o;
  }

  /** What there was of a datagram is there yet, or went at a reaping at one of these times. */
  ghost predicate KeptOrLapsed(was: Option<Entry>, o: Option<Entry>, reapTime: int, nows: seq<int>) {
    o == was || (o == None && exists k :: 0 <= k < |nows| && LapsedAt(was, reapTime, nows[k]))
  }

  ghost predicate LapsedAt(o: Option<Entry>, reapTime: int, now: int) {
    o.Some? && now >= reapTime && o.value.stamp < now - 30
  }

  ghost function Was(m: seq<seq<Entry>>, f: Flow): Option<Entry>
    requires |m| == NMAP
  {
    Lookup(m[Bucket(f)], f)
  }

  /** The next piece, by which other datagrams may lapse; `m` and `reapTime` are from before the first. */
  method DeliverNext(r: Reassembler, p: Packet, nows: seq<int>, k: nat, ghost w: Packet, ghost charged: int,
                     ghost m: seq<seq<Entry>>, ghost reapTime: int) returns (out: Option<Packet>)
    requires Holding(r, w, charged) && w.Whole() && p.PieceOf(w) && p.IsFragment() && k < |nows|
    requires charged + 40 + |w.data| <= r.memHigh && |m| == NMAP && reapTime <= r.reapTime
    requires forall f :: f != w.flow ==> KeptOrLapsed(Was(m, f), r.Current(f), reapTime, nows)
    modifies r, r.queues
    ensures Holding(r, w, charged) && fresh(r.queues - old(r.queues)) && reapTime <= r.reapTime
    ensures out == if Completes(Reaping(old(HeldIn(r, w.flow)), nows[k]), p, w) then Some(w) else None
    ensures HeldIn(r, w.flow) == Taking(Reaping(old(HeldIn(r, w.flow)), nows[k]), p, nows[k], w)
    ensures forall f :: f != w.flow ==> KeptOrLapsed(Was(m, f), r.Current(f), reapTime, nows)
  {
    out := DeliverOne(r, p, nows[k], w, charged);
    forall f | f != w.flow
      ensures KeptOrLapsed(Was(m, f), r.Current(f), reapTime, nows)
    {
      assert r.Current(f) == old(r.Reaped(f, nows[k]));
      assert r.Current(f) != old(r.Current(f)) ==> LapsedAt(old(r.Current(f)), reapTime, nows[k]);
    }
  }

  /** `outs` is what the first `k` pieces brought, and `h` what they left. */
  ghost predicate SoFarOut(outs: seq<Option<Packet>>, h: Held, h0: Held, ps: seq<Packet>, nows: seq<int>, k: nat,
                           w: Packet)
    requires |nows| == |ps|
  {
    && k <= |ps| && outs + Run(h, ps[k..], nows[k..], w) == Run(h0, ps, nows, w)
    && HeldAfter(h, ps[k..], nows[k..], w) == HeldAfter(h0, ps, nows, w)
  }

  lemma OneMore(outs: seq<Option<Packet>>, h: Held, h0: Held, ps: seq<Packet>, nows: seq<int>, k: nat, w: Packet,
                out: Option<Packet>)
    requires |nows| == |ps| && SoFarOut(outs, h, h0, ps, nows, k, w) && k < |ps|
    requires out == if Completes(Reaping(h, nows[k]), ps[k], w) then Some(w) else None
    ensures SoFarOut(outs + [out], Taking(Reaping(h, nows[k]), ps[k], nows[k], w), h0, ps, nows, k + 1, w)
  {
    assert ps[k..][0] == ps[k] && ps[k..][1..] == ps[k + 1..];
    assert nows[k..][0] == nows[k] && nows[k..][1..] == nows[k + 1..];
  }

  /**
   * Pieces of one datagram arriving at the times `nows`, with memory to spare:
   * the outputs are those of `Run`, and other datagrams go only at a reaping.
   */
  method Deliver(r: Reassembler, ps: seq<Packet>, nows: seq<int>, ghost w: Packet) returns (outs: seq<Option<Packet>>)
    requires w.Whole() && Pieces(ps, w) && (forall p <- ps :: p.IsFragment()) && |nows| == |ps|
    requires r.Valid() && Holding(r, w, r.Elsewhere(w.flow))
    requires r.Elsewhere(w.flow) + 40 + |w.data| <= r.memHigh
    modifies r, r.queues
    ensures r.Valid() && outs == Run(old(HeldIn(r, w.flow)), ps, nows, w)
    ensures HeldIn(r, w.flow) == HeldAfter(old(HeldIn(r, w.flow)), ps, nows, w)
    ensures forall f :: f != w.flow ==> KeptOrLapsed(old(r.Current(f)), r.Current(f), old(r.reapTime), nows)
  {
    outs := [];
    var k := 0;
    ghost var charged := r.Elsewhere(w.flow);
    ghost var m0, h0, h := r.model, HeldIn(r, w.flow), HeldIn(r, w.flow);
    while k < |ps|
      invariant 0 <= k <= |ps| && fresh(r.queues - old(r.queues)) && r.reapTime >= old(r.reapTime)
      invariant Holding(r, w, charged) && HeldIn(r, w.flow) == h
      invariant SoFarOut(outs, h, h0, ps, nows, k, w)
      invariant forall f :: f != w.flow ==> KeptOrLapsed(Was(m0, f), r.Current(f), old(r.reapTime), nows)
    {
      assert ps[k] in ps;
      var out := DeliverNext(r, ps[k], nows, k, w, charged, m0, old(r.reapTime));
      OneMore(outs, h, h0, ps, nows, k, w, out);
      h, outs, k := Taking(Reaping(h, nows[k]), ps[k], nows[k], w), outs + [out], k + 1;
    }
    assert ps[k..] == [] && nows[k..] == [];
  }

  /** A packet over the MTU is not one fragment. */
  lemma ManyFragments(fs: seq<Packet>, w: Packet, mtu: nat)
    requires w.Whole() && w.len > mtu && Fragments(fs, w, mtu)
    ensures |fs| > 1
  {
    assert FragmentOf(fs[0], w, mtu);
  }

  /** Pieces that hold every byte of a datagram once, none of it having come before. */
  method DeliverAll(r: Reassembler, ps: seq<Packet>, nows: seq<int>, ghost w: Packet)
    returns (outs: seq<Option<Packet>>)
    requires w.Whole() && Pieces(ps, w) && (forall p <- ps :: p.IsFragment()) && |nows| == |ps| > 1
    requires Union(ps) == Range(0, |w.data|) && Total(ps) == |w.data|
    requires r.Valid() && r.Current(w.flow) == None && r.memUsed + 40 + |w.data| <= r.memHigh
    modifies r, r.queues
    ensures outs == if KeptThroughout(ps, nows, old(r.reapTime)) then Nones(|ps| - 1) + [Some(w)] else Nones(|ps|)
    ensures r.Valid() && (KeptThroughout(ps, nows, old(r.reapTime)) ==> r.Current(w.flow) == None)
    ensures forall f :: f != w.flow ==> KeptOrLapsed(old(r.Current(f)), r.Current(f), old(r.reapTime), nows)
  {
    KeptOrLost(r.reapTime, ps, nows, w);
    outs := Deliver(r, ps, nows, w);
    if KeptThroughout(ps, nows, old(r.reapTime)) {
      AllGone(Held({}, 0, old(r.reapTime)), ps, nows, w);
      if r.Current(w.flow).Some? {
        r.SomethingSeen(w.flow);
      }
    }
  }

  /**
   * A datagram too long for the MTU goes through the fragmenter; its fragments
   * reach the reassembler in whatever order `shuffle` puts them, the `k`th at
   * the time `at(k)`. The last brings the datagram back if and only if the
   * queue the first opened outlives every reaping before.
   */
  method RoundTrip(fr: Fragmenter, r: Reassembler, w: Packet, newId: nat, shuffle: seq<Packet> -> seq<Packet>,
                   at: nat -> int)
    returns (fs: seq<Packet>, ps: seq<Packet>, nows: seq<int>, outs: seq<Option<Packet>>, ghost w': Packet)
    requires w.Whole() && w.len > fr.mtu && !fr.Refuses(w) && OptionsEnd(Options(w))
    requires forall fs: seq<Packet> :: multiset(shuffle(fs)) == multiset(fs)
    requires r.Valid() && r.Current(Cuttable(w, newId).flow) == None
    requires r.memUsed + 40 + |w.data| <= r.memHigh
    modifies fr, r, r.queues
    ensures w' == Cuttable(w, newId) && Fragments(fs, w', fr.mtu) && multiset(ps) == multiset(fs) && |nows| == |ps| > 1
    ensures ps == shuffle(fs) && nows == seq(|ps|, at)
    ensures outs == if KeptThroughout(ps, nows, old(r.reapTime)) then Nones(|ps| - 1) + [Some(w')] else Nones(|ps|)
    ensures r.Valid() && (KeptThroughout(ps, nows, old(r.reapTime)) ==> r.Current(w'.flow) == None)
    ensures forall f :: f != w'.flow ==> KeptOrLapsed(old(r.Current(f)), r.Current(f), old(r.reapTime), nows)
  {
    fs, w' := PushOver(fr, w, newId);
    ps := shuffle(fs);
    nows := seq(|ps|, at);
    Shuffled(fs, w', fr.mtu, ps);
    outs := DeliverAll(r, ps, nows, w');
  }

  method PushOver(fr: Fragmenter, w: Packet, newId: nat) returns (fs: seq<Packet>, ghost w': Packet)
    requires w.Whole() && w.len > fr.mtu && !fr.Refuses(w) && OptionsEnd(Options(w))
    modifies fr
    ensures w' == Cuttable(w, newId) && w'.Whole() && w'.len > fr.mtu && Fragments(fs, w', fr.mtu)
  {
    w' := Cuttable(w, newId);
    var out, refused := fr.Push(w, newId);
    fs := out;
  }

  /** Nothing is left when the last piece brings the datagram. */
  lemma {:induction false} AllGone(h: Held, ps: seq<Packet>, nows: seq<int>, w: Packet)
    requires |nows| == |ps| && ps != [] && Run(h, ps, nows, w)[|ps| - 1] == Some(w)
    ensures HeldAfter(h, ps, nows, w).seen == {}
    decreases |ps|
  {
    var h' := Taking(Reaping(h, nows[0]), ps[0], nows[0], w);
    if |ps| > 1 {
      AllGone(h', ps[1..], nows[1..], w);
    } else {
      assert ps[1..] == [] && nows[1..] == [];
    }
  }

  /** Pieces that all come before the next reaping, or within 30 seconds of a first one at offset 0. */
  lemma InGoodTime(ps: seq<Packet>, nows: seq<int>, reapTime: int)
    requires |nows| == |ps| > 0
    requires AllBefore(nows[1..], NextReap(reapTime, nows[0]))
      || (ps[0].off == 0 && AllBefore(nows[1..], nows[0] + 31))
    ensures KeptThroughout(ps, nows, reapTime)
  {
    if AllBefore(nows[1..], NextReap(reapTime, nows[0])) {
      SafeBefore(if ps[0].off == 0 then nows[0] else 0, NextReap(reapTime, nows[0]), nows[1..]);
    } else {
      SafeFor30Seconds(nows[0], NextReap(reapTime, nows[0]), nows[1..]);
    }
  }
}
