/** `IPFragmenter` (bfclick/ip/ipfragmenter.cc): cutting a packet to the MTU. */
module Fragmenters {
  import opened ReassemblyChunks
  import opened Packets
  import opened Results

  const IPOPT_EOL := 0
  const IPOPT_NOP := 1

  /** `x & ~7`. */
  function Down8(x: int): (r: int)
    ensures r % 8 == 0 && r <= x < r + 8
  {
    x - x % 8
  }

  // ---- copying options

  /** The loop of lines 62-74: at position `i`, or ended; `out` is what has been copied. */
  datatype Copy = Copying(i: nat, out: seq<Byte>) | Ended(out: seq<Byte>)

  /** Line 64-65: how long the option at `i` is, if there is one to be read. */
  function OptionAt(opts: seq<Byte>, i: nat): Option<nat>
    requires i < |opts|
  {
    if opts[i] == IPOPT_NOP then Some(1)
    else if opts[i] == IPOPT_EOL || i == |opts| - 1 || i + opts[i + 1] > |opts| then None
    else Some(opts[i + 1])
  }

  /** The loop's test and one turn of it: the position is never moved on. */
  function Turn(opts: seq<Byte>, c: Copy): Copy {
    match c
    case Ended(_) => c
    case Copying(i, out) =>
      if i >= |opts| then Ended(out)
      else match OptionAt(opts, i)
        case None => Ended(out)
        case Some(n) =>
          if opts[i] / 0x80 % 2 == 1 && i + n <= |opts| then Copying(i, out + opts[i..i + n]) else Copying(i, out)
  }

  ghost function Turns(opts: seq<Byte>, n: nat): Copy {
    if n == 0 then Copying(0, []) else Turn(opts, Turns(opts, n - 1))
  }

  /** There is no first option, or none that can be read. */
  predicate OptionsEnd(opts: seq<Byte>) {
    opts == [] || OptionAt(opts, 0) == None
  }

  lemma {:induction false} StillCopying(opts: seq<Byte>, n: nat)
    requires !OptionsEnd(opts)
    ensures Turns(opts, n).Copying? && Turns(opts, n).i == 0
  {
    if n > 0 {
      StillCopying(opts, n - 1);
    }
  }

  /** The loop ends exactly when there is no first option to be read; and then it has copied nothing. */
  lemma CopyEnds(opts: seq<Byte>)
    ensures (exists n: nat :: Turns(opts, n).Ended?) <==> OptionsEnd(opts)
    ensures OptionsEnd(opts) ==> Turns(opts, 1) == Ended([])
  {
    if OptionsEnd(opts) {
      assert Turns(opts, 1) == Turn(opts, Turns(opts, 0));
      assert Turns(opts, 1).Ended?;
    } else {
      forall n: nat
        ensures !Turns(opts, n).Ended?
      {
        StillCopying(opts, n);
      }
    }
  }

  /** A header padded with no-operation options is never done with. */
  lemma NoOperationsNeverEnd(n: nat)
    ensures Turns([IPOPT_NOP, IPOPT_NOP, IPOPT_NOP, IPOPT_NOP], n).Copying?
  {
    StillCopying([IPOPT_NOP, IPOPT_NOP, IPOPT_NOP, IPOPT_NOP], n);
  }

  /** Lines 76-78. */
  method Pad(copied: seq<Byte>) returns (out: seq<Byte>)
    ensures copied <= out && |out| % 4 == 0 && |out| < |copied| + 4
    ensures forall k :: |copied| <= k < |out| ==> out[k] == IPOPT_EOL
  {
    out := copied;
    while |out| % 4 != 0
      invariant copied <= out && |out| <= (|copied| + 3) / 4 * 4
      invariant forall k :: |copied| <= k < |out| ==> out[k] == IPOPT_EOL
      decreases (|copied| + 3) / 4 * 4 - |out|
    {
      out := out + [IPOPT_EOL];
    }
  }

  /** Lines 55-81, where they end: after one turn, with nothing copied. */
  method OptCopy(opts: seq<Byte>) returns (out: seq<Byte>)
    requires OptionsEnd(opts)
    ensures out == []
  {
    CopyEnds(opts);
    var c := Turn(opts, Copying(0, []));
    assert c == Turns(opts, 1) by { assert Turns(opts, 0) == Copying(0, []); }
    out := Pad(c.out);
  }

  function Options(p: Packet): seq<Byte> { p.rest[Min(2, |p.rest|)..] }

  /**
   * `f` is a piece of `p` that fits the MTU, and fills it as far as multiples of eight bytes do
   * unless it is the last. The first has the header of `p`; the others have one without options.
   */
  ghost predicate FragmentOf(f: Packet, p: Packet, mtu: nat) {
    && f.flow == p.flow && f.df == p.df && 20 <= f.hlen <= p.hlen && f.len <= mtu
    && p.off <= f.off < f.End() <= p.End() && f.len == f.hlen + |f.data|
    && p.End() - p.off <= |p.data| && f.data == p.data[f.off - p.off..f.End() - p.off]
    && (f.mf <==> f.End() < p.End() || p.mf)
    && Aligned(f.off - p.off) && (f.End() < p.End() ==> Aligned(f.End() - p.off))
    && Fills(|f.data|, mtu - f.hlen, f.End() == p.End())
    && (f.off == p.off ==> f.hlen == p.hlen && f.rest == p.rest)
    && (f.off != p.off ==> f.hlen == 20 && f.rest == p.rest[..if |p.rest| < 2 then |p.rest| else 2])
  }

  predicate Aligned(n: int) { n % 8 == 0 }

  /** The payload takes the room there is in multiples of eight bytes, less only in the last fragment. */
  ghost predicate Fills(n: nat, room: int, last: bool) {
    if last then n <= Down8(room) else n == Down8(room)
  }

  /** The fragments follow one another from the start of the packet up to `end`. */
  ghost predicate Tiles(fs: seq<Packet>, p: Packet, end: int) {
    && fs != [] && fs[0].off == p.off && fs[|fs| - 1].End() == end
    && forall k :: 0 <= k && k + 1 < |fs| ==> Follows(fs, k)
  }

  ghost predicate Follows(fs: seq<Packet>, k: nat)
    requires k + 1 < |fs|
  {
    fs[k + 1].off == fs[k].End()
  }

  /** The fragments of `p` up to `end`. */
  ghost predicate SoFar(fs: seq<Packet>, p: Packet, mtu: nat, end: int) {
    Tiles(fs, p, end) && forall k :: 0 <= k < |fs| ==> FragmentOf(fs[k], p, mtu)
  }

  ghost predicate Fragments(fs: seq<Packet>, p: Packet, mtu: nat) {
    SoFar(fs, p, mtu, p.End())
  }

  /** All fragments but the last are full, so each begins where that many full ones end. */
  lemma {:induction false} FullBefore(fs: seq<Packet>, p: Packet, mtu: nat, first: int, per: int, k: nat)
    requires Fragments(fs, p, mtu) && 0 < k < |fs| && first == Down8(mtu - p.hlen) && per == Down8(mtu - 20)
    ensures fs[k].off == p.off + first + (k - 1) * per
    decreases k
  {
    if k == 1 {
      FirstStep(fs, p, mtu);
    } else {
      NextStep(fs, p, mtu, k - 1);
      FullBefore(fs, p, mtu, first, per, k - 1);
      OneMore(k - 1, per);
    }
  }

  lemma FirstStep(fs: seq<Packet>, p: Packet, mtu: nat)
    requires Fragments(fs, p, mtu) && |fs| > 1
    ensures fs[1].off == p.off + Down8(mtu - p.hlen)
  {
    assert Follows(fs, 0);
    FullLength(fs[0], fs[1], p, mtu);
  }

  lemma NextStep(fs: seq<Packet>, p: Packet, mtu: nat, k: nat)
    requires Fragments(fs, p, mtu) && 0 < k && k + 1 < |fs|
    ensures fs[k + 1].off == fs[k].off + Down8(mtu - 20)
  {
    assert Follows(fs, k);
    LaterOff(fs, p, mtu, k);
    FullLength(fs[k], fs[k + 1], p, mtu);
  }

  /** A fragment with another after it is full. */
  lemma FullLength(f: Packet, g: Packet, p: Packet, mtu: nat)
    requires FragmentOf(f, p, mtu) && FragmentOf(g, p, mtu) && g.off == f.End()
    ensures f.off == p.off ==> g.off == f.off + Down8(mtu - p.hlen)
    ensures f.off != p.off ==> g.off == f.off + Down8(mtu - 20)
    ensures p.off <= f.off < g.off
  {
    assert Fills(|f.data|, mtu - f.hlen, false);
  }

  /** Only the first fragment is at the start of the packet. */
  lemma LaterOff(fs: seq<Packet>, p: Packet, mtu: nat, k: nat)
    requires Fragments(fs, p, mtu) && 0 < k < |fs|
    ensures fs[k].off > p.off
  {
    assert Follows(fs, k - 1);
    FullLength(fs[k - 1], fs[k], p, mtu);
  }

  lemma OneMore(k: nat, per: int)
    requires k > 0
    ensures k * per == (k - 1) * per + per
  {
  }

  /** How many fragments there are: the first, and as many full ones as the rest of the payload needs. */
  lemma HowMany(fs: seq<Packet>, p: Packet, mtu: nat)
    requires Fragments(fs, p, mtu) && |fs| > 1
    ensures var first, per := Down8(mtu - p.hlen), Down8(mtu - 20);
      first + (|fs| - 2) * per < p.len - p.hlen <= first + (|fs| - 1) * per
  {
    var n := |fs|;
    FullBefore(fs, p, mtu, Down8(mtu - p.hlen), Down8(mtu - 20), n - 1);
    LaterOff(fs, p, mtu, n - 1);
    LastLength(fs[n - 1], p, mtu);
    OneMore(n - 1, Down8(mtu - 20));
  }

  lemma LastLength(f: Packet, p: Packet, mtu: nat)
    requires FragmentOf(f, p, mtu) && f.End() == p.End() && f.off != p.off
    ensures f.off < p.End() <= f.off + Down8(mtu - 20)
  {
    assert Fills(|f.data|, mtu - f.hlen, true);
  }

  /** Lines 107-110: the packet that is cut, its DF bit and with it its id given up. */
  function Cuttable(p: Packet, newId: nat): Packet {
    if p.df then p.(flow := p.flow.(id := newId), df := false) else p
  }

  /** The payload of the first fragment: line 88. */
  function FirstLen(p: Packet, mtu: nat): int { Down8(mtu - p.hlen) }

  class Fragmenter {
    const mtu: nat
    const honorDf: bool
    var fragments: nat
    var drops: nat

    constructor (mtu: nat, honorDf: bool)
      ensures this.mtu == mtu && this.honorDf == honorDf && fragments == 0 && drops == 0
    {
      this.mtu, this.honorDf := mtu, honorDf;
      fragments, drops := 0, 0;
    }

    /** Line 91. */
    predicate Refuses(p: Packet) {
      (p.df && honorDf) || FirstLen(p, mtu) < 8
    }

    /** Lines 126-148: the fragment from payload byte `at` on; no options have been copied. */
    method Next(p: Packet, at: nat, inLen: nat, outHlen: nat) returns (q: Packet)
      requires outHlen == 20 <= p.hlen && p.hlen + 8 <= mtu && p.len == p.hlen + inLen
      requires 0 < at < inLen <= |p.data| && at % 8 == 0
      ensures FragmentOf(q, p, mtu) && q.off == p.off + at && q.End() == q.off + |q.data|
      ensures 0 < |q.data| && at + |q.data| <= inLen && (at + |q.data| < inLen ==> (at + |q.data|) % 8 == 0)
    {
      var outLen := Down8(mtu - outHlen);
      if outLen + at > inLen {
        outLen := inLen - at;
      }
      q := Packet(p.flow, outHlen, p.rest[..Min(2, |p.rest|)], p.df, p.mf || outLen + at < inLen, p.off + at, outHlen + outLen,
                  p.data[at..at + outLen]);
    }

    /** Lines 124-154. */
    method Remaining(p: Packet, first: nat, inLen: nat, outHlen: nat, sent: seq<Packet>) returns (out: seq<Packet>)
      requires outHlen == 20 <= p.hlen && first >= 8 && first % 8 == 0 && p.hlen + first <= mtu
      requires p.len == p.hlen + inLen && inLen <= |p.data|
      requires first < inLen ==> SoFar(sent, p, mtu, p.off + first)
      modifies `fragments
      ensures fragments == old(fragments) + |out| - |sent|
      ensures if first < inLen then Fragments(out, p, mtu) else out == sent
    {
      var at := first;
      out := sent;
      while at < inLen
        invariant fragments == old(fragments) + |out| - |sent|
        invariant first >= inLen ==> at == first && out == sent
        invariant first < inLen ==> first <= at <= inLen && SoFar(out, p, mtu, p.off + at)
        invariant at < inLen ==> at % 8 == 0
      {
        var q := Next(p, at, inLen, outHlen);
        Longer(out, q, p, mtu, p.off + at);
        out := out + [q];
        fragments := fragments + 1;
        at := at + |q.data|;
      }
    }

    /** The first fragment: lines 111-117. */
    function First(p: Packet, first: nat): Packet
      requires first <= |p.data|
    {
      p.(mf := true, len := p.hlen + first, data := p.data[..first])
    }

    lemma FirstFits(p: Packet, first: nat, inLen: nat)
      requires 20 <= p.hlen && first >= 8 && first == Down8(mtu - p.hlen)
      requires p.len == p.hlen + inLen && first < inLen <= |p.data|
      ensures SoFar([First(p, first)], p, mtu, p.off + first)
    {
      FirstIsFull(p, first, inLen);
      assert Tiles([First(p, first)], p, p.off + first);
    }

    lemma FirstIsFull(p: Packet, first: nat, inLen: nat)
      requires 20 <= p.hlen && first >= 8 && first == Down8(mtu - p.hlen)
      requires p.len == p.hlen + inLen && first < inLen <= |p.data|
      ensures FragmentOf(First(p, first), p, mtu)
    {
      var q := First(p, first);
      assert q.data == p.data[0..first] && |q.data| == first;
      assert q.off - p.off == 0 && q.End() - p.off == first && q.End() < p.End();
      assert Fills(first, mtu - p.hlen, false);
      Eights(first, mtu - p.hlen);
    }

    lemma Eights(n: int, x: int)
      requires n == Down8(x)
      ensures n % 8 == 0 && n <= x
    {
    }

    /** When the header claims no more than one fragment holds, that one is right only for a full fragment of more. */
    lemma OnlyFragment(p: Packet, first: nat)
      requires 20 <= p.hlen <= p.len && first >= 8 && first % 8 == 0 && p.hlen + first <= mtu && p.len - p.hlen <= first <= |p.data|
      ensures Fragments([First(p, first)], p, mtu) <==> p.len - p.hlen == first && p.mf
    {
      var q := First(p, first);
      assert q.data == p.data[0..first];
      assert [q][0] == q;
      if p.len - p.hlen == first && p.mf {
        assert FragmentOf(q, p, mtu);
      } else {
        assert !FragmentOf(q, p, mtu);
      }
    }

    /** The header claims more than the first fragment holds, or just as much with more to follow. */
    predicate Cuts(p: Packet) {
      p.len - p.hlen > FirstLen(p, mtu) || (p.len - p.hlen == FirstLen(p, mtu) && p.mf)
    }

    /** Lines 111-154. */
    method CutUp(p: Packet, first: nat, inLen: nat) returns (out: seq<Packet>)
      requires 20 <= p.hlen && first >= 8 && first == Down8(mtu - p.hlen)
      requires p.len == p.hlen + inLen && inLen <= |p.data| && first <= |p.data| && OptionsEnd(Options(p))
      modifies `fragments
      ensures fragments == old(fragments) + |out|
      ensures Fragments(out, p, mtu) <==> inLen > first || (inLen == first && p.mf)
      ensures inLen <= first ==> out == [First(p, first)]
    {
      out := [First(p, first)];
      fragments := fragments + 1;
      if first < inLen {
        FirstFits(p, first, inLen);
      } else {
        OnlyFragment(p, first);
      }
      var opts := OptCopy(Options(p));
      out := Remaining(p, first, inLen, 20 + |opts|, out);
    }

    /** Lines 99-157, `newId` being what `click_random` gives. */
    method Fragment(p: Packet, newId: nat) returns (out: seq<Packet>)
      requires !Refuses(p) && 20 <= p.hlen <= p.len <= p.hlen + |p.data| && p.hlen + |p.data| > mtu
      requires OptionsEnd(Options(p))
      modifies `fragments
      ensures fragments == old(fragments) + |out|
      ensures Fragments(out, Cuttable(p, newId), mtu) <==> Cuts(p)
      ensures !Cuts(p) ==> |out| == 1 && out[0].mf && out[0].End() >= p.End()
      ensures Cuts(p) ==> forall k :: 0 <= k && k + 1 < |out| ==> out[k].len <= mtu < out[k].len + 8
    {
      out := CutUp(Cuttable(p, newId), FirstLen(p, mtu), p.len - p.hlen);
      if Cuts(p) {
        LastOnly(out, Cuttable(p, newId), mtu);
      }
    }

    /** Lines 84-97 and 160-166. */
    method Push(p: Packet, newId: nat) returns (out: seq<Packet>, refused: bool)
      requires 20 <= p.hlen <= p.len <= p.hlen + |p.data|
      requires p.hlen + |p.data| > mtu && !Refuses(p) ==> OptionsEnd(Options(p))
      modifies this
      ensures p.hlen + |p.data| <= mtu ==> out == [p] && !refused
      ensures p.hlen + |p.data| > mtu ==> (refused <==> Refuses(p))
      ensures refused ==> out == [] && drops == old(drops) + 1
      ensures p.hlen + |p.data| > mtu && !refused ==>
        (Fragments(out, Cuttable(p, newId), mtu) <==> Cuts(p)) && (!Cuts(p) ==> |out| == 1 && out[0].mf && out[0].End() >= p.End())
      ensures p.hlen + |p.data| > mtu && !refused && Cuts(p) ==>
        forall k :: 0 <= k && k + 1 < |out| ==> out[k].len <= mtu < out[k].len + 8
    {
      if p.hlen + |p.data| <= mtu {
        return [p], false;
      }
      if Refuses(p) {
        drops := drops + 1;
        return [], true;
      }
      out := Fragment(p, newId);
      refused := false;
    }
  }

  /** Of the fragments of a packet only the last may be less than full. */
  lemma LastOnly(fs: seq<Packet>, p: Packet, mtu: nat)
    requires Fragments(fs, p, mtu)
    ensures forall k :: 0 <= k && k + 1 < |fs| ==> fs[k].len <= mtu < fs[k].len + 8
  {
    forall k | 0 <= k && k + 1 < |fs|
      ensures fs[k].len <= mtu < fs[k].len + 8
    {
      assert Follows(fs, k) && FragmentOf(fs[k], p, mtu) && FragmentOf(fs[k + 1], p, mtu);
    }
  }

  lemma Longer(fs: seq<Packet>, q: Packet, p: Packet, mtu: nat, end: int)
    requires SoFar(fs, p, mtu, end) && q.off == end && FragmentOf(q, p, mtu)
    ensures SoFar(fs + [q], p, mtu, q.End())
  {
    LongerTiles(fs, q, p, end);
    AllMore(fs, q, f => FragmentOf(f, p, mtu));
  }

  lemma LongerTiles(fs: seq<Packet>, q: Packet, p: Packet, end: int)
    requires Tiles(fs, p, end) && q.off == end
    ensures Tiles(fs + [q], p, q.End())
  {
    forall k | 0 <= k && k + 1 < |fs + [q]|
      ensures Follows(fs + [q], k)
    {
      assert k + 1 < |fs| ==> Follows(fs, k);
    }
  }

  lemma AllMore<T>(s: seq<T>, x: T, holds: T -> bool)
    requires (forall k :: 0 <= k < |s| ==> holds(s[k])) && holds(x)
    ensures forall k :: 0 <= k < |s + [x]| ==> holds((s + [x])[k])
  {
  }
}
