/**
 * Rewriting a set of prefixes so that none contains another: the splitting
 * loop of `overlap.cc` and the check after it.
 */
module Overlaps {
  import opened Powers
  import opened Prefixes
  import opened Forwarding

  /** `prefix::contains` (prefix.h), for lengths from 1. */
  predicate Covers(p: Prefix, q: Prefix) {
    p.len <= q.len && (p.len == q.len ==> p.addr == q.addr) && p.len <= 32 && Trunc(q.addr, p.len) == p.addr
  }

  /** A prefix the program can hold: its shifts are by less than 32. */
  ghost predicate Proper(p: Prefix) {
    Canonical(p) && p.len >= 1
  }

  ghost predicate AllProper(s: set<Prefix>) {
    forall p <- s :: Proper(p)
  }

  /** Lines 108-109 and 115-116: the halves of a prefix. */
  function Left(p: Prefix): Prefix
    requires p.len < 32
  {
    Prefix(Trunc(p.addr, p.len + 1), p.len + 1)
  }

  function Right(p: Prefix): Prefix
    requires p.len < 32
  {
    Prefix(Trunc((p.addr + Pow2(32 - p.len - 1)) % ADDRESSES, p.len + 1), p.len + 1)
  }

  lemma WholeSpace()
    ensures Pow2(32) == ADDRESSES
  {
    Pow2Add(16, 16);
    Pow2Add(8, 8);
    assert Pow2(8) == 256;
  }

  lemma HalfSize(len: nat)
    requires len < 32
    ensures Size(len) == 2 * Size(len + 1) && Size(len + 1) == Pow2(32 - len - 1)
  {
  }

  /** An aligned address has room for its block. */
  lemma BlockFits(p: Prefix)
    requires Canonical(p)
    ensures p.addr + Size(p.len) <= ADDRESSES && p.addr % Size(p.len) == 0
  {
    WholeSpace();
    Pow2Add(32 - p.len, p.len);
    ClearMod(p.addr, 32 - p.len);
    var q := p.addr / Size(p.len);
    Quotient(p.addr, Size(p.len));
    DivUnique(q * Size(p.len), Size(p.len), q, 0);
    AlignedFits(p.addr, Size(p.len), Pow2(p.len));
  }

  lemma AlignedFits(a: nat, s: nat, n: nat)
    requires s > 0 && a % s == 0 && a < s * n
    ensures a + s <= s * n
  {
    var q := a / s;
    assert a == q * s;
    assert (n - q) * s == n * s - q * s;
    MulAway(n - q, s);
  }

  lemma Aligned(a: nat, len: nat)
    requires len <= 32 && a % Size(len) == 0
    ensures Trunc(a, len) == a && Trunc(Trunc(a, len), len) == a
  {
    ClearMod(a, 32 - len);
  }

  /** The halves cover exactly what the prefix covers, each one half of it. */
  lemma Halves(p: Prefix)
    requires Canonical(p) && p.len < 32
    ensures Canonical(Left(p)) && Canonical(Right(p))
    ensures Left(p).addr == p.addr && Right(p).addr == p.addr + Size(p.len + 1)
  {
    var h := Size(p.len + 1);
    BlockFits(p);
    RoomForHalf(p.addr, h, Size(p.len));
    HalfAligned(p.addr, h);
    Aligned(p.addr, p.len + 1);
    Aligned(p.addr + h, p.len + 1);
  }

  lemma RoomForHalf(a: nat, h: nat, s: nat)
    requires h > 0 && s == 2 * h && a + s <= ADDRESSES
    ensures (a + h) % ADDRESSES == a + h
  {
  }

  lemma HalfAligned(a: nat, s: nat)
    requires s > 0 && a % (2 * s) == 0
    ensures a % s == 0 && (a + s) % s == 0
  {
    var q := a / (2 * s);
    assert a == q * (2 * s) == (2 * q) * s;
    assert a + s == (2 * q + 1) * s;
    DivUnique(a, s, 2 * q, 0);
    DivUnique(a + s, s, 2 * q + 1, 0);
  }

  lemma HalvesCover(p: Prefix, a: nat)
    requires Canonical(p) && p.len < 32
    ensures Contains(p, a) <==> At(a, p.len + 1) == Left(p) || At(a, p.len + 1) == Right(p)
    ensures Contains(Left(p), a) || Contains(Right(p), a) ==> Contains(p, a)
  {
    Halves(p);
    HalfSize(p.len);
    ContainsRange(p, a);
    ContainsRange(Left(p), a);
    ContainsRange(Right(p), a);
  }

  /** One split: the prefix goes, and the halves not yet there take its route. */
  function Split<V>(routes: map<Prefix, V>, p: Prefix): map<Prefix, V>
    requires p in routes && p.len < 32
  {
    var m := routes - {p};
    var m1 := if Left(p) in m then m else m[Left(p) := routes[p]];
    if Right(p) in m1 then m1 else m1[Right(p) := routes[p]]
  }

  /** No address is forwarded differently after a split. */
  lemma SplitKeeps<V>(routes: map<Prefix, V>, p: Prefix, a: nat)
    requires p in routes && Canonical(p) && p.len < 32
    ensures NextHop(Split(routes, p), a) == NextHop(routes, a)
  {
    var other := Split(routes, p);
    Halves(p);
    HalvesCover(p, a);
    if Contains(p, a) {
      LookupAbove(routes, other, a, p.len + 1, 32);
    } else {
      LookupAgrees(routes, other, a, 32);
    }
  }

  // ---- no prefix above another

  /** `q` covers nothing else in the set. */
  ghost predicate Lone(list: set<Prefix>, q: Prefix) {
    forall s {:trigger Covers(q, s)} | s in list && s != q :: !Covers(q, s)
  }

  ghost predicate LoneAt(list: set<Prefix>, k: nat) {
    forall q {:trigger Lone(list, q)} | q in list && q.len == k :: Lone(list, q)
  }

  /** Splitting `p` puts nothing below another prefix that had nothing below it. */
  lemma SplitStaysLone(list: set<Prefix>, p: Prefix, q: Prefix)
    requires Canonical(p) && p.len < 32 && p in list && Canonical(q) && q != p && Lone(list, q)
    ensures Lone(list - {p} + {Left(p), Right(p)}, q)
  {
    Halves(p);
    HalvesCover(p, Left(p).addr);
    HalvesCover(p, Right(p).addr);
    if q.len <= p.len {
      NestUnder(p, Left(p).addr, q.len);
      NestUnder(p, Right(p).addr, q.len);
      assert !Covers(q, p);
    }
  }

  /** The prefixes of one list that cover nothing there are in another, and cover nothing there either. */
  ghost predicate KeepsLone(list: set<Prefix>, other: set<Prefix>) {
    forall q {:trigger Lone(list, q)} | q in list && Lone(list, q) :: q in other && Lone(other, q)
  }

  /** The routes of the prefixes in a list. */
  ghost function View(list: set<Prefix>, pmap: map<Prefix, nat>): map<Prefix, nat> {
    map p | p in list && p in pmap :: pmap[p]
  }

  ghost predicate SameRoutes(m: map<Prefix, nat>, n: map<Prefix, nat>) {
    forall a: nat :: NextHop(m, a) == NextHop(n, a)
  }

  class Splitter {
    var pmap: map<Prefix, nat>
    var alllist: set<Prefix>
    var newlist: set<Prefix>

    /** What lines 54-86 read. */
    constructor (fib: map<Prefix, nat>)
      ensures pmap == fib && alllist == fib.Keys && View(alllist, pmap) == fib
    {
      pmap, alllist, newlist := fib, fib.Keys, {};
    }

    /** Lines 98-105. */
    method CoversAnother(mi: Prefix) returns (ifcontain: bool)
      ensures ifcontain <==> !Lone(newlist, mi)
    {
      var todo := newlist;
      while todo != {}
        invariant todo <= newlist && forall s <- newlist - todo :: s != mi ==> !Covers(mi, s)
        decreases todo
      {
        var ti :| ti in todo;
        todo := todo - {ti};
        if mi != ti && Covers(mi, ti) {
          return true;
        }
      }
      return false;
    }

    /** Lines 107-121: one prefix gives way to its halves. */
    method Halve(mi: Prefix)
      requires mi in newlist && newlist <= pmap.Keys && AllProper(newlist) && mi.len < 32
      modifies `newlist, `pmap
      ensures newlist == old(newlist) - {mi} + {Left(mi), Right(mi)} && newlist <= pmap.Keys && AllProper(newlist)
      ensures SameRoutes(View(newlist, pmap), View(old(newlist), old(pmap)))
    {
      ghost var before := View(newlist, pmap);
      Halves(mi);
      newlist := newlist - {mi};
      var p := Left(mi);
      if p !in newlist {
        newlist := newlist + {p};
        pmap := pmap[p := pmap[mi]];
      }
      p := Right(mi);
      if p !in newlist {
        newlist := newlist + {p};
        pmap := pmap[p := pmap[mi]];
      }
      assert View(newlist, pmap) == Split(before, mi);
      forall a: nat
        ensures NextHop(View(newlist, pmap), a) == NextHop(before, a)
      {
        SplitKeeps(before, mi, a);
      }
    }

    /** Part of the way through a round: the prefixes of the round's length are as they were, or done. */
    ghost predicate MidRound(j: nat, start: set<Prefix>, todo: set<Prefix>)
      reads this
    {
      && newlist <= pmap.Keys && AllProper(newlist) && todo <= start
      && (forall q <- todo :: q.len == j ==> q in newlist)
      && (forall q {:trigger Lone(newlist, q)} | q in newlist && q.len == j && q !in todo :: Lone(newlist, q))
      && (forall k :: 1 <= k < j ==> LoneAt(newlist, k))
      && KeepsLone(start, newlist)
    }

    twostate lemma HalvedMidRound(new j: nat, new start: set<Prefix>, new todo: set<Prefix>, new mi: Prefix)
      requires old(MidRound(j, start, todo)) && mi in todo && mi.len == j < 32 && !old(Lone(newlist, mi))
      requires newlist == old(newlist) - {mi} + {Left(mi), Right(mi)} && newlist <= pmap.Keys && AllProper(newlist)
      ensures MidRound(j, start, todo - {mi})
    {
      forall q | q in newlist && q.len <= j && (q.len == j ==> q !in todo - {mi})
        ensures Lone(newlist, q)
      {
        assert LoneAt(old(newlist), q.len) || q.len == j;
        SplitStaysLone(old(newlist), mi, q);
      }
      forall q | q in start && Lone(start, q)
        ensures q in newlist && Lone(newlist, q)
      {
        SplitStaysLone(old(newlist), mi, q);
      }
    }

    /** One round: the prefixes of length `j` that cover another give way to their halves, and those alone. */
    method Round(j: nat)
      requires 1 <= j < 32 && alllist <= pmap.Keys && AllProper(alllist)
      requires forall k :: 1 <= k < j ==> LoneAt(alllist, k)
      modifies this
      ensures alllist <= pmap.Keys && AllProper(alllist) && forall k :: 1 <= k <= j ==> LoneAt(alllist, k)
      ensures KeepsLone(old(alllist), alllist)
      ensures SameRoutes(View(alllist, pmap), old(View(alllist, pmap)))
    {
      newlist := alllist;
      var todo := alllist;
      while todo != {}
        invariant alllist == old(alllist) && MidRound(j, alllist, todo)
        invariant SameRoutes(View(newlist, pmap), old(View(alllist, pmap)))
        decreases todo
      {
        var mi :| mi in todo;
        if mi.len == j {
          var ifcontain := CoversAnother(mi);
          if ifcontain {
            label Before:
            Halve(mi);
            HalvedMidRound@Before(j, alllist, todo, mi);
          }
        }
        todo := todo - {mi};
      }
      alllist := newlist;
    }

    /**
     * The whole loop: no address is routed differently, no prefix left covers another, and a prefix
     * that covered none to begin with is still there.
     */
    method SplitAll()
      requires alllist <= pmap.Keys && AllProper(alllist)
      modifies this
      ensures alllist <= pmap.Keys && AllProper(alllist)
      ensures SameRoutes(View(alllist, pmap), old(View(alllist, pmap)))
      ensures (forall q <- alllist :: Lone(alllist, q)) && KeepsLone(old(alllist), alllist)
    {
      for j := 1 to 32
        invariant alllist <= pmap.Keys && AllProper(alllist) && forall k :: 1 <= k < j ==> LoneAt(alllist, k)
        invariant SameRoutes(View(alllist, pmap), old(View(alllist, pmap))) && KeepsLone(old(alllist), alllist)
      {
        Round(j);
      }
      forall q <- alllist
        ensures Lone(alllist, q)
      {
        assert Proper(q);
        if q.len == 32 {
          forall s | s in alllist && s != q
            ensures !Covers(q, s)
          {
            assert Proper(s);
          }
        } else {
          assert LoneAt(alllist, q.len);
        }
      }
    }

    /** Lines 128-135: whether the program reports an error. */
    method CheckOverlap() returns (error: bool)
      ensures error <==> exists q, s :: q in alllist && s in alllist && q != s && q.len < s.len && Covers(q, s)
    {
      var outer := alllist;
      while outer != {}
        invariant outer <= alllist
        invariant forall s <- alllist - outer, q <- alllist :: q != s && q.len < s.len ==> !Covers(q, s)
        decreases outer
      {
        var mi :| mi in outer;
        outer := outer - {mi};
        var inner := alllist;
        while inner != {}
          invariant inner <= alllist
          invariant forall q <- alllist - inner :: q != mi && q.len < mi.len ==> !Covers(q, mi)
          decreases inner
        {
          var ti :| ti in inner;
          inner := inner - {ti};
          if ti != mi && ti.len < mi.len && Covers(ti, mi) {
            return true;
          }
        }
      }
      return false;
    }
  }

  /** The program on a table: its check passes, and it writes the routes it read. */
  method Rewrite(fib: map<Prefix, nat>) returns (out: map<Prefix, nat>, error: bool)
    requires AllProper(fib.Keys)
    ensures !error && AllProper(out.Keys) && forall a: nat :: NextHop(out, a) == NextHop(fib, a)
    ensures forall p, q :: p in out && q in out && p != q ==> forall a: nat :: !(Contains(p, a) && Contains(q, a))
  {
    var s := new Splitter(fib);
    s.SplitAll();
    error := s.CheckOverlap();
    out := map p | p in s.alllist :: s.pmap[p];
    assert out == View(s.alllist, s.pmap);
    forall p, q, a: nat | p in out && q in out && p != q && p.len <= q.len
      ensures !(Contains(p, a) && Contains(q, a))
    {
      assert Lone(s.alllist, p) && !Covers(p, q) && Proper(q);
      if Contains(q, a) {
        NestUnder(q, a, p.len);
      }
    }
  }
}
