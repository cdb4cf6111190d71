/**
 * Forwarding by Bloom filters, one for each next hop and prefix length, checked
 * against a longest-prefix lookup (BloomFilterTest.cc).
 */
module BloomForwarding {
  import opened Prefixes
  import opened BloomFilters

  datatype Line = Line(prefix: Prefix, nexthop: nat)

  /** What a file of routes says: of two lines for one prefix, the later counts. */
  ghost function Table(lines: seq<Line>): map<Prefix, nat> {
    if lines == [] then map[]
    else var l := lines[|lines| - 1]; Table(lines[..|lines| - 1])[l.prefix := l.nexthop]
  }

  /** Prefixes of length 0 have no filter. */
  ghost predicate Proper(p: Prefix) {
    Canonical(p) && 1 <= p.len
  }

  /** How many prefixes of a next hop and length; 0 for what is not counted. */
  function CountIn(counts: map<(nat, nat), nat>, nh: nat, len: nat): nat {
    if (nh, len) in counts then counts[(nh, len)] else 0
  }

  /** How many lines there are for a next hop and length. */
  ghost function LinesFor(lines: seq<Line>, nh: nat, len: nat): nat {
    if lines == [] then 0
    else
      var l := lines[|lines| - 1];
      LinesFor(lines[..|lines| - 1], nh, len) + if l.nexthop == nh && l.prefix.len == len then 1 else 0
  }

  /** The lists and counts belong to the routes. */
  ghost predicate ListedIn(pmap: map<Prefix, nat>, pfxlist: seq<Prefix>, nhlist: set<nat>, counts: map<(nat, nat), nat>) {
    && (forall p <- pmap :: Proper(p) && p in pfxlist && pmap[p] in nhlist && CountIn(counts, pmap[p], p.len) > 0)
    && forall p <- pfxlist :: p in pmap
  }

  /** Lines 472-507. */
  method ReadFib(lines: seq<Line>)
    returns (pmap: map<Prefix, nat>, pfxlist: seq<Prefix>, nhlist: set<nat>, counts: map<(nat, nat), nat>)
    requires forall k :: 0 <= k < |lines| ==> Proper(lines[k].prefix)
    ensures ListedIn(pmap, pfxlist, nhlist, counts) && pmap == Table(lines)
    ensures forall nh, len :: CountIn(counts, nh, len) == LinesFor(lines, nh, len)
  {
    pmap, pfxlist, nhlist, counts := map[], [], {}, map[];
    for k := 0 to |lines|
      invariant ListedIn(pmap, pfxlist, nhlist, counts) && pmap == Table(lines[..k])
      invariant forall nh, len :: CountIn(counts, nh, len) == LinesFor(lines[..k], nh, len)
    {
      var l := lines[k];
      OneMoreLine(pmap, pfxlist, nhlist, counts, l);
      pmap := pmap[l.prefix := l.nexthop];
      pfxlist := pfxlist + [l.prefix];
      nhlist := nhlist + {l.nexthop};
      counts := counts[(l.nexthop, l.prefix.len) := CountIn(counts, l.nexthop, l.prefix.len) + 1];
      assert lines[..k + 1][..k] == lines[..k];
    }
    assert lines[..|lines|] == lines;
  }

  lemma OneMoreLine(pmap: map<Prefix, nat>, pfxlist: seq<Prefix>, nhlist: set<nat>, counts: map<(nat, nat), nat>, l: Line)
    requires ListedIn(pmap, pfxlist, nhlist, counts) && Proper(l.prefix)
    ensures ListedIn(pmap[l.prefix := l.nexthop], pfxlist + [l.prefix], nhlist + {l.nexthop},
                     counts[(l.nexthop, l.prefix.len) := CountIn(counts, l.nexthop, l.prefix.len) + 1])
  {
  }

  function Elements(s: seq<Prefix>): set<Prefix> {
    set p | p in s
  }

  lemma ElementsNext(s: seq<Prefix>, i: nat)
    requires i < |s|
    ensures Elements(s[..i + 1]) == Elements(s[..i]) + {s[i]} && s[i] in s
    ensures forall q <- Elements(s[..i]) :: q in s
  {
    assert s[..i + 1] == s[..i] + [s[i]];
  }

  lemma OneLess<T>(all: set<T>, todo: set<T>, x: T)
    requires x in todo
    ensures x !in all - todo
    ensures all - (todo - {x}) == if x in all then all - todo + {x} else all - todo
  {
  }

  // ---- the next hops hit

  /** The filters that let an address through, by next hop and length: its matches. */
  type Matches = set<(nat, nat)>

  /** The longest length at which a next hop is matched. */
  ghost predicate HitAt(ms: Matches, nh: nat, j: nat) {
    1 <= j <= 32 && (nh, j) in ms && forall l: nat :: j < l <= 32 ==> (nh, l) !in ms
  }

  ghost predicate NoHit(ms: Matches, nh: nat) {
    forall l: nat :: 1 <= l <= 32 ==> (nh, l) !in ms
  }

  ghost function Hitters(ms: Matches, nhlist: set<nat>): set<nat> {
    set nh | nh in nhlist && !NoHit(ms, nh)
  }

  lemma {:induction false} LongestOf(ms: Matches, nh: nat, top: nat) returns (l: nat)
    requires top <= 32 && !NoHit(ms, nh) && forall j: nat :: top < j <= 32 ==> (nh, j) !in ms
    ensures HitAt(ms, nh, l)
  {
    if top > 0 && (nh, top) in ms {
      l := top;
    } else if top > 0 {
      l := LongestOf(ms, nh, top - 1);
    } else {
      assert false;
    }
  }

  /**
   * Of the next hops looked at, one hit at the greatest length has been kept, and the hits counted. A
   * next hop 0 is taken for none, and so may be given up for one with a shorter hit.
   */
  ghost predicate Kept(ms: Matches, hitters: set<nat>, nh: nat, hitj: nat, error: nat) {
    && error == |hitters| && (error == 0 ==> nh == 0) && (error > 0 ==> nh in hitters && HitAt(ms, nh, hitj))
    && (0 !in hitters ==> forall other, l: nat :: other in hitters && HitAt(ms, other, l) ==> l <= hitj)
  }

  lemma KeptNext(ms: Matches, hitters: set<nat>, nh: nat, hitj: nat, error: nat, si: nat, j: nat)
    requires Kept(ms, hitters, nh, hitj, error) && si !in hitters && HitAt(ms, si, j)
    ensures var better := nh == 0 || j > hitj;
            Kept(ms, hitters + {si}, if better then si else nh, if better then j else hitj, error + 1)
  {
    assert forall l: nat :: HitAt(ms, si, l) ==> l == j;
  }

  /** The same, of those in a list but not still to do. */
  ghost predicate Looked(ms: Matches, list: set<nat>, todo: set<nat>, nh: nat, hitj: nat, error: nat) {
    Kept(ms, Hitters(ms, list) - todo, nh, hitj, error)
  }

  lemma NoneLooked(ms: Matches, list: set<nat>)
    ensures Looked(ms, list, list, 0, 0, 0)
  {
    assert Hitters(ms, list) - list == {};
  }

  lemma AllLooked(ms: Matches, list: set<nat>, nh: nat, hitj: nat, error: nat)
    requires Looked(ms, list, {}, nh, hitj, error)
    ensures Kept(ms, Hitters(ms, list), nh, hitj, error)
  {
    assert Hitters(ms, list) - {} == Hitters(ms, list);
  }

  /** Lines 280-285: one next hop looked at, and hit at length `j` or not at all. */
  method Take(si: nat, j: nat, nh0: nat, hitj0: nat, error0: nat, ghost ms: Matches, ghost list: set<nat>, ghost todo: set<nat>)
    returns (nh: nat, hitj: nat, error: nat)
    requires Looked(ms, list, todo, nh0, hitj0, error0) && si in todo && todo <= list
    requires if j == 0 then NoHit(ms, si) else HitAt(ms, si, j)
    ensures Looked(ms, list, todo - {si}, nh, hitj, error)
  {
    nh, hitj, error := nh0, hitj0, error0;
    ghost var all := Hitters(ms, list);
    OneLess(all, todo, si);
    assert j > 0 ==> !NoHit(ms, si);
    if j > 0 {
      KeptNext(ms, all - todo, nh, hitj, error, si, j);
      if nh == 0 || j > hitj {
        nh, hitj := si, j;
      }
      error := error + 1;
    }
  }

  /** A next hop is matched though no prefix of that length for the address has it. */
  ghost predicate FalsePositive(ms: Matches, pmap: map<Prefix, nat>, nh: nat, j: nat, a: nat) {
    1 <= j <= 32 && (nh, j) in ms && !(At(a, j) in pmap && pmap[At(a, j)] == nh)
  }

  /** The answer comes of a false positive at or beyond the matching length. */
  ghost predicate ByChance(ms: Matches, pmap: map<Prefix, nat>, nh: nat, a: nat) {
    exists j: nat :: FalsePositive(ms, pmap, nh, j, a) && forall p :: IsLongest(pmap, a, p) ==> p.len <= j
  }

  lemma OnlyOne(s: set<nat>, x: nat, y: nat)
    requires x in s && y in s && x != y
    ensures |s| > 1
  {
    assert {x, y} <= s;
    assert s == {x, y} + (s - {x, y});
  }

  /** The next hop of the longest match is matched, at its length. */
  ghost predicate LongestMatched(ms: Matches, nhlist: set<nat>, pmap: map<Prefix, nat>, a: nat) {
    forall p :: IsLongest(pmap, a, p) ==> 1 <= p.len && (pmap[p], p.len) in ms && pmap[p] in nhlist
  }

  /** Then a wrong answer is never the only one, and comes by chance. */
  lemma Verdict(ms: Matches, nhlist: set<nat>, pmap: map<Prefix, nat>, a: nat, p: Prefix, nh: nat, hitj: nat, error: nat)
    requires LongestMatched(ms, nhlist, pmap, a) && IsLongest(pmap, a, p)
    requires Kept(ms, Hitters(ms, nhlist), nh, hitj, error) && error > 0
    ensures nh != pmap[p] ==> error > 1 && (0 !in nhlist ==> ByChance(ms, pmap, nh, a))
  {
    assert !NoHit(ms, pmap[p]);
    if nh != pmap[p] {
      OnlyOne(Hitters(ms, nhlist), nh, pmap[p]);
      if 0 !in nhlist {
        var l := LongestOf(ms, pmap[p], 32);
        assert p.len <= l <= hitj;
        if At(a, hitj) in pmap {
          TruncIdempotent(a, hitj);
          assert Contains(At(a, hitj), a);
        }
        assert FalsePositive(ms, pmap, nh, hitj, a);
      }
    }
  }

  /** `linear_lookup`, from length 32: the exact answer, or 0. */
  method LinearLookup(pmap: map<Prefix, nat>, a: nat) returns (nh: nat)
    requires forall p <- pmap :: Proper(p)
    ensures if NoMatch(pmap, a) then nh == 0 else exists p :: IsLongest(pmap, a, p) && nh == pmap[p]
  {
    var i := 32;
    while i > 0
      invariant 0 <= i <= 32 && forall l :: i < l <= 32 ==> At(a, l) !in pmap
    {
      if At(a, i) in pmap {
        assert Longest(pmap, a, i);
        LongestIsLongest(pmap, a, i);
        return pmap[At(a, i)];
      }
      i := i - 1;
    }
    forall q <- pmap
      ensures !Contains(q, a)
    {
      assert Proper(q) && (Contains(q, a) ==> q == At(a, q.len));
    }
    return 0;
  }

  /** Lines 294-325: what the filters answered, against the exact answer. */
  method Judge(pmap: map<Prefix, nat>, a: nat, nh: nat, error: nat, ghost ms: Matches, ghost nhlist: set<nat>, ghost hitj: nat)
    returns (skipped: bool, linearnh: nat, lookupError: bool)
    requires (forall p <- pmap :: Proper(p)) && LongestMatched(ms, nhlist, pmap, a)
    requires Kept(ms, Hitters(ms, nhlist), nh, hitj, error)
    ensures !lookupError
    ensures skipped <==> forall p :: IsLongest(pmap, a, p) ==> pmap[p] == 0
    ensures !skipped ==> exists p :: IsLongest(pmap, a, p) && linearnh == pmap[p]
    ensures !skipped && nh != linearnh && 0 !in nhlist ==> ByChance(ms, pmap, nh, a)
  {
    forall p | IsLongest(pmap, a, p)
      ensures Hitters(ms, nhlist) != {}
    {
      assert !NoHit(ms, pmap[p]) && pmap[p] in Hitters(ms, nhlist);
    }
    if error == 0 {
      return true, 0, false;
    }
    linearnh := LinearLookup(pmap, a);
    if linearnh == 0 {
      return true, 0, false;
    }
    ghost var p :| IsLongest(pmap, a, p) && linearnh == pmap[p];
    Verdict(ms, nhlist, pmap, a, p, nh, hitj, error);
    return false, linearnh, nh != linearnh && error <= 1;
  }

  /** The addresses held for a next hop and length are those of its prefixes so far. */
  ghost predicate Filled(held: map<(nat, nat), set<nat>>, pmap: map<Prefix, nat>, done: set<Prefix>) {
    forall k <- held, a: nat :: a in held[k] <==> Prefix(a, k.1) in done && Prefix(a, k.1) in pmap && pmap[Prefix(a, k.1)] == k.0
  }

  lemma FilledNext(held: map<(nat, nat), set<nat>>, pmap: map<Prefix, nat>, done: set<Prefix>, p: Prefix)
    requires Filled(held, pmap, done) && p in pmap && (pmap[p], p.len) in held
    ensures var k := (pmap[p], p.len); Filled(held[k := held[k] + {p.addr}], pmap, done + {p})
  {
  }

  /** A filter is asked for with any size, and has at least one place. */
  function SizeOf(asked: nat): nat { if asked == 0 then 1 else asked }

  class Forwarder {
    var pmap: map<Prefix, nat>
    var pfxlist: seq<Prefix>
    var nhlist: set<nat>
    var counts: map<(nat, nat), nat>                // nh_pfxlen_count, by next hop and length
    var filters: map<(nat, nat), BloomFilter>       // nh_pfxlen_filter, likewise
    ghost var Repr: set<object>                     // the filters and their tables

    ghost predicate Listed()
      reads this
    {
      ListedIn(pmap, pfxlist, nhlist, counts)
    }

    constructor (lines: seq<Line>)
      requires forall k :: 0 <= k < |lines| ==> Proper(lines[k].prefix)
      ensures Listed() && pmap == Table(lines) && filters == map[] && Repr == {}
      ensures forall nh, len :: CountIn(counts, nh, len) == LinesFor(lines, nh, len)
    {
      var routes, list, hops, number := ReadFib(lines);
      pmap, pfxlist, nhlist, counts := routes, list, hops, number;
      filters, Repr := map[], {};
    }

    // ---- the filters

    ghost predicate Apart(k: (nat, nat), l: (nat, nat))
      requires k in filters && l in filters && filters[k] in Repr && filters[l] in Repr
      reads this, Repr
    {
      filters[k] != filters[l] && (filters[k].table == null || filters[k].table != filters[l].table)
    }

    /** Every filter is sound, and none shares its table. */
    ghost predicate Sound()
      reads this, Repr
    {
      && this !in Repr
      && (forall k <- filters :: filters[k] in Repr && (filters[k].table == null || filters[k].table in Repr))
      && (forall k <- filters :: filters[k].Valid() && (filters[k].table == null <==> CountIn(counts, k.0, k.1) == 0))
      && forall k, l {:trigger Apart(k, l)} | k in filters && l in filters && k != l :: Apart(k, l)
    }

    ghost predicate Complete()
      reads this
    {
      forall nh, j :: (nh, j) in filters <==> nh in nhlist && 1 <= j <= 32
    }

    /** The addresses inserted in each filter. */
    ghost function Held(): map<(nat, nat), set<nat>>
      reads this, Repr
      requires forall k <- filters :: filters[k] in Repr
    {
      map k | k in filters :: filters[k].inserted
    }

    /** Each filter draws from `rand` and has the size for its next hop and length. */
    ghost predicate Sized(rand: Rand, sizes: (nat, nat) -> nat)
      reads this
    {
      forall k <- filters :: filters[k].rand == rand && filters[k].size == SizeOf(sizes(k.0, k.1))
    }

    /** Lines 85-100. The sizes come of floating-point sums, and may be any. */
    method MakeFilters(rand: Rand, sizes: (nat, nat) -> nat)
      requires Fits(rand) && filters == map[] && this !in Repr
      modifies `filters, `Repr
      ensures Made() && Complete() && Sized(rand, sizes) && fresh(Repr - old(Repr))
    {
      var todo := nhlist;
      while todo != {}
        invariant todo <= nhlist && Made() && Sized(rand, sizes) && fresh(Repr - old(Repr))
        invariant forall nh, j :: (nh, j) in filters <==> nh in nhlist - todo && 1 <= j <= 32
        decreases todo
      {
        var nh :| nh in todo;
        MakeRow(rand, nh, sizes);
        todo := todo - {nh};
      }
    }

    method MakeRow(rand: Rand, nh: nat, sizes: (nat, nat) -> nat)
      requires Fits(rand) && Made() && Sized(rand, sizes) && forall j :: (nh, j) !in filters
      modifies `filters, `Repr
      ensures Made() && Sized(rand, sizes) && fresh(Repr - old(Repr))
      ensures forall nh', j :: (nh', j) in filters <==> (nh', j) in old(filters) || (nh' == nh && 1 <= j <= 32)
    {
      for j := 1 to 33
        invariant Made() && Sized(rand, sizes) && fresh(Repr - old(Repr))
        invariant forall nh', j' :: (nh', j') in filters <==> (nh', j') in old(filters) || (nh' == nh && 1 <= j' < j)
      {
        MakeOne(rand, nh, j, sizes);
      }
    }

    ghost predicate Made()
      reads this, Repr
    {
      Sound() && forall k <- filters :: filters[k].inserted == {}
    }

    method MakeOne(rand: Rand, nh: nat, j: nat, sizes: (nat, nat) -> nat)
      requires Fits(rand) && Made() && Sized(rand, sizes) && (nh, j) !in filters
      modifies `filters, `Repr
      ensures Made() && Sized(rand, sizes) && filters.Keys == old(filters).Keys + {(nh, j)} && fresh(Repr - old(Repr))
    {
      var f := new BloomFilter(rand, sizes(nh, j), CountIn(counts, nh, j));
      filters := filters[(nh, j) := f];
      Repr := Repr + {f} + (if f.table == null then {} else {f.table});
      OneMade((nh, j), f);
    }

    twostate lemma OneMade(new k: (nat, nat), new f: BloomFilter)
      requires old(Made()) && k !in old(filters) && filters == old(filters)[k := f] && counts == old(counts)
      requires Repr == old(Repr) + {f} + (if f.table == null then {} else {f.table}) && forall o <- old(Repr) :: unchanged(o)
      requires fresh(f) && (f.table != null ==> fresh(f.table)) && f.Valid() && f.inserted == {}
      requires f.table == null <==> CountIn(counts, k.0, k.1) == 0
      ensures Made()
    {
      forall l, m {:trigger Apart(l, m)} | l in filters && m in filters && l != m
        ensures Apart(l, m)
      {
        assert l != k && m != k ==> old(Apart(l, m));
      }
    }

    /** Lines 104-106. */
    method InsertOne(p: Prefix, ghost done: set<Prefix>)
      requires Listed() && Sound() && Complete() && p in pmap && Filled(Held(), pmap, done)
      modifies Repr
      ensures Sound() && Filled(Held(), pmap, done + {p})
    {
      assert Proper(p);
      FilledNext(Held(), pmap, done, p);
      var f := filters[(pmap[p], p.len)];
      f.Insert(p.addr);
      OthersKept((pmap[p], p.len), p.addr);
    }

    /** Writing one filter leaves the others as they were. */
    twostate lemma OthersKept(new k: (nat, nat), new a: nat)
      requires old(Sound()) && k in filters && filters == old(filters) && Repr == old(Repr) && counts == old(counts)
      requires forall o <- Repr :: o != filters[k] && o != old(filters[k].table) ==> unchanged(o)
      requires filters[k].Valid() && filters[k].table == old(filters[k].table) && filters[k].inserted == old(filters[k].inserted) + {a}
      ensures Sound()
      ensures Held() == old(Held())[k := old(Held())[k] + {a}]
    {
      forall l | l in filters
        ensures filters[l].table == old(filters[l].table) && filters[l].Valid()
        ensures filters[l].inserted == if l == k then old(filters[k].inserted) + {a} else old(filters[l].inserted)
      {
        assert l != k ==> old(Apart(l, k));
      }
      HeldNow(k, a);
      forall l, m {:trigger Apart(l, m)} | l in filters && m in filters && l != m
        ensures Apart(l, m)
      {
        assert old(Apart(l, m));
      }
    }

    twostate lemma HeldNow(new k: (nat, nat), new a: nat)
      requires filters == old(filters) && k in filters && Repr == old(Repr) && forall l <- filters :: filters[l] in Repr
      requires forall l <- filters ::
        filters[l].inserted == if l == k then old(filters[k].inserted) + {a} else old(filters[l].inserted)
      ensures Held() == old(Held())[k := old(Held())[k] + {a}]
    {
    }

    method InsertAll()
      requires Listed() && Made() && Complete()
      modifies Repr
      ensures Ready() && forall rand, sizes :: old(Sized(rand, sizes)) ==> Sized(rand, sizes)
    {
      for i := 0 to |pfxlist|
        invariant Sound() && Filled(Held(), pmap, Elements(pfxlist[..i]))
      {
        ElementsNext(pfxlist, i);
        InsertOne(pfxlist[i], Elements(pfxlist[..i]));
      }
      assert pfxlist[..|pfxlist|] == pfxlist;
      assert pmap.Keys == Elements(pfxlist);
    }

    /** Each filter holds the addresses of the prefixes of its next hop and length, and no others. */
    ghost predicate Ready()
      reads this, Repr
    {
      Listed() && Sound() && Complete() && Filled(Held(), pmap, pmap.Keys)
    }

    /** `create_bloom_filter_pfxlen_each_out`. */
    method Create(rand: Rand, sizes: (nat, nat) -> nat)
      requires Fits(rand) && Listed() && filters == map[] && Repr == {}
      modifies this
      ensures Ready() && pmap == old(pmap) && counts == old(counts) && Sized(rand, sizes)
    {
      MakeFilters(rand, sizes);
      InsertAll();
    }

    // ---- looking up

    ghost function MatchesOf(a: nat): Matches
      requires Sound()
      reads this, Repr
    {
      set k | k in filters && k.1 <= 32 && filters[k].Answers(Trunc(a, k.1))
    }

    ghost predicate Matched(a: nat, ms: Matches)
      reads this, Repr
    {
      Sound() && Complete() && ms == MatchesOf(a)
    }

    /** Lines 275-286, for one next hop; 0 if no filter of it matches. */
    method LongestHit(nh: nat, a: nat, ghost ms: Matches) returns (j: nat)
      requires Matched(a, ms) && nh in nhlist
      ensures (if j == 0 then NoHit(ms, nh) else HitAt(ms, nh, j)) && Matched(a, ms)
    {
      j := 32;
      while j > 0
        invariant j <= 32 && forall l: nat :: j < l <= 32 ==> (nh, l) !in ms
      {
        var r := filters[(nh, j)].Contains(Trunc(a, j));
        if r {
          return;
        }
        j := j - 1;
      }
    }

    /** One turn of lines 273-290. */
    method LookAt(a: nat, si: nat, nh0: nat, hitj0: nat, error0: nat, ghost ms: Matches, ghost list: set<nat>, ghost todo: set<nat>)
      returns (nh: nat, hitj: nat, error: nat)
      requires Matched(a, ms) && si in todo && todo <= list && list == nhlist && Looked(ms, list, todo, nh0, hitj0, error0)
      ensures Looked(ms, list, todo - {si}, nh, hitj, error) && Matched(a, ms)
    {
      var j := LongestHit(si, a, ms);
      nh, hitj, error := Take(si, j, nh0, hitj0, error0, ms, list, todo);
    }

    /** Lines 273-290. */
    method Lookup(a: nat, ghost ms: Matches) returns (nh: nat, hitj: nat, error: nat)
      requires Matched(a, ms)
      ensures Kept(ms, Hitters(ms, nhlist), nh, hitj, error)
    {
      nh, hitj, error := 0, 0, 0;
      var todo := nhlist;
      ghost var list := nhlist;
      NoneLooked(ms, list);
      while todo != {}
        invariant todo <= list && Looked(ms, list, todo, nh, hitj, error) && Matched(a, ms)
        decreases todo
      {
        var si :| si in todo;
        nh, hitj, error := LookAt(a, si, nh, hitj, error, ms, list, todo);
        todo := todo - {si};
      }
      AllLooked(ms, list, nh, hitj, error);
    }

    /** What is inserted is never denied. */
    lemma AllLongestMatched(a: nat)
      requires Ready()
      ensures LongestMatched(MatchesOf(a), nhlist, pmap, a)
    {
      forall p | IsLongest(pmap, a, p)
        ensures 1 <= p.len && pmap[p] in nhlist && (pmap[p], p.len) in MatchesOf(a)
      {
        assert Proper(p) && p == At(a, p.len);
        var f := filters[(pmap[p], p.len)];
        f.InsertedAnswers(p.addr);
      }
    }

    /**
     * One sample. When just one next hop is hit it is the right one, so the program never reports a
     * lookup error; when several are, the answer is wrong only by chance.
     */
    method Sample(a: nat) returns (skipped: bool, nh: nat, linearnh: nat, lookupError: bool, ghost ms: Matches)
      requires Ready()
      ensures !lookupError && ms == MatchesOf(a)
      ensures skipped <==> forall p :: IsLongest(pmap, a, p) ==> pmap[p] == 0
      ensures !skipped ==> exists p :: IsLongest(pmap, a, p) && linearnh == pmap[p]
      ensures exists hitj, error: nat :: Kept(ms, Hitters(ms, nhlist), nh, hitj, error)
      ensures !skipped && nh != linearnh && 0 !in nhlist ==> ByChance(ms, pmap, nh, a)
    {
      ms := MatchesOf(a);
      AllLongestMatched(a);
      var hitj, error;
      nh, hitj, error := Lookup(a, ms);
      skipped, linearnh, lookupError := Judge(pmap, a, nh, error, ms, nhlist, hitj);
    }
  }
}
