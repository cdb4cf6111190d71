/**
 * The entries of `RadixIPLookup` with the links `extra` that string them
 * together (bfclick/ip/radixiplookup.cc:129-204), as far as the default route
 * goes: where its entry is put, and what removing it does to the free entries.
 */
module RadixLinks {
  import opened Prefixes
  import opened RadixGeometry
  import opened RadixLookups
  import opened Results

  /** The entry at place `i`, and past the end what ends a chain. */
  function Nth(l: seq<nat>, i: nat): int {
    if i < |l| then l[i] else -1
  }

  /** Following the links from `start` visits the entries of `l` and ends. */
  ghost predicate Chain(extra: seq<int>, start: int, l: seq<nat>) {
    && start == Nth(l, 0) && (forall i :: 0 <= i < |l| ==> l[i] < |extra|)
    && forall i {:trigger extra[l[i]]} :: 0 <= i < |l| ==> extra[l[i]] == Nth(l, i + 1)
  }

  ghost predicate Distinct(l: seq<nat>) {
    forall i, j :: 0 <= i < j < |l| ==> l[i] != l[j]
  }

  /** Following the links from `start` ends. */
  ghost predicate Ends(extra: seq<int>, start: int) {
    exists l :: Chain(extra, start, l)
  }

  /** The links from `start` stay among the entries of `s` for ever. */
  ghost predicate Round(extra: seq<int>, start: int, s: set<int>) {
    start in s && forall x <- s :: 0 <= x < |extra| && extra[x] in s
  }

  ghost predicate GoesRound(extra: seq<int>, start: int) {
    exists s :: Round(extra, start, s)
  }

  lemma RoundHasNoEnd(extra: seq<int>, start: int, s: set<int>)
    requires Round(extra, start, s)
    ensures !Ends(extra, start)
  {
    if Ends(extra, start) {
      var l :| Chain(extra, start, l);
      RoundHolds(extra, start, s, l, |l|);
    }
  }

  lemma EndedIsNotRound(extra: seq<int>, start: int)
    requires Ends(extra, start)
    ensures !GoesRound(extra, start)
  {
    if GoesRound(extra, start) {
      var s :| Round(extra, start, s);
      RoundHasNoEnd(extra, start, s);
    }
  }

  lemma {:induction false} RoundHolds(extra: seq<int>, start: int, s: set<int>, l: seq<nat>, k: nat)
    requires Round(extra, start, s) && Chain(extra, start, l) && k <= |l|
    ensures Nth(l, k) in s
  {
    if k > 0 {
      RoundHolds(extra, start, s, l, k - 1);
      assert extra[l[k - 1]] == Nth(l, k);
    }
  }

  /** `*pprev = _v[j].extra; _v[j].extra = _vfree`, with -1 for the default key's own link. */
  function Unlinked(extra: seq<int>, prev: int, j: nat, vfree: int): (extra': seq<int>)
    requires j < |extra| && -1 <= prev < |extra|
    ensures |extra'| == |extra|
  {
    var e := if prev < 0 then extra else extra[prev := extra[j]];
    e[j := vfree]
  }

  /** Where entry `i` of a list comes from when entry `n` is put first. */
  function From(n: nat, i: nat): nat {
    if i == 0 then n else if i <= n then i - 1 else i
  }

  function Front(l: seq<nat>, n: nat): (m: seq<nat>)
    requires n < |l|
    ensures |m| == |l|
    ensures forall i :: 0 <= i < |m| ==> m[i] == l[From(n, i)]
  {
    seq(|l|, i requires 0 <= i < |l| => l[From(n, i)])
  }

  lemma FrontLink(extra: seq<int>, vfree: int, l: seq<nat>, n: nat, i: nat)
    requires Chain(extra, vfree, l) && Distinct(l) && 0 < n < |l| && i < |l|
    ensures l[n - 1] < |extra| && l[n] < |extra| && l[From(n, i)] < |extra|
    ensures Unlinked(extra, l[n - 1], l[n], vfree)[l[From(n, i)]] == Nth(Front(l, n), i + 1)
  {
    var x := From(n, i);
    assert extra[l[n]] == Nth(l, n + 1) && vfree == l[0] && extra[l[x]] == Nth(l, x + 1);
    assert x != n ==> l[x] != l[n];
    assert x != n - 1 ==> l[x] != l[n - 1];
    assert l[n - 1] != l[n];
    if i + 1 < |l| {
      assert Front(l, n)[i + 1] == l[From(n, i + 1)];
    }
  }

  lemma FrontDistinct(l: seq<nat>, n: nat)
    requires Distinct(l) && n < |l|
    ensures Distinct(Front(l, n))
  {
    forall i, j | 0 <= i < j < |l|
      ensures Front(l, n)[i] != Front(l, n)[j]
    {
      assert From(n, i) != From(n, j);
    }
  }

  /** An entry further down the free ones comes to their front. */
  lemma ToFront(extra: seq<int>, vfree: int, l: seq<nat>, n: nat)
    requires Chain(extra, vfree, l) && Distinct(l) && 0 < n < |l|
    ensures l[n - 1] < |extra| && l[n] < |extra|
    ensures Chain(Unlinked(extra, l[n - 1], l[n], vfree), l[n], Front(l, n)) && Distinct(Front(l, n))
  {
    FrontDistinct(l, n);
    forall i | 0 <= i < |l|
      ensures l[From(n, i)] < |extra|
      ensures Unlinked(extra, l[n - 1], l[n], vfree)[l[From(n, i)]] == Nth(Front(l, n), i + 1)
    {
      FrontLink(extra, vfree, l, n, i);
    }
  }

  /** An entry put before a round of links leads into it. */
  lemma IntoRound(extra: seq<int>, vfree: int, s: set<int>, prev: int, j: nat)
    requires Round(extra, vfree, s) && j < |extra| && -1 <= prev < |extra| && prev !in s && j !in s && prev != j
    ensures Round(Unlinked(extra, prev, j, vfree), j, s + {j})
  {
  }

  /** The first free entries, up to one that is unlinked from elsewhere, become a round. */
  lemma MakesRound(extra: seq<int>, vfree: int, free: seq<nat>, k: nat)
    requires Chain(extra, vfree, free) && Distinct(free) && k < |free|
    ensures free[k] < |extra|
    ensures Round(Unlinked(extra, -1, free[k], vfree), free[k], set i: nat | i <= k :: free[i])
  {
    var s: set<int> := set i: nat | i <= k :: free[i];
    var e := Unlinked(extra, -1, free[k], vfree);
    assert free[0] in s && free[k] in s;
    forall x | x in s
      ensures 0 <= x < |e| && e[x] in s
    {
      var i: nat :| i <= k && x == free[i];
      if i < k {
        assert e[x] == free[i + 1] && free[i + 1] in s;
      }
    }
  }

  /** The walk stands at place `i` of the chain, behind `prev`; what is ahead is still linked as it was. */
  ghost predicate Walking(extra: seq<int>, first: int, prev: int, chain: seq<nat>, i: nat) {
    && i <= |chain| && -1 <= prev < |extra|
    && (forall k :: i <= k < |chain| ==> chain[k] < |extra| && chain[k] != prev)
    && (forall k {:trigger extra[chain[k]]} :: i <= k < |chain| ==> extra[chain[k]] == Nth(chain, k + 1))
    && Nth(chain, i) == if prev < 0 then first else extra[prev]
  }

  /** The free entries when the walk stands behind place `n` of them. */
  ghost predicate Passing(extra: seq<int>, vfree: int, prev: int, chain: seq<nat>, i: nat, free: seq<nat>, n: nat) {
    && Chain(extra, vfree, free) && Distinct(free)
    && 0 < n <= |free| && i <= |chain| && free[n..] == chain[i..] && prev == free[n - 1]
  }

  lemma PassOn(extra: seq<int>, vfree: int, prev: int, chain: seq<nat>, i: nat, free: seq<nat>, n: nat)
    requires Passing(extra, vfree, prev, chain, i, free, n) && i < |chain|
    ensures n < |free| && free[n] == chain[i]
    ensures Passing(extra, vfree, chain[i], chain, i + 1, free, n + 1)
  {
    assert free[n] == free[n..][0] == chain[i..][0];
    assert free[n + 1..] == free[n..][1..] && chain[i + 1..] == chain[i..][1..];
  }

  lemma PassFreed(extra: seq<int>, vfree: int, prev: int, chain: seq<nat>, i: nat, free: seq<nat>, n: nat)
    requires Passing(extra, vfree, prev, chain, i, free, n) && i < |chain| && chain[i] < |extra| && prev < |extra|
    ensures n < |free|
    ensures Passing(Unlinked(extra, prev, chain[i], vfree), chain[i], prev, chain, i + 1, Front(free, n), n + 1)
  {
    PassOn(extra, vfree, prev, chain, i, free, n);
    ToFront(extra, vfree, free, n);
    assert Front(free, n)[n + 1..] == free[n + 1..];
  }

  ghost predicate TailOf(chain: seq<nat>, free: seq<nat>) {
    |chain| <= |free| && chain == free[|free| - |chain|..]
  }

  /**
   * What the walk has made of the free entries. `hits` tells which entries of
   * the chain are to go. Once the first has gone the free entries go round
   * among `s`; if it stays they are `list`, and the walk is behind place `n`.
   */
  ghost predicate Standing(extra: seq<int>, vfree: int, first: int, prev: int, chain: seq<nat>, hits: seq<bool>, i: nat,
                           free: seq<nat>, list: seq<nat>, n: nat, s: set<int>) {
    && |hits| == |chain| && Walking(extra, first, prev, chain, i)
    && (i == 0 ==> prev == -1 && Chain(extra, vfree, free) && Distinct(free))
    && (i > 0 && hits[0] ==> Round(extra, vfree, s) && prev !in s && forall k :: i <= k < |chain| ==> chain[k] !in s)
    && (i > 0 && !hits[0] && TailOf(chain, free) ==> Passing(extra, vfree, prev, chain, i, list, n))
  }

  lemma WalkOn(extra: seq<int>, first: int, prev: int, chain: seq<nat>, i: nat)
    requires Walking(extra, first, prev, chain, i) && i < |chain| && Distinct(chain)
    ensures Walking(extra, first, chain[i], chain, i + 1)
  {
  }

  lemma WalkFreed(extra: seq<int>, vfree: int, first: int, prev: int, chain: seq<nat>, i: nat)
    requires Walking(extra, first, prev, chain, i) && i < |chain| && Distinct(chain)
    ensures chain[i] < |extra|
    ensures Walking(Unlinked(extra, prev, chain[i], vfree), if prev < 0 then extra[chain[i]] else first, prev, chain, i + 1)
  {
  }

  lemma PassFirst(extra: seq<int>, vfree: int, chain: seq<nat>, free: seq<nat>)
    requires Chain(extra, vfree, free) && Distinct(free) && TailOf(chain, free) && chain != []
    ensures Passing(extra, vfree, chain[0], chain, 1, free, |free| - |chain| + 1)
  {
    var n := |free| - |chain|;
    assert free[n] == free[n..][0];
    assert free[n + 1..] == free[n..][1..];
  }

  /** An entry is left where it is. */
  lemma Left(extra: seq<int>, vfree: int, first: int, prev: int, chain: seq<nat>, hits: seq<bool>, i: nat,
             free: seq<nat>, list: seq<nat>, n: nat, s: set<int>) returns (list': seq<nat>, n': nat)
    requires Standing(extra, vfree, first, prev, chain, hits, i, free, list, n, s)
    requires i < |chain| && Distinct(chain) && !hits[i]
    ensures Standing(extra, vfree, first, chain[i], chain, hits, i + 1, free, list', n', s)
  {
    WalkOn(extra, first, prev, chain, i);
    list', n' := list, n + 1;
    if !hits[0] && TailOf(chain, free) {
      if i == 0 {
        list', n' := free, |free| - |chain| + 1;
        PassFirst(extra, vfree, chain, free);
      } else {
        PassOn(extra, vfree, prev, chain, i, list, n);
      }
    }
  }

  /** An entry is freed. */
  lemma Freed(extra: seq<int>, vfree: int, first: int, prev: int, chain: seq<nat>, hits: seq<bool>, i: nat,
              free: seq<nat>, list: seq<nat>, n: nat, s: set<int>) returns (list': seq<nat>, n': nat, s': set<int>)
    requires Standing(extra, vfree, first, prev, chain, hits, i, free, list, n, s)
    requires i < |chain| && Distinct(chain) && hits[i] && TailOf(chain, free)
    ensures chain[i] < |extra|
    ensures Standing(Unlinked(extra, prev, chain[i], vfree), chain[i], if prev < 0 then extra[chain[i]] else first, prev,
                     chain, hits, i + 1, free, list', n', s')
  {
    WalkFreed(extra, vfree, first, prev, chain, i);
    list', n', s' := list, n, s;
    if i == 0 {
      var k := |free| - |chain|;
      MakesRound(extra, vfree, free, k);
      s' := set i: nat | i <= k :: free[i];
      forall m | 1 <= m < |chain|
        ensures chain[m] !in s'
      {
        assert chain[m] == free[k + m];
      }
    } else if hits[0] {
      IntoRound(extra, vfree, s, prev, chain[i]);
      s' := s + {chain[i]};
    } else {
      PassFreed(extra, vfree, prev, chain, i, list, n);
      list', n' := Front(list, n), n + 1;
    }
  }

  /** At the end of the chain. */
  lemma Outcome(extra: seq<int>, vfree: int, first: int, prev: int, chain: seq<nat>, hits: seq<bool>,
                free: seq<nat>, list: seq<nat>, n: nat, s: set<int>)
    requires Standing(extra, vfree, first, prev, chain, hits, |chain|, free, list, n, s)
    requires TailOf(chain, free) || (Reported(hits, |chain|) == NoEntry && Chain(extra, vfree, free))
    ensures Ends(extra, vfree) <==> chain == [] || !hits[0]
    ensures GoesRound(extra, vfree) <==> !Ends(extra, vfree)
  {
    if chain == [] {
      assert Chain(extra, vfree, free);
      EndedIsNotRound(extra, vfree);
    } else if hits[0] {
      RoundHasNoEnd(extra, vfree, s);
    } else if TailOf(chain, free) {
      assert Chain(extra, vfree, list);
      EndedIsNotRound(extra, vfree);
    } else {
      assert Chain(extra, vfree, free);
      EndedIsNotRound(extra, vfree);
    }
  }

  /** `route.match` for a request to remove the default. */
  predicate Matches(r: Route, hop: Hop) {
    r.p == ROOT && (hop.port < 0 || r.hop == hop)
  }

  ghost function Hits(v: seq<Route>, chain: seq<nat>, hop: Hop): (hits: seq<bool>)
    requires forall k :: 0 <= k < |chain| ==> chain[k] < |v|
    ensures |hits| == |chain| && forall k :: 0 <= k < |chain| ==> hits[k] == Matches(v[chain[k]], hop)
  {
    seq(|chain|, k requires 0 <= k < |chain| => Matches(v[chain[k]], hop))
  }

  /** What is reported when the walk stands at place `i`. */
  ghost function Reported(hits: seq<bool>, i: nat): Status {
    if exists k :: 0 <= k < i && k < |hits| && hits[k] then Ok else NoEntry
  }

  lemma WhatIsReported(v: seq<Route>, chain: seq<nat>, hop: Hop)
    requires forall k :: 0 <= k < |chain| ==> chain[k] < |v|
    ensures Reported(Hits(v, chain, hop), |chain|) == Ok
      <==> exists k :: 0 <= k < |chain| && v[chain[k]].p == Prefix(0, 0) && (hop.port <= -1 || v[chain[k]].hop == hop)
  {
    var hits := Hits(v, chain, hop);
    forall k | 0 <= k < |chain|
      ensures hits[k] <==> v[chain[k]].p == Prefix(0, 0) && (hop.port <= -1 || v[chain[k]].hop == hop)
    {
    }
  }

  class Links {
    var v: seq<Route>               // _v
    var extra: seq<int>             // _v[].extra
    var vfree: int                  // _vfree
    var defaultKey: int             // _default_key

    /** The table's entries: `free` are the free ones, `chain` is what the default key leads to. */
    ghost predicate Threads(free: seq<nat>, chain: seq<nat>)
      reads this
    {
      && |extra| == |v| && Distinct(free) && Distinct(chain)
      && Chain(extra, vfree, free) && Chain(extra, defaultKey, chain)
    }

    /** Lines 132-141. */
    method Take(p: Prefix, hop: Hop) returns (found: nat)
      requires |extra| == |v| && -1 <= vfree < |v|
      modifies `v, `extra, `vfree
      ensures |extra| == |v| && found < |v| && v[found] == Route(p, hop) && extra[found] == -1
      ensures if old(vfree) < 0 then found == |old(v)| && vfree == -1
              else found == old(vfree) && vfree == old(extra)[found]
      ensures |v| == if old(vfree) < 0 then |old(v)| + 1 else |old(v)|
      ensures forall x :: 0 <= x < |old(v)| && x != found ==>
        v[x] == old(v)[x] && extra[x] == old(extra)[x]
    {
      if vfree < 0 {
        found := |v|;
        v, extra := v + [Route(p, hop)], extra + [-1];
      } else {
        found := vfree;
        vfree := extra[found];
        v, extra := v[found := Route(p, hop)], extra[found := -1];
      }
    }

    /** Lines 129-172 for the default route: its entry is found on the list it was just put on, and freed. */
    method AddDefault(hop: Hop, ghost free: seq<nat>) returns (ghost free': seq<nat>)
      requires |extra| == |v| && Distinct(free) && Chain(extra, vfree, free)
      modifies this
      ensures Threads(free', free') && defaultKey >= 0 && v[defaultKey] == Route(ROOT, hop)
      ensures free' == if free == [] then [|old(v)|] else free
      ensures |v| == if free == [] then |old(v)| + 1 else |old(v)|
    {
      var found := Take(ROOT, hop);
      defaultKey := found;
      extra := extra[found := vfree];
      vfree := found;
      free' := if free == [] then [found] else free;
    }

    /** Lines 191-201, one turn of the loop. */
    method RemoveStep(hop: Hop, prev: int, j: nat) returns (prev': int, next: int, gone: bool)
      requires |extra| == |v| && -1 <= prev < |v| && j < |v| && prev != j
      modifies `extra, `vfree, `defaultKey
      ensures |extra| == |v| && gone == Matches(v[j], hop)
      ensures if gone then extra == Unlinked(old(extra), prev, j, old(vfree)) && vfree == j && prev' == prev
              else extra == old(extra) && vfree == old(vfree) && prev' == j
      ensures defaultKey == if gone && prev < 0 then old(extra)[j] else old(defaultKey)
      ensures next == if prev' < 0 then defaultKey else extra[prev']
    {
      gone, prev' := Matches(v[j], hop), prev;
      if gone {
        var after := extra[j];
        if prev < 0 {
          defaultKey := after;
        } else {
          extra := extra[prev := after];
        }
        extra := extra[j := vfree];
        vfree := j;
      } else {
        prev' := j;
      }
      next := if prev' < 0 then defaultKey else extra[prev'];
    }

    method Visit(hop: Hop, prev: int, j: nat, ghost chain: seq<nat>, ghost hits: seq<bool>, ghost i: nat,
                 ghost free: seq<nat>, ghost list: seq<nat>, ghost n: nat, ghost s: set<int>)
      returns (prev': int, next: int, gone: bool, ghost list': seq<nat>, ghost n': nat, ghost s': set<int>)
      requires |extra| == |v| && i < |chain| && j == chain[i] && Distinct(chain)
      requires Standing(extra, vfree, defaultKey, prev, chain, hits, i, free, list, n, s)
      requires j < |v| && hits[i] == Matches(v[j], hop) && (hits[i] ==> TailOf(chain, free))
      modifies `extra, `vfree, `defaultKey
      ensures |extra| == |v| && next == Nth(chain, i + 1) && gone == hits[i]
      ensures Standing(extra, vfree, defaultKey, prev', chain, hits, i + 1, free, list', n', s')
      ensures !gone ==> extra == old(extra) && vfree == old(vfree) && defaultKey == old(defaultKey)
    {
      list', n', s' := list, n, s;
      if hits[i] {
        list', n', s' := Freed(extra, vfree, defaultKey, prev, chain, hits, i, free, list, n, s);
      } else {
        list', n' := Left(extra, vfree, defaultKey, prev, chain, hits, i, free, list, n, s);
      }
      prev', next, gone := RemoveStep(hop, prev, j);
    }

    /**
     * Lines 175-204 for the default route. What the default key leads to is
     * either the rest of the free entries, the default's own being one of them,
     * or the rest of a node's list. When the entry the default key names goes,
     * the free entries have no end from then on.
     */
    method RemoveDefault(hop: Hop, ghost free: seq<nat>, ghost chain: seq<nat>) returns (status: Status)
      requires Threads(free, chain) && (TailOf(chain, free) || forall x <- chain :: v[x].p != ROOT)
      modifies `extra, `vfree, `defaultKey
      ensures |extra| == |v| && status == Reported(Hits(v, chain, hop), |chain|)
      ensures status == Ok <==> exists k :: 0 <= k < |chain| && v[chain[k]].p == Prefix(0, 0) && (hop.port <= -1 || v[chain[k]].hop == hop)
      ensures status == NoEntry ==> extra == old(extra) && vfree == old(vfree) && defaultKey == old(defaultKey)
      ensures Ends(extra, vfree) <==> chain == [] || !Matches(v[chain[0]], hop)
      ensures GoesRound(extra, vfree) <==> !Ends(extra, vfree)
    {
      status := NoEntry;
      var prev, j := -1, defaultKey;
      ghost var hits := Hits(v, chain, hop);
      ghost var i, list, n, s: set<int> := 0, free, 0, {};
      while j >= 0
        invariant |extra| == |v| && j == Nth(chain, i)
        invariant Standing(extra, vfree, defaultKey, prev, chain, hits, i, free, list, n, s)
        invariant status == Reported(hits, i)
        invariant status == NoEntry ==> extra == old(extra) && vfree == old(vfree) && defaultKey == old(defaultKey)
        decreases |chain| - i
      {
        var gone;
        prev, j, gone, list, n, s := Visit(hop, prev, j, chain, hits, i, free, list, n, s);
        if gone {
          status := Ok;
        }
        i := i + 1;
      }
      Outcome(extra, vfree, defaultKey, prev, chain, hits, free, list, n, s);
      WhatIsReported(v, chain, hop);
    }
  }

  /** The links are those of a table: its free entries, and its lists, strung together. */
  ghost predicate Strings(l: Links, t: RadixTable)
    requires t.Tree()
    reads l, t, t.nodes.Values
  {
    && l.v == t.v && |l.extra| == |l.v| && l.defaultKey == t.defaultKey && Chain(l.extra, l.vfree, t.free)
    && forall c <- t.nodes :: Chain(l.extra, Nth(t.nodes[c].list, 0), t.nodes[c].list)
  }

  /** What the default key of a table leads to, as `RemoveDefault` asks of it. */
  lemma DefaultLeads(l: Links, t: RadixTable) returns (chain: seq<nat>)
    requires t.Valid() && t.NoLeak() && Strings(l, t)
    ensures l.Threads(t.free, chain) && (TailOf(chain, t.free) || forall x <- chain :: l.v[x].p != ROOT)
  {
    if t.defaultKey < 0 {
      chain := [];
    } else if t.defaultKey in t.free {
      chain := FromWithin(l.extra, l.vfree, t.free, t.defaultKey);
    } else {
      var p :| p in t.routes && t.routes[p] == t.defaultKey;
      chain := ListedChain(l, t, p);
    }
  }

  /** The rest of a chain is one. */
  lemma FromWithin(extra: seq<int>, start: int, l: seq<nat>, x: nat) returns (chain: seq<nat>)
    requires Chain(extra, start, l) && Distinct(l) && x in l
    ensures Chain(extra, x, chain) && Distinct(chain) && TailOf(chain, l)
  {
    var k: nat :| k < |l| && l[k] == x;
    chain := l[k..];
    forall i | 0 <= i < |chain|
      ensures chain[i] < |extra| && extra[chain[i]] == Nth(chain, i + 1)
    {
      assert chain[i] == l[k + i] && extra[l[k + i]] == Nth(l, k + i + 1);
    }
  }

  lemma ListedChain(l: Links, t: RadixTable, p: Prefix) returns (chain: seq<nat>)
    requires t.Valid() && Strings(l, t) && p in t.routes
    ensures Chain(l.extra, t.routes[p], chain) && Distinct(chain) && forall x <- chain :: l.v[x].p != ROOT
  {
    assert t.RouteOk(p);
    var list := t.Lists()[Home(p)];
    assert ListOk(t.v, t.routes, Home(p), list);
    HomeUnder(Home(p), p);
    chain := FromWithin(l.extra, Nth(list, 0), list, t.routes[p]);
    forall x | x in chain
      ensures x < |l.v| && l.v[x].p != ROOT
    {
      assert Listed(t.v, t.routes, Home(p), x);
      assert t.RouteOk(t.v[x].p);
    }
  }

  /** A default route added to an empty table and removed again: the next two routes are given the same entry. */
  method EntryShared(l: Links, d: Hop, p: Prefix, h: Hop, q: Prefix, g: Hop) returns (first: nat, second: nat)
    requires l.v == [] && l.extra == [] && l.vfree == -1
    modifies l
    ensures first == second && first < |l.v| && l.v[first] == Route(q, g)
  {
    var free := l.AddDefault(d, []);
    var status := l.RemoveDefault(d, free, free);
    GoesRoundAlone(l.extra, l.vfree);
    first := l.Take(p, h);
    second := l.Take(q, g);
  }

  lemma GoesRoundAlone(extra: seq<int>, vfree: int)
    requires GoesRound(extra, vfree) && |extra| == 1
    ensures vfree == 0 && extra[0] == 0
  {
  }
}
