/**
 * The unsorted routing table with skip pointers: `LinearIPLookup`
 * (bfclick/ip/lineariplookup.cc).
 */
module LinearLookups {
  import opened Powers
  import opened Prefixes
  import opened Results

  const DEAD := -0x8000_0000
  const BEYOND := 0x7FFF_FFFF
  const ZERO := Prefix(0, 32)

  /** `IPRoute`; `extra` is where to go on looking for longer matches. */
  datatype Slot = Slot(prefix: Prefix, gw: int, port: int, extra: nat)
  {
    predicate Real() { port > DEAD }

    function Target(): Hop { Hop(gw, port) }

    /** `kill`: what is left looks like the route of address 0. */
    function Killed(): Slot { this.(prefix := ZERO, port := DEAD) }

    predicate Covers(a: nat) { Contains(prefix, a) }

    /** `IPRoute::match`, with this slot as the argument. */
    predicate Matches(p: Prefix, gw: int, port: int) {
      prefix == p && (port < 0 || (this.gw == gw && this.port == port))
    }
  }

  /** `IPRoute::contains` of another route. */
  predicate Inside(p: Prefix, q: Prefix) {
    p.len <= 32 && p.len <= q.len && Trunc(q.addr, p.len) == p.addr
  }

  /** Where each live prefix is: no prefix has two slots, and dead slots look like address 0. */
  ghost predicate Indexed(t: seq<Slot>, at: map<Prefix, nat>) {
    && (forall p {:trigger at[p]} | p in at :: at[p] < |t| && t[at[p]].Real() && t[at[p]].prefix == p)
    && forall i {:trigger t[i]} | 0 <= i < |t| ::
      if t[i].Real() then Canonical(t[i].prefix) && t[i].prefix in at && at[t[i].prefix] == i
      else t[i].port == DEAD && t[i].prefix == ZERO
  }

  /** The routes held. */
  ghost function RoutesOf(t: seq<Slot>, at: map<Prefix, nat>): map<Prefix, Hop>
    requires Indexed(t, at)
  {
    map p | p in at :: t[at[p]].Target()
  }

  /** The checked invariant of lines 54-61: nothing below a live route lies before its `extra`. */
  ghost predicate Skips(t: seq<Slot>) {
    forall i, j {:trigger t[i], t[j]} | 0 <= i < j < |t| && j < t[i].extra && t[i].Real() && t[j].Real() ::
      !Inside(t[i].prefix, t[j].prefix)
  }

  /** The route of address 0 comes before every dead slot. */
  ghost predicate ZeroFirst(t: seq<Slot>, at: map<Prefix, nat>, zero: int) {
    if ZERO in at then zero == at[ZERO] && forall j {:trigger t[j]} | 0 <= j < zero && j < |t| :: t[j].Real()
    else zero == -1
  }

  ghost predicate ZeroKnown(at: map<Prefix, nat>, zero: int) {
    zero == -1 || (ZERO in at && zero == at[ZERO])
  }

  ghost predicate AllReal(t: seq<Slot>) {
    forall k {:trigger t[k]} | 0 <= k < |t| :: t[k].Real()
  }

  /** The slot is that of the longest match. */
  ghost predicate Best(t: seq<Slot>, i: int, a: nat) {
    && 0 <= i < |t| && t[i].Real() && t[i].Covers(a)
    && forall k {:trigger t[k]} | 0 <= k < |t| && t[k].Real() && t[k].Covers(a) :: t[k].prefix.len <= t[i].prefix.len
  }

  /** The two last answers are right. */
  ghost predicate Remembers(t: seq<Slot>, a: nat, entry: int, a2: nat, entry2: int) {
    (a != 0 ==> Best(t, entry, a)) && (a2 != 0 ==> Best(t, entry2, a2))
  }

  /** The first slot to cover an address, or the number of slots. */
  function First(t: seq<Slot>, a: nat): (f: nat)
    ensures f <= |t| && (f < |t| ==> t[f].Covers(a)) && forall k {:trigger t[k]} | 0 <= k < f :: !t[k].Covers(a)
  {
    if t == [] then 0
    else if t[0].Covers(a) then 0
    else
      var f := First(t[1..], a);
      assert forall k | 0 < k < |t| :: t[k] == t[1..][k - 1];
      f + 1
  }

  /** The scan meets a dead slot: only for address 0, and only at the first covering slot or past its `extra`. */
  ghost predicate Stumbles(t: seq<Slot>, a: nat) {
    var f := First(t, a);
    f < |t| && exists k {:trigger t[k]} :: 0 <= k < |t| && !t[k].Real() && t[k].Covers(a) && (k == f || t[f].extra <= k)
  }

  lemma DeadCovers(s: Slot, a: nat)
    requires s.prefix == ZERO
    ensures s.Covers(a) <==> a == 0
  {
  }

  /** Two live routes of one address, the later one longer: the earlier contains it. */
  lemma LongerIsInside(t: seq<Slot>, i: nat, k: nat, a: nat)
    requires i < |t| && k < |t| && Canonical(t[i].prefix) && Canonical(t[k].prefix)
    requires t[i].Covers(a) && t[k].Covers(a) && t[i].prefix.len <= t[k].prefix.len
    ensures Inside(t[i].prefix, t[k].prefix)
  {
    NestUnder(t[k].prefix, a, t[i].prefix.len);
  }

  /** What `lookup_entry` skips is never longer. */
  lemma NothingSkipped(t: seq<Slot>, at: map<Prefix, nat>, i: nat, k: nat, a: nat)
    requires Indexed(t, at) && Skips(t) && i < k < |t| && k < t[i].extra
    requires t[i].Real() && t[i].Covers(a) && t[k].Real() && t[k].Covers(a)
    ensures t[k].prefix.len < t[i].prefix.len
  {
    if t[i].prefix.len <= t[k].prefix.len {
      LongerIsInside(t, i, k, a);
    }
  }

  /** Part of the way through the scan for `a` that begins at the first covering slot, `i`. */
  ghost predicate Scanned(t: seq<Slot>, i: nat, j: nat, a: nat, found: int) {
    && i < |t| && 0 <= found < |t| && t[found].Covers(a) && t[i].prefix.len <= t[found].prefix.len
    && (found == i || t[i].extra <= found < j)
    && (forall k {:trigger t[k]} | Visited(t, i, j, a, k) && t[k].Real() :: t[k].prefix.len <= t[found].prefix.len)
    && (t[found].Real() <==> t[i].Real() && forall k {:trigger t[k]} | Visited(t, i, j, a, k) :: t[k].Real())
  }

  ghost predicate Visited(t: seq<Slot>, i: nat, j: nat, a: nat, k: int)
    requires i < |t|
  {
    t[i].extra <= k < j && k < |t| && t[k].Covers(a)
  }

  /** One turn. Once on a dead slot the scan stays on one: the live route of address 0 is before them all. */
  lemma ScanStep(t: seq<Slot>, at: map<Prefix, nat>, zero: int, i: nat, j: nat, a: nat, found: int)
    requires Indexed(t, at) && ZeroFirst(t, at, zero) && Scanned(t, i, j, a, found) && i == First(t, a) && t[i].extra <= j < |t|
    ensures Scanned(t, i, j + 1, a, if t[j].Covers(a) && t[j].prefix.len >= t[found].prefix.len then j else found)
  {
    var next := if t[j].Covers(a) && t[j].prefix.len >= t[found].prefix.len then j else found;
    if !t[found].Real() {
      DeadStays(t, at, zero, i, j, a, found);
    }
    forall k {:trigger t[k]} | Visited(t, i, j + 1, a, k) && t[k].Real()
      ensures t[k].prefix.len <= t[next].prefix.len
    {
      assert k == j || Visited(t, i, j, a, k);
    }
    StepReal(t, at, i, j, a, found, next);
  }

  lemma StepReal(t: seq<Slot>, at: map<Prefix, nat>, i: nat, j: nat, a: nat, found: int, next: int)
    requires Indexed(t, at) && Scanned(t, i, j, a, found) && t[i].extra <= j < |t|
    requires next == if t[j].Covers(a) && t[j].prefix.len >= t[found].prefix.len then j else found
    requires !t[found].Real() && t[j].Covers(a) && t[j].prefix.len >= t[found].prefix.len ==> !t[j].Real()
    ensures t[next].Real() <==> t[i].Real() && forall k {:trigger t[k]} | Visited(t, i, j + 1, a, k) :: t[k].Real()
  {
    if t[next].Real() {
      forall k {:trigger t[k]} | Visited(t, i, j + 1, a, k)
        ensures t[k].Real()
      {
        assert k == j || Visited(t, i, j, a, k);
      }
    } else if next == j {
      assert Visited(t, i, j + 1, a, j);
    } else if t[i].Real() {
      var k :| Visited(t, i, j, a, k) && !t[k].Real();
      assert Visited(t, i, j + 1, a, k);
    }
  }

  lemma DeadStays(t: seq<Slot>, at: map<Prefix, nat>, zero: int, i: nat, j: nat, a: nat, found: int)
    requires Indexed(t, at) && ZeroFirst(t, at, zero) && Scanned(t, i, j, a, found) && i == First(t, a) && t[i].extra <= j < |t|
    requires !t[found].Real()
    ensures t[j].Covers(a) && t[j].prefix.len >= t[found].prefix.len ==> !t[j].Real()
  {
    DeadCovers(t[found], a);
    assert t[j].Covers(a) ==> i <= j;
    assert ZERO in at ==> t[at[ZERO]].Real() && at[ZERO] == zero;
  }

  lemma ScanDone(t: seq<Slot>, at: map<Prefix, nat>, i: nat, j: nat, a: nat, found: int)
    requires Indexed(t, at) && Skips(t) && Scanned(t, i, j, a, found) && i == First(t, a) && |t| <= j
    ensures t[found].Real() <==> !Stumbles(t, a)
    ensures t[found].Real() ==> Best(t, found, a)
  {
    if t[found].Real() {
      forall k {:trigger t[k]} | 0 <= k < |t| && t[k].Real() && t[k].Covers(a)
        ensures t[k].prefix.len <= t[found].prefix.len
      {
        if i < k < t[i].extra {
          NothingSkipped(t, at, i, k, a);
        } else {
          assert k == i || Visited(t, i, j, a, k);
        }
      }
      forall k {:trigger t[k]} | 0 <= k < |t| && t[k].Covers(a) && (k == i || t[i].extra <= k)
        ensures t[k].Real()
      {
        assert k == i || Visited(t, i, j, a, k);
      }
    } else if t[i].Real() {
      var k :| Visited(t, i, j, a, k) && !t[k].Real();
    }
  }

  lemma FirstIs(t: seq<Slot>, a: nat, i: nat)
    requires i <= |t| && (i < |t| ==> t[i].Covers(a)) && forall k {:trigger t[k]} | 0 <= k < i :: !t[k].Covers(a)
    ensures First(t, a) == i
  {
    var f := First(t, a);
    if f < |t| {
      assert t[f].Covers(a);
    }
    if i < |t| {
      assert t[i].Covers(a);
    }
  }

  // ---- one slot written

  /** Slot `found` now holds a route for `p`; earlier routes above it lead to it, if they led past it. */
  ghost predicate Placed(t: seq<Slot>, new_: seq<Slot>, found: nat, s: Slot) {
    && found <= |t| && |new_| == (if found == |t| then |t| + 1 else |t|) && new_[found] == s
    && forall i {:trigger new_[i]} | 0 <= i < |t| && i != found ::
      new_[i] == if i < found && Inside(t[i].prefix, s.prefix) && t[i].extra > found then t[i].(extra := found) else t[i]
  }

  /** The place for a new route: the first dead slot, or the end. */
  ghost predicate Free(t: seq<Slot>, found: nat) {
    found <= |t| && (found < |t| ==> !t[found].Real()) && forall k {:trigger t[k]} | 0 <= k < found :: t[k].Real()
  }

  /** The slot leads to the first live route it contains, or past them all. */
  ghost predicate LeadsOn(t: seq<Slot>, found: nat)
    requires found < |t|
  {
    forall j {:trigger t[j]} | found < j < |t| && j < t[found].extra && t[j].Real() :: !Inside(t[found].prefix, t[j].prefix)
  }

  lemma PlacedSkips(t: seq<Slot>, new_: seq<Slot>, found: nat, s: Slot)
    requires Skips(t) && Placed(t, new_, found, s) && Free(t, found) && LeadsOn(new_, found)
    ensures Skips(new_)
  {
    forall i, j {:trigger new_[i], new_[j]} | 0 <= i < j < |new_| && j < new_[i].extra && new_[i].Real() && new_[j].Real()
      ensures !Inside(new_[i].prefix, new_[j].prefix)
    {
      if i != found && j != found {
        assert t[i].Real() && t[j].Real() && j < t[i].extra;
      }
    }
  }

  lemma PlacedIndexed(t: seq<Slot>, new_: seq<Slot>, at: map<Prefix, nat>, found: nat, s: Slot)
    requires Indexed(t, at) && Placed(t, new_, found, s) && Free(t, found) && s.Real() && Canonical(s.prefix) && s.prefix !in at
    ensures Indexed(new_, at[s.prefix := found])
  {
    var now := at[s.prefix := found];
    forall p {:trigger now[p]} | p in now
      ensures now[p] < |new_| && new_[now[p]].Real() && new_[now[p]].prefix == p
    {
      if p != s.prefix {
        assert t[at[p]].Real() && at[p] != found;
      }
    }
    forall i {:trigger new_[i]} | 0 <= i < |new_|
      ensures if new_[i].Real() then Canonical(new_[i].prefix) && new_[i].prefix in now && now[new_[i].prefix] == i
              else new_[i].port == DEAD && new_[i].prefix == ZERO
    {
      assert i != found ==> new_[i].prefix == t[i].prefix;
    }
  }

  lemma PlacedZeroFirst(t: seq<Slot>, new_: seq<Slot>, at: map<Prefix, nat>, zero: int, found: nat, s: Slot)
    requires Indexed(t, at) && (s.prefix == ZERO || ZeroFirst(t, at, zero))
    requires Placed(t, new_, found, s) && Free(t, found) && s.Real() && s.prefix !in at
    ensures ZeroFirst(new_, at[s.prefix := found], if s.prefix == ZERO then found else zero)
  {
  }

  lemma PlacedRoutes(t: seq<Slot>, new_: seq<Slot>, at: map<Prefix, nat>, found: nat, s: Slot)
    requires Indexed(t, at) && Placed(t, new_, found, s) && Free(t, found) && s.Real() && s.prefix !in at
    requires Indexed(new_, at[s.prefix := found])
    ensures RoutesOf(new_, at[s.prefix := found]) == RoutesOf(t, at)[s.prefix := s.Target()]
  {
    assert forall p {:trigger at[p]} | p in at :: at[p] != found && t[at[p]].Real();
  }

  lemma KilledSlot(t: seq<Slot>, at: map<Prefix, nat>, i: nat)
    requires Indexed(t, at) && Skips(t) && i < |t| && t[i].Real()
    ensures Indexed(t[i := t[i].Killed()], at - {t[i].prefix}) && Skips(t[i := t[i].Killed()])
    ensures RoutesOf(t[i := t[i].Killed()], at - {t[i].prefix}) == RoutesOf(t, at) - {t[i].prefix}
  {
    assert forall p {:trigger at[p]} | p in at && p != t[i].prefix :: at[p] != i;
  }

  lemma KilledZero(t: seq<Slot>, at: map<Prefix, nat>, zero: int, i: nat)
    requires Indexed(t, at) && ZeroKnown(at, zero) && i < |t| && t[i].Real()
    ensures zero != -1 ==> (i == zero <==> t[i].prefix == ZERO)
    ensures ZeroFirst(t, at, zero) && i >= zero ==> ZeroFirst(t[i := t[i].Killed()], at - {t[i].prefix}, if i == zero then -1 else zero)
    ensures i != zero ==> ZeroKnown(at - {t[i].prefix}, zero)
  {
  }

  lemma KilledDead(t: seq<Slot>, at: map<Prefix, nat>, zero: int, i: nat)
    requires Indexed(t, at) && ZeroFirst(t, at, zero) && i < |t| && !t[i].Real()
    ensures t[i := t[i].Killed()] == t && i > zero
  {
  }

  lemma Retargeted(t: seq<Slot>, at: map<Prefix, nat>, i: nat, s: Slot)
    requires Indexed(t, at) && Skips(t) && i < |t| && t[i].Real() && s.Real() && s.prefix == t[i].prefix && s.extra == t[i].extra
    ensures Indexed(t[i := s], at) && Skips(t[i := s])
    ensures RoutesOf(t[i := s], at) == RoutesOf(t, at)[s.prefix := s.Target()]
    ensures forall a: nat, k {:trigger Best(t, k, a)} :: Best(t, k, a) ==> Best(t[i := s], k, a)
  {
    assert forall p {:trigger at[p]} | p in at && p != s.prefix :: at[p] != i;
    forall a: nat, k {:trigger Best(t, k, a)} | Best(t, k, a)
      ensures Best(t[i := s], k, a)
    {
      assert forall j {:trigger t[i := s][j]} | 0 <= j < |t| && t[i := s][j].Real() :: t[j].Real() && t[i := s][j].prefix == t[j].prefix;
    }
  }

  // ---- against the specification

  lemma BestIsLongest(t: seq<Slot>, at: map<Prefix, nat>, i: int, a: nat)
    requires Indexed(t, at) && Best(t, i, a)
    ensures IsLongest(RoutesOf(t, at), a, t[i].prefix) && RoutesOf(t, at)[t[i].prefix] == t[i].Target()
  {
    forall q <- RoutesOf(t, at) | Contains(q, a)
      ensures q.len <= t[i].prefix.len
    {
      assert t[at[q]].Real() && t[at[q]].Covers(a);
    }
  }

  lemma NoneCovers(t: seq<Slot>, at: map<Prefix, nat>, a: nat)
    requires Indexed(t, at) && First(t, a) == |t|
    ensures NoMatch(RoutesOf(t, at), a)
  {
    forall q <- RoutesOf(t, at)
      ensures !Contains(q, a)
    {
      assert t[at[q]].Real() && !t[at[q]].Covers(a);
    }
  }

  /** Only the address 0 can stumble. */
  lemma OthersDoNotStumble(t: seq<Slot>, at: map<Prefix, nat>, a: nat)
    requires Indexed(t, at) && a != 0
    ensures !Stumbles(t, a)
  {
    forall k {:trigger t[k]} | 0 <= k < |t| && !t[k].Real()
      ensures !t[k].Covers(a)
    {
      DeadCovers(t[k], a);
    }
  }

  /** A negative port for no route, or else the longest match's gateway and port. */
  ghost predicate RightAnswer(routes: map<Prefix, Hop>, a: nat, port: int, gw: int) {
    && (NoMatch(routes, a) ==> port < 0)
    && forall p :: IsLongest(routes, a, p) ==> Hop(gw, port) == routes[p]
  }

  lemma BestIsRight(t: seq<Slot>, at: map<Prefix, nat>, i: int, a: nat)
    requires Indexed(t, at) && Best(t, i, a)
    ensures RightAnswer(RoutesOf(t, at), a, t[i].port, t[i].gw) && !NoMatch(RoutesOf(t, at), a)
  {
    BestIsLongest(t, at, i, a);
  }

  lemma {:induction false} ClearZero(k: nat)
    ensures Clear(0, k) == 0
  {
    if k > 0 {
      ClearZero(k - 1);
    }
  }

  /** A dead slot is the right answer only where no route is. */
  lemma DeadIsRight(t: seq<Slot>, at: map<Prefix, nat>, i: int, a: nat)
    requires Indexed(t, at) && 0 <= i < |t| && !t[i].Real()
    ensures RightAnswer(RoutesOf(t, at), a, t[i].port, t[i].gw) <==> !exists p :: IsLongest(RoutesOf(t, at), a, p)
  {
    forall p | IsLongest(RoutesOf(t, at), a, p)
      ensures RoutesOf(t, at)[p].port > DEAD
    {
      assert t[at[p]].Real();
    }
  }

  class LinearTable {
    var t: seq<Slot>            // _t
    var zero: int               // _zero_route
    var lastAddr: nat           // _last_addr, and the three below
    var lastEntry: int
    var lastAddr2: nat
    var lastEntry2: int
    ghost var at: map<Prefix, nat>

    ghost predicate Valid()
      reads this
    {
      Sound() && ZeroFirst(t, at, zero)
    }

    /** `Valid`, with the place of the route of address 0 perhaps forgotten, as sorting forgets it. */
    ghost predicate Sound()
      reads this
    {
      && Indexed(t, at) && Skips(t) && ZeroKnown(at, zero)
      && Remembers(t, lastAddr, lastEntry, lastAddr2, lastEntry2)
    }

    ghost function Routes(): map<Prefix, Hop>
      reads this
      requires Indexed(t, at)
    {
      RoutesOf(t, at)
    }

    constructor ()
      ensures Valid() && Routes() == map[] && t == []
    {
      t, zero, at := [], -1, map[];
      lastAddr, lastEntry, lastAddr2, lastEntry2 := 0, 0, 0, 0;
    }

    // ---- changing the table

    /** Lines 99-114: the slot of the prefix, or else the place for it. */
    method FindSlot(p: Prefix) returns (known: bool, found: nat)
      requires Indexed(t, at)
      ensures known <==> p in at
      ensures if known then found == at[p] else Free(t, found)
    {
      found := |t|;
      for i := 0 to |t|
        invariant forall k {:trigger t[k]} | 0 <= k < i && t[k].Real() :: t[k].prefix != p
        invariant if found == |t| then forall k {:trigger t[k]} | 0 <= k < i :: t[k].Real()
                  else found < i && Free(t, found)
      {
        if !t[i].Real() {
          if found == |t| {
            found := i;
          }
        } else if t[i].prefix == p {
          return true, i;
        }
      }
      return false, found;
    }

    /** Lines 124-126. */
    method PatchBefore(p: Prefix, found: nat)
      requires found < |t|
      modifies `t
      ensures |t| == |old(t)| && forall i {:trigger t[i]} | 0 <= i < |t| ::
        t[i] == if i < found && Inside(old(t)[i].prefix, p) && old(t)[i].extra > found then old(t)[i].(extra := found) else old(t)[i]
    {
      var i := found - 1;
      while i >= 0
        invariant -1 <= i < found && |t| == |old(t)|
        invariant forall k {:trigger t[k]} | i < k < |t| ::
          t[k] == if k < found && Inside(old(t)[k].prefix, p) && old(t)[k].extra > found then old(t)[k].(extra := found) else old(t)[k]
        invariant forall k {:trigger t[k]} | 0 <= k <= i :: t[k] == old(t)[k]
      {
        if Inside(t[i].prefix, p) && t[i].extra > found {
          t := t[i := t[i].(extra := found)];
        }
        i := i - 1;
      }
    }

    /** Lines 127-131. */
    method LeadOn(found: nat)
      requires found < |t| && t[found].extra == BEYOND
      modifies `t
      ensures |t| == |old(t)| && t[found] == old(t)[found].(extra := t[found].extra) && LeadsOn(t, found)
      ensures var i := t[found].extra; i == 0x7FFF_FFFF || (found < i < |t| && t[i].Real() && Inside(t[found].prefix, t[i].prefix))
      ensures forall i {:trigger t[i]} | 0 <= i < |t| && i != found :: t[i] == old(t)[i]
    {
      for i := found + 1 to |t|
        invariant t == old(t)
        invariant forall k {:trigger t[k]} | found < k < i && t[k].Real() :: !Inside(t[found].prefix, t[k].prefix)
      {
        if Inside(t[found].prefix, t[i].prefix) && t[i].Real() {
          t := t[found := t[found].(extra := i)];
          return;
        }
      }
    }

    /** Lines 116-144: a route enters. */
    method Place(p: Prefix, gw: int, port: int, found: nat)
      requires Indexed(t, at) && Skips(t) && (p == ZERO || ZeroKnown(at, zero)) && Canonical(p) && port > DEAD && p !in at
      requires Free(t, found)
      modifies this
      ensures Sound() && (p == ZERO || old(ZeroFirst(t, at, zero)) ==> Valid()) && (old(AllReal(t)) ==> AllReal(t))
      ensures lastAddr == lastAddr2 == 0
      ensures Routes() == old(Routes())[p := Hop(gw, port)] && at == old(at)[p := found]
    {
      Write(p, gw, port, found);
      if p == ZERO {
        zero := found;
      }
      lastAddr, lastAddr2 := 0, 0;
      at := at[p := found];
      PlacedSkips(old(t), t, found, t[found]);
      PlacedIndexed(old(t), t, old(at), found, t[found]);
      PlacedRoutes(old(t), t, old(at), found, t[found]);
      if p == ZERO || old(ZeroFirst(t, at, zero)) {
        PlacedZeroFirst(old(t), t, old(at), old(zero), found, t[found]);
      }
    }

    /** Lines 116-131. */
    method Write(p: Prefix, gw: int, port: int, found: nat)
      requires found <= |t|
      modifies `t
      ensures found < |t| && Placed(old(t), t, found, Slot(p, gw, port, t[found].extra)) && LeadsOn(t, found)
    {
      t := if found == |t| then t + [Slot(p, gw, port, BEYOND)] else t[found := Slot(p, gw, port, BEYOND)];
      PatchBefore(p, found);
      LeadOn(found);
    }

    method AddRoute(p: Prefix, gw: int, port: int, allowReplace: bool) returns (status: Status, replaced: Option<Hop>)
      requires Sound() && (ZeroFirst(t, at, zero) || AllReal(t)) && Canonical(p) && port > DEAD
      modifies this
      ensures Sound() && (old(Valid()) ==> Valid()) && (old(AllReal(t)) ==> AllReal(t))
      ensures status == Ok || status == Exists
      ensures if p in old(at) then at == old(at) && zero == old(zero) && t == (if status == Ok then old(t)[at[p] := old(t)[at[p]].(gw := gw, port := port)] else old(t))
              else lastAddr == lastAddr2 == 0 && p in at && at == old(at)[p := at[p]] && Free(old(t), at[p])
      ensures status == Exists <==> p in old(at) && !allowReplace
      ensures replaced == if p in old(at) then Some(old(Routes())[p]) else None
      ensures Routes() == if status == Ok then old(Routes())[p := Hop(gw, port)] else old(Routes())
    {
      var known, found := FindSlot(p);
      if known {
        replaced := Some(t[found].Target());
        if !allowReplace {
          return Exists, replaced;
        }
        Retargeted(t, at, found, t[found].(gw := gw, port := port));
        t := t[found := t[found].(gw := gw, port := port)];
        return Ok, replaced;
      }
      Place(p, gw, port, found);
      return Ok, None;
    }

    /** The route asked to be removed is held; the port, if not negative, has to be its port and the gateway its gateway. */
    ghost predicate Holds(p: Prefix, gw: int, port: int)
      reads this
      requires Indexed(t, at)
    {
      p in at && (port < 0 || Routes()[p] == Hop(gw, port))
    }

    ghost predicate SomeDead()
      reads this
    {
      exists k {:trigger t[k]} :: 0 <= k < |t| && !t[k].Real()
    }

    /**
     * A route held goes. Asked for address 0 by its prefix alone when there is no such route, the
     * table also finds a dead slot, and says it has removed it.
     */
    method RemoveRoute(p: Prefix, gw: int, port: int) returns (status: Status, removed: Option<Hop>)
      requires Sound() && (ZeroFirst(t, at, zero) || AllReal(t)) && Canonical(p) && port > DEAD
      modifies this
      ensures Sound() && (old(Valid()) ==> Valid()) && (status == Ok || status == NoEntry)
      ensures if status == Ok then lastAddr == lastAddr2 == 0 else t == old(t) && at == old(at) && zero == old(zero)
      ensures status == Ok <==> old(Holds(p, gw, port)) || (p == ZERO && ZERO !in old(at) && port < 0 && old(SomeDead()))
      ensures Routes() == if old(Holds(p, gw, port)) then old(Routes()) - {p} else old(Routes())
      ensures old(Holds(p, gw, port)) ==> removed == Some(old(Routes())[p])
      ensures old(Holds(p, gw, port)) && ZERO !in old(at) ==>
        at == old(at) - {p} && t == old(t)[old(at)[p] := old(t)[old(at)[p]].Killed()]
    {
      for i := 0 to |t|
        invariant Sound() && t == old(t) && at == old(at) && zero == old(zero)
        invariant forall k {:trigger t[k]} | 0 <= k < i :: !t[k].Matches(p, gw, port)
      {
        if t[i].Matches(p, gw, port) {
          removed := Some(t[i].Target());
          Kill(i, p);
          return Ok, removed;
        }
      }
      assert p in at ==> !t[at[p]].Matches(p, gw, port);
      return NoEntry, None;
    }

    /** Lines 154-172. */
    method Kill(i: nat, ghost p: Prefix)
      requires Sound() && (ZeroFirst(t, at, zero) || AllReal(t)) && i < |t| && t[i].prefix == p
      modifies this
      ensures Sound() && (old(Valid()) ==> Valid()) && lastAddr == lastAddr2 == 0
      ensures Routes() == if old(t)[i].Real() then old(Routes()) - {p} else old(Routes())
      ensures old(t)[i].Real() && old(zero) == -1 ==> at == old(at) - {p} && t == old(t)[i := old(t)[i].Killed()]
    {
      if t[i].Real() {
        KilledSlot(t, at, i);
        KilledZero(t, at, zero, i);
        at := at - {p};
      } else {
        KilledDead(t, at, zero, i);
      }
      t := t[i := t[i].Killed()];
      lastAddr, lastAddr2 := 0, 0;
      if i == zero {
        zero := -1;
      } else if i < zero {
        MoveZero();
      }
    }

    /** Lines 159-164: a slot died before the route of address 0, which moves to the first dead one. */
    method MoveZero()
      requires Indexed(t, at) && Skips(t) && ZERO in at && zero == at[ZERO]
      modifies this
      ensures Valid() && Routes() == old(Routes()) && lastAddr == lastAddr2 == 0
    {
      var route := t[zero];
      KilledSlot(t, at, zero);
      t := t[zero := t[zero].Killed()];
      at := at - {ZERO};
      var known, found := FindSlot(ZERO);
      Place(ZERO, route.gw, route.port, found);
    }

    // ---- looking up

    method LookupEntry(a: nat) returns (found: int)
      requires Valid()
      ensures found == -1 <==> First(t, a) == |t|
      ensures found != -1 ==> 0 <= found < |t| && (t[found].Real() <==> !Stumbles(t, a))
      ensures found != -1 && !Stumbles(t, a) ==> Best(t, found, a)
    {
      for i := 0 to |t|
        invariant forall k {:trigger t[k]} | 0 <= k < i :: !t[k].Covers(a)
      {
        if t[i].Covers(a) {
          FirstIs(t, a, i);
          found := Scan(i, a);
          return;
        }
      }
      FirstIs(t, a, |t|);
      return -1;
    }

    /** Lines 182-186. */
    method Scan(i: nat, a: nat) returns (found: int)
      requires Valid() && i == First(t, a) && i < |t|
      ensures 0 <= found < |t| && (t[found].Real() <==> !Stumbles(t, a)) && (t[found].Real() ==> Best(t, found, a))
    {
      found := i;
      var j := t[i].extra;
      while j < |t|
        invariant Scanned(t, i, j, a, found) && t[i].extra <= j
      {
        ScanStep(t, at, zero, i, j, a, found);
        if t[j].Covers(a) && t[j].prefix.len >= t[found].prefix.len {
          found := j;
        }
        j := j + 1;
      }
      ScanDone(t, at, i, j, a, found);
    }

    /** The answer is right for every address but one that stumbles past a match, which only 0 can. */
    method LookupRoute(a: nat) returns (port: int, gw: int)
      requires Valid()
      ensures RightAnswer(Routes(), a, port, gw) <==> !(Stumbles(t, a) && exists p :: IsLongest(Routes(), a, p))
      ensures a != 0 ==> RightAnswer(Routes(), a, port, gw)
      ensures (forall i :: 0 <= i < |t| ==> !t[i].Covers(a)) ==> port == -1
    {
      var ei := LookupEntry(a);
      if a != 0 {
        OthersDoNotStumble(t, at, a);
      }
      if ei < 0 {
        NoneCovers(t, at, a);
        return -1, 0;
      }
      if t[ei].Real() {
        BestIsRight(t, at, ei, a);
      } else {
        DeadIsRight(t, at, ei, a);
      }
      return t[ei].port, t[ei].gw;
    }

    /** `push`: where a packet for `a` goes, through the two last answers. */
    method Push(a: nat) returns (sent: Option<Hop>)
      requires Valid()
      modifies `lastAddr, `lastEntry, `lastAddr2, `lastEntry2
      ensures Valid()
      ensures a != 0 ==> match sent
        case None => NoMatch(Routes(), a)
        case Some(hop) => RightAnswer(Routes(), a, hop.port, hop.gw) && !NoMatch(Routes(), a)
      ensures if sent == None || old(Remembered(a)) then unchanged(this)
              else 0 <= lastEntry < |t| && sent == Some(t[lastEntry].Target()) && MovedUp(a)
    {
      var ei := EntryFor(a);
      if ei < 0 {
        NoneCovers(t, at, a);
        return None;
      }
      if a != 0 {
        BestIsRight(t, at, ei, a);
      }
      return Some(t[ei].Target());
    }

    /** One of the two last answers is for this address. */
    predicate Remembered(a: nat)
      reads this
    {
      a != 0 && (a == lastAddr || a == lastAddr2)
    }

    /** The answer for `a` is the last one now, and the last one before it the last but one. */
    twostate predicate MovedUp(a: nat)
      reads this
    {
      lastAddr == a && lastAddr2 == old(lastAddr) && lastEntry2 == old(lastEntry)
    }

    /** Lines 216-238. */
    method EntryFor(a: nat) returns (ei: int)
      requires Valid()
      modifies `lastAddr, `lastEntry, `lastAddr2, `lastEntry2
      ensures Valid() && ei < |t|
      ensures if ei < 0 || old(Remembered(a)) then unchanged(this) else lastEntry == ei && MovedUp(a)
      ensures ei < 0 ==> First(t, a) == |t|
      ensures ei >= 0 && a != 0 ==> Best(t, ei, a)
    {
      if a != 0 && a == lastAddr {
        return lastEntry;
      } else if a != 0 && a == lastAddr2 {
        return lastEntry2;
      }
      ei := LookupEntry(a);
      if ei >= 0 {
        if a != 0 {
          OthersDoNotStumble(t, at, a);
        }
        lastAddr2, lastEntry2 := lastAddr, lastEntry;
        lastAddr, lastEntry := a, ei;
      }
    }
  }

  const NET0 := Prefix(0, 8)                // 0.0.0.0/8
  const NET1 := Prefix(0x0100_0000, 8)      // 1.0.0.0/8

  lemma NetsCanonical()
    ensures Canonical(NET0) && Canonical(NET1) && NET0.addr == Trunc(0, 8)
  {
    ClearZero(24);
    assert Pow2(8) == 256;
    Pow2Add(8, 8);
    Pow2Add(16, 8);
    ClearMod(0x0100_0000, 24);
  }

  /** Address 0 gets lost: with 1.0.0.0/8 removed, the dead slot of that hides 0.0.0.0/8 after it. */
  method ZeroGetsLost() returns (t: LinearTable, port: int, gw: int)
    ensures t.Valid() && t.Routes() == map[NET0 := Hop(0, 1)] && IsLongest(t.Routes(), 0, NET0)
    ensures !RightAnswer(t.Routes(), 0, port, gw)
  {
    t := Shadowed();
    ZeroCovered(t.Routes());
    FirstIs(t.t, 0, 0);
    port, gw := t.LookupRoute(0);
  }

  /** The two routes are added, and the first removed. */
  method Shadowed() returns (t: LinearTable)
    ensures t.Valid() && t.Routes() == map[NET0 := Hop(0, 1)] && |t.t| > 0 && !t.t[0].Real() && t.t[0].Covers(0)
  {
    NetsCanonical();
    t := TwoNets();
    var status, ignored := t.RemoveRoute(NET1, 0, -1);
  }

  method TwoNets() returns (t: LinearTable)
    ensures fresh(t) && t.Valid() && t.Routes() == map[NET1 := Hop(0, 2), NET0 := Hop(0, 1)]
    ensures NET1 in t.at && t.at[NET1] == 0 && ZERO !in t.at
  {
    NetsCanonical();
    t := new LinearTable();
    var status, ignored := t.AddRoute(NET1, 0, 2, false);
    status, ignored := t.AddRoute(NET0, 0, 1, false);
    assert t.Routes().Keys == t.at.Keys;
  }

  lemma ZeroCovered(routes: map<Prefix, Hop>)
    requires routes == map[NET0 := Hop(0, 1)]
    ensures IsLongest(routes, 0, NET0)
  {
    NetsCanonical();
  }
}
