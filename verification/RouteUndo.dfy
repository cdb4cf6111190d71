/**
 * Undoing the commands of a batch in a DIR-24-8 table one of whose routes its
 * vport does not count, as a replacement that found no vport leaves it
 * (bfclick/ip/iproutetable.cc:256-266, bfclick/ip/directiplookup.cc).
 */
module RouteUndo {
  import opened Prefixes
  import opened VportPools
  import opened DirectTables
  import opened RouteViews
  import opened DirectLookups
  import opened RouteCommands
  import opened Results

  /** Undoing `s` takes `after` back to `before`, and there is room for that. */
  ghost predicate Undoes(s: Saved, before: Mark, after: Mark) {
    && Canonical(s.p) && s.p != DEFAULT && s.hop.port >= 0 && Reverses(s, before.t, after.t)
    && (s.kind == CmdAdd ==> TiledSkipped(before.t, s.p))
    && after.load + Cost(before.t, s.p) <= before.load + Cost(after.t, s.p)
  }

  /**
   * The routes are those of the mark, but for the hop of one that is not counted;
   * no more vports are in use than then, and fewer by what that one was worth.
   */
  ghost predicate Near(v: View, m: Mark, lost: set<Prefix>) {
    && v.rt.Keys == v.t.Keys == m.t.Keys && lost <= m.t.Keys && |lost| <= 1
    && v.t - lost == m.t - lost
    && |v.live| <= m.load && forall u <- lost :: |v.live| + Cost(m.t, u) <= m.load
  }

  // ---- what routes are worth

  lemma ValuesWithout(t: Table, u: Prefix, q: Prefix, h: Hop)
    ensures h in (t - {u}).Values <==> h in (t - {u} - {q}).Values || (q in t && q != u && t[q] == h)
  {
    if h in (t - {u}).Values {
      var r :| r in t - {u} && (t - {u})[r] == h;
      assert r == q || (t - {u} - {q})[r] == h;
    }
    if h in (t - {u} - {q}).Values {
      var r :| r in t - {u} - {q} && (t - {u} - {q})[r] == h;
      assert (t - {u})[r] == h;
    }
    if q in t && q != u {
      assert (t - {u})[q] == t[q];
    }
  }

  /** Two routes are worth the same together, whichever goes first. */
  lemma CostSwap(t: Table, u: Prefix, q: Prefix)
    requires u != q
    ensures Cost(t - {u}, q) + Cost(t, u) == Cost(t, q) + Cost(t - {q}, u)
  {
    assert t - {u} - {q} == t - {q} - {u};
    if u !in t {
      assert t - {u} == t;
    } else if q !in t {
      assert t - {q} == t;
    } else {
      ValuesWithout(t, u, q, t[u]);
      ValuesWithout(t, u, q, t[q]);
      ValuesWithout(t, q, u, t[u]);
      ValuesWithout(t, q, u, t[q]);
    }
  }

  /** What has been let go of pays for what is placed, and leaves what the route not counted is worth. */
  lemma Affords(p: Prefix, before: Mark, after: Mark, lost: set<Prefix>, kept: set<Prefix>, load: int, load': int)
    requires before.t - {p} == after.t - {p} && |lost| <= 1 && |kept| <= |lost|
    requires p !in kept && lost - {p} <= kept && (p !in lost ==> kept == lost)
    requires after.load + Cost(before.t, p) <= before.load + Cost(after.t, p)
    requires load <= after.load && forall u <- lost :: load + Cost(after.t, u) <= after.load
    requires Frees(p, lost, kept, after.t, load, load')
    ensures load' + Cost(before.t - kept, p) <= before.load
    ensures forall u <- kept :: load' + Cost(before.t - kept, p) + Cost(before.t, u) <= before.load
  {
    if kept == {} {
      assert before.t - kept == before.t;
      if lost == {} {
        assert after.t - lost == after.t && p in kept + {p} - lost;
      } else {
        assert p in lost;
      }
    } else {
      var u :| u in kept;
      One(kept, u);
      CostSwap(before.t, u, p);
      if p in lost {
        One(lost, p);
        assert u in kept + {p} - lost && before.t - {p} == after.t - {p};
      } else {
        CostSwap(after.t, u, p);
        assert p in kept + {p} - lost && u in lost;
      }
    }
  }

  /** A route that is not there is paid for with nothing let go of. */
  lemma NewAffords(p: Prefix, before: Mark, after: Mark, lost: set<Prefix>, load: int)
    requires before.t - {p} == after.t - {p} && |lost| <= 1 && p !in lost && p !in after.t
    requires after.load + Cost(before.t, p) <= before.load + Cost(after.t, p)
    requires load <= after.load && forall u <- lost :: load + Cost(after.t, u) <= after.load
    ensures load + Cost(before.t - lost, p) <= before.load
    ensures forall u <- lost :: load + Cost(before.t - lost, p) + Cost(before.t, u) <= before.load
  {
    assert Cost(after.t - lost, p) == 0 && forall x :: x in lost + {p} - lost ==> x == p;
    Affords(p, before, after, lost, lost, load, load);
  }

  lemma One(s: set<Prefix>, u: Prefix)
    requires |s| <= 1 && u in s
    ensures s == {u}
  {
    assert |s - {u}| == 0;
  }

  // ---- one entry undone, as seen in the routes and vports

  /** `p` placed, the routes are those of `t` again, and the vports in use those let go of and what `p` is worth. */
  lemma PlacedRoutes(b: View, c: View, p: Prefix, hop: Hop, kept: set<Prefix>, t: Table)
    requires Placed(b, c, p, hop, kept + {p}) && p !in kept && p in t && t[p] == hop && t.Keys == b.t.Keys + {p}
    requires forall q <- b.t :: q != p && q !in kept ==> t[q] == b.t[q]
    ensures c.t.Keys == t.Keys && c.t - kept == t - kept && |c.live| == |b.live| + Cost(t - kept, p)
  {
    forall q | q in t - kept - {p}
      ensures q in b.t - (kept + {p}) && b.t[q] == t[q] == c.t[q]
    {
    }
    assert t - kept - {p} == b.t - (kept + {p});
  }

  lemma PlacedNear(b: View, c: View, p: Prefix, hop: Hop, kept: set<Prefix>, m: Mark)
    requires Placed(b, c, p, hop, kept + {p}) && p !in kept && p in m.t && m.t[p] == hop && m.t.Keys == b.t.Keys + {p}
    requires forall q <- b.t :: q != p && q !in kept ==> m.t[q] == b.t[q]
    requires b.rt.Keys == b.t.Keys && kept <= m.t.Keys && |kept| <= 1 && |b.live| + Cost(m.t - kept, p) <= m.load
    requires forall u <- kept :: |b.live| + Cost(m.t - kept, p) + Cost(m.t, u) <= m.load
    ensures Near(c, m, kept)
  {
    PlacedRoutes(b, c, p, hop, kept, m.t);
  }

  /** The routes not undone are those of the mark before, too. */
  lemma Agrees(a: View, s: Saved, before: Mark, after: Mark, lost: set<Prefix>)
    requires Undoes(s, before, after) && s.kind != CmdAdd && Near(a, after, lost)
    ensures before.t.Keys == a.t.Keys + {s.p} && before.t[s.p] == s.hop && before.t - {s.p} == after.t - {s.p}
    ensures forall q <- a.t :: q != s.p && q !in lost ==> q in before.t && before.t[q] == a.t[q]
    ensures forall x :: Cost(a.t - lost, x) == Cost(after.t - lost, x)
  {
    SameLost(a, after, lost);
    assert before.t - {s.p} == after.t - {s.p};
  }

  /** A route that was removed is put back. */
  lemma PutBack(a: View, c: View, s: Saved, before: Mark, after: Mark, lost: set<Prefix>)
    requires Undoes(s, before, after) && s.kind == CmdRemove && Near(a, after, lost)
    requires Placed(a, c, s.p, s.hop, lost + {s.p})
    ensures Near(c, before, lost)
  {
    Agrees(a, s, before, after, lost);
    NewAffords(s.p, before, after, lost, |a.live|);
    PlacedNear(a, c, s.p, s.hop, lost, before);
  }

  /** A route that was replaced has its hop again. */
  lemma SetBack(a: View, b: View, c: View, s: Saved, before: Mark, after: Mark, lost: set<Prefix>, kept: set<Prefix>)
    requires Undoes(s, before, after) && s.kind == CmdSet && Near(a, after, lost) && s.p in a.rt
    requires Replaced(a, b, c, s.p, s.hop, Ok, lost, kept)
    ensures Near(c, before, kept)
  {
    Agrees(a, s, before, after, lost);
    Affords(s.p, before, after, lost, kept, |a.live|, |b.live|);
    PlacedNear(b, c, s.p, s.hop, kept, before);
  }

  /** A route that was added is taken out. */
  lemma TakenBack(a: View, c: View, s: Saved, before: Mark, after: Mark, lost: set<Prefix>, kept: set<Prefix>)
    requires Undoes(s, before, after) && s.kind == CmdAdd && Near(a, after, lost) && s.p in a.rt
    requires Erased(a, c, s.p, lost, kept)
    ensures Near(c, before, kept)
  {
    SameLost(a, after, lost);
    Affords(s.p, before, after, lost, kept, |a.live|, |c.live|);
    assert c.t - kept == before.t - kept;
  }

  /** What `Frees` says of the routes seen it says of those of the mark. */
  lemma SameLost(a: View, m: Mark, lost: set<Prefix>)
    requires Near(a, m, lost)
    ensures forall x :: Cost(a.t - lost, x) == Cost(m.t - lost, x)
    ensures forall q <- m.t :: q !in lost ==> a.t[q] == m.t[q]
  {
    forall q | q in m.t && q !in lost
      ensures a.t[q] == m.t[q]
    {
      assert (a.t - lost)[q] == (m.t - lost)[q];
    }
  }

  // ---- there is room to undo

  lemma RoomToPutBack(a: View, s: Saved, before: Mark, after: Mark, lost: set<Prefix>, capacity: nat)
    requires Undoes(s, before, after) && s.kind == CmdRemove && Near(a, after, lost)
    requires before.load <= VPORT_LIMIT && 256 * |Deep(before.t)| <= capacity
    ensures !a.Starved(lost, s.hop) && !(s.p.len > 24 && 256 * |Deep(a.rt) + {First(s.p)}| > capacity)
  {
    Agrees(a, s, before, after, lost);
    NewAffords(s.p, before, after, lost, |a.live|);
    assert before.t - lost - {s.p} == a.t - lost;
    if s.p.len > 24 {
      assert forall q :: q in before.t <==> q in a.rt || q == s.p;
      assert Deep(before.t) == Deep(a.rt) + {First(s.p)};
    }
  }

  lemma RoomToSetBack(a: View, b: View, s: Saved, before: Mark, after: Mark, lost: set<Prefix>, kept: set<Prefix>)
    requires Undoes(s, before, after) && s.kind == CmdSet && Near(a, after, lost) && s.p in a.rt
    requires before.load <= VPORT_LIMIT && LetGone(a, b, s.p, lost, kept)
    ensures !b.Starved(kept + {s.p}, s.hop)
  {
    Agrees(a, s, before, after, lost);
    Affords(s.p, before, after, lost, kept, |a.live|, |b.live|);
    assert before.t - kept - {s.p} == b.t - (kept + {s.p});
  }

  // ---- what becomes of the vport of a route that is not counted

  /** It is in use, or so many free ones are to be given away before it. */
  datatype Fate = InUse(hop: Hop) | Emptied(hop: Hop, above: nat)

  /** The vport of `hop` loses its last counted route. */
  ghost function Leave(f: Fate, hop: Hop): Fate {
    if f.Emptied? then Emptied(f.hop, f.above + 1) else if f.hop == hop then Emptied(hop, 0) else f
  }

  /** The next free vport is given to `hop`. */
  ghost function Take(f: Fate, hop: Hop): Fate {
    if f.InUse? then f else if f.above == 0 then InUse(hop) else Emptied(f.hop, f.above - 1)
  }

  /** One entry, that of `q`, is undone. */
  ghost function Back(f: Fate, p: Prefix, q: Prefix, before: Table, after: Table): Fate {
    var f' := if Cost(after - {p}, q) == 1 then Leave(f, after[q]) else f;
    if Cost(before - {p}, q) == 1 then Take(f', before[q]) else f'
  }

  /** The vport of `p` is where `f` says, and `p` has its hop. */
  ghost predicate Stands(v: View, p: Prefix, f: Fate) {
    && p in v.rt && p in v.t && v.t[p] == f.hop
    && match f
       case InUse(_) => v.rt[p] in v.live
       case Emptied(_, above) => above < |v.free| && v.free[above] == v.rt[p]
  }

  /** A counted route's vport goes with it exactly when no other counted one has its hop. */
  lemma LeavesAlone(a: View, p: Prefix, q: Prefix)
    requires Coherent(a) && Merged(a, {p}) && q in a.rt && q != p
    ensures a.Alone(q, {p}) <==> Cost(a.t - {p}, q) == 1
  {
    var t := a.t - {p};
    if t[q] in (t - {q}).Values {
      var r :| r in t - {q} && (t - {q})[r] == t[q];
      assert a.rt[r] == a.rt[q];
    }
    if !a.Alone(q, {p}) {
      var r :| r in a.rt && r != q && r != p && a.rt[r] == a.rt[q];
      assert (t - {q})[r] == t[q];
    }
  }

  lemma FateLeft(a: View, b: View, p: Prefix, q: Prefix, f: Fate)
    requires Sound(a, {p}) && Merged(a, {p}) && Stands(a, p, f) && q in a.rt && q != p
    requires Yields(a, b, q, {p}) && p in b.rt && p in b.t && b.rt[p] == a.rt[p] && b.t[p] == a.t[p]
    ensures Stands(b, p, if a.Alone(q, {p}) then Leave(f, a.t[q]) else f)
  {
    if f.InUse? {
      var r :| r in a.rt && r !in {p} && a.rt[r] == a.rt[p];
      assert a.t[r] == a.t[p];
      if a.t[q] == f.hop {
        assert a.rt[q] == a.rt[r];
      }
    }
  }

  lemma FateTaken(b: View, c: View, p: Prefix, q: Prefix, hop: Hop, f: Fate)
    requires Placed(b, c, q, hop, {p} + {q}) && p != q && Stands(b, p, f) && Distinct(b.free)
    requires f.InUse? ==> b.rt[p] != b.NextFree()
    requires c.rt[q] in c.live
    ensures Stands(c, p, if hop in (b.t - ({p} + {q})).Values then f else Take(f, hop))
  {
    if hop !in (b.t - ({p} + {q})).Values && f.Emptied? && f.above > 0 {
      assert Differ(b.free, 0, f.above);
    }
  }

  /** Two vports in use have different hops again. */
  lemma StaysMerged(b: View, c: View, p: Prefix, q: Prefix, hop: Hop)
    requires Merged(b, {p}) && Coherent(c) && b.rt.Keys == b.t.Keys && Placed(b, c, q, hop, {p} + {q}) && p != q
    ensures Merged(c, {p})
  {
    if hop in (b.t - ({p} + {q})).Values {
      var r :| r in b.rt && r !in {p} + {q} && b.rt[r] == c.rt[q];
      assert c.t[r] == c.t[q] == hop;
    }
    forall x, y | x in c.rt && y in c.rt && x !in {p} && y !in {p} && c.t[x] == c.t[y]
      ensures c.rt[x] == c.rt[y]
    {
      if x != q && c.t[x] == hop {
        assert (b.t - ({p} + {q}))[x] == hop;
      }
      if y != q && c.t[y] == hop {
        assert (b.t - ({p} + {q}))[y] == hop;
      }
    }
  }

  ghost predicate Tracks(v: View, p: Prefix, f: Fate) {
    Merged(v, {p}) && Stands(v, p, f)
  }

  lemma TrackPlaced(b: View, c: View, p: Prefix, q: Prefix, hop: Hop, f: Fate)
    requires Placed(b, c, q, hop, {p} + {q}) && p != q && Tracks(b, p, f) && Distinct(b.free)
    requires f.InUse? ==> b.rt[p] != b.NextFree()
    requires Coherent(c) && c.rt[q] in c.live
    ensures Tracks(c, p, if hop in (b.t - ({p} + {q})).Values then f else Take(f, hop))
  {
    FateTaken(b, c, p, q, hop, f);
    StaysMerged(b, c, p, q, hop);
  }

  lemma TrackLeft(a: View, b: View, p: Prefix, q: Prefix, f: Fate)
    requires Sound(a, {p}) && Tracks(a, p, f) && q in a.rt && q != p && LetGone(a, b, q, {p}, {p})
    ensures a.Alone(q, {p}) <==> Cost(a.t - {p}, q) == 1
    ensures var f' := if a.Alone(q, {p}) then Leave(f, a.t[q]) else f;
      Tracks(b, p, f') && Distinct(b.free) && (f'.InUse? ==> b.rt[p] != b.NextFree())
  {
    LeavesAlone(a, p, q);
    FateLeft(a, b, p, q, f);
    if a.Alone(q, {p}) {
      DistinctCons(a.rt[q], a.free);
    }
  }

  /** Whether the route of an undone entry is given a new vport, and whether it left one. */
  lemma WorthPlaced(a: View, p: Prefix, s: Saved, before: Mark, after: Mark)
    requires Undoes(s, before, after) && s.kind != CmdAdd && Near(a, after, {p}) && s.p != p
    ensures Cost(before.t - {p}, s.p) == 1 <==> s.hop !in (a.t - ({p} + {s.p})).Values
    ensures Cost(after.t - {p}, s.p) == Cost(a.t - {p}, s.p)
    ensures s.p in a.t ==> after.t[s.p] == a.t[s.p] && before.t[s.p] == s.hop
    ensures s.p !in a.t ==> Cost(after.t - {p}, s.p) == 0 && before.t[s.p] == s.hop
  {
    Agrees(a, s, before, after, {p});
    SameLost(a, after, {p});
    assert before.t - {p} - {s.p} == a.t - ({p} + {s.p});
  }

  lemma TrackPutBack(a: View, c: View, p: Prefix, f: Fate, s: Saved, before: Mark, after: Mark)
    requires Undoes(s, before, after) && s.kind == CmdRemove && Near(a, after, {p}) && s.p != p
    requires Sound(a, {p}) && Sound(c, {p}) && Tracks(a, p, f) && Placed(a, c, s.p, s.hop, {p} + {s.p})
    ensures Tracks(c, p, Back(f, p, s.p, before.t, after.t))
  {
    WorthPlaced(a, p, s, before, after);
    TrackPlaced(a, c, p, s.p, s.hop, f);
  }

  lemma TrackSetBack(a: View, b: View, c: View, p: Prefix, f: Fate, s: Saved, before: Mark, after: Mark)
    requires Undoes(s, before, after) && s.kind == CmdSet && Near(a, after, {p}) && s.p != p && s.p in a.rt
    requires Sound(a, {p}) && Sound(c, {p}) && Tracks(a, p, f) && Replaced(a, b, c, s.p, s.hop, Ok, {p}, {p})
    ensures Tracks(c, p, Back(f, p, s.p, before.t, after.t))
  {
    var f' := if a.Alone(s.p, {p}) then Leave(f, a.t[s.p]) else f;
    WorthPlaced(a, p, s, before, after);
    TrackLeft(a, b, p, s.p, f);
    TrackPlaced(b, c, p, s.p, s.hop, f');
  }

  lemma TrackTakenBack(a: View, c: View, p: Prefix, f: Fate, s: Saved, before: Mark, after: Mark)
    requires Undoes(s, before, after) && s.kind == CmdAdd && Near(a, after, {p}) && s.p != p && s.p in a.rt
    requires Sound(a, {p}) && Tracks(a, p, f) && Erased(a, c, s.p, {p}, {p})
    ensures Tracks(c, p, Back(f, p, s.p, before.t, after.t))
  {
    SameLost(a, after, {p});
    LeavesAlone(a, p, s.p);
    FateLeft(a, c, p, s.p, f);
  }

  // ---- one entry undone

  /** The state of a table whose routes are those of a mark, but for one that is not counted. */
  ghost predicate Holds(t: DirectTable, m: Mark, lost: set<Prefix>)
    reads t, t.Repr
  {
    t.Short(lost) && Near(t.Seen(), m, lost)
  }

  /** The table has the memory for the routes of a mark. */
  ghost predicate Fits(t: DirectTable, m: Mark) {
    m.load <= VPORT_LIMIT && 256 * |Deep(m.t)| <= t.tables.secCapacity
  }

  /** When the route not counted is that to `p` and another entry is undone, its vport is followed. */
  ghost predicate Follows(a: View, c: View, s: Saved, before: Mark, after: Mark, lost: set<Prefix>, p: Prefix, f: Fate) {
    lost == {p} && s.p != p && Tracks(a, p, f) ==> Tracks(c, p, Back(f, p, s.p, before.t, after.t))
  }

  lemma RemovalFollowed(a: View, c: View, s: Saved, before: Mark, after: Mark, lost: set<Prefix>, p: Prefix, f: Fate)
    requires Undoes(s, before, after) && s.kind == CmdRemove && Near(a, after, lost)
    requires Sound(a, lost) && Sound(c, lost) && Placed(a, c, s.p, s.hop, lost + {s.p})
    ensures Follows(a, c, s, before, after, lost, p, f)
  {
    if lost == {p} && s.p != p && Tracks(a, p, f) {
      TrackPutBack(a, c, p, f, s, before, after);
    }
  }

  lemma ReplacementFollowed(a: View, b: View, c: View, s: Saved, before: Mark, after: Mark, lost: set<Prefix>,
                            kept: set<Prefix>, p: Prefix, f: Fate)
    requires Undoes(s, before, after) && s.kind == CmdSet && Near(a, after, lost) && s.p in a.rt
    requires Sound(a, lost) && Sound(c, kept) && Replaced(a, b, c, s.p, s.hop, Ok, lost, kept)
    ensures Follows(a, c, s, before, after, lost, p, f)
  {
    if lost == {p} && s.p != p && Tracks(a, p, f) {
      TrackSetBack(a, b, c, p, f, s, before, after);
    }
  }

  lemma AdditionFollowed(a: View, c: View, s: Saved, before: Mark, after: Mark, lost: set<Prefix>, kept: set<Prefix>,
                         p: Prefix, f: Fate)
    requires Undoes(s, before, after) && s.kind == CmdAdd && Near(a, after, lost) && s.p in a.rt
    requires Sound(a, lost) && Erased(a, c, s.p, lost, kept)
    ensures Follows(a, c, s, before, after, lost, p, f)
  {
    if lost == {p} && s.p != p && Tracks(a, p, f) {
      TrackTakenBack(a, c, p, f, s, before, after);
    }
  }

  lemma RestStays(rt: map<Prefix, nat>, q: Prefix, v: nat)
    ensures rt[q := v] - {q} == rt - {q} == rt - {q} - {q}
  {
  }

  /** A route is added that there is a vport and a block for. */
  method Put(t: DirectTable, p: Prefix, hop: Hop, ghost lost: set<Prefix>)
    requires t.Short(lost) && Canonical(p) && p != DEFAULT && p !in t.rtable && !t.Exhausted(p, hop, lost)
    modifies t.Repr
    ensures t.Short(lost) && Placed(old(t.Seen()), t.Seen(), p, hop, lost + {p}) && Sound(t.Seen(), lost)
  {
    var status;
    var ignored;
    ghost var kept, mid;
    status, ignored, kept, mid := t.AddOther(p, hop, false, lost);
    t.SeenSound(lost);
  }

  /** A route is replaced, or is found to have no vport to go to. */
  method Change(t: DirectTable, p: Prefix, hop: Hop, ghost lost: set<Prefix>)
    returns (ghost status: Status, ghost kept: set<Prefix>, ghost mid: View)
    requires t.Short(lost) && Canonical(p) && p != DEFAULT && p in t.rtable
    modifies t.Repr
    ensures t.Short(if status == Ok then kept else kept + {p}) && (status == Ok || status == NoMemory)
    ensures Replaced(old(t.Seen()), mid, t.Seen(), p, hop, status, lost, kept)
    ensures Sound(t.Seen(), if status == Ok then kept else kept + {p})
  {
    var ignored;
    var reported;
    reported, ignored, kept, mid := t.AddOther(p, hop, true, lost);
    status := reported;
    t.SeenSound(if status == Ok then kept else kept + {p});
  }

  /** A route is taken out, if it has the hop asked for; the tables are the better for it. */
  method TakeAway(t: DirectTable, p: Prefix, hop: Hop, ghost lost: set<Prefix>) returns (ok: bool, ghost kept: set<Prefix>)
    requires t.Short(lost) && Canonical(p) && p != DEFAULT && p in t.rtable && hop.port >= 0
    requires TiledSkipped(t.rtable - {p}, p)
    modifies t.Repr
    ensures ok <==> old(t.Hops())[p] == hop
    ensures ok ==> t.Short(kept) && Erased(old(t.Seen()), t.Seen(), p, lost, kept)
    ensures !ok ==> unchanged(t.Repr) && kept == lost
  {
    var status;
    var ignored;
    status, ignored, kept := t.RemoveOther(p, hop, lost);
    ok := status == Ok;
  }

  /** Line 260: the undoing of a removal. */
  method UndoRemove(t: DirectTable, s: Saved, ghost before: Mark, ghost after: Mark, ghost lost: set<Prefix>,
                    ghost p: Prefix, ghost f: Fate)
    requires Holds(t, after, lost) && Undoes(s, before, after) && s.kind == CmdRemove && Fits(t, before)
    modifies t.Repr
    ensures Holds(t, before, lost) && t.rtable - {s.p} == old(t.rtable) - {s.p}
    ensures Follows(old(t.Seen()), t.Seen(), s, before, after, lost, p, f)
  {
    ghost var a := t.Seen();
    t.SeenSound(lost);
    RoomToPutBack(a, s, before, after, lost, t.tables.secCapacity);
    Put(t, s.p, s.hop, lost);
    PutBack(a, t.Seen(), s, before, after, lost);
    RemovalFollowed(a, t.Seen(), s, before, after, lost, p, f);
    RestStays(a.rt, s.p, t.rtable[s.p]);
  }

  /** Line 264: the undoing of a replacement. */
  method UndoSet(t: DirectTable, s: Saved, ghost before: Mark, ghost after: Mark, ghost lost: set<Prefix>,
                 ghost p: Prefix, ghost f: Fate)
    returns (ghost kept: set<Prefix>)
    requires Holds(t, after, lost) && Undoes(s, before, after) && s.kind == CmdSet && Fits(t, before)
    modifies t.Repr
    ensures Holds(t, before, kept) && t.rtable - {s.p} == old(t.rtable) - {s.p} && (s.p !in lost ==> kept == lost)
    ensures Follows(old(t.Seen()), t.Seen(), s, before, after, lost, p, f)
  {
    ghost var a := t.Seen();
    t.SeenSound(lost);
    ghost var status, mid;
    status, kept, mid := Change(t, s.p, s.hop, lost);
    RoomToSetBack(a, mid, s, before, after, lost, kept);
    SetBack(a, mid, t.Seen(), s, before, after, lost, kept);
    ReplacementFollowed(a, mid, t.Seen(), s, before, after, lost, kept, p, f);
    RestStays(a.rt, s.p, t.rtable[s.p]);
  }

  /**
   * Line 262: the undoing of an addition. A route whose vport has been given away
   * no longer has the hop it was added with, so that it is not found.
   */
  method UndoAdd(t: DirectTable, s: Saved, ghost before: Mark, ghost after: Mark, ghost lost: set<Prefix>,
                 ghost p: Prefix, ghost f: Fate)
    returns (stuck: bool, ghost kept: set<Prefix>)
    requires Holds(t, after, lost) && Undoes(s, before, after) && s.kind == CmdAdd
    modifies t.Repr
    ensures stuck <==> s.p in lost && old(t.Hops())[s.p] != s.hop
    ensures if stuck then unchanged(t.Repr) else Holds(t, before, kept)
    ensures !stuck ==> t.rtable - {s.p} == old(t.rtable) - {s.p} && (s.p !in lost ==> kept == lost)
    ensures !stuck ==> Follows(old(t.Seen()), t.Seen(), s, before, after, lost, p, f)
  {
    ghost var a := t.Seen();
    t.SeenSound(lost);
    SameLost(a, after, lost);
    SameSkips(before.t, t.rtable - {s.p}, s.p);
    RestStays(a.rt, s.p, 0);
    var ok;
    ok, kept := TakeAway(t, s.p, s.hop, lost);
    stuck := !ok;
    if ok {
      TakenBack(a, t.Seen(), s, before, after, lost, kept);
      AdditionFollowed(a, t.Seen(), s, before, after, lost, kept, p, f);
    }
  }

  lemma SameSkips<V, W>(t: map<Prefix, V>, u: map<Prefix, W>, p: Prefix)
    requires t.Keys == u.Keys
    ensures TiledSkipped(t, p) ==> TiledSkipped(u, p)
  {
    assert forall q :: q in t <==> q in u;
    assert forall a: nat, q: nat :: Longest(t, a, q) <==> Longest(u, a, q);
    if TiledSkipped(t, p) {
      forall i: nat | First(p) <= i < First(p) + Span(p) && AnyTiled(u, i)
        ensures Skipped(u, p, i)
      {
        var q :| Tiled(u, i, q);
        assert Tiled(t, i, q) && AnyTiled(t, i) && Skipped(t, p, i);
        var k: nat, j: nat, r: nat :| SkippedFrom(t, p, i, k, j, r);
        assert SkippedFrom(u, p, i, k, j, r);
      }
    }
  }

  // ---- all of them undone

  /** The marks a batch has passed, each a step from its successor. */
  ghost predicate Trail(t: DirectTable, saved: seq<Saved>, trail: seq<Mark>) {
    && |trail| == |saved| + 1
    && (forall k :: 0 <= k < |trail| ==> Fits(t, trail[k]))
    && (forall k :: 0 <= k < |saved| ==> Undoes(saved[k], trail[k], trail[k + 1]))
  }

  /** No entry is for `p`. */
  ghost predicate Untouched(saved: seq<Saved>, p: Prefix) {
    forall k :: 0 <= k < |saved| ==> saved[k].p != p
  }

  /** Where the vport of `p` is with only the first `k` entries still to be undone. */
  ghost function FateAt(saved: seq<Saved>, trail: seq<Mark>, p: Prefix, hop: Hop, k: nat): Fate
    requires |trail| == |saved| + 1 && k <= |saved|
    decreases |saved| - k
  {
    if k == |saved| then InUse(hop)
    else Back(FateAt(saved, trail, p, hop, k + 1), p, saved[k].p, trail[k].t, trail[k + 1].t)
  }

  /** The routes no entry is for have kept their vports. */
  ghost predicate KeepApart(saved: seq<Saved>, rt: map<Prefix, nat>, rt': map<Prefix, nat>) {
    forall r <- rt :: Untouched(saved, r) ==> r in rt' && rt'[r] == rt[r]
  }

  lemma StillApart(saved: seq<Saved>, k: nat, rt: map<Prefix, nat>, was: map<Prefix, nat>, now: map<Prefix, nat>)
    requires k < |saved| && KeepApart(saved, rt, was) && now - {saved[k].p} == was - {saved[k].p}
    ensures KeepApart(saved, rt, now)
  {
    forall r | r in rt && Untouched(saved, r)
      ensures r in now && now[r] == rt[r]
    {
      assert saved[k].p != r && r in was - {saved[k].p};
    }
  }

  /** With the first `k` entries still to be undone: `hop` is that of `p` when there were all. */
  ghost predicate Undoing(t: DirectTable, saved: seq<Saved>, trail: seq<Mark>, k: nat, lost: set<Prefix>, p: Prefix,
                          tracked: bool, hop: Hop, rt: map<Prefix, nat>)
    requires Trail(t, saved, trail) && k <= |saved|
    reads t, t.Repr
  {
    && Holds(t, trail[k], lost) && KeepApart(saved, rt, t.rtable)
    && (Untouched(saved, p) ==> lost == {p} && (tracked ==> Tracks(t.Seen(), p, FateAt(saved, trail, p, hop, k))))
  }

  /** Lines 257-265: one entry is undone, whatever the call reports. */
  method UndoOne(t: DirectTable, saved: seq<Saved>, ghost trail: seq<Mark>, k: nat, ghost lost: set<Prefix>, ghost p: Prefix,
                 ghost tracked: bool, ghost hop: Hop, ghost rt: map<Prefix, nat>)
    returns (stuck: bool, ghost kept: set<Prefix>)
    requires Trail(t, saved, trail) && k < |saved| && Undoing(t, saved, trail, k + 1, lost, p, tracked, hop, rt)
    modifies t.Repr
    ensures stuck ==> t.Routes() && !Untouched(saved, p) && saved[k].kind == CmdAdd
    ensures !stuck ==> Undoing(t, saved, trail, k, kept, p, tracked, hop, rt)
  {
    ghost var f := FateAt(saved, trail, p, hop, k + 1);
    stuck, kept := false, lost;
    match saved[k].kind {
      case CmdRemove =>
        UndoRemove(t, saved[k], trail[k], trail[k + 1], lost, p, f);
      case CmdAdd =>
        stuck, kept := UndoAdd(t, saved[k], trail[k], trail[k + 1], lost, p, f);
      case CmdSet =>
        kept := UndoSet(t, saved[k], trail[k], trail[k + 1], lost, p, f);
    }
    if !stuck {
      StillApart(saved, k, rt, old(t.rtable), t.rtable);
    }
  }

  /**
   * Lines 256-266, once a replacement of the route to `p` has found no vport. If
   * an addition cannot be undone, because its route has lost its vport to another,
   * what becomes of the table is not followed further.
   */
  method Rollback(t: DirectTable, saved: seq<Saved>, ghost trail: seq<Mark>, ghost p: Prefix)
    returns (stuck: bool, ghost lost: set<Prefix>)
    requires Trail(t, saved, trail) && Holds(t, trail[|saved|], {p})
    modifies t.Repr
    ensures t.Routes() && (Untouched(saved, p) ==> !stuck && lost == {p})
    ensures stuck ==> exists k :: 0 <= k < |saved| && saved[k].kind == CmdAdd
    ensures !stuck ==> Holds(t, trail[0], lost) && KeepApart(saved, old(t.rtable), t.rtable)
    ensures Untouched(saved, p) && old(Merged(t.Seen(), {p}) && t.rtable[p] in t.pool.live) ==>
      t.Hops()[p] == FateAt(saved, trail, p, old(t.Hops()[p]), 0).hop
  {
    ghost var tracked, hop, rt := Merged(t.Seen(), {p}) && t.rtable[p] in t.pool.live, t.Hops()[p], t.rtable;
    var k := |saved|;
    stuck, lost := false, {p};
    while k > 0
      invariant 0 <= k <= |saved| && !stuck
      invariant Undoing(t, saved, trail, k, lost, p, tracked, hop, rt)
    {
      k := k - 1;
      stuck, lost := UndoOne(t, saved, trail, k, lost, p, tracked, hop, rt);
      if stuck {
        return;
      }
    }
  }
}
