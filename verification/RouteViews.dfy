/**
 * The routes of a DIR-24-8 table with their vports, as values: what each step of
 * adding and removing a route does to them (`add_route`, `remove_route`,
 * `vport_find` and `vport_unref` in bfclick/ip/directiplookup.cc). Of some
 * routes, `lost` or `out`, the vports may not count the use.
 */
module RouteViews {
  import opened Prefixes
  import opened VportPools
  import opened Results

  /** What the route to `p` adds to the vports in use. */
  ghost function Cost(t: map<Prefix, Hop>, p: Prefix): nat {
    if p in t && t[p] !in (t - {p}).Values then 1 else 0
  }

  // ---- what the routes and the vports are, as values

  /** The routes by vport and by next hop, and the two lists of vports. */
  datatype View = View(rt: map<Prefix, nat>, t: map<Prefix, Hop>, live: seq<nat>, free: seq<nat>, size: nat) {
    /** The vport the next new hop is given, and what is free then. */
    ghost function NextFree(): nat { if free == [] then size else free[0] }

    ghost function Rest(): seq<nat> { if free == [] then [] else free[1..] }

    /** Every vport is in use, and none of them for `hop` by a route that is counted. */
    ghost predicate Starved(out: set<Prefix>, hop: Hop) {
      |live| == VPORT_LIMIT && hop !in (t - out).Values
    }

    /** Some counted route is at vport `v`. */
    ghost predicate Mans(v: nat, out: set<Prefix>) {
      exists r :: r in rt && r !in out && rt[r] == v
    }

    /** No other route that is counted shares the vport of `p`. */
    ghost predicate Alone(p: Prefix, lost: set<Prefix>)
      requires p in rt
    {
      forall q <- rt :: q != p && q !in lost ==> rt[q] != rt[p]
    }
  }

  /** Of the routes of `lost` and the one to `p`, all but `kept` are counted, or have been let go of. */
  ghost predicate Passes(p: Prefix, lost: set<Prefix>, kept: set<Prefix>, rt: map<Prefix, nat>)
    requires p in rt
  {
    && p !in kept && lost - {p} <= kept && |kept| <= |lost| && (p !in lost ==> kept == lost)
    && forall x <- kept - lost :: x in rt && rt[x] == rt[p]
  }

  /** The vports in use are fewer by what a route no longer counted was worth. */
  ghost predicate Frees(p: Prefix, lost: set<Prefix>, kept: set<Prefix>, t: map<Prefix, Hop>, load: int, load': int) {
    load' <= load && forall x <- kept + {p} - lost :: load' + Cost(t - lost, x) <= load
  }

  /** The vport of a route that goes is free if no other counted route is at it. */
  ghost predicate Yields(a: View, b: View, p: Prefix, lost: set<Prefix>)
    requires p in a.rt
  {
    && b.free == (if a.Alone(p, lost) then [a.rt[p]] + a.free else a.free)
    && |b.live| == |a.live| - (if a.Alone(p, lost) then 1 else 0)
    && forall w <- a.live :: w in b.live || (w == a.rt[p] && a.Alone(p, lost))
  }

  /** One route fewer is counted at `v`, which was the last or was not. */
  ghost predicate Vacated(a: View, b: View, v: nat, last: bool) {
    && b.rt == a.rt && b.t == a.t && b.size == a.size
    && if last then b.free == [v] + a.free && |b.live| == |a.live| - 1 && forall w <- a.live :: w in b.live || w == v
       else b.live == a.live && b.free == a.free
  }

  /** The route to `p` is no longer counted. */
  ghost predicate LetGone(a: View, b: View, p: Prefix, lost: set<Prefix>, kept: set<Prefix>)
    requires p in a.rt
  {
    && b.rt == a.rt && b.t == a.t && b.size == a.size
    && Passes(p, lost, kept, a.rt) && Frees(p, lost, kept, a.t, |a.live|, |b.live|)
    && (p !in lost ==> Yields(a, b, p, lost))
  }

  /** Nor has it an entry. */
  ghost predicate Erased(a: View, b: View, p: Prefix, lost: set<Prefix>, kept: set<Prefix>)
    requires p in a.rt
  {
    && b.rt == a.rt - {p} && b.t == a.t - {p}
    && Passes(p, lost, kept, a.rt) && Frees(p, lost, kept, a.t, |a.live|, |b.live|)
    && (p !in lost ==> Yields(a, b, p, lost))
  }

  /**
   * `p` is sent by `hop`: by the vport of a counted route that has the hop, or
   * else by the next free one, and routes that are not counted go along with it.
   */
  ghost predicate Placed(a: View, b: View, p: Prefix, hop: Hop, out: set<Prefix>) {
    && p in b.rt && b.rt == a.rt[p := b.rt[p]] && b.t.Keys == a.t.Keys + {p} && b.t[p] == hop
    && if hop in (a.t - out).Values
       then && (forall q <- a.t :: q != p ==> b.t[q] == a.t[q])
            && b.rt[p] in a.live && b.live == a.live && b.free == a.free && a.Mans(b.rt[p], out)
       else && (forall q <- a.t :: q != p ==> q in a.rt && b.t[q] == if q in out && a.rt[q] == b.rt[p] then hop else a.t[q])
            && b.rt[p] == a.NextFree() && b.free == a.Rest() && |b.live| == |a.live| + 1 && forall w <- a.live :: w in b.live
  }

  /** What becomes of a prefix that had no route. */
  ghost predicate Inserted(a: View, b: View, p: Prefix, hop: Hop, status: Status, lost: set<Prefix>) {
    if status == Ok then Placed(a, b, p, hop, lost + {p})
    else Same(a, b)
  }

  /**
   * What becomes of a route that is replaced, `b` being the state in which its
   * vport has been let go of; one that cannot be is no longer counted.
   */
  ghost predicate Replaced(a: View, b: View, c: View, p: Prefix, hop: Hop, status: Status, lost: set<Prefix>, kept: set<Prefix>)
    requires p in a.rt
  {
    && LetGone(a, b, p, lost, kept)
    && if status == Ok then Placed(b, c, p, hop, kept + {p})
       else c.rt == a.rt && c.t == a.t && c.live == b.live && b.Starved(kept + {p}, hop)
  }

  /** `v` is the vport of `hop`, or the next free one, and nothing else has changed. */
  ghost predicate Claimed(a: View, b: View, v: nat, out: set<Prefix>) {
    && b.rt == a.rt && b.t == a.t && b.live == a.live
    && if v in a.live then b.free == a.free && a.Mans(v, out)
       else v == a.NextFree() && b.free != [] && v == b.free[0] && b.free[1..] == a.Rest()
  }

  /** The two states of a table that has the same routes and vports in use. */
  ghost predicate Same(a: View, b: View) {
    b.rt == a.rt && b.t == a.t && b.live == a.live
  }

  /** The vport is in use from now on. */
  ghost predicate Used(a: View, b: View, p: Prefix, hop: Hop, v: nat, out: set<Prefix>) {
    && b.rt == a.rt[p := v] && b.t.Keys == a.t.Keys + {p} && b.t[p] == hop
    && if v in a.live
       then (forall q <- a.t :: q != p ==> b.t[q] == a.t[q]) && b.live == a.live && b.free == a.free
       else && (forall q <- a.t :: q != p ==> q in a.rt && b.t[q] == if q in out && a.rt[q] == v then hop else a.t[q])
            && a.free != [] && b.free == a.free[1..] && |b.live| == |a.live| + 1 && forall w <- a.live :: w in b.live
  }

  /** With every route counted: one is placed, no other moves, and the vports in use grow by what it is worth. */
  ghost predicate Added(a: View, c: View, p: Prefix, hop: Hop) {
    && p in c.rt && c.rt == a.rt[p := c.rt[p]] && c.t == a.t[p := hop]
    && |c.live| + Cost(a.t, p) <= |a.live| + Cost(c.t, p)
    && (p !in a.rt ==> Placed(a, c, p, hop, {p}))
    && (hop in (a.t - {p}).Values ==> a.Mans(c.rt[p], {p}))
  }

  ghost predicate Gone(a: View, c: View, p: Prefix) {
    c.rt == a.rt - {p} && c.t == a.t - {p} && |c.live| + Cost(a.t, p) <= |a.live|
  }

  ghost predicate AsBefore(a: View, b: View) {
    b.rt == a.rt && b.t == a.t && |b.live| == |a.live|
  }

  lemma ClaimedUsed(a: View, b: View, c: View, p: Prefix, hop: Hop, v: nat, out: set<Prefix>)
    requires Claimed(a, b, v, out) && Used(b, c, p, hop, v, out)
    requires v in a.live <==> hop in (a.t - out).Values
    ensures Placed(a, c, p, hop, out)
  {
  }

  /** As many vports as next hops, when each has its own and all are there. */
  lemma {:induction false} CountHops(live: seq<nat>, ports: seq<VirtualPort>, hops: set<Hop>)
    requires forall k :: 0 <= k < |live| ==> live[k] < |ports| && ports[live[k]].Target() in hops
    requires forall k, l :: 0 <= k < l < |live| ==> ports[live[k]].Target() != ports[live[l]].Target()
    requires forall h <- hops :: exists k :: 0 <= k < |live| && ports[live[k]].Target() == h
    ensures |live| == |hops|
  {
    if live == [] {
      if h :| h in hops {
        assert false;
      }
    } else {
      var h := ports[live[0]].Target();
      var rest := hops - {h};
      forall g | g in rest
        ensures exists k :: 0 <= k < |live[1..]| && ports[live[1..][k]].Target() == g
      {
        var k :| 0 <= k < |live| && ports[live[k]].Target() == g;
        assert live[1..][k - 1] == live[k];
      }
      CountHops(live[1..], ports, rest);
    }
  }

  // ---- what holds of every view

  /** Routes at one vport have one next hop. */
  ghost predicate Coherent(v: View) {
    v.rt.Keys == v.t.Keys && forall q <- v.rt, r <- v.rt :: v.rt[q] == v.rt[r] ==> v.t[q] == v.t[r]
  }

  /** No two vports in use have the same next hop. */
  ghost predicate Merged(v: View, lost: set<Prefix>) {
    v.rt.Keys == v.t.Keys
    && forall q <- v.rt, r <- v.rt :: q !in lost && r !in lost && v.t[q] == v.t[r] ==> v.rt[q] == v.rt[r]
  }

  /** Counted routes are at vports in use, and these at none other; the free ones come one by one. */
  ghost predicate Sound(v: View, lost: set<Prefix>) {
    && Coherent(v)
    && (forall q <- v.rt :: q !in lost ==> v.rt[q] in v.live) && (forall w <- v.live :: v.Mans(w, lost))
    && v.NextFree() !in v.live && Distinct(v.free) && (forall w <- v.free :: w !in v.live)
  }

  /** Only the route to `p` has changed its vport, and two vports in use still have different next hops. */
  ghost predicate OneMoved(a: View, c: View, p: Prefix) {
    c.rt - {p} == a.rt - {p} && (Merged(a, {}) ==> Merged(c, {}))
  }

  lemma AddedMoves(a: View, c: View, p: Prefix, hop: Hop)
    requires Coherent(a) && Coherent(c) && Added(a, c, p, hop)
    ensures OneMoved(a, c, p)
  {
    assert c.rt - {p} == a.rt - {p};
    if Merged(a, {}) {
      forall q, r | q in c.rt && r in c.rt && c.t[q] == c.t[r]
        ensures c.rt[q] == c.rt[r]
      {
        if q != p && r == p {
          MovedTo(a, c, p, hop, q);
        } else if q == p && r != p {
          MovedTo(a, c, p, hop, r);
        }
      }
    }
  }

  lemma MovedTo(a: View, c: View, p: Prefix, hop: Hop, q: Prefix)
    requires Coherent(a) && Coherent(c) && Added(a, c, p, hop) && Merged(a, {})
    requires q in a.t && q != p && a.t[q] == hop
    ensures c.rt[q] == c.rt[p]
  {
    assert (a.t - {p})[q] == hop;
    var r :| r in a.rt && r !in {p} && a.rt[r] == c.rt[p];
    assert c.rt[r] == c.rt[p];
    assert c.t[r] == c.t[p];
  }

  lemma GoneMoves(a: View, c: View, p: Prefix)
    requires Coherent(a) && Gone(a, c, p)
    ensures OneMoved(a, c, p)
  {
    assert c.rt - {p} == a.rt - {p};
  }

  /** A route whose vport another shares is worth nothing. */
  lemma SharedWorthless(v: View, p: Prefix)
    requires Coherent(v) && p in v.rt && !v.Alone(p, {})
    ensures Cost(v.t, p) == 0
  {
    var q :| q in v.rt && q != p && q !in {} && v.rt[q] == v.rt[p];
    assert (v.t - {p})[q] == v.t[p];
  }
}
