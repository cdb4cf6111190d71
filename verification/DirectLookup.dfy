/**
 * `DirectIPLookup` as a routing table: adding, replacing and removing routes
 * and looking addresses up (bfclick/ip/directiplookup.cc).
 */
module DirectLookups {
  import opened Prefixes
  import opened VportPools
  import opened DirectTables
  import opened Forwarding
  import opened Results
  import opened RouteViews

  const DEFAULT := Prefix(0, 0)

  lemma AtZero(a: nat)
    requires a < ADDRESSES
    ensures At(a, 0) == DEFAULT
  {
    DefaultMatches(a);
  }

  /** All addresses of /24 `i` have one next hop. */
  ghost predicate OneHop(routes: map<Prefix, Hop>, i: nat) {
    forall j :: 0 <= j < 256 ==> NextHop(routes, Addr(i, j)) == NextHop(routes, Addr(i, 0))
  }

  /**
   * In terms of the routes alone: the vports are all taken, none by a route with
   * the hop, and the vport of `p` is shared; or the blocks are.
   */
  ghost predicate Lacks(t: map<Prefix, Hop>, p: Prefix, hop: Hop, capacity: nat) {
    if p in t then |t.Values| == VPORT_LIMIT && hop !in (t - {p}).Values && t[p] in (t - {p}).Values
    else (|t.Values| == VPORT_LIMIT && hop !in t.Values)
         || (p.len > 24 && 256 * |Deep(t) + {First(p)}| > capacity)
  }

  class DirectTable {
    var rtable: map<Prefix, nat>    // _rtable, reached through _rt_hashtbl
    const pool: VportPool
    const tables: LookupTables

    ghost const Repr: set<object> :=
      {this, pool, tables, tables.tbl, tables.tblPlen, tables.sec, tables.secPlen}

    ghost predicate Routes()
      reads this, pool
    {
      && DEFAULT in rtable && rtable[DEFAULT] == 0 && AllCanonical(rtable)
      && pool.Valid() && forall p <- rtable :: rtable[p] < |pool.ports|
    }

    /** The route each live prefix is sent by. */
    ghost function Hops(): map<Prefix, Hop>
      requires Routes()
      reads this, pool
    {
      map p | p in rtable :: pool.ports[rtable[p]].Target()
    }

    ghost function Seen(): (v: View)
      requires Routes()
      reads this, pool
      ensures v.rt.Keys == v.t.Keys
    {
      View(rtable, Hops(), pool.live, pool.free, |pool.ports|)
    }

    ghost predicate Valid()
      reads this, Repr
    {
      Routes() && pool.Counts(rtable) && tables.Valid(rtable)
    }

    /** As `Valid`, but for the /24s a removal has collapsed. */
    ghost predicate ValidBut()
      reads this, Repr
    {
      Routes() && pool.Counts(rtable) && tables.ValidBut(rtable)
    }

    constructor (blocks: nat)
      requires blocks <= FLAG
      ensures Valid() && fresh(Repr)
      ensures Hops() == map[DEFAULT := Hop(0, DISCARD_PORT)] && pool.live == [0] && |pool.ports| == 1
      ensures tables.secSize == 0 && tables.secCapacity == 256 * blocks
    {
      pool := new VportPool();
      tables := new LookupTables(blocks);
      rtable := map[DEFAULT := 0];
      new;
      DefaultAlone();
    }

    static lemma DefaultAlone()
      ensures Users(map[DEFAULT := 0], 0) == {DEFAULT} && AllCanonical(map[DEFAULT := 0])
    {
      assert Users(map[DEFAULT := 0], 0) == {DEFAULT};
      Literals();
      ClearMod(0, 32);
    }

    /** What the tables answer for an address. */
    ghost function Answer(a: nat): Hop
      requires ValidBut() && a < ADDRESSES
      reads this, Repr
    {
      if a / 256 in tables.bad then Hops()[FirstTile(a / 256)]
      else
        var q := tables.SlotPlen(a / 256, a % 256);
        SlotIsLongest(a, a / 256, a % 256);
        Hops()[At(a, q)]
    }

    /** The answer is the route of the longest live prefix covering the address. */
    ghost predicate AnswersLongest(a: nat)
      requires ValidBut() && a < ADDRESSES
      reads this, Repr
    {
      exists p :: IsLongest(Hops(), a, p) && Answer(a) == Hops()[p]
    }

    /** Lines 529-539: one or two table reads. */
    method LookupRoute(a: nat) returns (hop: Hop)
      requires ValidBut() && a < ADDRESSES
      ensures hop == Answer(a)
      ensures tables.bad == {} ==> AnswersLongest(a)
    {
      var v := tables.tbl[a / 256];
      ghost var i, j := a / 256, a % 256;
      assert a == Addr(i, j);
      if v >= FLAG {
        v := tables.sec[256 * (v - FLAG) + a % 256];
      }
      if i !in tables.bad {
        assert tables.SlotOk(rtable, i, j);
        SlotIsLongest(a, i, j);
        assert IsLongest(Hops(), a, At(a, tables.SlotPlen(i, j)));
      }
      hop := Hop(pool.ports[v].gw, pool.ports[v].port);
    }

    /** With no /24 collapsed, every answer is. */
    lemma ValidAnswers(a: nat)
      requires Valid() && a < ADDRESSES
      ensures AnswersLongest(a)
    {
      assert a == Addr(a / 256, a % 256);
      SlotIsLongest(a, a / 256, a % 256);
    }

    /** The tables answer every address right exactly when each collapsed /24 had one route. */
    lemma AnswersAllLongest()
      requires ValidBut()
      ensures (forall a :: 0 <= a < ADDRESSES ==> AnswersLongest(a))
        <==> forall i, j :: i in tables.bad && 0 <= j < 256 ==> Hops()[Tile(i, j)] == Hops()[FirstTile(i)]
    {
      forall a | 0 <= a < ADDRESSES
        ensures if a / 256 in tables.bad
                then AnswersLongest(a) <==> Hops()[Tile(a / 256, a % 256)] == Hops()[FirstTile(a / 256)]
                else AnswersLongest(a)
      {
        if a / 256 in tables.bad {
          TileIsLongest(a);
        } else {
          SlotIsLongest(a, a / 256, a % 256);
        }
      }
      forall i, j | i in tables.bad && 0 <= j < 256
        ensures Addr(i, j) < ADDRESSES && Addr(i, j) / 256 == i && Addr(i, j) % 256 == j
      {
        assert tables.Collapsed(rtable, i);
      }
      if forall a :: 0 <= a < ADDRESSES ==> AnswersLongest(a) {
        forall i, j | i in tables.bad && 0 <= j < 256
          ensures Hops()[Tile(i, j)] == Hops()[FirstTile(i)]
        {
          assert AnswersLongest(Addr(i, j));
        }
      }
    }

    lemma TileIsLongest(a: nat)
      requires ValidBut() && a < ADDRESSES && a / 256 in tables.bad
      ensures AnswersLongest(a) <==> Hops()[Tile(a / 256, a % 256)] == Hops()[FirstTile(a / 256)]
    {
      var i, j := a / 256, a % 256;
      assert a == Addr(i, j);
      assert tables.Collapsed(rtable, i);
      LongestIsLongest(rtable, a, tables.tblPlen[i]);
      var t := Tile(i, j);
      assert IsLongest(Hops(), a, t);
      forall p | IsLongest(Hops(), a, p)
        ensures p == t
      {
        LongestUnique(Hops(), a, p, t);
      }
    }

    /** After a removal the tables are right iff each tiled /24 of `p` was skipped. */
    lemma ValidAfterRemoval(p: Prefix)
      requires ValidBut() && tables.CollapsedIs(rtable, p)
      ensures Valid() <==> TiledSkipped(rtable, p)
    {
      tables.NoneIfSkipped(rtable, p);
    }

    /**
     * After a removal, in terms of the routes alone: every address is answered
     * right iff each /24 of `p` that is tiled and not skipped has one next hop.
     */
    lemma RightAfterRemoval(p: Prefix)
      requires ValidBut() && tables.CollapsedIs(rtable, p)
      ensures (forall a :: 0 <= a < ADDRESSES ==> AnswersLongest(a))
        <==> forall i :: First(p) <= i < First(p) + Span(p) && AnyTiled(rtable, i) && !Skipped(rtable, p, i)
               ==> OneHop(Hops(), i)
    {
      AnswersAllLongest();
      forall i | i in tables.bad
        ensures OneHop(Hops(), i) <==> forall j :: 0 <= j < 256 ==> Hops()[Tile(i, j)] == Hops()[FirstTile(i)]
      {
        forall j | 0 <= j < 256
          ensures NextHop(Hops(), Addr(i, j)) == Some(Hops()[Tile(i, j)])
        {
          TileNextHop(i, j);
        }
        assert Tile(i, 0) == FirstTile(i);
      }
    }

    lemma TileNextHop(i: nat, j: nat)
      requires ValidBut() && i in tables.bad && j < 256
      ensures NextHop(Hops(), Addr(i, j)) == Some(Hops()[Tile(i, j)])
    {
      assert tables.Collapsed(rtable, i);
      LongestIsLongest(rtable, Addr(i, j), tables.tblPlen[i]);
      assert IsLongest(Hops(), Addr(i, j), Tile(i, j));
      NextHopIsLongest(Hops(), Addr(i, j), Tile(i, j));
    }

    /** The tile a collapsed /24 should answer address `j` with. */
    ghost function Tile(i: nat, j: nat): (p: Prefix)
      requires ValidBut() && i in tables.bad && j < 256
      reads this, Repr
      ensures p in rtable
    {
      assert tables.Collapsed(rtable, i);
      At(Addr(i, j), tables.tblPlen[i])
    }

    lemma SlotIsLongest(a: nat, i: nat, j: nat)
      requires ValidBut() && i < SLOTS && j < 256 && a == Addr(i, j) && i !in tables.bad
      ensures tables.SlotPlen(i, j) <= 32 && IsLongest(Hops(), a, At(a, tables.SlotPlen(i, j)))
    {
      assert tables.SlotOk(rtable, i, j);
      LongestIsLongest(rtable, a, tables.SlotPlen(i, j));
    }

    /** The route a collapsed /24 answers with. */
    ghost function FirstTile(i: nat): Prefix
      requires ValidBut() && i in tables.bad
      reads this, Repr
      ensures FirstTile(i) in rtable && i < SLOTS
      ensures rtable[FirstTile(i)] == tables.tbl[i]
    {
      assert tables.Collapsed(rtable, i);
      At(Addr(i, 0), tables.tblPlen[i])
    }

    /** What a vport 0 update shows through: the default and whoever shares it. */
    ghost function WithDefault(hop: Hop): map<Prefix, Hop>
      requires Routes()
      reads this, pool
    {
      map p | p in rtable :: if rtable[p] == 0 then hop else pool.ports[rtable[p]].Target()
    }

    /** No other route would be rerouted by pointing vport 0 at `hop`. */
    ghost predicate Unshared(hop: Hop)
      requires Routes()
      reads this, pool
    {
      forall p <- rtable :: p != DEFAULT && rtable[p] == 0 ==> pool.ports[0].Target() == hop
    }

    /** Lines 206-213 and 393: only vport 0 changes. */
    method SetDefault(hop: Hop)
      requires Valid()
      modifies pool
      ensures Valid() && Hops() == old(WithDefault(hop))
      ensures Hops() == old(Hops())[DEFAULT := hop] <==> old(Unshared(hop))
      ensures pool.live == old(pool.live) && pool.free == old(pool.free) && |pool.ports| == |old(pool.ports)|
    {
      DefaultShared(hop);
      pool.SetDefault(hop);
      HopsSame(old(WithDefault(hop)));
    }

    lemma DefaultShared(hop: Hop)
      requires Routes()
      ensures WithDefault(hop) == Hops()[DEFAULT := hop] <==> Unshared(hop)
    {
      if WithDefault(hop) == Hops()[DEFAULT := hop] {
        forall p <- rtable | p != DEFAULT && rtable[p] == 0
          ensures pool.ports[0].Target() == hop
        {
          assert WithDefault(hop)[p] == Hops()[DEFAULT := hop][p];
        }
      }
    }

    /** The vports in use. */
    ghost function Load(): nat
      reads pool
    {
      |pool.live|
    }

    /** As `Valid`, but that the vports of the routes of `lost` do not count them. */
    ghost predicate Short(lost: set<Prefix>)
      reads this, Repr
    {
      Routes() && lost <= rtable.Keys && pool.Counts(rtable - lost) && tables.Valid(rtable)
    }

    /** A table that is right is one that counts every route. */
    lemma AsShort()
      ensures (Valid() <==> Short({})) && rtable - {} == rtable
      ensures Routes() ==> Hops() - {} == Hops()
    {
      assert rtable - {} == rtable;
    }

    /** There is a vport for the route to `p`, and a block, once what it has now is let go. */
    ghost predicate Room(p: Prefix, hop: Hop)
      requires Routes()
      reads this, pool
    {
      && Load() + Cost(Hops()[p := hop], p) <= VPORT_LIMIT + Cost(Hops(), p)
      && 256 * |Deep(Hops()[p := hop])| <= tables.secCapacity
    }

    /** The vports in use are those of the routes they count. */
    lemma LiveHops(lost: set<Prefix>, hop: Hop)
      requires Routes() && pool.Counts(rtable - lost)
      ensures (exists v <- pool.live :: pool.ports[v].Target() == hop) <==> hop in (Hops() - lost).Values
      ensures forall v <- pool.live :: Seen().Mans(v, lost)
      ensures forall q <- rtable - lost :: rtable[q] in pool.live
    {
      forall v | v in pool.live
        ensures Seen().Mans(v, lost) && (pool.ports[v].Target() == hop ==> hop in (Hops() - lost).Values)
      {
        var q := UserOf(v, lost);
        assert (Hops() - lost)[q] == pool.ports[v].Target();
      }
      forall q | q in rtable - lost
        ensures rtable[q] in pool.live
      {
        assert (rtable - lost)[q] in pool.live;
      }
      if hop in (Hops() - lost).Values {
        var q :| q in Hops() - lost && (Hops() - lost)[q] == hop;
        assert (rtable - lost)[q] in pool.live;
      }
    }

    lemma UserOf(v: nat, lost: set<Prefix>) returns (q: Prefix)
      requires Routes() && pool.Counts(rtable - lost) && v in pool.live
      ensures q in rtable && q !in lost && rtable[q] == v
    {
      assert |Users(rtable - lost, v)| > 0;
      assert Users(rtable - lost, v) != {};
      q :| q in Users(rtable - lost, v);
    }

    lemma SeenCoherent()
      requires Routes()
      ensures Coherent(Seen())
    {
    }

    /** What is seen of the routes and vports hangs together. */
    lemma SeenSound(lost: set<Prefix>)
      requires Routes() && pool.Counts(rtable - lost)
      ensures Sound(Seen(), lost)
    {
      forall q | q in rtable && q !in lost
        ensures rtable[q] in pool.live
      {
        assert (rtable - lost)[q] in pool.live;
      }
      forall w | w in pool.live
        ensures Seen().Mans(w, lost)
      {
        var q := UserOf(w, lost);
      }
    }

    /** While no two vports in use have the same next hop, there are as many of them as next hops. */
    lemma LoadIsHops()
      requires Valid() && Merged(Seen(), {})
      ensures Load() == |Hops().Values|
    {
      AsShort();
      SeenSound({});
      var v := Seen();
      forall k, l | 0 <= k < l < |v.live|
        ensures pool.ports[v.live[k]].Target() != pool.ports[v.live[l]].Target()
      {
        var q := UserOf(v.live[k], {});
        var r := UserOf(v.live[l], {});
        assert Differ(pool.live, k, l);
        assert v.t[q] == pool.ports[v.live[k]].Target() && v.t[r] == pool.ports[v.live[l]].Target();
      }
      forall k | 0 <= k < |v.live|
        ensures pool.ports[v.live[k]].Target() in v.t.Values
      {
        var q := UserOf(v.live[k], {});
        assert v.t[q] == pool.ports[v.live[k]].Target();
      }
      forall h | h in v.t.Values
        ensures exists k :: 0 <= k < |v.live| && pool.ports[v.live[k]].Target() == h
      {
        var q :| q in v.t && v.t[q] == h;
        assert v.rt[q] in v.live;
      }
      CountHops(v.live, pool.ports, v.t.Values);
    }

    /** A count of one is that of the only user; a hop of its own makes a route that. */
    lemma OnlyUser(p: Prefix, lost: set<Prefix>)
      requires Routes() && pool.Counts(rtable - lost) && p in rtable && p !in lost
      ensures pool.ports[rtable[p]].refcount > 1 <==> !Seen().Alone(p, lost)
      ensures !Seen().Alone(p, lost) ==> Cost(Hops() - lost, p) == 0
    {
      var rt, v := rtable - lost, rtable[p];
      assert rt[p] in pool.live && p in Users(rt, v);
      UsersRemove(rt, p, v);
      if pool.ports[v].refcount > 1 {
        assert Users(rt - {p}, v) != {};
        var q :| q in Users(rt - {p}, v);
        assert !Seen().Alone(p, lost);
      }
      if !Seen().Alone(p, lost) {
        var q :| q in rtable && q != p && q !in lost && rtable[q] == rtable[p];
        assert q in Users(rt - {p}, v);
        assert ((Hops() - lost) - {p})[q] == (Hops() - lost)[p];
      }
    }

    lemma DeepKeys(p: Prefix, hop: Hop)
      requires Routes()
      ensures Deep(Hops()[p := hop]) == if p.len > 24 then Deep(rtable) + {First(p)} else Deep(rtable)
    {
      assert forall q :: q in Hops()[p := hop] <==> q in rtable || q == p;
    }

    lemma HopsSame(was: map<Prefix, Hop>)
      requires Routes() && was.Keys == rtable.Keys
      requires forall q <- rtable :: pool.ports[rtable[q]].Target() == was[q]
      ensures Hops() == was
    {
    }

    /** A vport for `hop`: the one that has it, or the next free one. */
    ghost predicate Ready(hop: Hop, v: nat, out: set<Prefix>)
      requires Routes()
      reads this, pool
    {
      && v < |pool.ports| && (v in pool.live <==> hop in (Hops() - out).Values)
      && if v in pool.live then pool.ports[v].Target() == hop else pool.free != [] && v == pool.free[0]
    }

    /** Lines 268-297: the entry and its vport. */
    method Record(p: Prefix, hop: Hop, v: nat, ghost out: set<Prefix>)
      requires Routes() && Canonical(p) && p != DEFAULT && p in out && pool.Counts(rtable - out) && Ready(hop, v, out)
      modifies this, pool
      ensures Routes() && pool.Counts(rtable - (out - {p})) && rtable == old(rtable)[p := v]
      ensures Used(old(Seen()), Seen(), p, hop, v, out) && |pool.ports| == |old(pool.ports)|
    {
      Recorded(p, v, out);
      pool.Ref(v, hop, rtable - out, p);
      rtable := rtable[p := v];
      CarriedAlong(old(Seen()), p, hop, v, out);
    }

    lemma Recorded(p: Prefix, v: nat, out: set<Prefix>)
      requires Routes() && Canonical(p) && p in out && pool.Counts(rtable - out)
      ensures (rtable - out)[p := v] == rtable[p := v] - (out - {p}) && AllCanonical(rtable[p := v])
      ensures forall q <- rtable :: q !in out ==> rtable[q] in pool.live
    {
      forall q | q in rtable && q !in out
        ensures rtable[q] in pool.live
      {
        assert (rtable - out)[q] in pool.live;
      }
    }

    lemma CarriedAlong(a: View, p: Prefix, hop: Hop, v: nat, out: set<Prefix>)
      requires Routes() && v < |pool.ports| && rtable == a.rt[p := v] && a.t.Keys == a.rt.Keys
      requires forall q <- a.rt :: a.rt[q] < |pool.ports| && (q !in out ==> a.rt[q] in a.live)
      requires pool.ports[v].Target() == hop
      requires forall q <- a.rt :: a.rt[q] != v || v in a.live ==> a.t[q] == pool.ports[a.rt[q]].Target()
      ensures Hops().Keys == a.t.Keys + {p} && Hops()[p] == hop
      ensures v in a.live ==> forall q <- a.t :: q != p ==> Hops()[q] == a.t[q]
      ensures v !in a.live ==>
        forall q <- a.t :: q != p ==> q in a.rt && Hops()[q] == if q in out && a.rt[q] == v then hop else a.t[q]
    {
      forall q | q in a.t && q != p
        ensures rtable[q] == a.rt[q] && Hops()[q] == pool.ports[a.rt[q]].Target()
      {
      }
    }

    /** Lines 267-364: the tables take the route in; vport and block are at hand. */
    method Install(p: Prefix, hop: Hop, v: nat, allowReplace: bool, ghost out: set<Prefix>)
      requires Routes() && Canonical(p) && p != DEFAULT && (p in rtable ==> allowReplace)
      requires p in out && out <= rtable.Keys + {p} && Ready(hop, v, out)
      requires pool.Counts(rtable - out) && tables.Valid(rtable) && First(p) < SLOTS
      requires p.len > 24 && tables.tbl[First(p)] < FLAG ==> tables.emptyHead < FLAG
      modifies Repr
      ensures Short(out - {p}) && Used(old(Seen()), Seen(), p, hop, v, out)
      ensures |pool.ports| == |old(pool.ports)| && tables.secSize == old(tables.secSize)
    {
      ghost var before := rtable;
      Record(p, hop, v, out);
      Enter(p, v, allowReplace, before);
    }

    /** Lines 299-364. */
    method Enter(p: Prefix, v: nat, allowReplace: bool, ghost before: map<Prefix, nat>)
      requires Routes() && Canonical(p) && p != DEFAULT && rtable == before[p := v] && (p in before ==> allowReplace)
      requires AllCanonical(before) && DEFAULT in before && tables.Valid(before) && First(p) < SLOTS
      requires p.len > 24 && tables.tbl[First(p)] < FLAG ==> tables.emptyHead < FLAG
      modifies Repr - {this, pool}
      ensures tables.Valid(rtable) && tables.secSize == old(tables.secSize)
    {
      assert rtable[p] == v;
      var ok := tables.AddWalk(p, v, allowReplace, Edit(p, before, rtable));
    }

    /** Line 239: a vport for the hop, without disturbing any route. */
    method Claim(p: Prefix, hop: Hop, ghost out: set<Prefix>) returns (v: int)
      requires Routes() && pool.Counts(rtable - out)
      modifies pool
      ensures Routes() && Hops() == old(Hops()) && pool.Counts(rtable - out) && pool.live == old(pool.live)
      ensures |pool.ports| <= |old(pool.ports)| + 1
      ensures v < 0 <==> old(Seen()).Starved(out, hop)
      ensures v >= 0 ==> Ready(hop, v, out) && Claimed(old(Seen()), Seen(), v, out)
    {
      LiveHops(out, hop);
      v := pool.Find(hop);
      HopsSame(old(Hops()));
    }

    /** Another /24 with a block is one too many. */
    ghost predicate Blockless(p: Prefix)
      reads this
    {
      p !in rtable && p.len > 24 && 256 * |Deep(rtable) + {First(p)}| > tables.secCapacity
    }

    /** Lines 242-265: a block is at hand. */
    method Reserve(p: Prefix) returns (ok: bool)
      requires Routes() && Canonical(p) && tables.Valid(rtable)
      modifies tables, tables.sec, tables.secPlen
      ensures tables.Valid(rtable) && tables.secSize <= old(tables.secSize) + 256
      ensures ok <==> !old(Blockless(p))
      ensures !ok ==> old(tables.secSize) == tables.secCapacity
      ensures First(p) < SLOTS && (ok && p.len > 24 && tables.tbl[First(p)] < FLAG ==> tables.emptyHead < FLAG)
    {
      Extent(p, 0, 0);
      ok := tables.EnsureBlock(p, rtable);
    }

    /** Lines 238-364: everything after the old vport, if any, has been let go. */
    method Place(p: Prefix, hop: Hop, allowReplace: bool, ghost out: set<Prefix>) returns (status: Status)
      requires Routes() && Canonical(p) && p != DEFAULT && (p in rtable ==> allowReplace)
      requires p in out && out <= rtable.Keys + {p} && pool.Counts(rtable - out) && tables.Valid(rtable)
      modifies Repr
      ensures Routes() && (status == Ok || status == NoMemory)
      ensures status == NoMemory <==> old(Seen()).Starved(out, hop) || old(Blockless(p))
      ensures status == NoMemory ==> Same(old(Seen()), Seen()) && pool.Counts(rtable - out) && tables.Valid(rtable)
      ensures status == NoMemory ==> old(Seen()).Starved(out, hop) || old(tables.secSize) == tables.secCapacity
      ensures status == Ok ==> Short(out - {p}) && Placed(old(Seen()), Seen(), p, hop, out)
      ensures |pool.ports| <= |old(pool.ports)| + 1 && tables.secSize <= old(tables.secSize) + 256
    {
      var v := Claim(p, hop, out);
      if v < 0 {
        return NoMemory;
      }
      var ok := Reserve(p);
      if !ok {
        return NoMemory;
      }
      ghost var b := Seen();
      Install(p, hop, v, allowReplace, out);
      ClaimedUsed(old(Seen()), b, Seen(), p, hop, v, out);
      return Ok;
    }

    /** Lines 196-213: the default route has its entry and its vport from the start. */
    method AddDefault(hop: Hop, allowReplace: bool) returns (status: Status, old_route: Option<Hop>)
      requires Valid()
      modifies pool
      ensures Valid() && status == if old(Listed(DEFAULT)) && !allowReplace then Exists else Ok
      ensures old_route == if old(Listed(DEFAULT)) then Some(old(Hops())[DEFAULT]) else None
      ensures status == Exists ==> Hops() == old(Hops()) && unchanged(Repr)
      ensures status == Ok ==> Hops() == old(WithDefault(hop)) && pool.live == old(pool.live)
      ensures status == Ok ==> (Hops() == old(Hops())[DEFAULT := hop] <==> old(Unshared(hop)))
      ensures |pool.ports| == |old(pool.ports)| && rtable == old(rtable)
      ensures tables.secSize == old(tables.secSize)
    {
      old_route := if pool.ports[0].port != DISCARD_PORT then Some(pool.ports[0].Target()) else None;
      if old_route.Some? && !allowReplace {
        return Exists, old_route;
      }
      SetDefault(hop);
      status := Ok;
    }

    // ---- letting go of a vport

    /** `s` is counted no more: the route to `p`, or when that was not counted, another at its vport, if there is one. */
    ghost predicate Drops(p: Prefix, lost: set<Prefix>, s: Prefix, kept: set<Prefix>)
      requires Routes()
      reads this, pool
    {
      && p in rtable && s in rtable && rtable[s] == rtable[p] && lost <= rtable.Keys && (p !in lost ==> s == p)
      && kept + {p} == lost + {s} && Passes(p, lost, kept, rtable)
      && (if rtable[p] in pool.live then s !in lost else p in lost && s == p)
    }

    lemma Dropped(p: Prefix, lost: set<Prefix>) returns (s: Prefix, kept: set<Prefix>)
      requires Routes() && lost <= rtable.Keys && pool.Counts(rtable - lost) && p in rtable
      ensures Drops(p, lost, s, kept)
    {
      s := p;
      if p !in lost {
        assert (rtable - lost)[p] in pool.live;
      } else if rtable[p] in pool.live {
        s := UserOf(rtable[p], lost);
      }
      kept := lost + {s} - {p};
      KeptSize(p, lost, s);
    }

    static lemma KeptSize(p: Prefix, lost: set<Prefix>, s: Prefix)
      requires p !in lost ==> s == p
      ensures var kept := lost + {s} - {p}; |kept| <= |lost| && kept + {p} == lost + {s} && (p !in lost ==> kept == lost)
    {
      var kept := lost + {s} - {p};
      if p in lost {
        assert kept == (lost - {p}) + ({s} - {p});
        assert |lost - {p}| == |lost| - 1;
      } else {
        assert kept == lost;
      }
      assert kept + {p} == lost + {s};
    }

    /** Lines 217 and 403: the route keeps its entry, but is no longer counted at its vport. */
    method LetGo(p: Prefix, ghost lost: set<Prefix>) returns (ghost kept: set<Prefix>)
      requires Routes() && lost <= rtable.Keys && pool.Counts(rtable - lost) && p in rtable
      modifies pool
      ensures Routes() && LetGone(old(Seen()), Seen(), p, lost, kept)
      ensures pool.Counts(rtable - (kept + {p})) && kept + {p} <= rtable.Keys
    {
      ghost var s;
      ghost var last := LastAt(rtable[p]);
      s, kept := Dropped(p, lost);
      DroppedWorth(p, lost, s, kept);
      Drop(p, lost, s, kept);
      LetGoes(old(Seen()), Seen(), p, lost, s, kept, last);
    }

    ghost predicate LastAt(v: nat)
      requires pool.Valid() && v < |pool.ports|
      reads pool
    {
      v in pool.live && pool.ports[v].refcount == 1
    }

    method Drop(p: Prefix, ghost lost: set<Prefix>, ghost s: Prefix, ghost kept: set<Prefix>)
      requires Routes() && pool.Counts(rtable - lost) && Drops(p, lost, s, kept)
      modifies pool
      ensures Routes() && pool.Counts(rtable - (kept + {p}))
      ensures Vacated(old(Seen()), Seen(), rtable[p], old(LastAt(rtable[p])))
    {
      DroppedCounts(p, lost, s, kept);
      pool.Unref(rtable[p], rtable - lost, s);
      HopsSame(old(Hops()));
    }

    lemma DroppedCounts(p: Prefix, lost: set<Prefix>, s: Prefix, kept: set<Prefix>)
      requires Routes() && Drops(p, lost, s, kept)
      ensures rtable - (kept + {p}) == if rtable[p] in pool.live then rtable - lost - {s} else rtable - lost
    {
      assert rtable[p] !in pool.live ==> lost + {s} == lost;
    }

    /** What a route was worth is freed: its vport is, when no other counted route is at it. */
    lemma DroppedWorth(p: Prefix, lost: set<Prefix>, s: Prefix, kept: set<Prefix>)
      requires Routes() && pool.Counts(rtable - lost) && Drops(p, lost, s, kept)
      ensures rtable[p] in pool.live && !LastAt(rtable[p]) ==> Cost(Hops() - lost, s) == 0
      ensures p !in lost ==> rtable[p] in pool.live && (LastAt(rtable[p]) <==> Seen().Alone(p, lost))
    {
      if rtable[p] in pool.live {
        OnlyUser(s, lost);
      }
    }

    static lemma LetGoes(a: View, b: View, p: Prefix, lost: set<Prefix>, s: Prefix, kept: set<Prefix>, last: bool)
      requires p in a.rt && Vacated(a, b, a.rt[p], last)
      requires Passes(p, lost, kept, a.rt) && kept + {p} == lost + {s}
      requires s in lost || last || Cost(a.t - lost, s) == 0
      requires p !in lost ==> (last <==> a.Alone(p, lost))
      ensures LetGone(a, b, p, lost, kept)
    {
      assert forall x :: x in kept + {p} - lost ==> x == s && s !in lost;
    }

    static lemma KeptApart(p: Prefix, kept: set<Prefix>)
      requires p !in kept
      ensures kept + {p} - {p} == kept
    {
    }

    // ---- adding and replacing

    /**
     * Why the route to `p` cannot be given `hop`: every vport is in use, none of them
     * for `hop`, and that of `p` by another route too; or no block is left.
     */
    ghost predicate Exhausted(p: Prefix, hop: Hop, lost: set<Prefix>)
      requires Routes()
      reads this, pool
    {
      if p in rtable then Seen().Starved(lost + {p}, hop) && !Seen().Alone(p, lost)
      else Seen().Starved(lost, hop) || Blockless(p)
    }

    /** Lines 219-364: a prefix that has no route yet. */
    method Insert(p: Prefix, hop: Hop, ghost lost: set<Prefix>) returns (status: Status)
      requires Short(lost) && Canonical(p) && p != DEFAULT && p !in rtable
      modifies Repr
      ensures Short(lost) && Inserted(old(Seen()), Seen(), p, hop, status, lost) && (status == Ok || status == NoMemory)
      ensures status == NoMemory <==> old(Exhausted(p, hop, lost))
      ensures status == NoMemory ==> |pool.ports| == VPORT_LIMIT || old(tables.secSize) == tables.secCapacity
      ensures |pool.ports| <= |old(pool.ports)| + 1 && tables.secSize <= old(tables.secSize) + 256
    {
      AbsentCounts(p, lost);
      status := Place(p, hop, false, lost + {p});
    }

    lemma AbsentCounts(p: Prefix, lost: set<Prefix>)
      requires Routes() && p !in rtable && lost <= rtable.Keys
      ensures rtable - (lost + {p}) == rtable - lost && Hops() - (lost + {p}) == Hops() - lost && lost + {p} - {p} == lost
    {
    }

    /** Lines 217 and 238-364: a replacement lets go of the old vport first. */
    method Replace(p: Prefix, hop: Hop, ghost lost: set<Prefix>)
      returns (status: Status, ghost kept: set<Prefix>, ghost mid: View)
      requires Short(lost) && Canonical(p) && p != DEFAULT && p in rtable
      modifies Repr
      ensures Short(if status == Ok then kept else kept + {p}) && (status == Ok || status == NoMemory)
      ensures Replaced(old(Seen()), mid, Seen(), p, hop, status, lost, kept)
      ensures p !in lost ==> (status == NoMemory <==> old(Exhausted(p, hop, lost)))
      ensures |pool.ports| <= |old(pool.ports)| + 1 && tables.secSize <= old(tables.secSize) + 256
    {
      kept := LetGo(p, lost);
      mid := Seen();
      KeptApart(p, kept);
      status := Place(p, hop, true, kept + {p});
    }

    /** Lines 196-241 for a route other than the default. */
    method AddOther(p: Prefix, hop: Hop, allowReplace: bool, ghost lost: set<Prefix>)
      returns (status: Status, old_route: Option<Hop>, ghost kept: set<Prefix>, ghost mid: View)
      requires Short(lost) && Canonical(p) && p != DEFAULT
      modifies Repr
      ensures Routes() && (status == Ok || status == Exists || status == NoMemory)
      ensures old_route == if p in old(rtable) then Some(old(Hops())[p]) else None
      ensures status == Exists <==> p in old(rtable) && !allowReplace
      ensures status == Exists ==> unchanged(Repr)
      ensures p !in old(rtable) ==> Short(lost) && Inserted(old(Seen()), Seen(), p, hop, status, lost)
      ensures p in old(rtable) && allowReplace ==>
        Short(if status == Ok then kept else kept + {p}) && Replaced(old(Seen()), mid, Seen(), p, hop, status, lost, kept)
      ensures p !in lost && status != Exists ==> (status == NoMemory <==> old(Exhausted(p, hop, lost)))
      ensures p !in old(rtable) && status == NoMemory ==>
        |pool.ports| == VPORT_LIMIT || old(tables.secSize) == tables.secCapacity
      ensures |pool.ports| <= |old(pool.ports)| + 1 && tables.secSize <= old(tables.secSize) + 256
    {
      kept, mid := lost, Seen();
      old_route := None;
      if p !in rtable {
        status := Insert(p, hop, lost);
        return;
      }
      old_route := Some(pool.ports[rtable[p]].Target());
      if !allowReplace {
        status := Exists;
        return;
      }
      status, kept, mid := Replace(p, hop, lost);
    }

    /** A new route cannot be placed exactly when there is no room for it. */
    lemma NoRoomForNew(p: Prefix, hop: Hop)
      requires Valid() && p !in rtable
      ensures Exhausted(p, hop, {}) <==> !Room(p, hop)
    {
      DeepKeys(p, hop);
      tables.DeepFits(rtable);
      assert Hops()[p := hop] - {p} == Hops() == Hops() - {};
    }

    /** One that is there cannot be replaced exactly when its vport is shared, and all are in use, none for the hop. */
    lemma NoRoomForOld(p: Prefix, hop: Hop)
      requires Valid() && p in rtable
      ensures Exhausted(p, hop, {})
        <==> Load() == VPORT_LIMIT && hop !in (Hops() - {p}).Values && |Users(rtable, rtable[p])| > 1
      ensures Exhausted(p, hop, {}) ==> !Room(p, hop)
    {
      AsShort();
      OnlyUser(p, {});
      assert rtable[p] in pool.live && {} + {p} == {p};
      assert Hops()[p := hop] - {p} == Hops() - {p};
    }

    /** While no two vports in use have the same next hop, the routes tell whether one can be placed. */
    lemma ExhaustedIsLacks(p: Prefix, hop: Hop)
      requires Valid() && Merged(Seen(), {})
      ensures Exhausted(p, hop, {}) <==> Lacks(Hops(), p, hop, tables.secCapacity)
    {
      LoadIsHops();
      AsShort();
      SeenSound({});
      StarvedIsLacks(Seen(), p, hop, tables.secCapacity);
    }

    static lemma StarvedIsLacks(v: View, p: Prefix, hop: Hop, capacity: nat)
      requires Coherent(v) && Merged(v, {}) && |v.live| == |v.t.Values|
      ensures p in v.rt ==> (v.Starved({} + {p}, hop) && !v.Alone(p, {}) <==> Lacks(v.t, p, hop, capacity))
      ensures p !in v.rt ==>
        (v.Starved({}, hop) || (p.len > 24 && 256 * |Deep(v.rt) + {First(p)}| > capacity)
         <==> Lacks(v.t, p, hop, capacity))
    {
      assert {} + {p} == {p} && v.t - {} == v.t;
      if p in v.rt {
        AloneIsOwn(v, p);
      } else {
        assert Deep(v.t) == Deep(v.rt);
      }
    }

    static lemma AloneIsOwn(v: View, p: Prefix)
      requires Coherent(v) && Merged(v, {}) && p in v.t
      ensures v.Alone(p, {}) <==> v.t[p] !in (v.t - {p}).Values
    {
      if v.t[p] in (v.t - {p}).Values {
        var q :| q in v.t - {p} && (v.t - {p})[q] == v.t[p];
        assert v.rt[q] == v.rt[p];
      }
      if !v.Alone(p, {}) {
        var q :| q in v.rt && q != p && v.rt[q] == v.rt[p];
        assert (v.t - {p})[q] == v.t[p];
      }
    }

    /** The refcount of a replaced route's vport is one too low after a failed replace. */
    lemma Undercounted(p: Prefix)
      requires Routes() && p in rtable && pool.Counts(rtable - {p})
      ensures !pool.Counts(rtable)
    {
      if rtable[p] in pool.live {
        UsersRemove(rtable, p, rtable[p]);
      }
    }

    /** Lines 196-241 while every route is counted. */
    method AddCounted(p: Prefix, hop: Hop, allowReplace: bool) returns (status: Status, old_route: Option<Hop>)
      requires Valid() && Canonical(p) && p != DEFAULT
      modifies Repr
      ensures Routes() && (status == Ok || status == Exists || status == NoMemory)
      ensures old_route == if p in old(rtable) then Some(old(Hops())[p]) else None
      ensures status == Exists <==> p in old(rtable) && !allowReplace
      ensures status == Exists ==> unchanged(Repr)
      ensures status == NoMemory <==> status != Exists && old(Exhausted(p, hop, {}))
      ensures status == Ok ==> Valid() && Added(old(Seen()), Seen(), p, hop)
      ensures status == NoMemory ==> AsBefore(old(Seen()), Seen()) && Short(if p in rtable then {p} else {})
      ensures status == NoMemory ==> (Valid() <==> p !in rtable)
      ensures status == NoMemory && p !in rtable ==> |pool.ports| == VPORT_LIMIT || old(tables.secSize) == tables.secCapacity
      ensures |pool.ports| <= |old(pool.ports)| + 1 && tables.secSize <= old(tables.secSize) + 256
    {
      ghost var kept, mid;
      AsShort();
      status, old_route, kept, mid := AddOther(p, hop, allowReplace, {});
      AsShort();
      if status != Exists {
        Counted(old(Seen()), mid, Seen(), p, hop, status, kept);
      }
      if status == NoMemory && p in rtable {
        Undercounted(p);
      }
    }

    static lemma Counted(a: View, b: View, c: View, p: Prefix, hop: Hop, status: Status, kept: set<Prefix>)
      requires a.rt.Keys == a.t.Keys && |a.live| <= VPORT_LIMIT && (status == Ok || status == NoMemory)
      requires if p in a.rt then Replaced(a, b, c, p, hop, status, {}, kept) else Inserted(a, c, p, hop, status, {})
      ensures p in a.rt ==> kept == {} && kept + {p} == {p}
      ensures if status == Ok then Added(a, c, p, hop) else AsBefore(a, c)
    {
      assert {} + {p} == {p} && a.t - {} == a.t;
      if p in a.rt {
        assert p in {} + {p} - {};
        if status == Ok {
          PlacedCounted(b, c, p, hop);
        }
      } else if status == Ok {
        PlacedCounted(a, c, p, hop);
      }
    }

    static lemma PlacedCounted(a: View, c: View, p: Prefix, hop: Hop)
      requires Placed(a, c, p, hop, {p}) && a.rt.Keys == a.t.Keys
      ensures c.t == a.t[p := hop] && |c.live| == |a.live| + Cost(c.t, p)
    {
      assert c.t - {p} == a.t - {p};
    }

    /** Lines 190-365. */
    method AddRoute(p: Prefix, hop: Hop, allowReplace: bool) returns (status: Status, old_route: Option<Hop>)
      requires Valid() && Canonical(p)
      modifies Repr
      ensures Routes() && (status == Ok || status == Exists || status == NoMemory)
      // the route being replaced, for a later rollback
      ensures old_route == if old(Listed(p)) then Some(old(Hops())[p]) else None
      ensures status == Exists <==> old(Listed(p)) && !allowReplace
      ensures status == Exists ==> Valid() && unchanged(Repr)
      // any other route is added or replaced, and only it
      ensures status == Ok && p != DEFAULT ==> Valid() && Added(old(Seen()), Seen(), p, hop)
      // the default route drags along whatever shares its vport: see `AddDefault`
      ensures status == Ok && p == DEFAULT ==> Valid() && Hops() == old(WithDefault(hop)) && rtable == old(rtable)
      ensures status == Ok && p == DEFAULT ==> pool.live == old(pool.live)
      // it fails exactly when there is nothing to place it by; a replacement has by then let go of the old vport
      ensures status == NoMemory <==> p != DEFAULT && status != Exists && old(Exhausted(p, hop, {}))
      ensures status == NoMemory ==> AsBefore(old(Seen()), Seen()) && Short(if p in rtable then {p} else {})
      ensures status == NoMemory ==> (Valid() <==> p !in rtable)
      ensures status == NoMemory && p !in rtable ==> |pool.ports| == VPORT_LIMIT || old(tables.secSize) == tables.secCapacity
      ensures |pool.ports| <= |old(pool.ports)| + 1 && tables.secSize <= old(tables.secSize) + 256
    {
      if p == DEFAULT {
        status, old_route := AddDefault(hop, allowReplace);
      } else {
        status, old_route := AddCounted(p, hop, allowReplace);
      }
    }

    /** `find_entry` succeeds; vport 0 with the discard port is no default route. */
    ghost predicate Listed(p: Prefix)
      requires Routes()
      reads this, pool
    {
      p in rtable && (p == DEFAULT ==> pool.ports[0].port != DISCARD_PORT)
    }

    /** Lines 415-425: the longest route strictly covering `p`; the default always does. */
    method FindCover(p: Prefix) returns (m: nat)
      requires Routes() && Canonical(p) && p.len > 0
      ensures Cover(rtable, p, m)
    {
      m := p.len - 1;
      while m > 0 && At(p.addr, m) !in rtable
        invariant m < p.len && forall l :: m < l < p.len ==> At(p.addr, l) !in rtable
      {
        m := m - 1;
      }
      if m == 0 {
        AtZero(p.addr);
      }
    }

    lemma NotZero(p: Prefix)
      requires Canonical(p) && p != DEFAULT
      ensures p.len > 0
    {
      if p.len == 0 {
        AtZero(p.addr);
      }
    }

    /** Lines 415-482: the tables give the route's addresses back to its cover. */
    method Withdraw(p: Prefix, ghost before: map<Prefix, nat>)
      requires Routes() && Canonical(p) && p.len > 0 && p in before && rtable == before - {p}
      requires tables.Valid(before)
      modifies Repr - {this, pool}
      ensures tables.ValidBut(rtable) && tables.CollapsedIs(rtable, p)
      ensures tables.Valid(rtable) <==> TiledSkipped(rtable, p)
    {
      var m := FindCover(p);
      var ok := tables.RemoveWalk(p, m, rtable[At(p.addr, m)], Edit(p, before, rtable));
    }

    /** Lines 399-413: the entry and its vport. */
    method Erase(p: Prefix, ghost lost: set<Prefix>) returns (ghost kept: set<Prefix>)
      requires Routes() && lost <= rtable.Keys && pool.Counts(rtable - lost) && p != DEFAULT && p in rtable
      modifies this, pool
      ensures Routes() && kept <= rtable.Keys && pool.Counts(rtable - kept) && Erased(old(Seen()), Seen(), p, lost, kept)
    {
      kept := LetGo(p, lost);
      rtable := rtable - {p};
      HopsSame(old(Hops()) - {p});
      assert rtable - kept == old(rtable) - (kept + {p});
    }

    /** Lines 395-483. */
    method TakeOut(p: Prefix, ghost lost: set<Prefix>) returns (ghost kept: set<Prefix>)
      requires Short(lost) && Canonical(p) && p != DEFAULT && p in rtable
      modifies Repr
      ensures Routes() && kept <= rtable.Keys && pool.Counts(rtable - kept) && Erased(old(Seen()), Seen(), p, lost, kept)
      ensures tables.ValidBut(rtable) && tables.CollapsedIs(rtable, p) && (tables.Valid(rtable) <==> TiledSkipped(rtable, p))
    {
      NotZero(p);
      ghost var before := rtable;
      kept := Erase(p, lost);
      Withdraw(p, before);
    }

    /** Lines 367-485 for a route other than the default. */
    method RemoveOther(p: Prefix, hop: Hop, ghost lost: set<Prefix>)
      returns (status: Status, old_route: Option<Hop>, ghost kept: set<Prefix>)
      requires Short(lost) && Canonical(p) && p != DEFAULT
      modifies Repr
      ensures Routes() && (status == Ok || status == NoEntry)
      ensures status == Ok <==> p in old(rtable) && (hop.port < 0 || hop == old(Hops())[p])
      ensures old_route == if status == Ok then Some(old(Hops())[p]) else None
      ensures status == NoEntry ==> unchanged(Repr) && kept == lost
      ensures status == Ok ==>
        kept <= rtable.Keys && pool.Counts(rtable - kept) && Erased(old(Seen()), Seen(), p, lost, kept)
      ensures status == Ok ==>
        tables.ValidBut(rtable) && tables.CollapsedIs(rtable, p) && (tables.Valid(rtable) <==> TiledSkipped(rtable, p))
    {
      kept := lost;
      if p !in rtable {
        return NoEntry, None, kept;
      }
      var found := pool.ports[rtable[p]].Target();
      if !(hop.port < 0 || hop == found) {
        return NoEntry, None, kept;
      }
      kept := TakeOut(p, lost);
      return Ok, Some(found), kept;
    }

    /** Lines 367-485 while every route is counted. */
    method RemoveCounted(p: Prefix, hop: Hop) returns (status: Status, old_route: Option<Hop>)
      requires Valid() && Canonical(p) && p != DEFAULT
      modifies Repr
      ensures Routes() && (status == Ok || status == NoEntry)
      ensures status == Ok <==> p in old(rtable) && (hop.port < 0 || hop == old(Hops())[p])
      ensures old_route == if status == Ok then Some(old(Hops())[p]) else None
      ensures status == NoEntry ==> unchanged(Repr)
      ensures status == Ok ==> ValidBut() && tables.CollapsedIs(rtable, p) && (Valid() <==> TiledSkipped(rtable, p))
      ensures status == Ok ==> Gone(old(Seen()), Seen(), p)
    {
      ghost var kept;
      AsShort();
      status, old_route, kept := RemoveOther(p, hop, {});
      if status == Ok {
        AsShort();
        GoneCounted(old(Seen()), Seen(), p, kept);
      }
    }

    static lemma GoneCounted(a: View, c: View, p: Prefix, kept: set<Prefix>)
      requires p in a.rt && Erased(a, c, p, {}, kept)
      ensures Gone(a, c, p) && kept == {}
    {
      assert a.t - {} == a.t && p in kept + {p} - {};
    }

    /** Lines 367-393 for the default route, which is pointed at the discard port. */
    method RemoveDefault(hop: Hop) returns (status: Status, old_route: Option<Hop>)
      requires Valid()
      modifies pool
      ensures Valid() && (status == Ok || status == NoEntry)
      ensures status == Ok <==> old(Listed(DEFAULT)) && (hop.port < 0 || hop == old(Hops())[DEFAULT])
      ensures old_route == if status == Ok then Some(old(Hops())[DEFAULT]) else None
      ensures status == NoEntry ==> Hops() == old(Hops()) && unchanged(Repr)
      ensures status == Ok ==> Hops() == old(WithDefault(Hop(Hops()[DEFAULT].gw, DISCARD_PORT)))
    {
      var found := pool.ports[0].Target();
      if found.port == DISCARD_PORT || !(hop.port < 0 || hop == found) {
        return NoEntry, None;
      }
      SetDefault(Hop(found.gw, DISCARD_PORT));
      return Ok, Some(found);
    }

    /** Lines 367-485. A negative port in the request matches any route to the prefix. */
    method RemoveRoute(p: Prefix, hop: Hop) returns (status: Status, old_route: Option<Hop>)
      requires Valid() && Canonical(p)
      modifies Repr
      ensures Routes() && (status == Ok || status == NoEntry)
      ensures status == Ok <==> old(Listed(p)) && (hop.port < 0 || hop == old(Hops())[p])
      ensures old_route == if status == Ok then Some(old(Hops())[p]) else None
      ensures status == NoEntry ==> Valid() && Hops() == old(Hops()) && unchanged(Repr)
      // any other route is removed; see `AnswersAllLongest` for the /24s of `bad`
      ensures status == Ok && p != DEFAULT ==>
        ValidBut() && tables.CollapsedIs(rtable, p) && (Valid() <==> TiledSkipped(rtable, p))
      ensures status == Ok && p != DEFAULT ==> Gone(old(Seen()), Seen(), p)
      // the default route is pointed at the discard port, and all that share its vport with it
      ensures status == Ok && p == DEFAULT ==>
        Valid() && Hops() == old(WithDefault(Hop(Hops()[DEFAULT].gw, DISCARD_PORT)))
    {
      if p == DEFAULT {
        status, old_route := RemoveDefault(hop);
      } else {
        status, old_route := RemoveCounted(p, hop);
      }
    }
  }
}
