/**
 * Two runs of `DirectTable` that end with an answer no one asked for: a default
 * route that drags another along, and a removal that collapses a /24.
 */
module DirectFaults {
  import opened Powers
  import opened Prefixes
  import opened DirectTables
  import opened RouteViews
  import opened DirectLookups
  import opened Results

  const NET8 := Prefix(0x0A00_0000, 8)       // 10.0.0.0/8
  const LOW25 := Prefix(0x0A00_0000, 25)     // 10.0.0.0/25
  const HIGH25 := Prefix(0x0A00_0080, 25)    // 10.0.0.128/25
  const LOW26 := Prefix(0x0A00_0000, 26)     // 10.0.0.0/26

  /** 10.0.0.0 is a multiple of 2^24, so of every smaller power. */
  lemma NetCanonical()
    ensures Canonical(NET8)
  {
    Literals();
    ClearMod(0x0A00_0000, 24);
    DivUnique(0x0A00_0000, SLOTS, 10, 0);
  }

  lemma DefaultCanonical()
    ensures Canonical(DEFAULT)
  {
    ClearMod(0, 32);
    DivUnique(0, Pow2(32), 0, 0);
  }

  /** A new route that there is room for. */
  method AddNew(t: DirectTable, p: Prefix, hop: Hop)
    requires t.Valid() && Canonical(p) && p !in t.rtable
    requires |t.pool.ports| < 100 && t.tables.secSize < t.tables.secCapacity
    modifies t.Repr
    ensures t.Valid() && t.Hops() == old(t.Hops())[p := hop]
    ensures |t.pool.ports| <= |old(t.pool.ports)| + 1 && t.tables.secSize <= old(t.tables.secSize) + 256
    ensures p in t.rtable && (old(t.pool.live) == [0] && old(t.Hops())[DEFAULT] == hop ==> t.rtable[p] == 0)
  {
    ghost var a := t.Seen();
    var s, old_route := t.AddRoute(p, hop, false);
    SharesDefault(a, t.Seen(), p, hop);
  }

  /** With vport 0 alone in use, a route with the default's hop is given it. */
  lemma SharesDefault(a: View, c: View, p: Prefix, hop: Hop)
    requires Added(a, c, p, hop) && p !in a.rt && DEFAULT in a.t && p != DEFAULT
    ensures a.live == [0] && a.t[DEFAULT] == hop ==> c.rt[p] == 0
  {
    assert (a.t - {p})[DEFAULT] == a.t[DEFAULT];
  }

  method DefaultOnly() returns (t: DirectTable)
    ensures t.Valid() && fresh(t.Repr) && |t.pool.ports| <= 2 && t.tables.secSize + 1024 <= t.tables.secCapacity
    ensures t.Hops() == map[DEFAULT := Hop(1, 0)] && t.pool.live == [0]
  {
    DefaultCanonical();
    t := new DirectTable(16);
    var s, old_route := t.AddRoute(DEFAULT, Hop(1, 0), true);
  }

  /** A default route, and a /8 that shares its next hop and so its vport. */
  method DefaultAndNet() returns (t: DirectTable)
    ensures t.Valid() && fresh(t.Repr)
    ensures t.rtable == map[DEFAULT := 0, NET8 := 0]
    ensures t.Hops() == map[DEFAULT := Hop(1, 0), NET8 := Hop(1, 0)]
  {
    NetCanonical();
    t := DefaultOnly();
    assert t.rtable.Keys == t.Hops().Keys;
    AddNew(t, NET8, Hop(1, 0));
    BothAtZero(t);
  }

  lemma BothAtZero(t: DirectTable)
    requires t.Valid() && t.Hops().Keys == {DEFAULT, NET8} && NET8 in t.rtable && t.rtable[NET8] == 0
    ensures t.rtable == map[DEFAULT := 0, NET8 := 0]
  {
    assert t.rtable.Keys == t.Hops().Keys;
  }

  /** Replacing that default route reroutes the /8. */
  method DefaultDragsAlong() returns (t: DirectTable)
    ensures t.Valid() && t.Hops() == map[DEFAULT := Hop(2, 1), NET8 := Hop(2, 1)]
  {
    DefaultCanonical();
    t := DefaultAndNet();
    assert t.WithDefault(Hop(2, 1)) == map[DEFAULT := Hop(2, 1), NET8 := Hop(2, 1)];
    var s, old_route := t.AddRoute(DEFAULT, Hop(2, 1), true);
  }

  const TILED24 := 0x0A_0000       // 10.0.0.0/24, as a /24 index

  lemma TilesCanonical()
    ensures Canonical(LOW25) && Canonical(HIGH25) && Canonical(LOW26)
    ensures First(LOW26) == TILED24 && Span(LOW26) == 1
  {
    assert Pow2(7) == 128 && Pow2(6) == 64;
    ClearMod(0x0A00_0000, 7);
    ClearMod(0x0A00_0080, 7);
    ClearMod(0x0A00_0000, 6);
  }

  /** Two /25s with different next hops tile 10.0.0.0/24. */
  lemma TwoTiles<V>(t: map<Prefix, V>)
    requires t.Keys == {DEFAULT, LOW25, HIGH25}
    ensures Tiled(t, TILED24, 25)
  {
    assert Pow2(7) == 128;
    forall j | 0 <= j < 256
      ensures Longest(t, Addr(TILED24, j), 25)
    {
      ClearMod(Addr(TILED24, j), 7);
      assert At(Addr(TILED24, j), 25) == if j < 128 then LOW25 else HIGH25;
    }
  }

  method OneRoute() returns (t: DirectTable)
    ensures t.Valid() && fresh(t.Repr) && |t.pool.ports| <= 2 && t.tables.secSize <= 256 && t.tables.secCapacity >= 1024
    ensures t.Hops() == map[DEFAULT := Hop(0, -1), LOW25 := Hop(1, 1)]
  {
    TilesCanonical();
    t := new DirectTable(16);
    assert t.rtable.Keys == t.Hops().Keys;
    AddNew(t, LOW25, Hop(1, 1));
  }

  method TwoRoutes() returns (t: DirectTable)
    ensures t.Valid() && fresh(t.Repr) && |t.pool.ports| <= 3 && t.tables.secSize <= 512 && t.tables.secCapacity >= 1024
    ensures t.Hops() == map[DEFAULT := Hop(0, -1), LOW25 := Hop(1, 1), HIGH25 := Hop(2, 2)]
  {
    TilesCanonical();
    t := OneRoute();
    assert t.rtable.Keys == t.Hops().Keys;
    AddNew(t, HIGH25, Hop(2, 2));
  }

  method ThreeRoutes() returns (t: DirectTable)
    ensures t.Valid() && fresh(t.Repr)
    ensures t.Hops() == map[DEFAULT := Hop(0, -1), LOW25 := Hop(1, 1), HIGH25 := Hop(2, 2), LOW26 := Hop(3, 3)]
  {
    TilesCanonical();
    t := TwoRoutes();
    assert t.rtable.Keys == t.Hops().Keys;
    AddNew(t, LOW26, Hop(3, 3));
  }

  /**
   * Removing 10.0.0.0/26 from under two /25s leaves a /24 of one prefix
   * length; it is collapsed, and 10.0.0.200 is answered with the wrong /25.
   */
  method RemovalCollapses() returns (t: DirectTable)
    ensures t.ValidBut() && !t.Valid()
    ensures t.Hops() == map[DEFAULT := Hop(0, -1), LOW25 := Hop(1, 1), HIGH25 := Hop(2, 2)]
    ensures t.Answer(Addr(TILED24, 200)) == Hop(1, 1) && !t.AnswersLongest(Addr(TILED24, 200))
  {
    TilesCanonical();
    t := ThreeRoutes();
    RemoveLow(t);
    Misanswered(t);
  }

  /** The table without 10.0.0.0/26, and the tiling its absence shows. */
  lemma Without(t: DirectTable)
    requires t.Valid()
    requires t.Hops() == map[DEFAULT := Hop(0, -1), LOW25 := Hop(1, 1), HIGH25 := Hop(2, 2), LOW26 := Hop(3, 3)]
    ensures t.Listed(LOW26) && AnyTiled(t.rtable - {LOW26}, TILED24)
    ensures t.Hops() - {LOW26} == map[DEFAULT := Hop(0, -1), LOW25 := Hop(1, 1), HIGH25 := Hop(2, 2)]
  {
    assert t.rtable.Keys == t.Hops().Keys;
    assert (t.rtable - {LOW26}).Keys == {DEFAULT, LOW25, HIGH25};
    TwoTiles(t.rtable - {LOW26});
  }

  method RemoveLow(t: DirectTable)
    requires t.Valid()
    requires t.Hops() == map[DEFAULT := Hop(0, -1), LOW25 := Hop(1, 1), HIGH25 := Hop(2, 2), LOW26 := Hop(3, 3)]
    modifies t.Repr
    ensures t.ValidBut() && !t.Valid() && t.tables.bad == {TILED24}
    ensures t.Hops() == map[DEFAULT := Hop(0, -1), LOW25 := Hop(1, 1), HIGH25 := Hop(2, 2)]
  {
    TilesCanonical();
    Without(t);
    var s, old_route := t.RemoveRoute(LOW26, Hop(0, -1));
    assert !TiledSkipped(t.rtable, LOW26);
    assert forall k :: k in t.tables.bad <==> k == TILED24;
    assert t.tables.bad == {TILED24};
  }

  lemma Misanswered(t: DirectTable)
    requires t.ValidBut() && t.tables.bad == {TILED24}
    requires t.Hops() == map[DEFAULT := Hop(0, -1), LOW25 := Hop(1, 1), HIGH25 := Hop(2, 2)]
    ensures t.Answer(Addr(TILED24, 200)) == Hop(1, 1) && !t.AnswersLongest(Addr(TILED24, 200))
  {
    var a := Addr(TILED24, 200);
    assert t.rtable.Keys == t.Hops().Keys;
    assert t.tables.Collapsed(t.rtable, TILED24);
    assert Longest(t.rtable, Addr(TILED24, 0), t.tables.tblPlen[TILED24]);
    TwoTiles(t.rtable);
    assert Longest(t.rtable, Addr(TILED24, 0), 25);
    ClearMod(a, 7);
    ClearMod(Addr(TILED24, 0), 7);
    assert Pow2(7) == 128;
    assert t.Tile(TILED24, 200) == HIGH25 && t.FirstTile(TILED24) == LOW25;
    t.TileIsLongest(a);
  }
}
