/**
 * DIR-24-8 tables of many routes: so many /24s, each with a next hop and so a
 * vport of its own; and every other /24 with the same one.
 */
module ManyRoutes {
  import opened Powers
  import opened Prefixes
  import opened VportPools
  import opened DirectTables
  import opened RouteViews
  import opened DirectLookups
  import opened Results

  /** The `i`th /24, with a next hop no other has. */
  function Net(i: nat): Prefix { Prefix(256 * i, 24) }

  function Own(i: nat): Hop { Hop(i, i) }

  ghost function Routes(n: nat): map<Prefix, Hop> {
    if n == 0 then map[DEFAULT := Hop(0, DISCARD_PORT)] else Routes(n - 1)[Net(n - 1) := Own(n - 1)]
  }

  lemma {:induction false} RoutesAre(n: nat, p: Prefix)
    ensures p in Routes(n) <==> p == DEFAULT || (p.len == 24 && p.addr % 256 == 0 && p.addr / 256 < n)
    ensures p.len == 24 && p in Routes(n) ==> Routes(n)[p] == Own(p.addr / 256)
  {
    if n > 0 {
      RoutesAre(n - 1, p);
      assert p.len == 24 && p.addr % 256 == 0 && p.addr / 256 == n - 1 ==> p == Net(n - 1);
    }
  }

  lemma NetCanonical(i: nat, a: nat)
    requires i < SLOTS
    ensures Canonical(Net(i)) && (At(a, 24) == Prefix(256 * (a / 256), 24))
  {
    assert Pow2(8) == 256;
    ClearMod(256 * i, 8);
    ClearMod(a, 8);
  }

  ghost function Owned(n: nat): set<Hop> {
    set i | 0 <= i < n :: Own(i)
  }

  lemma {:induction false} OwnedSize(n: nat)
    ensures |Owned(n)| == n
  {
    if n == 0 {
      assert Owned(0) == {};
    } else {
      OwnedSize(n - 1);
      assert Owned(n) == Owned(n - 1) + {Own(n - 1)};
    }
  }

  lemma NothingDeep(n: nat)
    ensures Deep(Routes(n)) == {}
  {
    forall p | p in Routes(n)
      ensures p.len <= 24
    {
      RoutesAre(n, p);
    }
  }

  /** The table holds the first `n`, and has made no more vports than it needs. */
  ghost predicate Filled(t: DirectTable, n: nat)
    reads t, t.Repr
  {
    t.Valid() && t.Hops() == Routes(n) && |t.pool.ports| <= n + 1 && Merged(t.Seen(), {})
  }

  /** One route more: it does not run out of vports. */
  method AddOne(t: DirectTable, i: nat)
    requires Filled(t, i) && i + 1 < VPORT_LIMIT
    modifies t.Repr
    ensures Filled(t, i + 1)
  {
    RoomForOne(t, i);
    ghost var a := t.Seen();
    var s, old_route := t.AddRoute(Net(i), Own(i), false);
    t.SeenCoherent();
    AddedMoves(a, t.Seen(), Net(i), Own(i));
  }

  lemma RoomForOne(t: DirectTable, i: nat)
    requires Filled(t, i) && i + 1 < VPORT_LIMIT
    ensures Canonical(Net(i)) && Net(i) != DEFAULT && Net(i) !in t.rtable && !t.Exhausted(Net(i), Own(i), {})
    ensures Coherent(t.Seen())
  {
    NetCanonical(i, 0);
    RoutesAre(i, Net(i));
    NothingDeep(i + 1);
    assert t.rtable.Keys == t.Hops().Keys;
    t.NoRoomForNew(Net(i), Own(i));
    t.SeenCoherent();
  }

  method Fill(t: DirectTable, n: nat)
    requires Filled(t, 0) && n < VPORT_LIMIT
    modifies t.Repr
    ensures Filled(t, n)
  {
    if n > 0 {
      Fill(t, n - 1);
      AddOne(t, n - 1);
    }
  }

  // ---- every other /24

  const WIDE := 0x2_0001

  const SAME := Hop(1, 1)

  /** Every other /24, all with one next hop. */
  ghost function Spread(n: nat): map<Prefix, Hop> {
    if n == 0 then map[DEFAULT := Hop(0, DISCARD_PORT)] else Spread(n - 1)[Net(2 * (n - 1)) := SAME]
  }

  lemma {:induction false} SpreadIs(n: nat, p: Prefix)
    ensures p in Spread(n) <==> p == DEFAULT || (p.len == 24 && p.addr % 512 == 0 && p.addr / 512 < n)
    ensures p in Spread(n) ==> Spread(n)[p] == if p == DEFAULT then Hop(0, DISCARD_PORT) else SAME
  {
    if n > 0 {
      SpreadIs(n - 1, p);
      assert p.len == 24 && p.addr % 512 == 0 && p.addr / 512 == n - 1 ==> p == Net(2 * (n - 1));
    }
  }

  ghost predicate Spreading(t: DirectTable, n: nat)
    reads t, t.Repr
  {
    t.Valid() && t.Hops() == Spread(n) && Merged(t.Seen(), {})
  }

  lemma RoomToSpread(t: DirectTable, i: nat)
    requires Spreading(t, i) && i < WIDE
    ensures Canonical(Net(2 * i)) && Net(2 * i) != DEFAULT && Net(2 * i) !in t.rtable && !t.Exhausted(Net(2 * i), SAME, {})
    ensures Coherent(t.Seen())
  {
    NetCanonical(2 * i, 0);
    SpreadIs(i, Net(2 * i));
    assert t.rtable.Keys == t.Hops().Keys;
    FewHops(i);
    t.ExhaustedIsLacks(Net(2 * i), SAME);
    t.SeenCoherent();
  }

  lemma FewHops(n: nat)
    ensures |Spread(n).Values| <= 2
  {
    forall h | h in Spread(n).Values
      ensures h in {Hop(0, DISCARD_PORT), SAME}
    {
      var p :| p in Spread(n) && Spread(n)[p] == h;
      SpreadIs(n, p);
    }
    Subset(Spread(n).Values, {Hop(0, DISCARD_PORT), SAME});
  }

  lemma Subset(a: set<Hop>, b: set<Hop>)
    requires a <= b
    ensures |a| <= |b|
  {
    assert b == a + (b - a);
  }

  method SpreadOut(t: DirectTable, n: nat)
    requires Spreading(t, 0) && n <= WIDE
    modifies t.Repr
    ensures Spreading(t, n)
  {
    if n > 0 {
      SpreadOut(t, n - 1);
      SpreadOne(t, n - 1);
    }
  }

  method SpreadOne(t: DirectTable, i: nat)
    requires Spreading(t, i) && i < WIDE
    modifies t.Repr
    ensures Spreading(t, i + 1)
  {
    RoomToSpread(t, i);
    ghost var a := t.Seen();
    var s, old_route := t.AddRoute(Net(2 * i), SAME, false);
    t.SeenCoherent();
    AddedMoves(a, t.Seen(), Net(2 * i), SAME);
  }
}
