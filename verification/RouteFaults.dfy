/**
 * A batch on a DIR-24-8 table with all its vports in use that fails for want of
 * one, and once undone has left a route with the next hop of another
 * (bfclick/ip/iproutetable.cc:221-268, bfclick/ip/directiplookup.cc:216-241).
 */
module RouteFaults {
  import opened Prefixes
  import opened VportPools
  import opened RouteViews
  import opened DirectLookups
  import opened ManyRoutes
  import opened RouteUndo
  import opened RouteCommands
  import opened RouteTables
  import opened RouteBatches
  import opened Results

  const FULL := VPORT_LIMIT - 1

  const P := Net(0)
  const R := Net(1)
  const Q := Net(FULL)
  const X := Net(FULL + 1)

  /**
   * A route is removed, another added with the hop of `P`, and a third with a new
   * one; the hop then asked for `P` finds no vport.
   */
  const BATCH: seq<Command> := [Remove(R, Own(1)), Add(Q, Own(0)), Add(X, Own(FULL)), Set(P, Own(FULL + 1))]

  ghost const T0: Table := Routes(FULL)
  ghost const T1: Table := T0 - {R}
  ghost const T2: Table := T1[Q := Own(0)]
  ghost const T3: Table := T2[X := Own(FULL)]

  /** The routes of the full table: only `P` has its hop, and only `R` its own. */
  lemma Start()
    ensures P in T0 && T0[P] == Own(0) && R in T0 && T0[R] == Own(1) && Q !in T0 && X !in T0
    ensures forall p <- T0 :: p.len <= 24 && (T0[p] == Own(0) ==> p == P) && (T0[p] == Own(1) ==> p == R)
    ensures forall p <- T0 :: T0[p] != Own(FULL) && T0[p] != Own(FULL + 1) && (p != DEFAULT ==> T0[p].port >= 0)
  {
    RoutesAre(FULL, P);
    RoutesAre(FULL, R);
    RoutesAre(FULL, Q);
    RoutesAre(FULL, X);
    DefaultIs(FULL);
    forall p | p in T0
      ensures p == DEFAULT || (p.len == 24 && p == Net(p.addr / 256) && T0[p] == Own(p.addr / 256) && p.addr / 256 < FULL)
    {
      RoutesAre(FULL, p);
    }
  }

  lemma {:induction false} DefaultIs(n: nat)
    ensures DEFAULT in Routes(n) && Routes(n)[DEFAULT] == Hop(0, DISCARD_PORT)
  {
    if n > 0 {
      DefaultIs(n - 1);
    }
  }

  lemma {:induction false} ValuesAre(n: nat)
    ensures |Routes(n).Values| == n + 1 && forall h <- Routes(n).Values :: h == Hop(0, DISCARD_PORT) || h.gw < n
  {
    if n == 0 {
      assert Routes(0).Values == {Hop(0, DISCARD_PORT)};
    } else {
      ValuesAre(n - 1);
      RoutesAre(n - 1, Net(n - 1));
      ValuesOf(Routes(n - 1), Net(n - 1), Own(n - 1));
      assert Own(n - 1) !in Routes(n - 1).Values;
    }
  }

  lemma ValuesOf(t: Table, p: Prefix, hop: Hop)
    requires p !in t
    ensures t[p := hop].Values == t.Values + {hop}
  {
    forall h | h in t.Values + {hop}
      ensures h in t[p := hop].Values
    {
      if h == hop {
        assert t[p := hop][p] == hop;
      } else {
        var q :| q in t && t[q] == h;
        assert t[p := hop][q] == h;
      }
    }
  }

  /** The hops before each command. */
  lemma Hops()
    ensures |T0.Values| == VPORT_LIMIT
    ensures T1.Values == T0.Values - {Own(1)} && |T1.Values| == VPORT_LIMIT - 1
    ensures T2.Values == T1.Values && T3.Values == T1.Values + {Own(FULL)} && |T3.Values| == VPORT_LIMIT
  {
    Start();
    ValuesAre(FULL);
    assert T0 == T1[R := Own(1)];
    ValuesOf(T1, R, Own(1));
    assert Own(1) !in T1.Values;
    assert T1[P] == Own(0);
    ValuesOf(T1, Q, Own(0));
    ValuesOf(T2, X, Own(FULL));
    assert Own(FULL) !in T0.Values;
  }

  lemma Distinct4()
    ensures P != R && P != Q && P != X && R != Q && R != X && Q != X
    ensures P.len == R.len == Q.len == X.len == 24
    ensures P != DEFAULT && R != DEFAULT && Q != DEFAULT && X != DEFAULT
    ensures Canonical(P) && Canonical(R) && Canonical(Q) && Canonical(X)
  {
    NetCanonical(0, 0);
    NetCanonical(1, 0);
    NetCanonical(FULL, 0);
    NetCanonical(FULL + 1, 0);
  }

  /** The first three commands succeed. */
  lemma Run()
    ensures Batch(T0, BATCH[..0]) == Some(T0) && Batch(T0, BATCH[..1]) == Some(T1)
    ensures Batch(T0, BATCH[..2]) == Some(T2) && Batch(T0, BATCH[..3]) == Some(T3)
    ensures Effect(T0, BATCH[0]).Some? && Effect(T1, BATCH[1]).Some? && Effect(T2, BATCH[2]).Some? && Effect(T3, BATCH[3]).Some?
  {
    Start();
    Distinct4();
    assert BATCH[..0] == [];
    BatchPrefix(T0, BATCH, 0, T0);
    BatchPrefix(T0, BATCH, 1, T1);
    BatchPrefix(T0, BATCH, 2, T2);
  }

  /** There are vports for them, and none for the fourth. */
  lemma Lack(e: Element)
    requires e.Direct?
    ensures !Lacking(e, T0, BATCH[0]) && !Lacking(e, T1, BATCH[1]) && !Lacking(e, T2, BATCH[2])
    ensures Lacking(e, T3, BATCH[3]) && BATCH[3].p in T3
  {
    Start();
    Distinct4();
    Hops();
    Run();
    assert (T3 - {P})[Q] == T3[P] == Own(0);
    assert Own(FULL + 1) !in T3.Values;
  }

  /** With the addition of `Q` undone the vport of `P` has no route that counts, and with the removal of `R` it is given away. */
  lemma Away()
    ensures Course(T0, BATCH, 3, P, 0) == InUse(Own(1))
  {
    Start();
    Distinct4();
    Run();
    assert Course(T0, BATCH, 3, P, 3) == InUse(Own(0));
    AwayX();
    AwayQ();
    AwayR();
  }

  lemma AwayX()
    requires Course(T0, BATCH, 3, P, 3) == InUse(Own(0))
    ensures Course(T0, BATCH, 3, P, 2) == InUse(Own(0))
  {
    Run();
    Distinct4();
    Start();
  }

  lemma AwayQ()
    requires Course(T0, BATCH, 3, P, 2) == InUse(Own(0))
    ensures Course(T0, BATCH, 3, P, 1) == Emptied(Own(0), 0)
  {
    Run();
    Distinct4();
    Start();
    assert Own(0) !in (T2 - {P} - {Q}).Values;
  }

  lemma AwayR()
    requires Course(T0, BATCH, 3, P, 1) == Emptied(Own(0), 0)
    ensures Course(T0, BATCH, 3, P, 0) == InUse(Own(1))
  {
    Run();
    Distinct4();
    Start();
    assert Own(1) !in (T0 - {P} - {R}).Values;
  }

  lemma Asked(e: Element)
    requires e.Direct?
    ensures Plain(e, T0) && SafeRun(e, T0, BATCH) && forall k :: 0 <= k < |BATCH| ==> WellFormed(e, BATCH[k])
  {
    Start();
    Distinct4();
    FlatSafe(e, T0, BATCH);
  }

  /** What the handler must then report, and leave behind. */
  lemma Told(e: Element, load: nat, first: View, at: nat, status: Status, short: bool, t': Table, stuck: bool,
             lost: set<Prefix>)
    requires e.Direct? && Merged(first, {}) && Stops(e, Mark(T0, load), true, BATCH, at, status, short)
    requires short ==> !BATCH[at].Malformed? && Restored(t', T0, first, BATCH, at, BATCH[at].p, stuck, lost)
    ensures at == 3 && status == NoMemory && short && t' == T0[P := Own(1)]
  {
    Run();
    Lack(e);
    Away();
    Distinct4();
    assert TableAt(T0, BATCH, 0) == T0 && TableAt(T0, BATCH, 1) == T1;
    assert TableAt(T0, BATCH, 2) == T2 && TableAt(T0, BATCH, 3) == T3;
    assert Spared(BATCH, 3, P);
  }

  method Prepared() returns (t: DirectTable)
    ensures fresh(t.Repr) && Filled(t, FULL)
  {
    t := new DirectTable(0);
    Fill(t, FULL);
  }

  /** The batch fails, and in the end the packets to `P` go the way of those to `R`. */
  method Rerouted() returns (t: DirectTable, status: Status, short: bool)
    ensures t.Routes() && status == NoMemory && short
    ensures t.Hops() == Routes(FULL)[Net(0) := Own(1)] && Net(0) in Routes(FULL) && Routes(FULL)[Net(0)] == Own(0)
  {
    t := Prepared();
    var e := Direct(t);
    ghost var first := t.Seen();
    ghost var load := t.Load();
    Asked(e);
    Start();
    var stuck;
    ghost var at, lost;
    status, short, stuck, at, lost := CtrlHandler(e, BATCH);
    Told(e, load, first, at, status, short, t.Hops(), stuck, lost);
  }
}
