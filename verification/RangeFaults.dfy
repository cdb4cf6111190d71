/**
 * Two runs of `RangeTable`: with one route more than 12 bits can tell apart, each
 * with a next hop of its own, it answers wrongly; and every other /24 of a third
 * of a million gives more ranges than there is room for.
 */
module RangeFaults {
  import opened Prefixes
  import opened DirectTables
  import opened DirectLookups
  import opened ManyRoutes
  import opened RangeLookups
  import opened Results

  const MANY := 4097

  /** The longest match of an address is its /24, if that is routed, and else the default. */
  lemma LongestOfRoutes(n: nat, a: nat)
    requires n <= SLOTS && a < ADDRESSES
    ensures Longest(Routes(n), a, if a / 256 < n then 24 else 0)
    ensures a / 256 < n ==> At(a, 24) == Net(a / 256) && Routes(n)[Net(a / 256)] == Own(a / 256)
  {
    NetCanonical(0, a);
    DefaultMatches(a);
    forall l | 0 <= l <= 32
      ensures At(a, l) in Routes(n) <==> l == 0 || (l == 24 && a / 256 < n)
    {
      RoutesAre(n, At(a, l));
    }
    RoutesAre(n, At(a, 24));
  }

  // ---- the ranges are few

  /** The vport read for an address is that of its longest match. */
  lemma ReadingIs(t: RangeTable, a: nat, len: nat)
    requires t.helper.Valid() && a < ADDRESSES && Longest(t.helper.rtable, a, len)
    ensures t.Reading()[a] == t.helper.rtable[At(a, len)]
  {
    var i, j := a / 256, a % 256;
    assert a == Addr(i, j);
    assert t.helper.tables.SlotOk(t.helper.rtable, i, j);
    t.ReadingSmall(i, j);
  }

  /** The vport changes only at the start of one of the routes, or at that of the next /24. */
  ghost predicate Coarse(f: seq<nat>) {
    forall a {:trigger f[a]} :: 0 < a < |f| && (a % 256 != 0 || a / 256 > MANY) ==> f[a] == f[a - 1]
  }

  lemma SameReading(t: RangeTable, a: nat)
    requires t.helper.Valid() && t.helper.Hops() == Routes(MANY) && 0 < a < ADDRESSES && (a % 256 != 0 || a / 256 > MANY)
    ensures t.Reading()[a] == t.Reading()[a - 1]
  {
    var l := SameMatch(t.helper.rtable, a);
    ReadingIs(t, a, l);
    ReadingIs(t, a - 1, l);
  }

  lemma SameMatch<V>(rt: map<Prefix, V>, a: nat) returns (l: nat)
    requires rt.Keys == Routes(MANY).Keys && 0 < a < ADDRESSES && (a % 256 != 0 || a / 256 > MANY)
    ensures Longest(rt, a, l) && Longest(rt, a - 1, l) && At(a, l) == At(a - 1, l)
  {
    l := if a / 256 < MANY then 24 else 0;
    LongestOfRoutes(MANY, a);
    LongestOfRoutes(MANY, a - 1);
    DefaultMatches(a);
    DefaultMatches(a - 1);
    assert a % 256 != 0 ==> a / 256 == (a - 1) / 256;
  }

  lemma ReadingCoarse(t: RangeTable)
    requires t.helper.Valid() && t.helper.Hops() == Routes(MANY)
    ensures Coarse(t.Reading())
  {
    forall a | 0 < a < ADDRESSES && (a % 256 != 0 || a / 256 > MANY)
      ensures t.Reading()[a] == t.Reading()[a - 1]
    {
      SameReading(t, a);
    }
  }

  /** How many /24s, of those that may begin a range, and how many buckets begin below `a`. */
  function Nets(a: nat): nat {
    if (a + 255) / 256 <= MANY + 1 then (a + 255) / 256 else MANY + 1
  }

  function Buckets(a: nat): nat { (a + BUCKET - 1) / BUCKET }

  lemma OneMoreNet(a: nat)
    ensures Nets(a + 1) == Nets(a) + if a % 256 == 0 && a / 256 <= MANY then 1 else 0
  {
  }

  lemma OneMoreBucket(a: nat)
    ensures Buckets(a + 1) == Buckets(a) + if a % BUCKET == 0 then 1 else 0
  {
  }

  /** At most one range for each. */
  lemma {:induction false} FewMarks(f: seq<nat>, a: nat)
    requires Coarse(f) && a <= |f|
    ensures |Marks(f, a)| <= Nets(a) + Buckets(a)
  {
    if a > 0 {
      FewMarks(f, a - 1);
      OneMoreNet(a - 1);
      OneMoreBucket(a - 1);
      assert Starts(f, a - 1) ==> (a - 1) % BUCKET == 0 || ((a - 1) % 256 == 0 && (a - 1) / 256 <= MANY) by {
        assert a - 1 == 0 || f[a - 1] == f[a - 1];
      }
    }
  }

  lemma RangesFit(t: RangeTable)
    requires t.helper.Valid() && t.helper.Hops() == Routes(MANY)
    ensures |Marks(t.Reading(), |t.Reading()|)| <= RANGES_MAX
  {
    ReadingCoarse(t);
    FewMarks(t.Reading(), ADDRESSES);
  }

  // ---- and one is answered wrongly

  lemma OwnAnswers(t: DirectTable, i: nat)
    requires t.Valid() && t.Hops() == Routes(MANY) && i < MANY
    ensures t.Answer(256 * i) == Own(i)
  {
    t.ValidAnswers(256 * i);
    LongestOwn(t.Hops(), i);
  }

  lemma LongestOwn(routes: map<Prefix, Hop>, i: nat)
    requires routes == Routes(MANY) && i < MANY
    ensures Net(i) in routes && routes[Net(i)] == Own(i) && forall p :: IsLongest(routes, 256 * i, p) ==> p == Net(i)
  {
    LongestOfRoutes(MANY, 256 * i);
    LongestIsLongest(routes, 256 * i, 24);
    forall p | IsLongest(routes, 256 * i, p)
      ensures p == Net(i)
    {
      LongestUnique(routes, 256 * i, p, Net(i));
    }
  }

  lemma OneIsWrong(t: RangeTable)
    requires t.helper.Valid() && t.helper.Hops() == Routes(MANY)
    ensures exists i :: 0 <= i < MANY && t.Answer(256 * i) != t.helper.Answer(256 * i)
  {
    var where := map h | h in Owned(MANY) :: 256 * h.gw;
    forall h | h in Owned(MANY)
      ensures where[h] < ADDRESSES && t.helper.Answer(where[h]) == h
    {
      OwnAnswers(t.helper, h.gw);
    }
    OwnedSize(MANY);
    t.TooManyHops(Owned(MANY), where);
  }

  method Read() returns (t: RangeTable)
    ensures t.Shape() && fresh(t.Repr) && t.helper.Valid() && t.helper.Hops() == Routes(MANY)
  {
    t := Empty();
    Fill(t.helper, MANY);
  }

  method Empty() returns (t: RangeTable)
    ensures t.Shape() && fresh(t.Repr) && Filled(t.helper, 0)
  {
    t := new RangeTable(0);
  }

  /**
   * The routes are read in and the ranges built, and some /24 is answered with
   * the next hop of another.
   */
  method WideVport() returns (t: RangeTable, fits: bool)
    ensures fits && t.Synced() && t.helper.Valid() && t.helper.Hops() == Routes(MANY)
    ensures exists i :: 0 <= i < MANY && t.Answer(256 * i) != t.helper.Answer(256 * i)
  {
    t := Read();
    fits := Build(t);
    OneIsWrong(t);
  }

  method Build(t: RangeTable) returns (fits: bool)
    requires t.Shape() && t.helper.Valid() && t.helper.Hops() == Routes(MANY)
    modifies t`active, t.rangeBase, t.rangeLen, t.rangeT
    ensures fits && t.Synced() && t.helper.Valid() && t.helper.Hops() == Routes(MANY)
  {
    fits := t.Initialize();
    RangesFit(t);
  }

  // ---- more ranges than there is room for

  /** The longest match of an address is its /24, if that is routed, and else the default. */
  lemma LongestOfSpread<V>(rt: map<Prefix, V>, n: nat, a: nat)
    requires rt.Keys == Spread(n).Keys && n <= WIDE && a < ADDRESSES
    ensures var l := if a / 256 % 2 == 0 && a / 512 < n then 24 else 0;
      Longest(rt, a, l) && At(a, l) in rt && (At(a, l) == DEFAULT <==> l == 0)
  {
    NetCanonical(0, a);
    DefaultMatches(a);
    assert 256 * (a / 256) % 512 == 0 <==> a / 256 % 2 == 0;
    assert 256 * (a / 256) / 512 == a / 512;
    forall l | 0 <= l <= 32
      ensures At(a, l) in rt <==> l == 0 || (l == 24 && a / 256 % 2 == 0 && a / 512 < n)
    {
      SpreadIs(n, At(a, l));
    }
    SpreadIs(n, At(a, 24));
  }

  /** The vport changes at every /24, from the routed to the default and back. */
  lemma ReadingChanges(t: RangeTable, k: nat)
    requires t.helper.Valid() && t.helper.Hops() == Spread(WIDE) && 0 < k < 2 * WIDE
    ensures t.Reading()[256 * k] != t.Reading()[256 * k - 1]
  {
    NetEdge(k);
    SpreadReading(t, 256 * k);
    SpreadReading(t, 256 * k - 1);
  }

  lemma NetEdge(k: nat)
    requires k > 0
    ensures 256 * k / 256 % 2 == 0 <==> (256 * k - 1) / 256 % 2 != 0
  {
    assert 256 * k / 256 == k && (256 * k - 1) / 256 == k - 1;
  }

  lemma SpreadReading(t: RangeTable, a: nat)
    requires t.helper.Valid() && t.helper.Hops() == Spread(WIDE) && a < 512 * WIDE
    ensures t.Reading()[a] == 0 <==> a / 256 % 2 != 0
  {
    var l := if a / 256 % 2 == 0 then 24 else 0;
    assert t.helper.rtable.Keys == t.helper.Hops().Keys;
    LongestOfSpread(t.helper.rtable, WIDE, a);
    ReadingIs(t, a, l);
    SpreadIs(WIDE, At(a, l));
    SpreadIs(WIDE, DEFAULT);
    assert t.helper.pool.ports[0].Target() == t.helper.Hops()[DEFAULT];
    assert t.helper.pool.ports[t.helper.rtable[At(a, l)]].Target() == t.helper.Hops()[At(a, l)];
  }

  lemma {:induction false} ManyMarks(f: seq<nat>, a: nat, n: nat)
    requires a <= 256 * n <= |f| && forall k :: 0 < k < n ==> Changes(f, k)
    ensures |Marks(f, a)| >= (a + 255) / 256
  {
    if a > 0 {
      ManyMarks(f, a - 1, n);
      if (a - 1) % 256 == 0 && a > 1 {
        assert Changes(f, (a - 1) / 256);
      }
    }
  }

  ghost predicate Changes(f: seq<nat>, k: nat) {
    0 < 256 * k < |f| && f[256 * k] != f[256 * k - 1]
  }

  lemma TooMany(t: RangeTable)
    requires t.helper.Valid() && t.helper.Hops() == Spread(WIDE)
    ensures |Marks(t.Reading(), |t.Reading()|)| > RANGES_MAX
  {
    var f := t.Reading();
    forall k | 0 < k < 2 * WIDE
      ensures Changes(f, k)
    {
      ReadingChanges(t, k);
    }
    ManyMarks(f, 512 * WIDE, 2 * WIDE);
    MarksGrow(f, 512 * WIDE, |f|);
  }

  method Spreads() returns (t: RangeTable)
    ensures t.Shape() && fresh(t.Repr) && Spreading(t.helper, WIDE)
  {
    t := Empty();
    SpreadOut(t.helper, WIDE);
  }

  /** The ranges of such a table do not fit. */
  method TooManyRanges() returns (t: RangeTable, fits: bool)
    ensures !fits && t.helper.Valid() && t.helper.Hops() == Spread(WIDE)
  {
    t := Spreads();
    fits := Rebuild(t);
  }

  method Rebuild(t: RangeTable) returns (fits: bool)
    requires t.Shape() && t.helper.Valid() && t.helper.Hops() == Spread(WIDE)
    modifies t`active, t.rangeBase, t.rangeLen, t.rangeT
    ensures !fits && t.helper.Valid() && t.helper.Hops() == Spread(WIDE)
  {
    fits := t.Initialize();
    TooMany(t);
  }
}
