/**
 * What becomes of a default route in the radix table: its entry is free for
 * the next route to take, and the default key goes on naming it.
 */
module RadixFaults {
  import opened Powers
  import opened Prefixes
  import opened RadixGeometry
  import opened DirectLookups
  import opened RadixLookups
  import opened Results

  /** A default route, and then another: the default key names the other's entry. */
  method DefaultThenRoute(t: RadixTable, p: Prefix, d: Hop, h: Hop)
    requires t.Valid() && t.routes == map[] && Canonical(p) && p.len > 0
    modifies t, t.nodes.Values
    ensures t.Valid() && t.Hops() == map[p := h] && t.routes.Keys == {p}
    ensures t.defaultKey >= 0 && t.v[t.defaultKey] == Route(p, h)
    ensures forall c :: c in t.nodes && (c !in old(t.nodes) || t.nodes[c] != old(t.nodes)[c]) ==> fresh(t.nodes[c])
  {
    t.RootCanonical();
    var s, o := t.AddRoute(ROOT, d, true);
    assert t.Hops().Keys == {};
    assert t.routes.Keys == t.Hops().Keys;
    s, o := t.AddRoute(p, h, true);
    assert t.routes.Keys == t.Hops().Keys;
  }

  /** Outside the other route nothing is answered, though the default was never removed. */
  method DefaultLost(t: RadixTable, p: Prefix, d: Hop, h: Hop, a: nat) returns (r: Option<Hop>)
    requires t.Valid() && t.routes == map[] && Canonical(p) && p.len > 0 && a < ADDRESSES && !Contains(p, a)
    modifies t, t.nodes.Values
    ensures r == None
  {
    DefaultThenRoute(t, p, d, h);
    r := t.LookupRoute(a);
  }

  /** And when the other route is removed, its addresses are still answered with it. */
  method RemovedStillAnswers(t: RadixTable, p: Prefix, d: Hop, h: Hop, a: nat) returns (r: Option<Hop>)
    requires t.Valid() && t.routes == map[] && Canonical(p) && p.len > 0 && a < ADDRESSES && Contains(p, a)
    modifies t, t.nodes.Values
    ensures t.Valid() && t.Hops() == map[] && r == Some(h)
  {
    DefaultThenRoute(t, p, d, h);
    var s, o := t.RemoveRoute(p, h);
    assert t.Hops().Keys == {};
    r := t.LookupRoute(a);
  }

  // ---- when the default answers

  /** Every address that no route covers is answered with `d`. */
  ghost predicate AnswersDefault(t: RadixTable, d: Hop)
    requires t.Valid()
    reads t, t.nodes.Values
  {
    forall a: nat :: a < ADDRESSES && NoMatch(t.Hops(), a) ==> t.DefaultAnswer(a) == Some(d)
  }

  const HALF := 0x8000_0000       // 2^31

  /** A route other than the default lies in one half of the addresses. */
  lemma InOneHalf(p: Prefix, a: nat, b: nat)
    requires 0 < p.len && a < HALF <= b < ADDRESSES
    ensures !(Contains(p, a) && Contains(p, b))
  {
    if Contains(p, a) && Contains(p, b) {
      Nest(a, b, 1, p.len);
      FirstBit(a);
      FirstBit(b);
    }
  }

  lemma FirstBit(a: nat)
    requires a < ADDRESSES
    ensures Trunc(a, 1) == 0 <==> a < HALF
  {
    assert Pow2(31) == HALF by {
      assert Pow2(8) == 256;
      Pow2Add(8, 8);
      Pow2Add(16, 8);
      Pow2Add(24, 7);
    }
    ClearRange(a, 31);
    var q := ClearMultiple(a, 31);
  }

  /**
   * With addresses left over in both halves, all are answered with `d` iff the
   * default key names a default route to `d`. An entry for anything longer can
   * cover what is left over of one half only.
   */
  lemma AnsweredByDefault(t: RadixTable, d: Hop, a: nat, b: nat)
    requires t.Valid() && a < HALF <= b < ADDRESSES && NoMatch(t.Hops(), a) && NoMatch(t.Hops(), b)
    ensures AnswersDefault(t, d) <==> t.defaultKey >= 0 && t.v[t.defaultKey] == Route(ROOT, d)
  {
    if AnswersDefault(t, d) {
      assert t.DefaultAnswer(a) == Some(d) && t.DefaultAnswer(b) == Some(d);
      var p := t.v[t.defaultKey].p;
      if p.len > 0 {
        InOneHalf(p, a, b);
      }
      AtZero(a);
    }
    forall x: nat | x < ADDRESSES
      ensures Contains(ROOT, x)
    {
      AtZero(x);
    }
  }

  /** With nothing left over outside a prefix, an entry for it does as well as one for the default. */
  lemma AnsweredByAnother(t: RadixTable, p: Prefix, d: Hop)
    requires t.Valid() && t.defaultKey >= 0 && p.len > 0 && t.v[t.defaultKey] == Route(p, d)
    ensures AnswersDefault(t, d) <==> forall a: nat :: a < ADDRESSES && NoMatch(t.Hops(), a) ==> Contains(p, a)
  {
    if AnswersDefault(t, d) {
      forall a: nat | a < ADDRESSES && NoMatch(t.Hops(), a)
        ensures Contains(p, a)
      {
        assert t.DefaultAnswer(a) == Some(d);
      }
    }
  }
}
