/** The next hop a set of prefixes gives an address, as a function of lengths from 32 down. */
module Forwarding {
  import opened Prefixes
  import opened Results

  /** The route of the longest match of `a` no longer than `l`. */
  function Lookup<V>(routes: map<Prefix, V>, a: nat, l: nat): Option<V>
    requires l <= 32
  {
    if At(a, l) in routes then Some(routes[At(a, l)])
    else if l == 0 then None
    else Lookup(routes, a, l - 1)
  }

  function NextHop<V>(routes: map<Prefix, V>, a: nat): Option<V> {
    Lookup(routes, a, 32)
  }

  lemma {:induction false} LookupIs<V>(routes: map<Prefix, V>, a: nat, l: nat, k: nat)
    requires k <= l <= 32 && At(a, k) in routes && forall i :: k < i <= l ==> At(a, i) !in routes
    ensures Lookup(routes, a, l) == Some(routes[At(a, k)])
  {
    if k < l {
      LookupIs(routes, a, l - 1, k);
    }
  }

  /** The function is the specification: the route of the longest prefix covering the address. */
  lemma NextHopIsLongest<V>(routes: map<Prefix, V>, a: nat, p: Prefix)
    requires IsLongest(routes, a, p)
    ensures NextHop(routes, a) == Some(routes[p])
  {
    forall i | p.len < i <= 32
      ensures At(a, i) !in routes
    {
      assert Contains(At(a, i), a);
    }
    LookupIs(routes, a, 32, p.len);
  }

  /** Sets that agree on the prefixes of an address of one length or less agree on its route. */
  lemma {:induction false} LookupAgrees<V>(routes: map<Prefix, V>, other: map<Prefix, V>, a: nat, l: nat)
    requires l <= 32
    requires forall k :: 0 <= k <= l ==> (At(a, k) in routes <==> At(a, k) in other)
    requires forall k :: 0 <= k <= l && At(a, k) in routes ==> routes[At(a, k)] == other[At(a, k)]
    ensures Lookup(routes, a, l) == Lookup(other, a, l)
  {
    if l > 0 {
      LookupAgrees(routes, other, a, l - 1);
    }
  }

  /** Changing nothing longer than `l` changes the route only through what is found up to `l`. */
  lemma {:induction false} LookupAbove<V>(routes: map<Prefix, V>, other: map<Prefix, V>, a: nat, l: nat, top: nat)
    requires l <= top <= 32
    requires forall k :: l < k <= top ==> (At(a, k) in routes <==> At(a, k) in other)
    requires forall k :: l < k <= top && At(a, k) in routes ==> routes[At(a, k)] == other[At(a, k)]
    requires Lookup(routes, a, l) == Lookup(other, a, l)
    ensures Lookup(routes, a, top) == Lookup(other, a, top)
  {
    if top > l {
      LookupAbove(routes, other, a, l, top - 1);
    }
  }
}
