/**
 * The reference-counted pool of next hops behind the DIR-24-8 tables
 * (`_vport`, `vport_find`, `vport_unref` in bfclick/ip/directiplookup.cc).
 */
module VportPools {
  import opened Prefixes
  import opened Results

  const VPORT_LIMIT := 32768
  const DISCARD_PORT := -1

  datatype VirtualPort = VirtualPort(gw: int, port: int, refcount: int) {
    function Target(): Hop { Hop(gw, port) }
  }

  ghost predicate Distinct(s: seq<nat>) {
    forall i, j :: 0 <= i < j < |s| ==> Differ(s, i, j)
  }

  ghost predicate Differ(s: seq<nat>, i: nat, j: nat)
    requires i < |s| && j < |s|
  {
    s[i] != s[j]
  }

  lemma DistinctTail(s: seq<nat>)
    requires Distinct(s) && s != []
    ensures Distinct(s[1..]) && s[0] !in s[1..]
  {
    forall i, j | 0 <= i < j < |s[1..]|
      ensures Differ(s[1..], i, j)
    {
      assert Differ(s, i + 1, j + 1);
    }
    forall j | 0 <= j < |s[1..]|
      ensures s[1..][j] != s[0]
    {
      assert Differ(s, 0, j + 1);
    }
  }

  lemma DistinctCons(x: nat, s: seq<nat>)
    requires Distinct(s) && x !in s
    ensures Distinct([x] + s)
  {
    forall i, j | 0 <= i < j < |[x] + s|
      ensures Differ([x] + s, i, j)
    {
      assert i > 0 ==> Differ(s, i - 1, j - 1);
    }
  }

  lemma DistinctCut(s: seq<nat>, k: nat)
    requires Distinct(s) && k < |s|
    ensures Distinct(s[..k] + s[k + 1..])
    ensures forall w :: w in s[..k] + s[k + 1..] <==> w in s && w != s[k]
  {
    var t := s[..k] + s[k + 1..];
    forall i, j | 0 <= i < j < |t|
      ensures Differ(t, i, j)
    {
      assert Differ(s, if i < k then i else i + 1, if j < k then j else j + 1);
    }
    forall w | w in s && w != s[k]
      ensures w in t
    {
      var l :| 0 <= l < |s| && s[l] == w;
      assert if l < k then t[l] == w else t[l - 1] == w;
    }
    forall i | 0 <= i < |t|
      ensures t[i] in s && t[i] != s[k]
    {
      assert if i < k then Differ(s, i, k) else Differ(s, k, i + 1);
    }
  }

  /** The routes that point at vport `v`. */
  ghost function Users(rt: map<Prefix, nat>, v: nat): set<Prefix> {
    set p | p in rt && rt[p] == v
  }

  lemma UsersInsert(rt: map<Prefix, nat>, p: Prefix, v: nat, w: nat)
    requires p !in rt
    ensures |Users(rt[p := v], w)| == |Users(rt, w)| + if w == v then 1 else 0
  {
    if w == v {
      assert Users(rt[p := v], w) == Users(rt, w) + {p};
    } else {
      assert Users(rt[p := v], w) == Users(rt, w);
    }
  }

  lemma UsersRemove(rt: map<Prefix, nat>, p: Prefix, w: nat)
    requires p in rt
    ensures |Users(rt - {p}, w)| == |Users(rt, w)| - if w == rt[p] then 1 else 0
  {
    assert (rt - {p})[p := rt[p]] == rt;
    UsersInsert(rt - {p}, p, rt[p], w);
  }

  /** A route removed was its vport's last user when the count comes to zero. */
  lemma NoUsers(rt: map<Prefix, nat>, p: Prefix)
    requires p in rt
    ensures |Users(rt, rt[p])| == 1 ==> forall q <- rt - {p} :: rt[q] != rt[p]
  {
    UsersRemove(rt, p, rt[p]);
    if |Users(rt, rt[p])| == 1 {
      assert Users(rt - {p}, rt[p]) == {};
      forall q <- rt - {p}
        ensures rt[q] != rt[p]
      {
        assert q !in Users(rt - {p}, rt[p]);
      }
    }
  }

  class VportPool {
    var ports: seq<VirtualPort>
    var live: seq<nat>      // the list from _vport_head
    var free: seq<nat>      // the list from _vport_empty_head

    ghost predicate Valid()
      reads this
    {
      && |live| + |free| == |ports| <= VPORT_LIMIT
      && Distinct(live) && Distinct(free)
      && (forall k :: 0 <= k < |live| ==> live[k] < |ports|)
      && (forall k :: 0 <= k < |free| ==> free[k] < |ports| && free[k] !in live)
      && (forall v :: 0 <= v < |ports| && v !in live ==> ports[v].refcount <= 0)
    }

    /** The counts are exact and no vport in use is on the free list. */
    ghost predicate Counts(rt: map<Prefix, nat>)
      requires Valid()
      reads this
    {
      && (forall p <- rt :: rt[p] in live)
      && (forall v <- live :: ports[v].refcount == |Users(rt, v)| && ports[v].refcount > 0)
    }

    constructor ()
      ensures Valid() && ports == [VirtualPort(0, DISCARD_PORT, 1)] && live == [0] && free == []
    {
      ports := [VirtualPort(0, DISCARD_PORT, 1)];
      live := [0];
      free := [];
    }

    /** Lines 132-156: a vport with this hop, or the head of the free list. */
    method Find(hop: Hop) returns (r: int)
      requires Valid()
      modifies this
      ensures Valid() && live == old(live)
      ensures |old(ports)| <= |ports| <= |old(ports)| + 1 && forall v <- live :: ports[v] == old(ports[v])
      ensures forall v :: 0 <= v < |old(ports)| ==> ports[v].Target() == old(ports[v]).Target()
      ensures r == -1 <==> |live| == 32768 && forall v <- live :: ports[v].Target() != hop
      ensures r == -1 ==> ports == old(ports) && free == old(free)
      ensures r in live ==> free == old(free) && ports == old(ports)
      ensures r >= 0 && r !in live ==> free == if old(free) == [] then [|old(ports)|] else old(free)
      ensures r >= 0 ==> r < |ports| && if r in live then ports[r].Target() == hop
        else free != [] && r == free[0] && forall v <- live :: ports[v].Target() != hop
      ensures r >= -1
    {
      var k := 0;
      while k < |live|
        invariant 0 <= k <= |live| && unchanged(this)
        invariant forall l :: 0 <= l < k ==> ports[live[l]].Target() != hop
      {
        if ports[live[k]].gw == hop.gw && ports[live[k]].port == hop.port {
          return live[k];
        }
        k := k + 1;
      }
      if free == [] && |ports| == VPORT_LIMIT {
        return -1;
      }
      if free == [] {
        free := [|ports|];
        ports := ports + [VirtualPort(0, 0, 0)];
      }
      ports := ports[free[0] := ports[free[0]].(refcount := 0)];
      r := free[0];
    }

    /** Lines 284-294: the head of the free list becomes a live vport. */
    method Enliven(hop: Hop)
      requires Valid() && free != []
      modifies this
      ensures Valid() && live == [old(free)[0]] + old(live) && free == old(free)[1..]
      ensures ports == old(ports)[old(free)[0] := VirtualPort(hop.gw, hop.port, 0)]
    {
      var v := free[0];
      DistinctTail(free);
      DistinctCons(v, live);
      free := free[1..];
      ports := ports[v := VirtualPort(hop.gw, hop.port, 0)];
      live := [v] + live;
    }

    /** Lines 283-296: one more route uses `v`; a free vport is brought to life first. */
    method Ref(v: nat, hop: Hop, ghost rt: map<Prefix, nat>, ghost p: Prefix)
      requires Valid() && Counts(rt) && v < |ports| && p !in rt
      requires if v in live then ports[v].Target() == hop else free != [] && v == free[0]
      modifies this
      ensures Valid() && Counts(rt[p := v]) && v in live && ports[v].Target() == hop && |ports| == |old(ports)|
      ensures forall w <- old(live) :: w in live && ports[w].Target() == old(ports[w]).Target()
      ensures if v in old(live) then live == old(live) && free == old(free) else free == old(free)[1..]
      ensures forall w :: 0 <= w < |ports| && w != v ==> ports[w].Target() == old(ports)[w].Target()
      ensures |live| == |old(live)| + (if v in old(live) then 0 else 1)
    {
      if free != [] && v == free[0] {
        Enliven(hop);
        assert Users(rt, v) == {};
        assert v in live;
      }
      assert forall w <- live :: ports[w].refcount == |Users(rt, w)|;
      assert forall q <- rt :: rt[q] in live;
      Count(v, rt, p);
    }

    /** Line 296. */
    method Count(v: nat, ghost rt: map<Prefix, nat>, ghost p: Prefix)
      requires Valid() && v in live && p !in rt
      requires forall q <- rt :: rt[q] in live
      requires forall w <- live :: ports[w].refcount == |Users(rt, w)| && (w != v ==> ports[w].refcount > 0)
      modifies this`ports
      ensures Valid() && Counts(rt[p := v]) && |ports| == |old(ports)|
      ensures forall w :: 0 <= w < |ports| ==> ports[w].Target() == old(ports[w]).Target()
    {
      ports := ports[v := ports[v].(refcount := ports[v].refcount + 1)];
      forall w <- live
        ensures ports[w].refcount == |Users(rt[p := v], w)| && ports[w].refcount > 0
      {
        UsersInsert(rt, p, v, w);
      }
    }

    /**
     * Lines 158-178: one route fewer uses `v`; a vport with none left is freed.
     * One that is free already stays so.
     */
    method Unref(v: nat, ghost rt: map<Prefix, nat>, ghost p: Prefix)
      requires Valid() && Counts(rt) && v < |ports| && (v in live ==> p in rt && rt[p] == v)
      modifies this
      ensures Valid() && Counts(if v in old(live) then rt - {p} else rt) && |ports| == |old(ports)|
      ensures forall w :: w in live <==> w in old(live) && (w != v || old(ports[v].refcount) > 1)
      ensures forall w :: 0 <= w < |ports| ==> ports[w].Target() == old(ports[w]).Target()
      ensures if v in old(live) && old(ports[v].refcount) == 1 then free == [v] + old(free) && |live| == |old(live)| - 1
              else live == old(live) && free == old(free)
    {
      ports := ports[v := ports[v].(refcount := ports[v].refcount - 1)];
      if ports[v].refcount == 0 {
        Retire(v);
      }
      if v in old(live) {
        forall w <- live
          ensures ports[w].refcount == |Users(rt - {p}, w)| && ports[w].refcount > 0
        {
          UsersRemove(rt, p, w);
        }
        NoUsers(rt, p);
        assert forall q <- rt - {p} :: q in rt;
      }
    }

    /** Lines 161-176: `v` moves from the live list to the head of the free list. */
    method Retire(v: nat)
      requires Valid() && v in live && ports[v].refcount == 0
      modifies this`live, this`free
      ensures Valid() && free == [v] + old(free)
      ensures forall w :: w in live <==> w in old(live) && w != v
    {
      assert v !in free;
      DistinctCons(v, free);
      var k :| 0 <= k < |live| && live[k] == v;
      DistinctCut(live, k);
      live := live[..k] + live[k + 1..];
      free := [v] + free;
    }

    /** Lines 210-211 and 393: the default route lives in vport 0. */
    method SetDefault(hop: Hop)
      requires Valid() && |ports| > 0
      modifies this`ports
      ensures Valid() && |ports| == |old(ports)|
      ensures ports[0] == old(ports[0]).(gw := hop.gw, port := hop.port)
      ensures forall v :: 0 < v < |ports| ==> ports[v] == old(ports[v])
    {
      ports := ports[0 := ports[0].(gw := hop.gw, port := hop.port)];
    }
  }
}
