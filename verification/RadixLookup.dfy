/**
 * `RadixIPLookup` (bfclick/ip/radixiplookup.cc, radixiplookup.hh): routes in a
 * trie whose slots hold the most specific route of their node.
 */
module RadixLookups {
  import opened Powers
  import opened Prefixes
  import opened RadixGeometry
  import opened DirectLookups
  import opened Results

  /** `key` and `key_priority` of a child. */
  datatype Child = Child(key: int, priority: int)

  const EMPTY := Child(-1, 0)

  /** Lines 62-65 and 82-87. */
  function Changed(c: Child, key: int, priority: int): Child {
    if c.priority <= priority then Child(key, if key < 0 then 0 else priority) else c
  }

  // ---- what a slot should hold

  /** The longest route of the node's window that covers the slot has length `m`. */
  ghost predicate BestAt(rt: map<Prefix, nat>, q: Prefix, s: nat, c: Child, m: nat)
    requires Level(q.len)
  {
    && q.len < m <= SlotLen(q.len)
    && At(s, m) in rt && rt[At(s, m)] == c.key && c.priority == Mask(m)
    && forall l :: m < l <= SlotLen(q.len) ==> At(s, l) !in rt
  }

  ghost predicate NoneAt(rt: map<Prefix, nat>, q: Prefix, s: nat)
    requires Level(q.len)
  {
    forall l :: q.len < l <= SlotLen(q.len) ==> At(s, l) !in rt
  }

  /** A slot at address `s` holds the longest route kept at node `q` that covers it. */
  ghost predicate Keyed(rt: map<Prefix, nat>, q: Prefix, s: nat, c: Child)
    requires Level(q.len)
  {
    if c.key < 0 then c.priority == 0 && NoneAt(rt, q, s) else exists m :: BestAt(rt, q, s, c, m)
  }

  /** A change with a route's index keeps slots right for the map with that route. */
  lemma KeyedAdd(rt: map<Prefix, nat>, q: Prefix, s: nat, c: Child, p: Prefix, j: nat)
    requires Level(q.len) && Keyed(rt, q, s, c) && q.len < p.len <= SlotLen(q.len)
    ensures Keyed(rt[p := j], q, s, if Contains(p, s) then Changed(c, j, Mask(p.len)) else c)
  {
    var rt' := rt[p := j];
    MaskOrder(p.len, p.len);
    if c.key >= 0 {
      var m: nat :| BestAt(rt, q, s, c, m);
      MaskOrder(m, p.len);
      MaskOrder(p.len, m);
      if Contains(p, s) && m <= p.len {
        assert BestAt(rt', q, s, Child(j, Mask(p.len)), p.len);
      } else {
        assert BestAt(rt', q, s, c, m);
      }
    } else if Contains(p, s) {
      assert BestAt(rt', q, s, Child(j, Mask(p.len)), p.len);
    }
  }

  /** Only the window of the slot matters. */
  lemma KeyedSame(rt: map<Prefix, nat>, rt': map<Prefix, nat>, q: Prefix, s: nat, c: Child)
    requires Level(q.len) && Keyed(rt, q, s, c)
    requires forall l :: q.len < l <= SlotLen(q.len) ==>
      (At(s, l) in rt <==> At(s, l) in rt') && (At(s, l) in rt ==> rt[At(s, l)] == rt'[At(s, l)])
    ensures Keyed(rt', q, s, c)
  {
    if c.key >= 0 {
      var m: nat :| BestAt(rt, q, s, c, m);
      assert BestAt(rt', q, s, c, m);
    }
  }

  /** The routes of the map that do not cover `p`. */
  ghost function Apart(rt: map<Prefix, nat>, p: Prefix): map<Prefix, nat>
    requires p.len <= 32
  {
    map r | r in rt && !Over(r, p) :: rt[r]
  }

  /** `r.contains(p)`, the two being canonical. */
  predicate Over(r: Prefix, p: Prefix) {
    r.len <= p.len <= 32 && At(p.addr, r.len) == r
  }

  /** A change with no index clears a covered slot of everything that covers `p`. */
  lemma KeyedClear(rt: map<Prefix, nat>, q: Prefix, s: nat, c: Child, p: Prefix)
    requires Level(q.len) && Keyed(rt, q, s, c) && q.len < p.len <= SlotLen(q.len) && Contains(p, s) && Canonical(p)
    ensures Keyed(Apart(rt, p), q, s, Changed(c, -1, Mask(p.len)))
  {
    MaskOrder(p.len, p.len);
    forall l: nat | l <= p.len
      ensures At(s, l) == At(p.addr, l)
    {
      NestUnder(p, s, l);
    }
    if c.key >= 0 {
      var m: nat :| BestAt(rt, q, s, c, m);
      MaskOrder(m, p.len);
      if m > p.len {
        assert BestAt(Apart(rt, p), q, s, c, m);
      }
    }
  }

  // ---- nodes above nodes

  function ParentLen(len: nat): (l: nat)
    requires Level(len) && len > 0
    ensures Level(l) && SlotLen(l) == len
  {
    if len == 8 then 0 else len - 4
  }

  function Parent(q: Prefix): Prefix
    requires Level(q.len) && q.len > 0
  {
    At(q.addr, ParentLen(q.len))
  }

  lemma ParentOfSlot(q: Prefix, i: nat)
    requires Level(q.len) && Canonical(q) && i < Fan(q.len) && SlotLen(q.len) < 32
    ensures Level(SlotLen(q.len)) && Parent(Slot(q, i)) == q && Canonical(Slot(q, i))
  {
    SlotCanonical(q, i);
  }

  /** The node a prefix is kept at. */
  function Home(p: Prefix): Prefix
    requires 0 < p.len <= 32
  {
    At(p.addr, HomeLen(p.len))
  }

  lemma HomeUnder(q: Prefix, p: Prefix)
    requires 0 < p.len <= 32
    ensures Under(q, p) <==> q == Home(p)
  {
    if Under(q, p) {
      HomeUnique(p.len, q.len);
    }
  }

  class Radix {
    ghost const id: Prefix          // the prefix of the addresses that reach the node
    const shift: nat                // _bitshift
    var slots: seq<Child>           // _children, keys
    var kids: seq<Radix?>           // _children, pointers
    var list: seq<nat>              // the routes linked from _route_index

    /** `make_radix`. */
    constructor (shift: nat, n: nat, ghost id: Prefix)
      ensures this.shift == shift && this.id == id && list == []
      ensures slots == seq(n, i => EMPTY) && kids == seq(n, i => null)
    {
      this.shift, this.id := shift, id;
      slots, kids, list := seq(n, i => EMPTY), seq(n, i => null), [];
    }

    /** Lines 81-89. */
    method Overwrite(i1: nat, i2: nat, key: int, priority: int)
      requires i1 <= i2 <= |slots|
      modifies `slots
      ensures |slots| == |old(slots)|
      ensures forall i :: 0 <= i < |slots| ==>
        slots[i] == if i1 <= i < i2 then Changed(old(slots)[i], key, priority) else old(slots)[i]
    {
      var i := i1;
      while i < i2
        invariant i1 <= i <= i2 && |slots| == |old(slots)|
        invariant forall k :: 0 <= k < |slots| ==>
          slots[k] == if i1 <= k < i then Changed(old(slots)[k], key, priority) else old(slots)[k]
      {
        if slots[i].priority <= priority {
          slots := slots[i := Child(key, if key < 0 then 0 else priority)];
        }
        i := i + 1;
      }
    }
  }

  /** A route, as stored in `_v`. */
  datatype Route = Route(p: Prefix, hop: Hop)

  class RadixTable {
    var v: seq<Route>               // _v
    var free: seq<nat>              // the entries linked from _vfree
    var defaultKey: int             // _default_key
    const radix: Radix
    ghost var nodes: map<Prefix, Radix>
    ghost var routes: map<Prefix, nat>

    constructor ()
      ensures Valid() && fresh(nodes.Values) && routes == map[] && v == [] && free == [] && defaultKey == -1 && NoLeak()
    {
      v, free, defaultKey := [], [], -1;
      radix := new Radix(24, 256, ROOT);
      nodes, routes := map[ROOT := radix], map[];
      new;
      RootCanonical();
      assert NodeOk(ROOT);
    }

    /** Slot `i` of node `q` points to the node for its prefix, if there is one. */
    ghost predicate KidOk(q: Prefix, i: nat)
      requires q in nodes && Level(q.len) && i < |nodes[q].kids|
      reads `nodes, nodes[q]
    {
      nodes[q].kids[i] == if Slot(q, i) in nodes then nodes[Slot(q, i)] else null
    }

    ghost predicate NodeOk(q: Prefix)
      requires q in nodes
      reads `nodes, nodes[q]
    {
      && Level(q.len) && Canonical(q) && nodes[q].id == q && nodes[q].shift == Shift(q.len)
      && |nodes[q].slots| == Fan(q.len) == |nodes[q].kids|
      && (q.len > 0 ==> Parent(q) in nodes)
      && forall i :: 0 <= i < Fan(q.len) ==> KidOk(q, i)
    }

    ghost predicate Tree()
      reads `nodes, nodes.Values
    {
      ROOT in nodes && nodes[ROOT] == radix && forall q {:trigger NodeOk(q)} :: q in nodes ==> NodeOk(q)
    }

    ghost predicate RouteOk(p: Prefix)
      requires p in routes
      reads this
    {
      Canonical(p) && 0 < p.len && Home(p) in nodes && routes[p] < |v| && v[routes[p]].p == p
    }

    ghost predicate Entries()
      reads this
    {
      && (forall p {:trigger RouteOk(p)} :: p in routes ==> RouteOk(p))
      && (forall k :: 0 <= k < |free| ==> free[k] < |v|)
      && (forall k, l :: 0 <= k < l < |free| ==> free[k] != free[l])
      && (forall k, p :: 0 <= k < |free| && p in routes ==> routes[p] != free[k])
    }

    ghost predicate Valid()
      reads this, nodes.Values
    {
      Tree() && Entries() && defaultKey < |v| && KeysOk(routes, Slots()) && ListsOk(v, routes, Lists())
    }

    /** The route each live prefix is sent by, other than the default. */
    ghost function Hops(): map<Prefix, Hop>
      requires Entries()
      reads this
    {
      map p | p in routes :: (assert RouteOk(p); v[routes[p]].hop)
    }

    // ---- growing the trie

    lemma RootCanonical()
      ensures Canonical(ROOT)
    {
      ClearMod(0, 32);
    }

    /** Lines 73-76: a node for slot `i` of node `q`. */
    method Sprout(r: Radix, i: nat, ghost q: Prefix) returns (child: Radix)
      requires Tree() && q in nodes && NodeOk(q) && r == nodes[q] && i < Fan(q.len) && r.kids[i] == null && SlotLen(q.len) < 32
      modifies `nodes, r`kids
      ensures Tree() && fresh(child) && nodes == old(nodes)[Slot(q, i) := child] && Slot(q, i) !in old(nodes)
      ensures child.slots == seq(16, k => EMPTY) && child.list == []
    {
      assert KidOk(q, i);
      ParentOfSlot(q, i);
      DistinctNodes(q);
      child := new Radix(r.shift - 4, 16, Slot(q, i));
      r.kids := r.kids[i := child];
      nodes := nodes[Slot(q, i) := child];
      Sprouted(q, i, child);
    }

    lemma DistinctNodes(q: Prefix)
      requires Tree() && q in nodes
      ensures forall c :: c in nodes && c != q ==> nodes[c] != nodes[q]
    {
      forall c | c in nodes && c != q
        ensures nodes[c] != nodes[q]
      {
        assert NodeOk(c) && NodeOk(q);
      }
    }

    twostate lemma Sprouted(new q: Prefix, new i: nat, new child: Radix)
      requires old(Tree()) && q in old(nodes) && old(NodeOk(q)) && i < Fan(q.len) && SlotLen(q.len) < 32
      requires Slot(q, i) !in old(nodes) && fresh(child) && nodes == old(nodes)[Slot(q, i) := child]
      requires child.id == Slot(q, i) && child.shift == Shift(SlotLen(q.len))
      requires child.slots == seq(16, k => EMPTY) && child.kids == seq(16, k => null)
      requires forall c :: c in old(nodes) ==> nodes[c].slots == old(nodes[c].slots)
      requires forall c :: c in old(nodes) && c != q ==> nodes[c].kids == old(nodes[c].kids)
      requires nodes[q].kids == old(nodes[q].kids)[i := child]
      ensures Tree()
    {
      ParentOfSlot(q, i);
      var k := Slot(q, i);
      forall c | c in nodes
        ensures NodeOk(c)
      {
        if c == k {
          forall j | 0 <= j < 16
            ensures KidOk(k, j)
          {
            Orphan(k, j);
          }
        } else {
          assert old(NodeOk(c));
          forall j | 0 <= j < Fan(c.len)
            ensures KidOk(c, j)
          {
            assert old(KidOk(c, j));
            SlotsDiffer(q, i, c, j);
          }
        }
      }
    }

    /** No node lies under one that is not there. */
    twostate lemma Orphan(new k: Prefix, new j: nat)
      requires old(Tree()) && k !in old(nodes) && Level(k.len) && Canonical(k) && j < Fan(k.len)
      ensures Slot(k, j) !in old(nodes) && Slot(k, j) != k
    {
      if Slot(k, j) in old(nodes) {
        assert old(NodeOk(Slot(k, j)));
        ParentOfSlot(k, j);
      }
    }

    lemma SlotsDiffer(q: Prefix, i: nat, c: Prefix, j: nat)
      requires Level(q.len) && Level(c.len) && Canonical(q) && Canonical(c) && i < Fan(q.len) && j < Fan(c.len)
      requires SlotLen(q.len) < 32
      ensures Slot(q, i) == Slot(c, j) ==> q == c && i == j
    {
      if Slot(q, i) == Slot(c, j) {
        ParentOfSlot(q, i);
        ParentOfSlot(c, j);
        SlotStart(q, i);
        SlotStart(c, j);
      }
    }

    /** The slots of every node, and its list. */
    ghost function Slots(): map<Prefix, seq<Child>>
      reads `nodes, nodes.Values
    {
      map c | c in nodes :: nodes[c].slots
    }

    ghost function Lists(): map<Prefix, seq<nat>>
      reads `nodes, nodes.Values
    {
      map c | c in nodes :: nodes[c].list
    }

    /** The trie has the old nodes, and perhaps new ones. */
    twostate predicate Larger()
      reads this
    {
      forall c :: c in old(nodes) ==> c in nodes && nodes[c] == old(nodes)[c]
    }

    /** Lines 73-77: the node below slot `i`, made if need be. */
    method Below(r: Radix, i: nat, ghost q: Prefix) returns (child: Radix)
      requires Tree() && q in nodes && NodeOk(q) && r == nodes[q] && i < Fan(q.len) && SlotLen(q.len) < 32
      modifies `nodes, r`kids
      ensures Tree() && Larger() && forall c :: c in nodes && c !in old(nodes) ==> fresh(nodes[c])
      ensures Slot(q, i) in nodes && child == nodes[Slot(q, i)]
      ensures SameSlots(old(Slots()), Slots()) && SameLists(old(Lists()), Lists())
    {
      assert NodeOk(q) && KidOk(q, i);
      var kid := r.kids[i];
      ghost var ss, ls := Slots(), Lists();
      if kid == null {
        child := Sprout(r, i, q);
        SproutedSlots(ss, ls);
      } else {
        child := kid;
        SameSelf();
      }
    }

    lemma SameSelf()
      requires Tree()
      ensures SameSlots(Slots(), Slots()) && SameLists(Lists(), Lists())
    {
      forall c | c in nodes
        ensures Level(c.len) && |nodes[c].slots| == Fan(c.len)
      {
        assert NodeOk(c);
      }
    }

    twostate lemma SproutedSlots(new ss: map<Prefix, seq<Child>>, new ls: map<Prefix, seq<nat>>)
      requires old(Tree()) && Tree() && Larger() && ss == old(Slots()) && ls == old(Lists())
      requires forall c :: c in old(nodes) ==>
        nodes[c].slots == old(nodes[c].slots) && nodes[c].list == old(nodes[c].list)
      requires forall c :: c in nodes && c !in old(nodes) ==>
        nodes[c].slots == seq(|nodes[c].slots|, k => EMPTY) && nodes[c].list == []
      ensures SameSlots(ss, Slots()) && SameLists(ls, Lists())
    {
      forall c | c in nodes
        ensures Level(c.len) && |nodes[c].slots| == Fan(c.len)
        ensures c in old(nodes) ==> c in ss && ss[c] == nodes[c].slots
      {
        assert NodeOk(c);
      }
    }

    /** What is left of an address below its slot: line 69, and radixiplookup.hh:133-134. */
    lemma Below1(q: Prefix, a: nat, addr: nat)
      requires Level(q.len) && Canonical(q) && At(a, q.len) == q && a == q.addr + addr
      ensures var s := Pow2(Shift(q.len)); var k := Slot(q, addr / s);
        0 <= addr / s < Fan(q.len) && At(a, SlotLen(q.len)) == k && addr % s >= 0 && a == k.addr + addr % s
    {
      var s := Pow2(Shift(q.len));
      SlotOf(q, a);
      Quotient(addr, s);
      NonNegative(addr, s);
    }

    /** Line 68 and lines 69-78: what is left of an address below its slot. */
    lemma Descend(q: Prefix, p: Prefix, addr: nat)
      requires Level(q.len) && Canonical(q) && Canonical(p) && q.len < p.len && At(p.addr, q.len) == q
      requires p.addr == q.addr + addr && p.len > SlotLen(q.len)
      ensures var s := Pow2(Shift(q.len)); var k := Slot(q, addr / s);
        && addr / s < Fan(q.len) && At(p.addr, SlotLen(q.len)) == k && p.addr == k.addr + addr % s
        && Size(p.len) / s == 0 && Size(p.len) % s == Size(p.len)
    {
      Below1(q, p.addr, addr);
      OneSlot(q, p);
      Quotient(Size(p.len), Pow2(Shift(q.len)));
    }

    /** Lines 58-93. The size `naddr` of a prefix is never 0: lines 60-65 are not reached. */
    method Change(r: Radix, addr: nat, naddr: nat, key: int, priority: int, ghost q: Prefix, ghost p: Prefix)
      returns (home: Radix)
      requires Tree() && q in nodes && r == nodes[q] && Canonical(p) && q.len < p.len && At(p.addr, q.len) == q
      requires p.addr == q.addr + addr && naddr == Size(p.len)
      modifies `nodes, nodes.Values
      ensures Tree() && Larger() && forall c :: c in nodes && c !in old(nodes) ==> fresh(nodes[c])
      ensures Home(p) in nodes && home == nodes[Home(p)]
      ensures Rewritten(old(Slots()), Slots(), p, key, priority) && SameLists(old(Lists()), Lists())
      decreases 32 - q.len
    {
      assert NodeOk(q);
      NonNegative(addr, Pow2(r.shift));
      NonNegative(naddr, Pow2(r.shift));
      var i1 := addr / Pow2(r.shift);
      var i2 := i1 + naddr / Pow2(r.shift);
      OneSlot(q, p);
      if i1 == i2 {
        Descend(q, p, addr);
        var child := Below(r, i1, q);
        ghost var s1, l1 := Slots(), Lists();
        home := Change(child, addr % Pow2(r.shift), naddr % Pow2(r.shift), key, priority, Slot(q, i1), p);
        SameThenRewritten(old(Slots()), s1, Slots(), p, key, priority);
        SameTwice(old(Lists()), l1, Lists());
      } else {
        home := r;
        WriteSlots(r, i1, i2, key, priority, q, p);
      }
    }

    /** Lines 81-89, at the node the prefix is kept at. */
    method WriteSlots(r: Radix, i1: nat, i2: nat, key: int, priority: int, ghost q: Prefix, ghost p: Prefix)
      requires Tree() && q in nodes && NodeOk(q) && r == nodes[q] && Canonical(p) && Under(q, p)
      requires p.addr >= q.addr && i1 == (p.addr - q.addr) / Pow2(Shift(q.len))
      requires i2 == i1 + Size(p.len) / Pow2(Shift(q.len))
      modifies r`slots
      ensures Tree() && q == Home(p)
      ensures Rewritten(old(Slots()), Slots(), p, key, priority) && SameLists(old(Lists()), Lists())
    {
      SlotsFit(q, p);
      NonNegative(Size(p.len), Pow2(Shift(q.len)));
      r.Overwrite(i1, i2, key, priority);
      TreeKept(q);
      SlotsWritten(q, p, key, priority);
    }

    /** The shape of the trie does not depend on the keys. */
    twostate lemma TreeKept(new q: Prefix)
      requires old(Tree()) && q in old(nodes) && nodes == old(nodes) && |nodes[q].slots| == |old(nodes[q].slots)|
      requires nodes[q].kids == old(nodes[q].kids) && forall r <- old(nodes.Values) :: r != nodes[q] ==> unchanged(r)
      ensures Tree() && forall c :: c in nodes && c != q ==> unchanged(nodes[c])
    {
      forall c | c in nodes && c != q
        ensures unchanged(nodes[c])
      {
        assert old(NodeOk(c)) && old(NodeOk(q)) && nodes[c] in old(nodes.Values);
      }
      forall c | c in nodes
        ensures NodeOk(c)
      {
        assert old(NodeOk(c));
        forall i | 0 <= i < Fan(c.len)
          ensures KidOk(c, i)
        {
          assert old(KidOk(c, i));
        }
      }
    }

    twostate lemma SlotsKept(new q: Prefix)
      requires nodes == old(nodes) && q in nodes && nodes[q].slots == old(nodes[q].slots)
      requires forall c :: c in nodes && c != q ==> unchanged(nodes[c])
      ensures Slots() == old(Slots())
    {
    }

    twostate lemma SlotsWritten(new q: Prefix, new p: Prefix, new key: int, new priority: int)
      requires old(Tree()) && Tree() && nodes == old(nodes) && q in nodes && Canonical(q) && Canonical(p) && Under(q, p)
      requires forall c :: c in nodes && c != q ==> unchanged(nodes[c])
      requires nodes[q].list == old(nodes[q].list) && p.addr >= q.addr
      requires |nodes[q].slots| == |old(nodes[q].slots)| == Fan(q.len)
      requires var i1 := (p.addr - q.addr) / Pow2(Shift(q.len)); var i2 := i1 + Size(p.len) / Pow2(Shift(q.len));
        forall i :: 0 <= i < |nodes[q].slots| ==>
          nodes[q].slots[i] ==
            if i1 <= i < i2 then Changed(old(nodes[q].slots)[i], key, priority) else old(nodes[q].slots)[i]
      ensures q == Home(p) && Rewritten(old(Slots()), Slots(), p, key, priority) && SameLists(old(Lists()), Lists())
    {
      HomeUnder(q, p);
      forall c | c in nodes
        ensures Level(c.len) && |nodes[c].slots| == Fan(c.len) && |old(nodes[c].slots)| == Fan(c.len)
      {
        assert NodeOk(c) && old(NodeOk(c));
      }
      forall i | 0 <= i < Fan(q.len)
        ensures nodes[q].slots[i] == NewSlot(old(Slots()), q, i, p, key, priority)
      {
        SlotsCovered(q, p, i);
      }
    }

    // ---- lookup

    /** `cur` is the entry of the longest route of up to `len` bits that covers `a`, or the default key. */
    ghost predicate BestUpTo(a: nat, len: nat, cur: int)
      reads this
    {
      if Uncovered(a, 0, len) then cur == defaultKey else exists m: nat :: BestIs(a, m, len, cur)
    }

    ghost predicate Uncovered(a: nat, from: nat, to: nat)
      reads this
    {
      forall l: nat :: from < l <= to && l <= 32 ==> At(a, l) !in routes
    }

    ghost predicate BestIs(a: nat, m: nat, len: nat, cur: int)
      reads this
    {
      0 < m <= len <= 32 && At(a, m) in routes && routes[At(a, m)] == cur && Uncovered(a, m, len)
    }

    /** One slot further down. */
    lemma OneSlotDown(q: Prefix, i: nat, a: nat, cur: int, c: Child)
      requires Level(q.len) && Canonical(q) && i < Fan(q.len) && At(a, SlotLen(q.len)) == Slot(q, i)
      requires BestUpTo(a, q.len, cur) && Keyed(routes, q, Slot(q, i).addr, c)
      ensures BestUpTo(a, SlotLen(q.len), if c.key >= 0 then c.key else cur)
    {
      var s := Slot(q, i).addr;
      TruncIdempotent(a, SlotLen(q.len));
      forall l: nat | l <= SlotLen(q.len)
        ensures At(a, l) == At(s, l)
      {
        Nest(a, s, l, SlotLen(q.len));
      }
      if c.key >= 0 {
        var m: nat :| BestAt(routes, q, s, c, m);
        assert BestIs(a, m, SlotLen(q.len), c.key);
      } else if !Uncovered(a, 0, q.len) {
        var m: nat :| BestIs(a, m, q.len, cur);
        assert BestIs(a, m, SlotLen(q.len), cur);
      }
    }

    /** The nodes above a node are there. */
    lemma Ancestors(a: nat, lower: nat, len: nat)
      requires Tree() && Level(lower) && Level(len) && lower <= len && At(a, len) in nodes
      ensures At(a, lower) in nodes
      decreases len
    {
      if lower < len {
        assert NodeOk(At(a, len));
        TruncIdempotent(a, len);
        Nest(a, Trunc(a, len), ParentLen(len), len);
        Ancestors(a, lower, ParentLen(len));
      }
    }

    /** Below a missing node there is no route. */
    lemma NothingBelow(a: nat, len: nat)
      requires Tree() && Entries() && len <= 32 && (len == 32 || (Level(len) && len > 0 && At(a, len) !in nodes))
      ensures Uncovered(a, len, 32)
    {
      forall l: nat | len < l <= 32
        ensures At(a, l) !in routes
      {
        if At(a, l) in routes {
          assert RouteOk(At(a, l));
          TruncIdempotent(a, l);
          Nest(a, Trunc(a, l), HomeLen(l), l);
          Ancestors(a, len, HomeLen(l));
        }
      }
    }

    /** `Radix::lookup`, radixiplookup.hh:129-140. */
    method Lookup(a: nat) returns (cur: int)
      requires Valid() && a < ADDRESSES
      ensures BestUpTo(a, 32, cur)
    {
      AtZero(a);
      cur := defaultKey;
      var r: Radix?, addr: nat := radix, a;
      ghost var q, len: nat := ROOT, 0;
      while r != null
        invariant len <= 32 && BestUpTo(a, len, cur)
        invariant r != null ==>
          q in nodes && r == nodes[q] && len == q.len && At(a, len) == q && a == q.addr + addr
        invariant r == null ==> Uncovered(a, len, 32)
        decreases r != null, 32 - len
      {
        assert NodeOk(q);
        Below1(q, a, addr);
        var i1 := addr / Pow2(r.shift);
        addr := addr % Pow2(r.shift);
        assert Slots()[q][i1] == r.slots[i1] && KidOk(q, i1);
        OneSlotDown(q, i1, a, cur, r.slots[i1]);
        if r.slots[i1].key >= 0 {
          cur := r.slots[i1].key;
        }
        r := r.kids[i1];
        len, q := SlotLen(len), Slot(q, i1);
        if r == null {
          NothingBelow(a, len);
        }
      }
      Joined(a, len, cur);
    }

    lemma Joined(a: nat, len: nat, cur: int)
      requires len <= 32 && BestUpTo(a, len, cur) && Uncovered(a, len, 32)
      ensures BestUpTo(a, 32, cur)
    {
      if !Uncovered(a, 0, len) {
        var m: nat :| BestIs(a, m, len, cur);
        assert BestIs(a, m, 32, cur);
      }
    }

    /** What is answered for an address no route covers: the entry the default key names. */
    ghost function DefaultAnswer(a: nat): Option<Hop>
      requires defaultKey < |v|
      reads this
    {
      if defaultKey >= 0 && Contains(v[defaultKey].p, a) then Some(v[defaultKey].hop) else None
    }

    /** Lines 206-217: the longest match, and for want of one what the default key names. */
    method LookupRoute(a: nat) returns (r: Option<Hop>)
      requires Valid() && a < ADDRESSES
      ensures if NoMatch(Hops(), a) then r == DefaultAnswer(a)
              else exists p :: IsLongest(Hops(), a, p) && r == Some(Hops()[p])
    {
      var key := Lookup(a);
      FoundIsLongest(a, key);
      if key >= 0 && v[key].p.len <= 32 && Trunc(a, v[key].p.len) == v[key].p.addr {
        r := Some(v[key].hop);
      } else {
        r := None;
      }
    }

    lemma FoundIsLongest(a: nat, key: int)
      requires Valid() && BestUpTo(a, 32, key)
      ensures Uncovered(a, 0, 32) <==> NoMatch(Hops(), a)
      ensures if NoMatch(Hops(), a) then key == defaultKey
              else 0 <= key < |v| && v[key].p in routes && routes[v[key].p] == key && IsLongest(Hops(), a, v[key].p)
    {
      forall q | q in routes && Contains(q, a)
        ensures q == At(a, q.len) && 0 < q.len
      {
        assert RouteOk(q);
      }
      if Uncovered(a, 0, 32) {
      } else {
        var m: nat :| BestIs(a, m, 32, key);
        assert RouteOk(At(a, m)) && At(a, m) in Hops() && Contains(At(a, m), a);
      }
    }

    /** The default key names a default route. */
    ghost predicate KeepsDefault()
      reads this
    {
      0 <= defaultKey < |v| && v[defaultKey].p == ROOT
    }

    /** Every entry is free or that of a route, and so is what the default key names. */
    ghost predicate NoLeak()
      reads this
    {
      -1 <= defaultKey < |v| && forall x: nat :: x < |v| ==> x in free || Owned(routes, x)
    }

    // ---- adding

    /** Lines 132-140: an entry that no route uses. */
    method TakeEntry(p: Prefix, hop: Hop) returns (found: nat)
      requires Valid()
      modifies `v, `free
      ensures Tree() && Entries() && defaultKey < |v| && found < |v| && |v| >= |old(v)|
      ensures found !in free && v[found] == Route(p, hop)
      ensures forall x :: 0 <= x < |old(v)| && x != found ==> v[x] == old(v)[x]
      ensures forall q :: q in routes ==> routes[q] != found && routes[q] < |old(v)| && v[routes[q]] == old(v)[routes[q]]
      ensures if old(free) == [] then found == |old(v)| && free == [] else found == old(free)[0] && free == old(free)[1..]
      ensures |v| == if old(free) == [] then |old(v)| + 1 else |old(v)|
    {
      if free == [] {
        found := |v|;
        v := v + [Route(p, hop)];
      } else {
        found := free[0];
        free := free[1..];
        v := v[found := Route(p, hop)];
      }
      forall q | q in routes
        ensures RouteOk(q) && routes[q] != found && routes[q] < |old(v)| && v[routes[q]] == old(v)[routes[q]]
      {
        assert old(RouteOk(q));
      }
    }

    /** Lines 132-140: taking an entry changes no route. */
    method Take(p: Prefix, hop: Hop) returns (found: nat)
      requires Valid()
      modifies `v, `free
      ensures Valid() && Hops() == old(Hops()) && found < |v| && |v| >= |old(v)|
      ensures found !in free && v[found] == Route(p, hop) && forall q :: q in routes ==> routes[q] != found
      ensures forall x :: 0 <= x < |old(v)| && x != found ==> v[x] == old(v)[x]
      ensures if old(free) == [] then found == |old(v)| && free == [] else found == old(free)[0] && free == old(free)[1..]
      ensures |v| == if old(free) == [] then |old(v)| + 1 else |old(v)|
    {
      found := TakeEntry(p, hop);
      ListsFrame(old(v), routes, Lists(), v);
      HopsKept();
    }

    /** Lines 152-169: where a prefix is on its node's list. */
    method FindListed(home: Radix, p: Prefix) returns (k: int)
      requires Stored(home.list)
      ensures -1 <= k < |home.list|
      ensures if k < 0 then forall m :: 0 <= m < |home.list| ==> v[home.list[m]].p != p
              else v[home.list[k]].p == p
    {
      k := 0;
      while k < |home.list|
        invariant 0 <= k <= |home.list|
        invariant forall m :: 0 <= m < k ==> v[home.list[m]].p != p
      {
        if v[home.list[k]].p == p { return; }
        k := k + 1;
      }
      k := -1;
    }

    ghost predicate Stored(l: seq<nat>)
      reads this
    {
      forall k :: 0 <= k < |l| ==> l[k] < |v|
    }

    /** Lines 154-172: entry `found` in the place `k` of another, or at the end of the list. */
    method Put(home: Radix, found: nat, k: int, allowReplace: bool)
      requires -1 <= k < |home.list| && found < |v| && Stored(home.list)
      modifies `v, `free, home`list
      ensures home.list == Placing(old(home.list), found, k)
      ensures free == if k >= 0 then [old(home.list)[k]] + old(free) else old(free)
      ensures v == if k >= 0 && !allowReplace then old(v)[found := old(v)[old(home.list)[k]]] else old(v)
    {
      if k >= 0 {
        var j := home.list[k];
        if !allowReplace {
          v := v[found := v[j]];
        }
        home.list := home.list[k := found];
        free := [j] + free;
      } else {
        home.list := home.list + [found];
      }
    }

    /** What a prefix's list must be for an entry to be put on it. */
    ghost predicate Linkable(home: Radix, p: Prefix, found: nat)
      reads this, nodes.Values
    {
      && Tree() && Entries() && ListsOk(v, routes, Lists())
      && Canonical(p) && 0 < p.len && Home(p) in nodes && home == nodes[Home(p)]
      && found < |v| && v[found].p == p && found !in free && (forall q :: q in routes ==> routes[q] != found)
    }

    /** Lines 154-172, and the map that goes with the lists. */
    method Settle(home: Radix, p: Prefix, found: nat, k: int, allowReplace: bool)
      requires Linkable(home, p, found) && Stored(home.list) && -1 <= k < |home.list| && (k >= 0 <==> p in routes)
      requires k >= 0 ==> routes[p] == home.list[k] && v[home.list[k]] == Route(p, Hops()[p])
      modifies `v, `free, `routes, home`list
      ensures Tree() && Entries() && ListsOk(v, routes, Lists()) && Slots() == old(Slots())
      ensures routes == old(routes)[p := found] && found < |v| == |old(v)| && free == Returned(old(free), old(routes), p)
      ensures v == if p in old(routes) && !allowReplace then old(v)[found := Route(p, old(Hops())[p])] else old(v)
      ensures Hops() == old(Hops())[p := v[found].hop]
    {
      Put(home, found, k, allowReplace);
      routes := routes[p := found];
      Settled(p, found, k);
    }

    /** Lines 152-153: the entry for the prefix on its node's list, and what is reported of it. */
    method Locate(home: Radix, p: Prefix, ghost found: nat, allowReplace: bool)
      returns (k: int, status: Status, old_route: Option<Hop>)
      requires Linkable(home, p, found)
      ensures Stored(home.list) && -1 <= k < |home.list| && (k >= 0 <==> p in routes)
      ensures k >= 0 ==> routes[p] == home.list[k] && v[home.list[k]] == Route(p, Hops()[p])
      ensures status == if p in routes && !allowReplace then Exists else Ok
      ensures old_route == if p in routes then Some(Hops()[p]) else None
    {
      OnList(p);
      k := FindListed(home, p);
      Placed(p, k);
      old_route := if k >= 0 then Some(v[home.list[k]].hop) else None;
      status := if k >= 0 && !allowReplace then Exists else Ok;
    }

    /** Lines 152-172: the entry takes its place on the list, or that of an entry for the same prefix. */
    method Link(home: Radix, p: Prefix, found: nat, allowReplace: bool) returns (status: Status, old_route: Option<Hop>)
      requires Linkable(home, p, found)
      modifies `v, `free, `routes, home`list
      ensures Tree() && Entries() && ListsOk(v, routes, Lists()) && Slots() == old(Slots())
      ensures routes == old(routes)[p := found] && found < |v| == |old(v)| && free == Returned(old(free), old(routes), p)
      ensures status == if p in old(routes) && !allowReplace then Exists else Ok
      ensures old_route == if p in old(routes) then Some(old(Hops())[p]) else None
      ensures v == if status == Exists then old(v)[found := Route(p, old(Hops())[p])] else old(v)
      ensures Hops() == old(Hops())[p := v[found].hop]
    {
      var k;
      k, status, old_route := Locate(home, p, found, allowReplace);
      Settle(home, p, found, k, allowReplace);
    }

    twostate lemma Settled(new p: Prefix, new found: nat, new k: int)
      requires old(Tree()) && old(Entries()) && 0 < p.len <= 32 && Canonical(p) && nodes == old(nodes)
      requires Home(p) in nodes && old(ListsOk(v, routes, Lists()))
      requires routes == old(routes)[p := found] && found < |v| == |old(v)| && v[found].p == p
      requires found !in old(free) && forall q :: q in old(routes) ==> old(routes)[q] != found
      requires forall x :: 0 <= x < |v| && x != found ==> v[x] == old(v)[x]
      requires forall r <- old(nodes.Values) :: r != nodes[Home(p)] ==> unchanged(r)
      requires nodes[Home(p)].slots == old(nodes[Home(p)].slots) && nodes[Home(p)].kids == old(nodes[Home(p)].kids)
      requires nodes[Home(p)].list == Placing(old(nodes[Home(p)].list), found, k)
      requires k < 0 ==> p !in old(routes) && free == old(free)
      requires k >= 0 ==>
        k < |old(nodes[Home(p)].list)| && p in old(routes) && old(routes)[p] == old(nodes[Home(p)].list)[k]
        && free == [old(routes)[p]] + old(free)
      ensures Tree() && Entries() && ListsOk(v, routes, Lists()) && Slots() == old(Slots())
      ensures Hops() == old(Hops())[p := v[found].hop]
    {
      TreeKept(Home(p));
      SlotsKept(Home(p));
      Linked(p, found, k);
      HopsNow(p, found);
    }

    twostate lemma HopsNow(new p: Prefix, new found: nat)
      requires old(Entries()) && Entries() && routes == old(routes)[p := found] && |v| == |old(v)|
      requires forall x :: 0 <= x < |v| && x != found ==> v[x] == old(v)[x]
      requires forall q :: q in old(routes) ==> old(routes)[q] != found
      ensures found < |v| && Hops() == old(Hops())[p := v[found].hop]
    {
      assert RouteOk(p);
      forall q | q in old(routes)
        ensures old(routes)[q] < |v| && v[old(routes)[q]] == old(v)[old(routes)[q]]
      {
        assert old(RouteOk(q));
      }
    }

    /** The list of a prefix's node. */
    lemma OnList(p: Prefix)
      requires Tree() && 0 < p.len <= 32 && Home(p) in nodes && ListsOk(v, routes, Lists())
      ensures Stored(nodes[Home(p)].list) && ListOk(v, routes, Home(p), nodes[Home(p)].list)
    {
      assert Lists()[Home(p)] == nodes[Home(p)].list;
      var l := nodes[Home(p)].list;
      forall k | 0 <= k < |l|
        ensures l[k] < |v|
      {
        assert Listed(v, routes, Home(p), l[k]);
      }
    }

    /** A prefix is on its node's list exactly when it is routed. */
    lemma Placed(p: Prefix, k: int)
      requires Tree() && Entries() && 0 < p.len <= 32 && Home(p) in nodes && ListsOk(v, routes, Lists())
      requires Stored(nodes[Home(p)].list) && -1 <= k < |nodes[Home(p)].list|
      requires if k < 0 then forall m :: 0 <= m < |nodes[Home(p)].list| ==> v[nodes[Home(p)].list[m]].p != p
               else v[nodes[Home(p)].list[k]].p == p
      ensures k >= 0 <==> p in routes
      ensures k >= 0 ==> routes[p] == nodes[Home(p)].list[k]
    {
      OnList(p);
      if p in routes {
        var m := PlaceOf(p);
      }
      if k >= 0 {
        assert Listed(v, routes, Home(p), nodes[Home(p)].list[k]);
      }
    }

    lemma PlaceOf(p: Prefix) returns (m: nat)
      requires Tree() && Entries() && p in routes && 0 < p.len <= 32 && Home(p) in nodes
      requires ListOk(v, routes, Home(p), nodes[Home(p)].list)
      ensures m < |nodes[Home(p)].list| && nodes[Home(p)].list[m] == routes[p] < |v| && v[routes[p]].p == p
    {
      HomeUnder(Home(p), p);
      assert RouteOk(p);
      m :| m < |nodes[Home(p)].list| && nodes[Home(p)].list[m] == routes[p];
    }

    twostate lemma Linked(new p: Prefix, new found: nat, new k: int)
      requires old(Tree()) && old(Entries()) && Tree() && 0 < p.len <= 32 && Canonical(p) && nodes == old(nodes)
      requires Home(p) in nodes && old(ListsOk(v, routes, Lists()))
      requires routes == old(routes)[p := found] && found < |v| == |old(v)| && v[found].p == p
      requires found !in old(free) && forall q :: q in old(routes) ==> old(routes)[q] != found
      requires forall x :: 0 <= x < |v| && x != found ==> v[x] == old(v)[x]
      requires forall c :: c in nodes && c != Home(p) ==> nodes[c].list == old(nodes[c].list)
      requires nodes[Home(p)].list == Placing(old(nodes[Home(p)].list), found, k)
      requires k < 0 ==> p !in old(routes) && free == old(free)
      requires k >= 0 ==>
        k < |old(nodes[Home(p)].list)| && p in old(routes) && old(routes)[p] == old(nodes[Home(p)].list)[k]
        && free == [old(routes)[p]] + old(free)
      ensures Entries() && ListsOk(v, routes, Lists())
    {
      forall q | q in routes
        ensures RouteOk(q)
      {
        assert q != p ==> old(RouteOk(q));
      }
      if p in old(routes) {
        assert old(RouteOk(p));
      }
      forall c | c in nodes
        ensures ListOk(v, routes, c, nodes[c].list)
      {
        assert old(Lists())[c] == old(nodes[c].list);
        HomeUnder(c, p);
        forall q | q in old(routes)
          ensures old(routes)[q] < |v| && v[old(routes)[q]] == old(v)[old(routes)[q]] && v[old(routes)[q]].p == q
        {
          assert old(RouteOk(q));
        }
        if c == Home(p) {
          ListPlaced(old(v), old(routes), c, old(nodes[c].list), v, p, found, k);
        } else {
          ListElsewhere(old(v), old(routes), c, old(nodes[c].list), v, p, found);
        }
      }
    }

    lemma NodesFacts()
      requires Tree() && Entries()
      ensures Housed(routes, Slots()) && AllCanonicalNodes(Slots())
      ensures HomesIn(routes, Lists())
      ensures NodeOk(ROOT)
    {
      forall p | p in routes
        ensures 0 < p.len <= 32 && Home(p) in nodes
      {
        assert RouteOk(p);
      }
      forall c | c in nodes
        ensures Canonical(c) && Level(c.len) && |nodes[c].slots| == Fan(c.len)
      {
        assert NodeOk(c);
      }
    }

    twostate lemma EntriesKept()
      requires old(Entries()) && Larger() && v == old(v) && free == old(free) && routes == old(routes)
      ensures Entries()
    {
      forall p | p in routes
        ensures RouteOk(p)
      {
        assert old(RouteOk(p));
      }
    }

    /** A change from the root down, for any of the slots of `p`. */
    method ChangeFromRoot(p: Prefix, key: int) returns (home: Radix)
      requires Tree() && Entries() && ListsOk(v, routes, Lists()) && Canonical(p) && 0 < p.len
      modifies `nodes, nodes.Values
      ensures Tree() && Entries() && ListsOk(v, routes, Lists())
      ensures AllCanonicalNodes(Slots())
      ensures Rewritten(old(Slots()), Slots(), p, key, Mask(p.len)) && SameLists(old(Lists()), Lists())
      ensures Larger() && forall c :: c in nodes && c !in old(nodes) ==> fresh(nodes[c])
      ensures Home(p) in nodes && home == nodes[Home(p)]
    {
      NodesFacts();
      ghost var ls, rt := Lists(), routes;
      assert ListsOk(v, rt, ls) && HomesIn(rt, ls);
      AtZero(p.addr);
      home := Change(radix, p.addr, Size(p.len), key, Mask(p.len), ROOT, p);
      Grown(rt, ls);
    }

    /** New nodes change no route and no list. */
    twostate lemma Grown(new rt: map<Prefix, nat>, new ls: map<Prefix, seq<nat>>)
      requires old(Entries()) && Tree() && Larger() && v == old(v) && free == old(free) && rt == routes == old(routes)
      requires ListsOk(v, rt, ls) && SameLists(ls, Lists()) && HomesIn(rt, ls)
      ensures Entries() && ListsOk(v, routes, Lists()) && AllCanonicalNodes(Slots())
    {
      EntriesKept();
      NodesFacts();
      ListsGrow(v, routes, ls, Lists());
    }

    /** Line 145: the slots `p` covers are offered the entry. */
    method Plant(p: Prefix, found: nat) returns (home: Radix)
      requires Tree() && Entries() && KeysOk(routes, Slots()) && ListsOk(v, routes, Lists())
      requires Canonical(p) && 0 < p.len
      modifies `nodes, nodes.Values
      ensures Tree() && Entries() && ListsOk(v, routes, Lists()) && KeysOk(routes[p := found], Slots())
      ensures Larger() && forall c :: c in nodes && c !in old(nodes) ==> fresh(nodes[c])
      ensures Home(p) in nodes && home == nodes[Home(p)]
    {
      NodesFacts();
      home := ChangeFromRoot(p, found);
      ChangeAdds(routes, old(Slots()), Slots(), p, found);
    }

    /** Lines 139-172 for a route other than the default. */
    method AddKept(p: Prefix, found: nat, allowReplace: bool) returns (status: Status, old_route: Option<Hop>)
      requires Valid() && Canonical(p) && 0 < p.len && found < |v| && v[found].p == p
      requires found !in free && forall q :: q in routes ==> routes[q] != found
      modifies `v, `free, `routes, `nodes, nodes.Values
      ensures Valid() && forall c :: c in nodes && (c !in old(nodes) || nodes[c] != old(nodes)[c]) ==> fresh(nodes[c])
      ensures status == if p in old(routes) && !allowReplace then Exists else Ok
      ensures old_route == if p in old(routes) then Some(old(Hops())[p]) else None
      ensures Hops() == if status == Ok then old(Hops())[p := old(v)[found].hop] else old(Hops())
      ensures v == if status == Exists then old(v)[found := Route(p, old(Hops())[p])] else old(v)
      ensures routes == old(routes)[p := found] && free == Returned(old(free), old(routes), p)
    {
      var home := Plant(p, found);
      HopsKept();
      status, old_route := Link(home, p, found, allowReplace);
    }

    /** Lines 148-149 and 164-167: the list is searched from the new entry, which matches itself. */
    method KeepDefault(found: nat)
      requires Valid() && found < |v| && found !in free && forall q :: q in routes ==> routes[q] != found
      modifies `defaultKey, `free
      ensures Valid() && defaultKey == found && free == [found] + old(free)
    {
      defaultKey := found;
      free := [found] + free;
      forall q | q in routes
        ensures RouteOk(q)
      {
        assert old(RouteOk(q));
      }
    }

    /**
     * Lines 129-173. An entry for the default route is found on the list it has
     * just been put on, and freed while the default key still names it.
     */
    method AddRoute(p: Prefix, hop: Hop, allowReplace: bool) returns (status: Status, old_route: Option<Hop>)
      requires Valid() && Canonical(p)
      modifies this, nodes.Values
      ensures Valid() && forall c :: c in nodes && (c !in old(nodes) || nodes[c] != old(nodes)[c]) ==> fresh(nodes[c])
      ensures p.len > 0 ==> status == if p in old(routes) && !allowReplace then Exists else Ok
      ensures p.len > 0 ==> old_route == if p in old(routes) then Some(old(Hops())[p]) else None
      ensures p.len > 0 ==> Hops() == if status == Ok then old(Hops())[p := hop] else old(Hops())
      ensures p.len > 0 ==> defaultKey == old(defaultKey)
      // the head of the free entries is used, accepted or refused, whoever still names it
      ensures p.len > 0 && old(free) != [] ==>
        p in Hops() && old(free)[0] < |v| && v[old(free)[0]] == Route(p, Hops()[p])
      ensures p.len > 0 ==> forall x :: 0 <= x < |old(v)| && (old(free) == [] || x != old(free)[0]) ==>
        x < |v| && v[x] == old(v)[x]
      ensures p.len > 0 && old(KeepsDefault()) ==>
        (KeepsDefault() <==> old(free) == [] || old(free)[0] != old(defaultKey))
      ensures p.len == 0 ==> status == Ok && old_route == Some(hop) && Hops() == old(Hops())
      ensures p.len == 0 ==> defaultKey >= 0 && v[defaultKey] == Route(p, hop) && free != [] && free[0] == defaultKey
      ensures old(NoLeak()) ==> NoLeak()
    {
      var found := Take(p, hop);
      ghost var rest := free;
      if p.len == 0 {
        KeepDefault(found);
        OwnedOrFirst(old(free), routes, rest, found);
        return Ok, Some(hop);
      }
      status, old_route := AddKept(p, found, allowReplace);
      StillOwned(old(free), old(routes), rest, p, found);
    }

    twostate lemma HopsKept()
      requires old(Entries()) && Entries() && routes == old(routes)
      requires v == old(v) || forall q :: q in routes ==>
        routes[q] < |old(v)| && routes[q] < |v| && v[routes[q]] == old(v)[routes[q]]
      ensures Hops() == old(Hops())
    {
      forall q | q in routes
        ensures routes[q] < |v| && routes[q] < |old(v)| && v[routes[q]] == old(v)[routes[q]]
      {
        assert old(RouteOk(q));
      }
    }

    // ---- removing

    /** `route.match`: a negative port in the request matches any route to the prefix. */
    predicate Matches(p: Prefix, hop: Hop, j: nat)
      requires j < |v|
      reads `v
    {
      v[j].p == p && (hop.port < 0 || v[j].hop == hop)
    }

    /** The routes there are to be. */
    ghost function Goal(p: Prefix, hop: Hop): map<Prefix, nat>
      requires Entries()
      reads this
    {
      if p in routes && (assert RouteOk(p); Matches(p, hop, routes[p])) then routes - {p} else routes
    }

    /** Line 181: the covered slots are cleared of all that covers `p`. */
    method Clear(p: Prefix, ghost goal: map<Prefix, nat>) returns (home: Radix)
      requires Tree() && Entries() && KeysOk(routes, Slots()) && ListsOk(v, routes, Lists())
      requires Canonical(p) && 0 < p.len && (goal == routes || goal == routes - {p})
      modifies `nodes, nodes.Values
      ensures Tree() && Entries() && ListsOk(v, routes, Lists())
      ensures KeysMixed(goal, Apart(goal, p), p, Slots())
      ensures Larger() && forall c :: c in nodes && c !in old(nodes) ==> fresh(nodes[c])
      ensures Home(p) in nodes && home == nodes[Home(p)]
    {
      NodesFacts();
      home := ChangeFromRoot(p, -1);
      ChangeClears(routes, goal, old(Slots()), Slots(), p);
    }

    /** Line 199: a route that covers `p` is offered to its slots again. */
    method Reinsert(r: Prefix, j: nat, ghost p: Prefix, ghost goal: map<Prefix, nat>, ghost some: map<Prefix, nat>)
      requires Tree() && Entries() && ListsOk(v, routes, Lists()) && Canonical(r) && Canonical(p)
      requires 0 < p.len && KeysMixed(goal, some, p, Slots()) && Over(r, p) && 0 < r.len && Home(r) == Home(p) && r in goal
      requires r in routes && routes[r] == goal[r] == j && (forall q :: q in goal ==> q in routes) && Home(p) in nodes
      modifies `nodes, nodes.Values
      ensures Tree() && Entries() && ListsOk(v, routes, Lists())
      ensures KeysMixed(goal, some[r := goal[r]], p, Slots())
      ensures Larger() && forall c :: c in nodes && c !in old(nodes) ==> fresh(nodes[c])
      ensures forall c :: c in old(nodes) ==> nodes[c].list == old(nodes[c].list)
    {
      NodesFacts();
      var home := ChangeFromRoot(r, j);
      ChangeReinserts(goal, some, old(Slots()), Slots(), p, r);
      ListsStay();
    }

    twostate lemma ListsStay()
      requires Larger() && SameLists(old(Lists()), Lists())
      ensures forall c :: c in old(nodes) ==> nodes[c].list == old(nodes[c].list)
    {
      forall c | c in old(nodes)
        ensures nodes[c].list == old(nodes[c].list)
      {
        assert c in old(Lists()) && Lists()[c] == old(Lists())[c];
      }
    }

    /** Lines 190-201 for one entry of the list: is it the route, and if not, is it to be offered again? */
    method Visit(j: nat, p: Prefix, hop: Hop, ghost goal: map<Prefix, nat>, ghost some: map<Prefix, nat>)
      returns (match_: bool, ghost some': map<Prefix, nat>)
      requires Tree() && Entries() && ListsOk(v, routes, Lists()) && Canonical(p) && 0 < p.len && Home(p) in nodes
      requires KeysMixed(goal, some, p, Slots()) && Listed(v, routes, Home(p), j)
      requires goal == Goal(p, hop)
      modifies `nodes, nodes.Values
      ensures Tree() && Entries() && ListsOk(v, routes, Lists())
      ensures Larger() && forall c :: c in nodes && c !in old(nodes) ==> fresh(nodes[c])
      ensures forall c :: c in old(nodes) ==> nodes[c].list == old(nodes[c].list)
      ensures KeysMixed(goal, some', p, Slots())
      ensures match_ <==> v[j].p == p && Matches(p, hop, j)
      ensures some' == if !match_ && Over(v[j].p, p) then some[v[j].p := j] else some
    {
      some' := some;
      match_ := Matches(p, hop, j);
      if !match_ && Over(v[j].p, p) {
        HomeUnder(Home(p), v[j].p);
        assert RouteOk(v[j].p);
        Reinsert(v[j].p, j, p, goal, some);
        some' := some[v[j].p := j];
      }
    }

    /** Lines 191-196: the entry is taken off the list and freed. */
    method Unlink(home: Radix, p: Prefix, k: nat)
      requires Tree() && Entries() && ListsOk(v, routes, Lists()) && Canonical(p) && 0 < p.len
      requires Home(p) in nodes && home == nodes[Home(p)] && k < |home.list| && p in routes && home.list[k] == routes[p]
      modifies `free, `routes, home`list
      ensures Tree() && Entries() && ListsOk(v, routes, Lists()) && Slots() == old(Slots())
      ensures routes == old(routes) - {p} && home.list == old(home.list)[..k] + old(home.list)[k + 1..]
      ensures free == Returned(old(free), old(routes), p)
    {
      var j := home.list[k];
      home.list := home.list[..k] + home.list[k + 1..];
      free := [j] + free;
      routes := routes - {p};
      TreeKept(Home(p));
      SlotsKept(Home(p));
      Unlinked(p, k);
    }

    twostate lemma Unlinked(new p: Prefix, new k: nat)
      requires old(Tree()) && old(Entries()) && Tree() && Canonical(p) && 0 < p.len && nodes == old(nodes) && v == old(v)
      requires Home(p) in nodes && old(ListsOk(v, routes, Lists())) && p in old(routes) && routes == old(routes) - {p}
      requires k < |old(nodes[Home(p)].list)| && old(nodes[Home(p)].list)[k] == old(routes)[p]
      requires free == [old(routes)[p]] + old(free)
      requires forall c :: c in nodes && c != Home(p) ==> nodes[c].list == old(nodes[c].list)
      requires nodes[Home(p)].list == old(nodes[Home(p)].list)[..k] + old(nodes[Home(p)].list)[k + 1..]
      ensures Entries() && ListsOk(v, routes, Lists())
    {
      assert old(RouteOk(p));
      forall q | q in old(routes)
        ensures old(routes)[q] < |v| && v[old(routes)[q]].p == q && (q in routes ==> RouteOk(q))
      {
        assert old(RouteOk(q));
      }
      forall c | c in nodes
        ensures ListOk(v, routes, c, nodes[c].list)
      {
        assert old(Lists())[c] == old(nodes[c].list);
        HomeUnder(c, p);
        if c == Home(p) {
          ListWithout(v, old(routes), c, old(nodes[c].list), p, k);
        } else {
          ListApart(v, old(routes), c, old(nodes[c].list), p);
        }
      }
    }

    /** One entry further along the list. */
    lemma OfferedNext(l: seq<nat>, k: nat, p: Prefix, goal: map<Prefix, nat>, some: map<Prefix, nat>, gone: bool)
      requires Entries() && Canonical(p) && k < |l| && Offered(l, k, p, goal, some)
      requires l[k] < |v| && (forall r :: r in goal ==> r in routes && goal[r] == routes[r])
      requires v[l[k]].p in routes && routes[v[l[k]].p] == l[k]
      requires if gone then v[l[k]].p !in goal else v[l[k]].p in goal
      ensures var some' := if !gone && Over(v[l[k]].p, p) then some[v[l[k]].p := l[k]] else some;
        Offered(l, k + 1, p, goal, some') && (gone ==> Offered(l[..k] + l[k + 1..], k, p, goal, some))
    {
      var some' := if !gone && Over(v[l[k]].p, p) then some[v[l[k]].p := l[k]] else some;
      assert l[k..] == [l[k]] + l[k + 1..];
      assert (l[..k] + l[k + 1..])[k..] == l[k + 1..];
      forall r | r in goal && Over(r, p) && Kept(r, p)
        ensures r in some' || goal[r] in l[k + 1..]
      {
        assert RouteOk(r);
      }
    }

    lemma OfferedStart(l: seq<nat>, p: Prefix, goal: map<Prefix, nat>)
      requires Entries() && Canonical(p) && 0 < p.len && ListOk(v, routes, Home(p), l)
      requires forall r :: r in goal ==> r in routes && goal[r] == routes[r]
      ensures Offered(l, 0, p, goal, Apart(goal, p))
    {
      assert l[0..] == l;
      forall r | r in goal && Over(r, p) && Kept(r, p)
        ensures goal[r] in l
      {
        HomeUnder(Home(p), r);
      }
    }

    /** Where removal stands: the list visited up to `k`. */
    ghost predicate Removing(home: Radix, k: nat, p: Prefix, hop: Hop, goal: map<Prefix, nat>, some: map<Prefix, nat>)
      requires Canonical(p) && 0 < p.len
      reads this, nodes.Values
    {
      && Tree() && Entries() && ListsOk(v, routes, Lists()) && Home(p) in nodes && home == nodes[Home(p)]
      && goal == Goal(p, hop) && k <= |home.list|
      && KeysMixed(goal, some, p, Slots()) && Offered(home.list, k, p, goal, some)
      && (goal != routes ==> p in routes && routes[p] in home.list[k..])
    }

    /** Lines 189-201, one turn of the loop. */
    method RemoveStep(home: Radix, k: nat, p: Prefix, hop: Hop, ghost goal: map<Prefix, nat>, ghost some: map<Prefix, nat>)
      returns (gone: bool, ghost some': map<Prefix, nat>)
      requires Canonical(p) && 0 < p.len && Removing(home, k, p, hop, goal, some) && k < |home.list|
      modifies `free, `routes, `nodes, nodes.Values
      ensures Larger() && forall c :: c in nodes && c !in old(nodes) ==> fresh(nodes[c])
      ensures gone <==> p in old(routes) && routes == old(routes) - {p}
      ensures free == if gone then Returned(old(free), old(routes), p) else old(free)
      ensures !gone ==> routes == old(routes)
      ensures gone ==> goal == routes && old(home.list)[k] == old(routes)[p]
      ensures |home.list| == |old(home.list)| - if gone then 1 else 0
      ensures Removing(home, if gone then k else k + 1, p, hop, goal, some')
    {
      var j := home.list[k];
      OnList(p);
      assert Listed(v, routes, Home(p), j);
      gone, some' := Visit(j, p, hop, goal, some);
      OfferedNext(home.list, k, p, goal, some, gone);
      if gone {
        Unlink(home, p, k);
      }
    }

    /** Lines 188-203. */
    method RemoveAll(home: Radix, p: Prefix, hop: Hop, ghost goal: map<Prefix, nat>) returns (status: Status, found: nat)
      requires Canonical(p) && 0 < p.len && Removing(home, 0, p, hop, goal, Apart(goal, p))
      modifies `free, `routes, `nodes, nodes.Values
      ensures Larger() && forall c :: c in nodes && c !in old(nodes) ==> fresh(nodes[c])
      ensures Tree() && Entries() && ListsOk(v, routes, Lists()) && KeysOk(routes, Slots()) && routes == goal
      ensures status == if goal == old(routes) then NoEntry else Ok
      ensures status == Ok ==> p in old(routes) && found == old(routes)[p]
      ensures free == if status == Ok then Returned(old(free), old(routes), p) else old(free)
    {
      status, found := NoEntry, 0;
      ghost var some := Apart(goal, p);
      var k := 0;
      while k < |home.list|
        invariant 0 <= k && Removing(home, k, p, hop, goal, some)
        invariant Larger() && forall c :: c in nodes && c !in old(nodes) ==> fresh(nodes[c])
        invariant if status == Ok then routes == goal != old(routes) else status == NoEntry && routes == old(routes)
        invariant status == Ok ==> p in old(routes) && found == old(routes)[p] && p !in routes
        invariant free == if status == Ok then Returned(old(free), old(routes), p) else old(free)
        decreases |home.list| - k
      {
        var j := home.list[k];
        var gone;
        gone, some := RemoveStep(home, k, p, hop, goal, some);
        if gone {
          status, found := Ok, j;
        } else {
          k := k + 1;
        }
      }
      NodesFacts();
      AllOffered(home.list, p, goal, some, Slots());
    }

    lemma GoalHops(p: Prefix, hop: Hop)
      requires Entries()
      ensures Goal(p, hop) == if p in routes && (hop.port < 0 || Hops()[p] == hop) then routes - {p} else routes
      ensures p in routes ==> routes[p] < |v| && Hops()[p] == v[routes[p]].hop
    {
      if p in routes {
        assert RouteOk(p);
      }
    }

    twostate lemma HopsGone(new p: Prefix)
      requires old(Entries()) && Entries() && v == old(v)
      ensures routes == old(routes) ==> Hops() == old(Hops())
      ensures routes == old(routes) - {p} ==> Hops() == old(Hops()) - {p}
    {
    }

    /**
     * Lines 175-204 for a route other than the default: it goes if it is there,
     * and every slot is again held by the most specific route left.
     */
    method RemoveRoute(p: Prefix, hop: Hop) returns (status: Status, old_route: Option<Hop>)
      requires Valid() && Canonical(p) && 0 < p.len
      modifies `free, `routes, `nodes, nodes.Values
      ensures Valid() && forall c :: c in nodes && (c !in old(nodes) || nodes[c] != old(nodes)[c]) ==> fresh(nodes[c])
      ensures status == if p in old(routes) && (hop.port < 0 || old(Hops())[p] == hop) then Ok else NoEntry
      ensures old_route == if status == Ok then Some(old(Hops())[p]) else None
      ensures Hops() == if status == Ok then old(Hops()) - {p} else old(Hops())
      ensures old(NoLeak()) ==> NoLeak()
    {
      ghost var goal := Goal(p, hop);
      GoalHops(p, hop);
      var home := Clear(p, goal);
      OnList(p);
      OfferedStart(home.list, p, goal);
      var found;
      status, found := RemoveAll(home, p, hop, goal);
      OwnedWithout(old(free), old(routes), p);
      old_route := if status == Ok then Some(v[found].hop) else None;
      HopsGone(p);
    }
  }

  // ---- whose an entry is

  ghost predicate Owned(rt: map<Prefix, nat>, x: nat) {
    exists p :: p in rt && rt[p] == x
  }

  /** The free entries once the one `p` had is given back. */
  ghost function Returned(free: seq<nat>, rt: map<Prefix, nat>, p: Prefix): seq<nat> {
    if p in rt then [rt[p]] + free else free
  }

  /** An entry that another route has taken is given back by the one that had it. */
  lemma StillOwned(free: seq<nat>, rt: map<Prefix, nat>, rest: seq<nat>, p: Prefix, found: nat)
    requires forall x :: x in free ==> x == found || x in rest
    ensures forall x: nat :: x in free || Owned(rt, x) || x == found ==> x in Returned(rest, rt, p) || Owned(rt[p := found], x)
  {
    assert rt[p := found][p] == found;
    forall x: nat | Owned(rt, x)
      ensures x in Returned(rest, rt, p) || Owned(rt[p := found], x)
    {
      var q :| q in rt && rt[q] == x;
      assert q != p ==> rt[p := found][q] == x;
    }
  }

  lemma OwnedOrFirst(free: seq<nat>, rt: map<Prefix, nat>, rest: seq<nat>, found: nat)
    requires forall x :: x in free ==> x == found || x in rest
    ensures forall x: nat :: x in free || Owned(rt, x) || x == found ==> x in [found] + rest || Owned(rt, x)
  {
  }

  lemma OwnedWithout(free: seq<nat>, rt: map<Prefix, nat>, p: Prefix)
    ensures forall x: nat :: x in free || Owned(rt, x) ==> x in Returned(free, rt, p) || Owned(rt - {p}, x)
  {
    forall x: nat | Owned(rt, x)
      ensures x in Returned(free, rt, p) || Owned(rt - {p}, x)
    {
      var q :| q in rt && rt[q] == x;
      assert q != p ==> (rt - {p})[q] == x;
    }
  }

  // ---- what a change does to all slots

  /** A slot; a node that is not there has empty ones. */
  ghost function SlotIn(ss: map<Prefix, seq<Child>>, c: Prefix, i: nat): Child {
    if c in ss && i < |ss[c]| then ss[c][i] else EMPTY
  }

  ghost function NewSlot(ss: map<Prefix, seq<Child>>, c: Prefix, i: nat, p: Prefix, key: int, priority: int): Child
    requires Level(c.len) && 0 < p.len <= 32
  {
    if c == Home(p) && Contains(p, Slot(c, i).addr) then Changed(SlotIn(ss, c, i), key, priority) else SlotIn(ss, c, i)
  }

  ghost predicate Sized(ss: map<Prefix, seq<Child>>, ss': map<Prefix, seq<Child>>) {
    && (forall c :: c in ss ==> c in ss' && |ss[c]| == |ss'[c]|)
    && forall c :: c in ss' ==> Level(c.len) && |ss'[c]| == Fan(c.len)
  }

  ghost predicate SameSlots(ss: map<Prefix, seq<Child>>, ss': map<Prefix, seq<Child>>) {
    Sized(ss, ss') && forall c, i :: c in ss' && 0 <= i < |ss'[c]| ==> ss'[c][i] == SlotIn(ss, c, i)
  }

  ghost predicate Rewritten(ss: map<Prefix, seq<Child>>, ss': map<Prefix, seq<Child>>,
                            p: Prefix, key: int, priority: int)
    requires 0 < p.len <= 32
  {
    && Sized(ss, ss')
    && forall c, i :: c in ss' && 0 <= i < |ss'[c]| ==> ss'[c][i] == NewSlot(ss, c, i, p, key, priority)
  }

  ghost predicate SameLists(ls: map<Prefix, seq<nat>>, ls': map<Prefix, seq<nat>>) {
    && (forall c :: c in ls ==> c in ls')
    && forall c :: c in ls' ==> ls'[c] == if c in ls then ls[c] else []
  }

  lemma SameThenRewritten(ss: map<Prefix, seq<Child>>, ss1: map<Prefix, seq<Child>>, ss2: map<Prefix, seq<Child>>,
                          p: Prefix, key: int, priority: int)
    requires 0 < p.len <= 32 && SameSlots(ss, ss1) && Rewritten(ss1, ss2, p, key, priority)
    ensures Rewritten(ss, ss2, p, key, priority)
  {
    forall c, i | c in ss2 && 0 <= i < |ss2[c]|
      ensures ss2[c][i] == NewSlot(ss, c, i, p, key, priority)
    {
      assert SlotIn(ss1, c, i) == SlotIn(ss, c, i);
    }
  }

  lemma SameTwice(ls: map<Prefix, seq<nat>>, ls1: map<Prefix, seq<nat>>, ls2: map<Prefix, seq<nat>>)
    requires SameLists(ls, ls1) && SameLists(ls1, ls2)
    ensures SameLists(ls, ls2)
  {
  }

  // ---- all slots and all lists

  ghost predicate KeysOk(rt: map<Prefix, nat>, ss: map<Prefix, seq<Child>>) {
    forall c, i :: c in ss && 0 <= i < |ss[c]| ==> Level(c.len) && Keyed(rt, c, Slot(c, i).addr, ss[c][i])
  }

  /** Entry `j` is of a route kept at node `c`. */
  ghost predicate Listed(v: seq<Route>, rt: map<Prefix, nat>, c: Prefix, j: nat) {
    j < |v| && v[j].p in rt && rt[v[j].p] == j && Under(c, v[j].p)
  }

  /** The list of node `c` is of the routes kept there. */
  ghost predicate ListOk(v: seq<Route>, rt: map<Prefix, nat>, c: Prefix, l: seq<nat>) {
    && (forall k :: 0 <= k < |l| ==> Listed(v, rt, c, l[k]))
    && (forall k, m :: 0 <= k < m < |l| ==> l[k] != l[m])
    && (forall p :: p in rt && Under(c, p) ==> rt[p] in l)
  }

  /** Every route's node is there. */
  ghost predicate HomesIn(rt: map<Prefix, nat>, ls: map<Prefix, seq<nat>>) {
    forall p :: p in rt ==> 0 < p.len <= 32 && Home(p) in ls
  }

  ghost predicate ListsOk(v: seq<Route>, rt: map<Prefix, nat>, ls: map<Prefix, seq<nat>>) {
    forall c :: c in ls ==> ListOk(v, rt, c, ls[c])
  }

  /** What covers a slot within its node's window is kept at the node. */
  lemma SlotUnder(c: Prefix, i: nat, l: nat)
    requires Level(c.len) && Canonical(c) && i < Fan(c.len) && c.len < l <= SlotLen(c.len)
    ensures Under(c, At(Slot(c, i).addr, l))
  {
    var s := Slot(c, i).addr;
    SlotCanonical(c, i);
    TruncIdempotent(s, l);
    Nest(Trunc(s, l), s, c.len, l);
  }

  /** A node that is not there keeps no route. */
  lemma NothingKept(rt: map<Prefix, nat>, c: Prefix, i: nat)
    requires Level(c.len) && Canonical(c) && i < Fan(c.len) && forall p :: p in rt ==> !Under(c, p)
    ensures Keyed(rt, c, Slot(c, i).addr, EMPTY)
  {
    forall l: nat | c.len < l <= SlotLen(c.len)
      ensures At(Slot(c, i).addr, l) !in rt
    {
      SlotUnder(c, i, l);
    }
  }

  /** Slots of other nodes do not see `p`. */
  lemma KeyedElsewhere(rt: map<Prefix, nat>, rt': map<Prefix, nat>, c: Prefix, i: nat, ch: Child, p: Prefix)
    requires Level(c.len) && Canonical(c) && i < Fan(c.len) && !Under(c, p) && Keyed(rt, c, Slot(c, i).addr, ch)
    requires forall r :: r != p ==> (r in rt <==> r in rt') && (r in rt ==> rt[r] == rt'[r])
    ensures Keyed(rt', c, Slot(c, i).addr, ch)
  {
    forall l: nat | c.len < l <= SlotLen(c.len)
      ensures At(Slot(c, i).addr, l) != p
    {
      SlotUnder(c, i, l);
    }
    KeyedSame(rt, rt', c, Slot(c, i).addr, ch);
  }

  /** Every route's node is there. */
  ghost predicate Housed(rt: map<Prefix, nat>, ss: map<Prefix, seq<Child>>) {
    forall p :: p in rt ==> 0 < p.len <= 32 && Home(p) in ss
  }

  ghost predicate AllCanonicalNodes(ss: map<Prefix, seq<Child>>) {
    forall c :: c in ss ==> Canonical(c) && Level(c.len) && |ss[c]| == Fan(c.len)
  }

  /** Before a change, the slots of nodes there are and of nodes there will be are right. */
  lemma KeyedBefore(rt: map<Prefix, nat>, ss: map<Prefix, seq<Child>>, c: Prefix, i: nat)
    requires KeysOk(rt, ss) && Housed(rt, ss) && AllCanonicalNodes(ss) && Level(c.len) && Canonical(c) && i < Fan(c.len)
    ensures Keyed(rt, c, Slot(c, i).addr, SlotIn(ss, c, i))
  {
    if c !in ss {
      forall p | p in rt
        ensures !Under(c, p)
      {
        HomeUnder(c, p);
      }
      NothingKept(rt, c, i);
    }
  }

  /** A change with the index of a route makes the slots right with it. */
  lemma ChangeAdds(rt: map<Prefix, nat>, ss: map<Prefix, seq<Child>>, ss': map<Prefix, seq<Child>>, p: Prefix, j: nat)
    requires KeysOk(rt, ss) && Housed(rt, ss) && AllCanonicalNodes(ss) && AllCanonicalNodes(ss')
    requires 0 < p.len <= 32 && Rewritten(ss, ss', p, j, Mask(p.len))
    ensures KeysOk(rt[p := j], ss')
  {
    forall c, i | c in ss' && 0 <= i < |ss'[c]|
      ensures Keyed(rt[p := j], c, Slot(c, i).addr, ss'[c][i])
    {
      KeyedBefore(rt, ss, c, i);
      HomeUnder(c, p);
      if c == Home(p) {
        KeyedAdd(rt, c, Slot(c, i).addr, SlotIn(ss, c, i), p, j);
      } else {
        KeyedElsewhere(rt, rt[p := j], c, i, SlotIn(ss, c, i), p);
      }
    }
  }

  /** New nodes keep nothing. */
  lemma ListsGrow(v: seq<Route>, rt: map<Prefix, nat>, ls: map<Prefix, seq<nat>>, ls': map<Prefix, seq<nat>>)
    requires ListsOk(v, rt, ls) && SameLists(ls, ls') && forall p :: p in rt ==> 0 < p.len <= 32 && Home(p) in ls
    ensures ListsOk(v, rt, ls')
  {
    forall c | c in ls'
      ensures ListOk(v, rt, c, ls'[c])
    {
      if c !in ls {
        forall p | p in rt
          ensures !Under(c, p)
        {
          HomeUnder(c, p);
        }
      }
    }
  }

  /** The list with an entry placed at `k`, or at the end. */
  ghost function Placing(l: seq<nat>, found: nat, k: int): seq<nat> {
    if 0 <= k < |l| then l[k := found] else l + [found]
  }

  lemma ListElsewhere(v: seq<Route>, rt: map<Prefix, nat>, c: Prefix, l: seq<nat>,
                      v': seq<Route>, p: Prefix, found: nat)
    requires ListOk(v, rt, c, l) && !Under(c, p)
    requires forall q :: q in rt ==> rt[q] < |v| && rt[q] < |v'| && v'[rt[q]] == v[rt[q]]
    ensures ListOk(v', rt[p := found], c, l)
  {
    forall k | 0 <= k < |l|
      ensures Listed(v', rt[p := found], c, l[k])
    {
      assert Listed(v, rt, c, l[k]);
    }
  }

  lemma ListPlaced(v: seq<Route>, rt: map<Prefix, nat>, c: Prefix, l: seq<nat>,
                   v': seq<Route>, p: Prefix, found: nat, k: int)
    requires ListOk(v, rt, c, l) && Under(c, p) && found < |v'| && v'[found].p == p
    requires forall q :: q in rt ==>
      rt[q] < |v| && rt[q] < |v'| && v'[rt[q]] == v[rt[q]] && rt[q] != found && v[rt[q]].p == q
    requires if k < 0 then p !in rt else k < |l| && p in rt && rt[p] == l[k]
    ensures ListOk(v', rt[p := found], c, Placing(l, found, k))
  {
    var rt', l' := rt[p := found], Placing(l, found, k);
    forall m | 0 <= m < |l'|
      ensures Listed(v', rt', c, l'[m])
      ensures m < |l| && m != k ==> l'[m] != found
    {
      if m < |l| && m != k {
        assert Listed(v, rt, c, l[m]);
        assert k >= 0 ==> l[m] != l[k];
      }
    }
    forall q | q in rt' && Under(c, q)
      ensures rt'[q] in l'
    {
      if q == p {
        assert l'[if k < 0 then |l| else k] == found;
      } else {
        var m: nat :| m < |l| && l[m] == rt[q];
        assert Listed(v, rt, c, l[m]);
        assert l'[m] == l[m];
      }
    }
  }

  /** Entries no route names may be rewritten. */
  lemma ListsFrame(v: seq<Route>, rt: map<Prefix, nat>, ls: map<Prefix, seq<nat>>, v': seq<Route>)
    requires ListsOk(v, rt, ls) && forall q :: q in rt ==> rt[q] < |v| && rt[q] < |v'| && v'[rt[q]] == v[rt[q]]
    ensures ListsOk(v', rt, ls)
  {
    forall c | c in ls
      ensures ListOk(v', rt, c, ls[c])
    {
      forall k | 0 <= k < |ls[c]|
        ensures Listed(v', rt, c, ls[c][k])
      {
        assert Listed(v, rt, c, ls[c][k]);
      }
    }
  }

  // ---- removal

  /** Slots `p` covers are right for `some`, all others for `goal`. */
  ghost predicate KeysMixed(goal: map<Prefix, nat>, some: map<Prefix, nat>, p: Prefix, ss: map<Prefix, seq<Child>>)
    requires 0 < p.len <= 32
  {
    forall c, i :: c in ss && 0 <= i < |ss[c]| ==>
      Level(c.len) && Keyed(MapFor(goal, some, p, c, i), c, Slot(c, i).addr, ss[c][i])
  }

  ghost function MapFor(goal: map<Prefix, nat>, some: map<Prefix, nat>, p: Prefix, c: Prefix, i: nat): map<Prefix, nat>
    requires 0 < p.len <= 32
  {
    if Level(c.len) && c == Home(p) && Contains(p, Slot(c, i).addr) then some else goal
  }

  lemma ChangeClears(rt: map<Prefix, nat>, goal: map<Prefix, nat>,
                     ss: map<Prefix, seq<Child>>, ss': map<Prefix, seq<Child>>, p: Prefix)
    requires KeysOk(rt, ss) && Housed(rt, ss) && AllCanonicalNodes(ss) && AllCanonicalNodes(ss')
    requires Canonical(p) && 0 < p.len && Rewritten(ss, ss', p, -1, Mask(p.len))
    requires goal == rt || goal == rt - {p}
    ensures KeysMixed(goal, Apart(goal, p), p, ss')
  {
    assert Apart(goal, p) == Apart(rt, p);
    forall c, i | c in ss' && 0 <= i < |ss'[c]|
      ensures Keyed(MapFor(goal, Apart(goal, p), p, c, i), c, Slot(c, i).addr, ss'[c][i])
    {
      KeyedBefore(rt, ss, c, i);
      HomeUnder(c, p);
      var s := Slot(c, i).addr;
      if c == Home(p) && Contains(p, s) {
        KeyedClear(rt, c, s, SlotIn(ss, c, i), p);
      } else if c == Home(p) {
        KeyedSame(rt, goal, c, s, SlotIn(ss, c, i));
      } else {
        KeyedElsewhere(rt, goal, c, i, SlotIn(ss, c, i), p);
      }
    }
  }

  lemma ChangeReinserts(goal: map<Prefix, nat>, some: map<Prefix, nat>,
                        ss: map<Prefix, seq<Child>>, ss': map<Prefix, seq<Child>>, p: Prefix, r: Prefix)
    requires Canonical(p) && 0 < p.len && KeysMixed(goal, some, p, ss)
    requires AllCanonicalNodes(ss) && AllCanonicalNodes(ss') && Housed(goal, ss)
    requires Over(r, p) && 0 < r.len && Home(r) == Home(p) && r in goal && Home(p) in ss
    requires Rewritten(ss, ss', r, goal[r], Mask(r.len))
    ensures KeysMixed(goal, some[r := goal[r]], p, ss')
  {
    var j := goal[r];
    assert goal[r := j] == goal;
    forall c, i | c in ss' && 0 <= i < |ss'[c]|
      ensures Keyed(MapFor(goal, some[r := j], p, c, i), c, Slot(c, i).addr, ss'[c][i])
    {
      var s := Slot(c, i).addr;
      if c == Home(p) {
        HomeUnder(c, r);
        if Contains(p, s) {
          NestUnder(p, s, r.len);
          KeyedAdd(some, c, s, ss[c][i], r, j);
        } else {
          KeyedAdd(goal, c, s, ss[c][i], r, j);
        }
      } else if c !in ss {
        forall q | q in goal
          ensures !Under(c, q)
        {
          HomeUnder(c, q);
        }
        NothingKept(goal, c, i);
      }
    }
  }

  lemma ListApart(v: seq<Route>, rt: map<Prefix, nat>, c: Prefix, l: seq<nat>, p: Prefix)
    requires ListOk(v, rt, c, l) && !Under(c, p)
    ensures ListOk(v, rt - {p}, c, l)
  {
    forall k | 0 <= k < |l|
      ensures Listed(v, rt - {p}, c, l[k])
    {
      assert Listed(v, rt, c, l[k]);
    }
  }

  lemma ListWithout(v: seq<Route>, rt: map<Prefix, nat>, c: Prefix, l: seq<nat>, p: Prefix, k: nat)
    requires ListOk(v, rt, c, l) && k < |l| && p in rt && l[k] == rt[p]
    requires forall q :: q in rt ==> rt[q] < |v| && v[rt[q]].p == q
    ensures ListOk(v, rt - {p}, c, l[..k] + l[k + 1..])
  {
    var l' := l[..k] + l[k + 1..];
    CutDistinct(l, k);
    forall m | 0 <= m < |l'|
      ensures Listed(v, rt - {p}, c, l'[m])
    {
      var n := if m < k then m else m + 1;
      assert l'[m] == l[n] && l[n] != l[k] && Listed(v, rt, c, l[n]);
    }
    forall q | q in rt - {p} && Under(c, q)
      ensures rt[q] in l'
    {
      assert rt[q] in l && rt[q] != l[k];
    }
  }

  lemma CutDistinct(l: seq<nat>, k: nat)
    requires k < |l| && forall m, n :: 0 <= m < n < |l| ==> l[m] != l[n]
    ensures var l' := l[..k] + l[k + 1..];
      && (forall m, n :: 0 <= m < n < |l'| ==> l'[m] != l'[n])
      && (forall x :: x in l && x != l[k] ==> x in l')
  {
    var l' := l[..k] + l[k + 1..];
    forall m, n | 0 <= m < n < |l'|
      ensures l'[m] != l'[n]
    {
      assert l[if m < k then m else m + 1] != l[if n < k then n else n + 1];
    }
    forall x | x in l && x != l[k]
      ensures x in l'
    {
      var n: nat :| n < |l| && l[n] == x;
      assert l'[if n < k then n else n - 1] == x;
    }
  }

  /** Every route of `goal` that covers `p` and is kept with it is in `some`, or on the list from `k` on. */
  ghost predicate Offered(l: seq<nat>, k: nat, p: Prefix, goal: map<Prefix, nat>, some: map<Prefix, nat>)
    requires p.len <= 32
  {
    && (forall r :: r in some ==> r in goal && some[r] == goal[r])
    && (forall r :: r in Apart(goal, p) ==> r in some)
    && forall r :: r in goal && Over(r, p) && Kept(r, p) ==> r in some || goal[r] in l[if k < |l| then k else |l|..]
  }

  /** The two are kept at one node. */
  ghost predicate Kept(r: Prefix, p: Prefix) {
    0 < r.len <= 32 && 0 < p.len <= 32 && Home(r) == Home(p)
  }

  /** With nothing left on the list, the slots are right for `goal`. */
  lemma AllOffered(l: seq<nat>, p: Prefix, goal: map<Prefix, nat>, some: map<Prefix, nat>, ss: map<Prefix, seq<Child>>)
    requires AllCanonicalNodes(ss) && Canonical(p) && 0 < p.len
    requires Offered(l, |l|, p, goal, some) && KeysMixed(goal, some, p, ss)
    ensures KeysOk(goal, ss)
  {
    forall c, i | c in ss && 0 <= i < |ss[c]|
      ensures Keyed(goal, c, Slot(c, i).addr, ss[c][i])
    {
      assert Keyed(MapFor(goal, some, p, c, i), c, Slot(c, i).addr, ss[c][i]);
      if c == Home(p) && Contains(p, Slot(c, i).addr) {
        OfferedSlot(l, p, goal, some, c, i);
        KeyedSame(some, goal, c, Slot(c, i).addr, ss[c][i]);
      }
    }
  }

  lemma OfferedSlot(l: seq<nat>, p: Prefix, goal: map<Prefix, nat>, some: map<Prefix, nat>, c: Prefix, i: nat)
    requires Canonical(p) && 0 < p.len && Offered(l, |l|, p, goal, some)
    requires c == Home(p) && Canonical(c) && i < Fan(c.len) && Contains(p, Slot(c, i).addr)
    ensures forall m :: c.len < m <= SlotLen(c.len) ==>
      var r := At(Slot(c, i).addr, m); (r in some <==> r in goal) && (r in some ==> some[r] == goal[r])
  {
    forall m: nat | c.len < m <= SlotLen(c.len)
      ensures At(Slot(c, i).addr, m) in goal ==> At(Slot(c, i).addr, m) in some
    {
      var r := At(Slot(c, i).addr, m);
      SlotUnder(c, i, m);
      HomeUnder(c, r);
      assert r in goal && !Over(r, p) ==> r in Apart(goal, p);
    }
  }
}
