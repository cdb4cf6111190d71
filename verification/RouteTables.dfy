/**
 * The tables a batch of route commands may be run on: those of the direct,
 * radix, linear and sorted lookup elements, which override `add_route` and
 * `remove_route` (bfclick/ip/iproutetable.hh).
 */
module RouteTables {
  import opened Prefixes
  import opened VportPools
  import opened DirectTables
  import opened RouteViews
  import opened DirectLookups
  import opened RadixLookups
  import opened LinearLookups
  import opened SortedLookups
  import opened RouteCommands
  import opened RouteUndo
  import opened Results

  datatype Element =
    | Direct(direct: DirectTable)
    | Radix(radix: RadixTable)
    | Linear(linear: LinearTable)
    | Sorted(sorted: SortedTable)
  {

    ghost function Footprint(): set<object>
      reads if Radix? then {radix} else {}
    {
      match this
      case Direct(t) => t.Repr
      case Radix(t) => {t} + t.nodes.Values
      case Linear(t) => {t}
      case Sorted(t) => {t, t.linear}
    }

    ghost predicate Valid()
      reads Footprint()
    {
      match this
      case Direct(t) => t.Valid()
      case Radix(t) => t.Valid()
      case Linear(t) => t.Valid()
      case Sorted(t) => t.Valid()
    }

    /** The table has its routes, whether or not its vports are counted right. */
    ghost predicate Readable()
      reads Footprint()
    {
      if Direct? then direct.Routes() else Valid()
    }

    ghost function Routes(): Table
      requires Readable()
      reads Footprint()
    {
      match this
      case Direct(t) => t.Hops()
      case Radix(t) => t.Hops()
      case Linear(t) => t.Routes()
      case Sorted(t) => t.linear.Routes()
    }

    /** The vports in use, where there are any. */
    ghost function Load(): nat
      reads Footprint()
    {
      if Direct? then direct.Load() else 0
    }

    /** The routes with their vports, where there are any. */
    ghost function Seen(): View
      requires Readable()
      reads Footprint()
    {
      if Direct? then direct.Seen() else View(map[], map[], [], [], 0)
    }

    /** The prefixes whose routes the table keeps apart from all others. */
    ghost predicate Takes(p: Prefix) {
      Canonical(p) && (Direct? ==> p != DEFAULT) && (Radix? ==> p.len > 0)
    }

    /** What a request to remove may say: in the linear table, `ZERO` with any hop would match a dead slot. */
    ghost predicate Matches(p: Prefix, hop: Hop) {
      hop.port >= -1 && (Linear? && p == ZERO ==> hop.port >= 0)
    }

    /** The table is right once the route to `p` has been taken out, `t` being left. */
    ghost predicate Safe(t: Table, p: Prefix) {
      Direct? ==> TiledSkipped(t, p)
    }

    /** A table the element has the memory for. */
    ghost predicate Fits(t: Table, load: nat) {
      Direct? ==> load <= VPORT_LIMIT && 256 * |Deep(t)| <= direct.tables.secCapacity
    }

    /** A change of the route to `p` takes up no more than the route is worth. */
    ghost predicate Spends(t: Table, load: nat, t': Table, load': nat, p: Prefix) {
      Direct? ==> load' + Cost(t, p) <= load + Cost(t', p)
    }

    /** The table has no vport, or no block, to send `p` by `hop` with. */
    ghost predicate Full(t: Table, p: Prefix, hop: Hop) {
      Direct? && Lacks(t, p, hop, direct.tables.secCapacity)
    }

    lemma Fitting()
      requires Valid()
      ensures Readable() && Fits(Routes(), Load())
    {
      if Direct? {
        direct.tables.DeepFits(direct.rtable);
        assert direct.Hops().Keys == direct.rtable.Keys;
        assert Deep(direct.Hops()) == Deep(direct.rtable);
      }
    }
  }

  // ---- the DIR-24-8 table

  /** Every vport is in use, none for `hop`, and the route to `p` is no longer counted at its own, which another shares. */
  ghost predicate Stranded(t: DirectTable, p: Prefix, hop: Hop)
    reads t, t.Repr
  {
    && t.Short({p}) && p in t.rtable && t.Load() == VPORT_LIMIT
    && hop !in (t.Hops() - {p}).Values && !t.Seen().Alone(p, {})
  }

  method AddDirect(t: DirectTable, p: Prefix, hop: Hop, set_: bool) returns (status: Status, old_route: Option<Hop>)
    requires t.Valid() && Canonical(p) && p != DEFAULT
    modifies t.Repr
    ensures t.Routes() && (status == Ok || status == Exists || status == NoMemory)
    ensures status == Exists <==> p in old(t.Hops()) && !set_
    ensures old_route == if p in old(t.Hops()) then Some(old(t.Hops())[p]) else None
    ensures status == Ok ==> t.Valid() && Added(old(t.Seen()), t.Seen(), p, hop)
    ensures status != Ok ==> AsBefore(old(t.Seen()), t.Seen())
    ensures status != Ok ==> if status == NoMemory && p in t.Hops() then Stranded(t, p, hop) else t.Valid()
    ensures OneMoved(old(t.Seen()), t.Seen(), p)
    ensures status == NoMemory ==> !old(t.Room(p, hop))
    ensures old(Merged(t.Seen(), {})) && status != Exists ==>
      (status == NoMemory <==> Lacks(old(t.Hops()), p, hop, t.tables.secCapacity))
  {
    ghost var a := t.Seen();
    Refusals(t, p, hop);
    status, old_route := t.AddRoute(p, hop, set_);
    ghost var c := t.Seen();
    if status == Ok {
      ValidCoherent(t);
      AddedMoves(a, c, p, hop);
    }
  }

  lemma ValidCoherent(t: DirectTable)
    requires t.Valid()
    ensures Coherent(t.Seen())
  {
    t.AsShort();
    t.SeenSound({});
  }

  /** What it means that the table cannot place a route. */
  lemma Refusals(t: DirectTable, p: Prefix, hop: Hop)
    requires t.Valid()
    ensures Coherent(t.Seen()) && (t.Exhausted(p, hop, {}) ==> !t.Room(p, hop))
    ensures t.Exhausted(p, hop, {}) && p in t.rtable ==>
      t.Load() == VPORT_LIMIT && hop !in (t.Hops() - {p}).Values && !t.Seen().Alone(p, {})
    ensures Merged(t.Seen(), {}) ==> (t.Exhausted(p, hop, {}) <==> Lacks(t.Hops(), p, hop, t.tables.secCapacity))
  {
    ValidCoherent(t);
    if p in t.rtable {
      t.NoRoomForOld(p, hop);
      assert {} + {p} == {p};
    } else {
      t.NoRoomForNew(p, hop);
    }
    if Merged(t.Seen(), {}) {
      t.ExhaustedIsLacks(p, hop);
    }
  }

  method RemoveDirect(t: DirectTable, p: Prefix, hop: Hop) returns (status: Status, old_route: Option<Hop>)
    requires t.Valid() && Canonical(p) && p != DEFAULT
    requires Held(t.Hops(), p, hop) ==> TiledSkipped(t.rtable - {p}, p)
    modifies t.Repr
    ensures t.Valid() && (status == Ok || status == NoEntry)
    ensures status == Ok <==> Held(old(t.Hops()), p, hop)
    ensures status == Ok ==> old_route == Some(old(t.Hops())[p]) && Gone(old(t.Seen()), t.Seen(), p)
    ensures status == NoEntry ==> unchanged(t.Repr)
  {
    status, old_route := t.RemoveRoute(p, hop);
  }

  /** The same, with the condition on the tables in terms of the hops. */
  method RemoveHop(t: DirectTable, p: Prefix, hop: Hop) returns (status: Status, old_route: Option<Hop>)
    requires t.Valid() && Canonical(p) && p != DEFAULT
    requires Held(t.Hops(), p, hop) ==> TiledSkipped(t.Hops() - {p}, p)
    modifies t.Repr
    ensures t.Valid() && (status == Ok || status == NoEntry)
    ensures status == Ok <==> Held(old(t.Hops()), p, hop)
    ensures status == Ok ==> old_route == Some(old(t.Hops())[p]) && Gone(old(t.Seen()), t.Seen(), p)
    ensures status == NoEntry ==> AsBefore(old(t.Seen()), t.Seen())
    ensures OneMoved(old(t.Seen()), t.Seen(), p)
  {
    ghost var a := t.Seen();
    ValidCoherent(t);
    if Held(t.Hops(), p, hop) {
      SameSkips(t.Hops() - {p}, t.rtable - {p}, p);
    }
    status, old_route := RemoveDirect(t, p, hop);
    if status == Ok {
      GoneMoves(a, t.Seen(), p);
    }
  }

  // ---- whichever table

  /** `add_route`. Only the DIR-24-8 table can be out of memory, and only when there is no room. */
  method AddRoute(e: Element, p: Prefix, hop: Hop, set_: bool) returns (status: Status, old_route: Option<Hop>)
    requires e.Valid() && e.Takes(p) && hop.port >= 0
    modifies e.Footprint()
    ensures e.Readable() && fresh(e.Footprint() - old(e.Footprint()))
    ensures status == Ok || status == Exists || status == NoMemory
    ensures status == Exists <==> p in old(e.Routes()) && !set_
    ensures status == Ok ==> e.Valid() && e.Routes() == old(e.Routes())[p := hop]
    ensures status == Ok ==> old_route == if p in old(e.Routes()) then Some(old(e.Routes())[p]) else None
    ensures status == Ok ==> e.Spends(old(e.Routes()), old(e.Load()), e.Routes(), e.Load(), p)
    ensures status != Ok ==> e.Routes() == old(e.Routes()) && e.Load() == old(e.Load()) && AsBefore(old(e.Seen()), e.Seen())
    ensures status != Ok ==> if status == NoMemory && p in e.Routes() then e.Direct? && Stranded(e.direct, p, hop) else e.Valid()
    ensures OneMoved(old(e.Seen()), e.Seen(), p)
    ensures status == NoMemory ==> e.Direct? && !old(e.direct.Room(p, hop))
    ensures old(Merged(e.Seen(), {})) && status != Exists ==> (status == NoMemory <==> old(e.Full(e.Routes(), p, hop)))
  {
    match e {
      case Direct(t) =>
        status, old_route := AddDirect(t, p, hop, set_);
      case Radix(t) =>
        status, old_route := t.AddRoute(p, hop, set_);
      case Linear(t) =>
        status, old_route := t.AddRoute(p, hop.gw, hop.port, set_);
      case Sorted(t) =>
        status, old_route := t.AddRoute(p, hop.gw, hop.port, set_);
    }
  }

  /** `remove_route`. */
  method RemoveRoute(e: Element, p: Prefix, hop: Hop) returns (status: Status, old_route: Option<Hop>)
    requires e.Valid() && e.Takes(p) && e.Matches(p, hop)
    requires Held(e.Routes(), p, hop) ==> e.Safe(e.Routes() - {p}, p)
    modifies e.Footprint()
    ensures e.Valid() && fresh(e.Footprint() - old(e.Footprint())) && (status == Ok || status == NoEntry)
    ensures status == Ok <==> Held(old(e.Routes()), p, hop)
    ensures status == Ok ==> old_route == Some(old(e.Routes())[p]) && e.Routes() == old(e.Routes()) - {p}
    ensures status == Ok ==> e.Spends(old(e.Routes()), old(e.Load()), e.Routes(), e.Load(), p)
    ensures status == NoEntry ==> e.Routes() == old(e.Routes()) && e.Load() == old(e.Load()) && AsBefore(old(e.Seen()), e.Seen())
    ensures OneMoved(old(e.Seen()), e.Seen(), p)
  {
    match e {
      case Direct(t) =>
        status, old_route := RemoveHop(t, p, hop);
      case Radix(t) =>
        status, old_route := t.RemoveRoute(p, hop);
      case Linear(t) =>
        status, old_route := t.RemoveRoute(p, hop.gw, hop.port);
      case Sorted(t) =>
        status, old_route := t.RemoveRoute(p, hop.gw, hop.port);
    }
  }
}
