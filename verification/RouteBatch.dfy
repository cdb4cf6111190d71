/**
 * Batches of route commands: `run_command` and `ctrl_handler`
 * (bfclick/ip/iproutetable.cc), with the roll-back of a batch one of whose
 * commands fails.
 */
module RouteBatches {
  import opened Prefixes
  import opened VportPools
  import opened DirectTables
  import opened RouteViews
  import opened DirectLookups
  import opened RouteCommands
  import opened RouteTables
  import Undoing = RouteUndo
  import opened Results

  // ---- one command

  /** The table has only routes that a command could have put there. */
  ghost predicate Plain(e: Element, t: Table) {
    forall p <- t :: e.Takes(p) ==> t[p].port >= 0
  }

  /** What a parsed line may hold: a canonical prefix, and an output to add to. */
  ghost predicate WellFormed(e: Element, c: Command) {
    !c.Malformed? ==> e.Takes(c.p) && if c.Remove? then e.Matches(c.p, c.hop) else c.hop.port >= 0
  }

  /** Whether the table stays right when a command takes a route out, and when one that added a route is undone. */
  ghost predicate SafeStep(e: Element, t: Table, c: Command) {
    Effect(t, c).Some? && (c.Remove? || c.p !in t) ==> e.Safe(t - {c.p}, c.p)
  }

  ghost predicate SafeRun(e: Element, t: Table, cs: seq<Command>)
    decreases |cs|
  {
    cs == [] || (SafeStep(e, t, cs[0]) && (Effect(t, cs[0]).Some? ==> SafeRun(e, Effect(t, cs[0]).value, cs[1..])))
  }

  /** Only the DIR-24-8 table asks for that. */
  lemma {:induction false} AlwaysSafe(e: Element, t: Table, cs: seq<Command>)
    requires !e.Direct?
    ensures SafeRun(e, t, cs)
    decreases |cs|
  {
    if cs != [] && Effect(t, cs[0]).Some? {
      AlwaysSafe(e, Effect(t, cs[0]).value, cs[1..]);
    }
  }

  /** And that one not of a batch about routes no longer than /24, while it has no other. */
  lemma {:induction false} FlatSafe(e: Element, t: Table, cs: seq<Command>)
    requires forall p <- t :: p.len <= 24
    requires forall c <- cs :: !c.Malformed? ==> c.p.len <= 24
    ensures SafeRun(e, t, cs)
    decreases |cs|
  {
    if cs != [] {
      var c := cs[0];
      if !c.Malformed? {
        NoTiles(t - {c.p});
      }
      match Effect(t, c) {
        case None =>
        case Some(u) =>
          assert forall p <- u :: p in t || p == c.p;
          FlatSafe(e, u, cs[1..]);
      }
    }
  }

  lemma NoTiles(t: Table)
    requires forall p <- t :: p.len <= 24
    ensures forall i :: !AnyTiled(t, i)
  {
    forall i: nat, q: nat
      ensures !Tiled(t, i, q)
    {
      if 24 < q <= 32 {
        assert At(Addr(i, 0), q).len == q;
        assert !Longest(t, Addr(i, 0), q);
      }
    }
  }

  lemma SafeFrom(e: Element, t: Table, cs: seq<Command>, k: nat, t': Table)
    requires SafeRun(e, t, cs) && k < |cs| && Batch(t, cs[..k]) == Some(t')
    ensures SafeStep(e, t', cs[k])
    decreases k
  {
    if k > 0 {
      var u := Effect(t, cs[0]).value;
      assert cs[..k][1..] == cs[1..][..k - 1];
      SafeFrom(e, u, cs[1..], k - 1, t');
    } else {
      assert cs[..0] == [];
    }
  }

  /** The table has no memory for what the command is to add. */
  ghost predicate Lacking(e: Element, t: Table, c: Command) {
    Effect(t, c).Some? && !c.Remove? && e.Full(t, c.p, c.hop)
  }

  /** `s` is what takes `after` back to `before`. */
  ghost predicate Undoes(e: Element, s: Saved, before: Mark, after: Mark) {
    && e.Takes(s.p) && s.hop.port >= 0 && Reverses(s, before.t, after.t)
    && (s.kind == CmdAdd ==> e.Safe(before.t, s.p))
    && e.Spends(before.t, before.load, after.t, after.load, s.p)
  }

  /** What an addition or replacement saves undoes it. */
  lemma AddUndone(e: Element, c: Command, before: Mark, after: Mark)
    requires WellFormed(e, c) && (c.Add? || c.Set?) && Plain(e, before.t) && SafeStep(e, before.t, c)
    requires after.t == before.t[c.p := c.hop] && (c.p in before.t ==> c.Set?)
    requires e.Spends(before.t, before.load, after.t, after.load, c.p)
    ensures Plain(e, after.t)
    ensures c.p !in before.t ==> Undoes(e, Saved(CmdAdd, c.p, c.hop), before, after)
    ensures c.p in before.t ==> Undoes(e, Saved(CmdSet, c.p, before.t[c.p]), before, after)
  {
    if c.p in before.t {
      assert after.t[c.p := before.t[c.p]] == before.t;
    } else {
      assert after.t - {c.p} == before.t == before.t - {c.p};
    }
  }

  /** And what a removal saves undoes that. */
  lemma RemoveUndone(e: Element, p: Prefix, before: Mark, after: Mark)
    requires e.Takes(p) && p in before.t && Plain(e, before.t) && after.t == before.t - {p}
    requires e.Spends(before.t, before.load, after.t, after.load, p)
    ensures Plain(e, after.t) && Undoes(e, Saved(CmdRemove, p, before.t[p]), before, after)
  {
    assert after.t[p := before.t[p]] == before.t;
  }

  ghost function Now(e: Element): Mark
    requires e.Readable()
    reads e.Footprint()
  {
    Mark(e.Routes(), e.Load())
  }

  /** A replacement has found no vport, and let go of the one the route has. */
  ghost predicate Short(e: Element, status: Status, c: Command)
    requires e.Readable()
    reads e.Footprint()
  {
    status == NoMemory && c.Set? && e.Direct? && c.p in e.Routes()
  }

  /** The effect of one command, and what is saved to undo it. */
  ghost predicate Ran(e: Element, c: Command, before: Mark, a: View, saved: Option<Saved>)
    requires e.Readable()
    reads e.Footprint()
  {
    && saved.Some? && !c.Malformed? && saved.value.p == c.p
    && e.Valid() && Plain(e, e.Routes()) && Some(e.Routes()) == Effect(before.t, c)
    && Undoes(e, saved.value, before, Now(e)) && OneMoved(a, e.Seen(), c.p)
  }

  /** Lines 168-203: parse and dispatch, and save what undoes the command. */
  method RunCommand(e: Element, c: Command) returns (status: Status, saved: Option<Saved>)
    requires e.Valid() && WellFormed(e, c) && Plain(e, e.Routes()) && SafeStep(e, e.Routes(), c)
    modifies e.Footprint()
    ensures e.Readable() && fresh(e.Footprint() - old(e.Footprint())) && (saved.Some? <==> status == Ok)
    ensures status == Ok ==> Ran(e, c, old(Now(e)), old(e.Seen()), saved)
    ensures status != Ok ==> Now(e) == old(Now(e)) && AsBefore(old(e.Seen()), e.Seen())
    ensures status != Ok ==> if Short(e, status, c) then Stranded(e.direct, c.p, c.hop) else e.Valid()
    ensures status != Ok && status != NoMemory ==> Effect(old(e.Routes()), c) == None
    ensures Answered(old(e.Routes()), c, status)
    ensures status == NoMemory ==> e.Direct? && !c.Malformed? && !c.Remove? && old(!e.direct.Room(c.p, c.hop))
    ensures old(Merged(e.Seen(), {})) ==> (status == NoMemory <==> old(Lacking(e, e.Routes(), c)))
  {
    match c {
      case Malformed =>
        status, saved := Invalid, None;
      case Remove(p, hop) =>
        status, saved := RunRemove(e, p, hop);
      case Add(p, hop) =>
        status, saved := RunAdd(e, c);
      case Set(p, hop) =>
        status, saved := RunAdd(e, c);
    }
  }

  /** Lines 178-193: `add_route` and what to save. */
  method RunAdd(e: Element, c: Command) returns (status: Status, saved: Option<Saved>)
    requires e.Valid() && WellFormed(e, c) && Plain(e, e.Routes()) && SafeStep(e, e.Routes(), c) && (c.Add? || c.Set?)
    modifies e.Footprint()
    ensures e.Readable() && fresh(e.Footprint() - old(e.Footprint())) && (saved.Some? <==> status == Ok)
    ensures status == Ok ==> Ran(e, c, old(Now(e)), old(e.Seen()), saved)
    ensures status != Ok ==> Now(e) == old(Now(e)) && AsBefore(old(e.Seen()), e.Seen())
    ensures status != Ok ==> if Short(e, status, c) then Stranded(e.direct, c.p, c.hop) else e.Valid()
    ensures status != Ok && status != NoMemory ==> Effect(old(e.Routes()), c) == None
    ensures (status == Ok || status == Exists || status == NoMemory) && (status == Exists ==> c.Add? && c.p in old(e.Routes()))
    ensures status == NoMemory ==> e.Direct? && old(!e.direct.Room(c.p, c.hop))
    ensures old(Merged(e.Seen(), {})) ==> (status == NoMemory <==> old(Lacking(e, e.Routes(), c)))
  {
    ghost var before, a := Now(e), e.Seen();
    var old_route;
    status, old_route := AddRoute(e, c.p, c.hop, c.Set?);
    saved := None;
    if status == Ok {
      saved := Some(if old_route.None? then Saved(CmdAdd, c.p, c.hop) else Saved(CmdSet, c.p, old_route.value));
      AddRan(e, c, before, a, saved.value);
    }
  }

  lemma AddRan(e: Element, c: Command, before: Mark, a: View, s: Saved)
    requires e.Valid() && WellFormed(e, c) && (c.Add? || c.Set?) && Plain(e, before.t) && SafeStep(e, before.t, c)
    requires e.Routes() == before.t[c.p := c.hop] && (c.p in before.t ==> c.Set?) && OneMoved(a, e.Seen(), c.p)
    requires e.Spends(before.t, before.load, e.Routes(), e.Load(), c.p)
    requires s == if c.p in before.t then Saved(CmdSet, c.p, before.t[c.p]) else Saved(CmdAdd, c.p, c.hop)
    ensures Ran(e, c, before, a, Some(s))
  {
    AddUndone(e, c, before, Now(e));
  }

  /** Line 183: `remove_route` and what to save. */
  method RunRemove(e: Element, p: Prefix, hop: Hop) returns (status: Status, saved: Option<Saved>)
    requires e.Valid() && WellFormed(e, Remove(p, hop)) && Plain(e, e.Routes()) && SafeStep(e, e.Routes(), Remove(p, hop))
    modifies e.Footprint()
    ensures e.Readable() && fresh(e.Footprint() - old(e.Footprint()))
    ensures (saved.Some? <==> status == Ok) && (status == Ok || status == NoEntry)
    ensures status == Ok ==> Ran(e, Remove(p, hop), old(Now(e)), old(e.Seen()), saved)
    ensures status == NoEntry ==> e.Valid() && Now(e) == old(Now(e)) && AsBefore(old(e.Seen()), e.Seen())
    ensures status == NoEntry ==> !Held(old(e.Routes()), p, hop)
  {
    ghost var before, a := Now(e), e.Seen();
    var old_route;
    status, old_route := RemoveRoute(e, p, hop);
    saved := None;
    if status == Ok {
      saved := Some(Saved(CmdRemove, p, old_route.value));
      RemoveRan(e, p, hop, before, a);
    }
  }

  lemma RemoveRan(e: Element, p: Prefix, hop: Hop, before: Mark, a: View)
    requires e.Valid() && e.Takes(p) && Plain(e, before.t) && Held(before.t, p, hop) && e.Routes() == before.t - {p}
    requires OneMoved(a, e.Seen(), p) && e.Spends(before.t, before.load, e.Routes(), e.Load(), p)
    ensures Ran(e, Remove(p, hop), before, a, Some(Saved(CmdRemove, p, before.t[p])))
  {
    RemoveUndone(e, p, before, Now(e));
  }

  // ---- the commands that have been run

  /** The marks a batch has passed, each a step from its successor. */
  ghost predicate Trail(e: Element, saved: seq<Saved>, trail: seq<Mark>) {
    && |trail| == |saved| + 1
    && (forall k :: 0 <= k < |trail| ==> e.Fits(trail[k].t, trail[k].load))
    && (forall k :: 0 <= k < |saved| ==> Undoes(e, saved[k], trail[k], trail[k + 1]))
  }

  /** The routes after the first `k` commands. */
  ghost function TableAt(t: Table, cs: seq<Command>, k: nat): Table
    requires k <= |cs|
  {
    match Batch(t, cs[..k]) case Some(u) => u case None => map[]
  }

  /** The marks are those of the first commands, and an entry is saved for each. */
  ghost predicate Steps(e: Element, saved: seq<Saved>, trail: seq<Mark>, cs: seq<Command>) {
    && |saved| <= |cs| && Trail(e, saved, trail)
    && (forall j :: 0 <= j <= |saved| ==> Batch(trail[0].t, cs[..j]) == Some(trail[j].t))
    && (forall j :: 0 <= j <= |saved| && e.Direct? ==> trail[j].load <= trail[0].load + j)
    && (forall j :: 0 <= j < |saved| ==> !cs[j].Malformed? && saved[j].p == cs[j].p)
  }

  /** The vports of other routes have been left alone since the view `first`. */
  ghost predicate Followed(e: Element, saved: seq<Saved>, trail: seq<Mark>, v: View, first: View, cs: seq<Command>)
    requires Steps(e, saved, trail, cs)
  {
    && Undoing.KeepApart(saved, first.rt, v.rt)
    && (Merged(first, {}) ==> Merged(v, {}) && forall j :: 0 <= j < |saved| ==> !Lacking(e, trail[j].t, cs[j]))
  }

  lemma TrailExtends(e: Element, saved: seq<Saved>, trail: seq<Mark>, s: Saved, m: Mark)
    requires Trail(e, saved, trail) && e.Fits(m.t, m.load) && Undoes(e, s, trail[|saved|], m)
    ensures Trail(e, saved + [s], trail + [m])
  {
  }

  lemma StepsExtend(e: Element, saved: seq<Saved>, trail: seq<Mark>, cs: seq<Command>, s: Saved, m: Mark)
    requires Steps(e, saved, trail, cs) && |saved| < |cs| && e.Fits(m.t, m.load) && Undoes(e, s, trail[|saved|], m)
    requires Effect(trail[|saved|].t, cs[|saved|]) == Some(m.t) && !cs[|saved|].Malformed? && s.p == cs[|saved|].p
    ensures Steps(e, saved + [s], trail + [m], cs)
  {
    TrailExtends(e, saved, trail, s, m);
    BatchPrefix(trail[0].t, cs, |saved|, trail[|saved|].t);
  }

  lemma FollowedOn(e: Element, saved: seq<Saved>, trail: seq<Mark>, v: View, v': View, first: View, cs: seq<Command>,
                   s: Saved, m: Mark)
    requires Steps(e, saved, trail, cs) && Steps(e, saved + [s], trail + [m], cs)
    requires Followed(e, saved, trail, v, first, cs) && OneMoved(v, v', s.p)
    requires Merged(v, {}) ==> !Lacking(e, trail[|saved|].t, cs[|saved|])
    ensures Followed(e, saved + [s], trail + [m], v', first, cs)
  {
    forall r | r in first.rt && Undoing.Untouched(saved + [s], r)
      ensures r in v'.rt && v'.rt[r] == first.rt[r]
    {
      assert (saved + [s])[|saved|] == s && forall k :: 0 <= k < |saved| ==> (saved + [s])[k] == saved[k];
      assert Undoing.Untouched(saved, r) && r in v.rt - {s.p};
    }
  }

  /** The first commands have been run, and what undoes them saved. */
  ghost predicate Passed(e: Element, saved: seq<Saved>, trail: seq<Mark>, first: View, cs: seq<Command>)
    reads e.Footprint()
  {
    && e.Valid() && Plain(e, e.Routes())
    && Steps(e, saved, trail, cs) && Now(e) == trail[|saved|] && Followed(e, saved, trail, e.Seen(), first, cs)
  }

  lemma PassedOn(e: Element, saved: seq<Saved>, trail: seq<Mark>, v: View, first: View, cs: seq<Command>, s: Saved)
    requires Steps(e, saved, trail, cs) && Followed(e, saved, trail, v, first, cs) && |saved| < |cs|
    requires e.Readable() && Ran(e, cs[|saved|], trail[|saved|], v, Some(s))
    requires Merged(v, {}) ==> !Lacking(e, trail[|saved|].t, cs[|saved|])
    ensures Passed(e, saved + [s], trail + [Now(e)], first, cs)
  {
    e.Fitting();
    StepsExtend(e, saved, trail, cs, s, Now(e));
    FollowedOn(e, saved, trail, v, e.Seen(), first, cs, s, Now(e));
  }

  lemma NonePassed(e: Element, cs: seq<Command>)
    requires e.Valid() && Plain(e, e.Routes())
    ensures Passed(e, [], [Now(e)], e.Seen(), cs)
  {
    e.Fitting();
    assert cs[..0] == [];
  }

  /** Why command `k`, the first not to be run, has failed. */
  ghost predicate Fails(e: Element, t: Table, c: Command, status: Status, merged: bool) {
    && status != Ok
    && (status != NoMemory ==> Effect(t, c) == None) && Answered(t, c, status)
    && (status == NoMemory ==> e.Direct? && !c.Malformed? && !c.Remove?)
    && (merged ==> (status == NoMemory <==> Lacking(e, t, c)))
  }

  /** Line 247: one command more. */
  method RunNext(e: Element, cs: seq<Command>, saved: seq<Saved>, ghost trail: seq<Mark>, ghost first: View)
    returns (status: Status, undo: Option<Saved>)
    requires Passed(e, saved, trail, first, cs) && |saved| < |cs| && WellFormed(e, cs[|saved|]) && SafeRun(e, trail[0].t, cs)
    modifies e.Footprint()
    ensures e.Readable() && fresh(e.Footprint() - old(e.Footprint())) && (undo.Some? <==> status == Ok)
    ensures status == Ok ==> Passed(e, saved + [undo.value], trail + [Now(e)], first, cs)
    ensures status != Ok ==> Now(e) == trail[|saved|] && Followed(e, saved, trail, e.Seen(), first, cs)
    ensures status != Ok ==> Fails(e, trail[|saved|].t, cs[|saved|], status, Merged(first, {}))
    ensures status != Ok ==>
      if Short(e, status, cs[|saved|]) then Stranded(e.direct, cs[|saved|].p, cs[|saved|].hop) else e.Valid()
  {
    var k := |saved|;
    ghost var v := e.Seen();
    SafeFrom(e, trail[0].t, cs, k, e.Routes());
    status, undo := RunCommand(e, cs[k]);
    if status == Ok {
      PassedOn(e, saved, trail, v, first, cs, undo.value);
    }
  }

  // ---- undoing

  /** The element has the routes of a mark, with no more vports in use. */
  ghost predicate Holds(e: Element, m: Mark)
    reads e.Footprint()
  {
    e.Valid() && e.Routes() == m.t && e.Load() <= m.load
  }

  /** There was room for what a command changed, so there is when it is changed back. */
  lemma RoomAgain(e: Element, p: Prefix, hop: Hop, before: Mark, after: Mark)
    requires e.Direct? && Holds(e, after) && before.t == after.t[p := hop]
    requires e.Fits(before.t, before.load) && e.Spends(before.t, before.load, after.t, after.load, p)
    ensures e.direct.Room(p, hop)
  {
  }

  /** Lines 259-264: one saved entry is undone, whatever the call reports. */
  method UndoOne(e: Element, s: Saved, ghost before: Mark, ghost after: Mark)
    requires Holds(e, after) && Undoes(e, s, before, after) && e.Fits(before.t, before.load)
    modifies e.Footprint()
    ensures Holds(e, before) && fresh(e.Footprint() - old(e.Footprint()))
  {
    var status;
    var ignored;
    if e.Direct? && s.kind != CmdAdd {
      RoomAgain(e, s.p, s.hop, before, after);
    }
    match s.kind {
      case CmdRemove =>
        status, ignored := AddRoute(e, s.p, s.hop, false);
      case CmdAdd =>
        status, ignored := RemoveRoute(e, s.p, s.hop);
      case CmdSet =>
        status, ignored := AddRoute(e, s.p, s.hop, true);
    }
  }

  /** Lines 256-266: the saved entries are undone from the back, and all of them can be. */
  method Rollback(e: Element, saved: seq<Saved>, ghost trail: seq<Mark>)
    requires Trail(e, saved, trail) && Holds(e, trail[|saved|])
    modifies e.Footprint()
    ensures Holds(e, trail[0]) && fresh(e.Footprint() - old(e.Footprint()))
  {
    var k := |saved|;
    while k > 0
      invariant 0 <= k <= |saved| && Holds(e, trail[k]) && fresh(e.Footprint() - old(e.Footprint()))
    {
      k := k - 1;
      assert Undoes(e, saved[k], trail[k], trail[k + 1]) && e.Fits(trail[k].t, trail[k].load);
      UndoOne(e, saved[k], trail[k], trail[k + 1]);
    }
  }

  // ---- undoing when a route is not counted at its vport

  /** None of the first `n` commands is about `p`. */
  ghost predicate Spared(cs: seq<Command>, n: nat, p: Prefix)
    requires n <= |cs|
  {
    forall j :: 0 <= j < n ==> cs[j].Malformed? || cs[j].p != p
  }

  /**
   * Where the vport of `p`, which does not count it, is with only the first `k` of
   * `n` commands still to be undone: told from the routes.
   */
  ghost function Course(t: Table, cs: seq<Command>, n: nat, p: Prefix, k: nat): Undoing.Fate
    requires k <= n <= |cs|
    decreases n - k
  {
    if k == n then Undoing.InUse(if p in t then t[p] else DISCARD)
    else if cs[k].Malformed? then Course(t, cs, n, p, k + 1)
    else Undoing.Back(Course(t, cs, n, p, k + 1), p, cs[k].p, TableAt(t, cs, k), TableAt(t, cs, k + 1))
  }

  const DISCARD := Hop(0, DISCARD_PORT)

  /** That is where it is when it has been followed from entry to entry. */
  lemma {:induction false} CourseIsFate(e: Element, saved: seq<Saved>, trail: seq<Mark>, cs: seq<Command>, p: Prefix,
                                        k: nat)
    requires Steps(e, saved, trail, cs) && p in trail[0].t && k <= |saved|
    ensures Undoing.FateAt(saved, trail, p, trail[0].t[p], k) == Course(trail[0].t, cs, |saved|, p, k)
    decreases |saved| - k
  {
    if k < |saved| {
      CourseIsFate(e, saved, trail, cs, p, k + 1);
      assert Batch(trail[0].t, cs[..k]) == Some(trail[k].t) && Batch(trail[0].t, cs[..k + 1]) == Some(trail[k + 1].t);
    }
  }

  lemma SparedSame(e: Element, saved: seq<Saved>, trail: seq<Mark>, cs: seq<Command>, p: Prefix)
    requires Steps(e, saved, trail, cs)
    ensures Spared(cs, |saved|, p) <==> Undoing.Untouched(saved, p)
  {
    if Undoing.Untouched(saved, p) {
      forall j | 0 <= j < |saved|
        ensures cs[j].p != p
      {
        assert saved[j].p != p;
      }
    }
  }

  /** An untouched route has the hop it had at the start. */
  lemma {:induction false} SparedKeeps(e: Element, saved: seq<Saved>, trail: seq<Mark>, cs: seq<Command>, p: Prefix, k: nat)
    requires Steps(e, saved, trail, cs) && Undoing.Untouched(saved, p) && k <= |saved|
    ensures p in trail[0].t <==> p in trail[k].t
    ensures p in trail[0].t ==> trail[k].t[p] == trail[0].t[p]
  {
    if k > 0 {
      SparedKeeps(e, saved, trail, cs, p, k - 1);
      assert Undoes(e, saved[k - 1], trail[k - 1], trail[k]) && saved[k - 1].p != p;
    }
  }

  /**
   * What is left of a batch undone after a replacement of the route to `p` had
   * found no vport: of the routes at most one, whose vport does not count it.
   * That is `p` when no command before was about it, and then `p` has the hop its
   * vport has come to have; it is its own again, too, when a route left alone
   * shared the vport at the start.
   */
  ghost predicate Restored(t': Table, t: Table, first: View, cs: seq<Command>, n: nat, p: Prefix, stuck: bool,
                           lost: set<Prefix>)
    requires n <= |cs|
  {
    && (!stuck ==> |lost| <= 1 && t'.Keys == t.Keys && t' - lost == t - lost)
    && (stuck ==> exists k :: 0 <= k < n && Adds(t, cs, k))
    && (Spared(cs, n, p) ==> !stuck && lost == {p})
    && (Spared(cs, n, p) && (exists r <- first.rt :: Sharing(first.rt, cs, n, p, r)) ==> t' == t)
    && (Spared(cs, n, p) && Merged(first, {}) ==> t' == t[p := Course(t, cs, n, p, 0).hop])
  }

  /** Command `k` has added a route. */
  ghost predicate Adds(t: Table, cs: seq<Command>, k: nat)
    requires k < |cs|
  {
    !cs[k].Malformed? && cs[k].p !in TableAt(t, cs, k)
  }

  /** `r` is left alone by the commands, too, and shares the vport of `p`. */
  ghost predicate Sharing(rt: map<Prefix, nat>, cs: seq<Command>, n: nat, p: Prefix, r: Prefix)
    requires n <= |cs|
  {
    p in rt && r in rt && r != p && rt[r] == rt[p] && Spared(cs, n, r)
  }

  lemma ForUndo(e: Element, saved: seq<Saved>, trail: seq<Mark>)
    requires Trail(e, saved, trail) && e.Direct?
    ensures Undoing.Trail(e.direct, saved, trail)
  {
    forall k | 0 <= k < |saved|
      ensures Undoing.Undoes(saved[k], trail[k], trail[k + 1])
    {
      assert Undoes(e, saved[k], trail[k], trail[k + 1]);
    }
    assert forall k :: 0 <= k < |trail| ==> e.Fits(trail[k].t, trail[k].load);
  }

  /** The route no longer counted is worth nothing, for another shares its vport, which so is in use. */
  lemma StrandedHolds(t: DirectTable, p: Prefix, hop: Hop)
    requires Stranded(t, p, hop)
    ensures Undoing.Holds(t, Mark(t.Hops(), t.Load()), {p}) && t.rtable[p] in t.pool.live
  {
    t.SeenSound({p});
    SharedInUse(t.Seen(), p);
  }

  lemma SharedInUse(v: View, p: Prefix)
    requires Sound(v, {p}) && p in v.rt && !v.Alone(p, {})
    ensures v.rt[p] in v.live && Cost(v.t, p) == 0
  {
    SharedWorthless(v, p);
    var q :| q in v.rt && q != p && q !in {} && v.rt[q] == v.rt[p];
    assert q !in {p} && v.rt[q] in v.live;
  }

  /** The route has the hop of its vport, which is that of the other route there. */
  lemma SharerHolds(saved: seq<Saved>, trail: seq<Mark>, first: View, mid: map<Prefix, nat>, v: View, p: Prefix, r: Prefix)
    requires |trail| > 0 && first.t == trail[0].t && Coherent(first) && Coherent(v) && Undoing.Near(v, trail[0], {p})
    requires Undoing.KeepApart(saved, first.rt, mid) && Undoing.KeepApart(saved, mid, v.rt)
    requires Undoing.Untouched(saved, p) && Undoing.Untouched(saved, r)
    requires p in first.rt && r in first.rt && r != p && first.rt[r] == first.rt[p]
    ensures v.t == trail[0].t
  {
    assert v.rt[r] == v.rt[p] && first.t[r] == first.t[p];
    assert (v.t - {p})[r] == (trail[0].t - {p})[r];
    assert v.t[p] == trail[0].t[p];
    Undoing.SameLost(v, trail[0], {p});
  }

  /** What the undoing has left of the routes of a DIR-24-8 table. */
  ghost predicate Left(saved: seq<Saved>, trail: seq<Mark>, first: View, mid: map<Prefix, nat>, v: View, p: Prefix,
                       stuck: bool, lost: set<Prefix>) {
    && |trail| == |saved| + 1 && first.t == trail[0].t && Coherent(first) && Coherent(v) && p in trail[|saved|].t
    && (Undoing.Untouched(saved, p) ==> !stuck && lost == {p})
    && (stuck ==> exists k :: 0 <= k < |saved| && saved[k].kind == CmdAdd)
    && (!stuck ==> Undoing.Near(v, trail[0], lost))
    && (!stuck ==> Undoing.KeepApart(saved, first.rt, mid) && Undoing.KeepApart(saved, mid, v.rt))
    && (Undoing.Untouched(saved, p) && Merged(first, {}) ==>
          p in v.t && v.t[p] == Undoing.FateAt(saved, trail, p, trail[|saved|].t[p], 0).hop)
  }

  lemma LeftRestored(e: Element, saved: seq<Saved>, trail: seq<Mark>, first: View, mid: map<Prefix, nat>, v: View,
                     cs: seq<Command>, p: Prefix, stuck: bool, lost: set<Prefix>)
    requires Steps(e, saved, trail, cs) && Left(saved, trail, first, mid, v, p, stuck, lost)
    ensures Restored(v.t, trail[0].t, first, cs, |saved|, p, stuck, lost)
  {
    SparedSame(e, saved, trail, cs, p);
    if stuck {
      var k: nat :| k < |saved| && saved[k].kind == CmdAdd;
      AddsThere(e, saved, trail, cs, k);
    }
    if Spared(cs, |saved|, p) {
      SparedKeeps(e, saved, trail, cs, p, |saved|);
      CourseIsFate(e, saved, trail, cs, p, 0);
      if r: Prefix :| Sharing(first.rt, cs, |saved|, p, r) {
        SparedSame(e, saved, trail, cs, r);
        SharerHolds(saved, trail, first, mid, v, p, r);
      }
      PutTogether(v, trail[0], p);
    }
  }

  lemma AddsThere(e: Element, saved: seq<Saved>, trail: seq<Mark>, cs: seq<Command>, k: nat)
    requires Steps(e, saved, trail, cs) && k < |saved| && saved[k].kind == CmdAdd
    ensures Adds(trail[0].t, cs, k)
  {
    assert Batch(trail[0].t, cs[..k]) == Some(trail[k].t) && Undoes(e, saved[k], trail[k], trail[k + 1]);
  }

  lemma PutTogether(v: View, m: Mark, p: Prefix)
    requires Undoing.Near(v, m, {p})
    ensures v.t == m.t[p := v.t[p]]
  {
    Undoing.SameLost(v, m, {p});
  }

  /** Lines 256-266 after a replacement has found no vport. */
  method RollbackShort(e: Element, saved: seq<Saved>, ghost trail: seq<Mark>, ghost first: View, ghost cs: seq<Command>,
                       ghost p: Prefix, ghost hop: Hop)
    returns (stuck: bool, ghost lost: set<Prefix>)
    requires e.Direct? && Stranded(e.direct, p, hop) && Steps(e, saved, trail, cs) && Now(e) == trail[|saved|]
    requires Followed(e, saved, trail, e.Seen(), first, cs) && Coherent(first) && first.t == trail[0].t
    modifies e.Footprint()
    ensures e.Readable() && fresh(e.Footprint() - old(e.Footprint()))
    ensures Restored(e.Routes(), trail[0].t, first, cs, |saved|, p, stuck, lost)
  {
    ghost var mid := e.direct.rtable;
    ForUndo(e, saved, trail);
    StrandedHolds(e.direct, p, hop);
    stuck, lost := Undoing.Rollback(e.direct, saved, trail, p);
    e.direct.SeenCoherent();
    LeftRestored(e, saved, trail, first, mid, e.direct.Seen(), cs, p, stuck, lost);
  }

  // ---- the whole batch

  /**
   * How far a batch from `start` comes, and what stops it. A replacement that runs
   * out of vports (`short`) finds them all in use, none for the hop it asks for,
   * and its own shared; and the batch has started with nearly as many. While no two
   * vports in use have the same next hop the routes alone tell what is lacking.
   */
  ghost predicate Stops(e: Element, start: Mark, merged: bool, cs: seq<Command>, at: nat, status: Status, short: bool) {
    && at <= |cs| && Batch(start.t, cs[..at]).Some? && (status == Ok <==> at == |cs|)
    && (merged ==> forall j :: 0 <= j < at ==> !Lacking(e, TableAt(start.t, cs, j), cs[j]))
    && if status == Ok then !short
       else var u, c := TableAt(start.t, cs, at), cs[at];
         && Fails(e, u, c, status, merged)
         && (short <==> status == NoMemory && c.Set? && c.p in u)
         && (short ==> c.hop !in (u - {c.p}).Values && u[c.p] in (u - {c.p}).Values && VPORT_LIMIT <= start.load + at)
  }

  lemma Stopped(e: Element, saved: seq<Saved>, trail: seq<Mark>, v: View, first: View, cs: seq<Command>,
                status: Status, short: bool)
    requires Steps(e, saved, trail, cs) && Followed(e, saved, trail, v, first, cs)
    requires status == Ok <==> |saved| == |cs|
    requires status == Ok ==> !short
    requires status != Ok ==> Fails(e, trail[|saved|].t, cs[|saved|], status, Merged(first, {}))
    requires status != Ok ==> (short <==> status == NoMemory && cs[|saved|].Set? && cs[|saved|].p in trail[|saved|].t)
    requires short ==> v.t == trail[|saved|].t && Coherent(v) && cs[|saved|].p in v.rt && !v.Alone(cs[|saved|].p, {})
    requires short ==> trail[|saved|].load == VPORT_LIMIT && cs[|saved|].hop !in (v.t - {cs[|saved|].p}).Values
    ensures Stops(e, trail[0], Merged(first, {}), cs, |saved|, status, short)
  {
    assert Batch(trail[0].t, cs[..|saved|]) == Some(trail[|saved|].t);
    forall j | 0 <= j < |saved|
      ensures TableAt(trail[0].t, cs, j) == trail[j].t
    {
      assert Batch(trail[0].t, cs[..j]) == Some(trail[j].t);
    }
    if short {
      SharedWorthless(v, cs[|saved|].p);
    }
  }

  /** What a batch has left behind that failed. */
  ghost predicate Ends(e: Element, start: Mark, first: View, cs: seq<Command>, at: nat, short: bool, stuck: bool,
                       lost: set<Prefix>)
    requires at < |cs|
    reads e.Footprint()
  {
    if short then e.Readable() && !cs[at].Malformed? && Restored(e.Routes(), start.t, first, cs, at, cs[at].p, stuck, lost)
    else !stuck && Holds(e, start)
  }

  lemma StoppedHere(e: Element, saved: seq<Saved>, trail: seq<Mark>, first: View, cs: seq<Command>, status: Status,
                    short: bool)
    requires e.Readable() && Steps(e, saved, trail, cs) && Followed(e, saved, trail, e.Seen(), first, cs) && |saved| < |cs|
    requires Now(e) == trail[|saved|] && Fails(e, trail[|saved|].t, cs[|saved|], status, Merged(first, {}))
    requires short <==> Short(e, status, cs[|saved|])
    requires short ==> Stranded(e.direct, cs[|saved|].p, cs[|saved|].hop)
    ensures Stops(e, trail[0], Merged(first, {}), cs, |saved|, status, short)
  {
    if short {
      e.direct.SeenCoherent();
    }
    Stopped(e, saved, trail, e.Seen(), first, cs, status, short);
  }

  /** How far the commands have come: the last has failed, unless `status` is `Ok`. */
  ghost predicate Come(e: Element, cs: seq<Command>, status: Status, saved: seq<Saved>, trail: seq<Mark>, first: View)
    reads e.Footprint()
  {
    && e.Readable() && Steps(e, saved, trail, cs) && Now(e) == trail[|saved|] && Followed(e, saved, trail, e.Seen(), first, cs)
    && if status == Ok then e.Valid() && Plain(e, e.Routes())
       else && |saved| < |cs| && Fails(e, trail[|saved|].t, cs[|saved|], status, Merged(first, {}))
            && if Short(e, status, cs[|saved|]) then Stranded(e.direct, cs[|saved|].p, cs[|saved|].hop) else e.Valid()
  }

  /** Line 247: one command more, if it does not fail. */
  method RunOne(e: Element, cs: seq<Command>, saved: seq<Saved>, ghost trail: seq<Mark>, ghost first: View)
    returns (status: Status, saved': seq<Saved>, ghost trail': seq<Mark>)
    requires Come(e, cs, Ok, saved, trail, first) && |saved| < |cs| && WellFormed(e, cs[|saved|]) && SafeRun(e, trail[0].t, cs)
    modifies e.Footprint()
    ensures Come(e, cs, status, saved', trail', first) && trail'[0] == trail[0]
    ensures fresh(e.Footprint() - old(e.Footprint()))
    ensures |saved'| == |saved| + if status == Ok then 1 else 0
  {
    var undo;
    status, undo := RunNext(e, cs, saved, trail, first);
    saved', trail' := saved, trail;
    if status == Ok {
      saved', trail' := saved + [undo.value], trail + [Now(e)];
    }
  }

  /** Lines 228-252: one command after another, until one fails. */
  method RunUntil(e: Element, cs: seq<Command>, ghost first: View)
    returns (status: Status, saved: seq<Saved>, ghost trail: seq<Mark>)
    requires e.Readable() && Come(e, cs, Ok, [], [Now(e)], first) && SafeRun(e, e.Routes(), cs)
    requires forall k :: 0 <= k < |cs| ==> WellFormed(e, cs[k])
    modifies e.Footprint()
    ensures Come(e, cs, status, saved, trail, first) && trail[0] == old(Now(e)) && (status == Ok <==> |saved| == |cs|)
    ensures fresh(e.Footprint() - old(e.Footprint()))
  {
    status, saved, trail := Ok, [], [Now(e)];
    while |saved| < |cs| && status == Ok
      invariant Come(e, cs, status, saved, trail, first) && trail[0] == old(Now(e))
      invariant fresh(e.Footprint() - old(e.Footprint()))
      decreases |cs| - |saved|, status == Ok
    {
      status, saved, trail := RunOne(e, cs, saved, trail, first);
    }
  }

  /** Lines 254-267. */
  method UndoAll(e: Element, cs: seq<Command>, status: Status, saved: seq<Saved>, ghost trail: seq<Mark>, ghost first: View)
    returns (short: bool, stuck: bool, ghost lost: set<Prefix>)
    requires Come(e, cs, status, saved, trail, first) && status != Ok
    requires e.Direct? ==> Coherent(first) && first.t == trail[0].t
    modifies e.Footprint()
    ensures e.Readable() && fresh(e.Footprint() - old(e.Footprint()))
    ensures Stops(e, trail[0], Merged(first, {}), cs, |saved|, status, short)
    ensures Ends(e, trail[0], first, cs, |saved|, short, stuck, lost)
  {
    stuck, lost := false, {};
    var c := cs[|saved|];
    short := status == NoMemory && c.Set? && e.Direct? && c.p in e.direct.rtable;
    StoppedHere(e, saved, trail, first, cs, status, short);
    if short {
      stuck, lost := RollbackShort(e, saved, trail, first, cs, c.p, c.hop);
    } else {
      Rollback(e, saved, trail);
    }
  }

  lemma FirstCoherent(e: Element)
    requires e.Valid()
    ensures e.Direct? ==> Coherent(e.Seen()) && e.Seen().t == e.Routes()
  {
    if e.Direct? {
      e.direct.SeenCoherent();
    }
  }

  lemma AllPassed(e: Element, saved: seq<Saved>, trail: seq<Mark>, v: View, first: View, cs: seq<Command>)
    requires Steps(e, saved, trail, cs) && Followed(e, saved, trail, v, first, cs) && |saved| == |cs|
    ensures Some(trail[|cs|].t) == Batch(trail[0].t, cs)
    ensures Stops(e, trail[0], Merged(first, {}), cs, |cs|, Ok, false)
  {
    assert cs[..|cs|] == cs;
    Stopped(e, saved, trail, v, first, cs, Ok, false);
  }

  lemma NoBatch(e: Element, cs: seq<Command>, status: Status, saved: seq<Saved>, trail: seq<Mark>, first: View)
    requires Come(e, cs, status, saved, trail, first) && status != Ok
    ensures status != NoMemory ==> Batch(trail[0].t, cs) == None
  {
    BatchPrefix(trail[0].t, cs, |saved|, trail[|saved|].t);
  }

  /**
   * Lines 221-268: the commands are run in order; at the first that fails, the
   * ones before it are undone, and nothing has happened. The one exception is a
   * replacement the DIR-24-8 table has no vport for (`short`): see `Restored`.
   */
  method CtrlHandler(e: Element, cs: seq<Command>)
    returns (status: Status, short: bool, stuck: bool, ghost at: nat, ghost lost: set<Prefix>)
    requires e.Valid() && Plain(e, e.Routes()) && forall k :: 0 <= k < |cs| ==> WellFormed(e, cs[k])
    requires SafeRun(e, e.Routes(), cs)
    modifies e.Footprint()
    ensures e.Readable() && fresh(e.Footprint() - old(e.Footprint())) && (!short ==> e.Valid() && !stuck)
    ensures Stops(e, old(Now(e)), old(Merged(e.Seen(), {})), cs, at, status, short)
    ensures status == Ok ==> Some(e.Routes()) == Batch(old(e.Routes()), cs)
    ensures status != Ok && status != NoMemory ==> Batch(old(e.Routes()), cs) == None
    ensures status != Ok && !short ==> e.Routes() == old(e.Routes()) && e.Load() <= old(e.Load())
    ensures short ==> Restored(e.Routes(), old(e.Routes()), old(e.Seen()), cs, at, cs[at].p, stuck, lost)
  {
    ghost var first := e.Seen();
    FirstCoherent(e);
    NonePassed(e, cs);
    var saved;
    ghost var trail;
    status, saved, trail := RunUntil(e, cs, first);
    short, stuck, at, lost := false, false, |saved|, {};
    if status == Ok {
      AllPassed(e, saved, trail, e.Seen(), first, cs);
    } else {
      NoBatch(e, cs, status, saved, trail, first);
      short, stuck, lost := UndoAll(e, cs, status, saved, trail, first);
    }
  }
}
