/**
 * Runs of the address-pair rewriter that go wrong: an answer that is not seen,
 * a pair that breaks, a variation that is never tried again, and mappings
 * discarded while in use or never at all.
 */
module NatFaults {
  import opened NatPatterns
  import opened NatTables

  /** A pattern that sets a port: the packet goes out, and its answer, dropped unless known, is dropped. */
  method HiddenAnswer() returns (asked: Verdict, answered: Verdict)
    ensures asked == Sent(1, 2, 0) && answered == Killed
  {
    var r := new Rewriter();
    var p := new Pattern(0, 80, 0, 0, true, false, 0);
    ghost var outf, back;
    asked, outf := r.Push(Through(p, 0, 1), 1, 2, 0, 0, 0);
    assert outf == FlowId(1, 80, 2, 0);
    answered, back := r.Push(Drop, 2, 1, 0, 0, 0);
  }

  /** A pattern whose first variation maps a flow onto its own reverse: the one entry left is no pair. */
  method OntoItself() returns (r: Rewriter, m: Mapping?)
    ensures m != null && m.mapto == Flow(1, 2).Reverse() && !r.Paired()
  {
    r := new Rewriter();
    var p := new Pattern(2, 0, 1, 0, false, true, 1);
    assert p.Varied(Flow(1, 2), 0) == Flow(2, 1);
    assert r.table.Keys == {} && p.Offers(Flow(1, 2), 0, r.table.Keys, p.next);
    m := r.ApplyPattern(p, Flow(1, 2), 0, 1, 0, 0);
    p.FirstIsFree(Flow(1, 2), {}, 0, 1, p.next - 1);
  }

  /** A sequential pattern of two variations that has given out the second: it fails, though the first is free. */
  method NeverTriedAgain() returns (found: bool, p: Pattern)
    ensures !found && p.top == 1 && !p.Taken(Flow(1, 2), 0, {Flow(7, 6)})
  {
    p := new Pattern(5, 0, 7, 0, false, true, 1);
    assert p.Varied(Flow(1, 2), 0) == Flow(5, 7) && p.Varied(Flow(1, 2), 1) == Flow(6, 7);
    var found1, out1 := NextGiven(p, {});
    var found2, out2 := NextGiven(p, {Flow(7, 5)});
    var out3;
    found, out3 := p.Choose(Flow(1, 2), {Flow(7, 6)}, 0, 0);
  }

  /** While the next variation is free a sequential pattern gives it. */
  method NextGiven(p: Pattern, keys: set<FlowId>) returns (found: bool, out: FlowId)
    requires p.Valid() && p.sequential && p.next <= p.top && 0 < p.top && p.Varied(Flow(1, 2), p.next).Reverse() !in keys
    modifies p
    ensures p.Valid() && found && out == p.Varied(Flow(1, 2), old(p.next)) && p.next == old(p.next) + 1
  {
    assert p.Offers(Flow(1, 2), p.next, keys, p.next);
    found, out := p.Choose(Flow(1, 2), keys, 0, 0);
    p.FirstIsFree(Flow(1, 2), keys, old(p.next), 1, p.next - 1);
  }

  /** A packet and its answer, sent on as they are. */
  method OneFlow(now: nat) returns (r: Rewriter)
    requires now < GC_JIFFIES + WORD / 2
    ensures fresh(r) && r.Paired() && r.table.Keys == {Flow(1, 2), Flow(2, 1)}
    ensures r.InTime(Flow(1, 2)) && !r.Tracked(Flow(1, 2)) && (r.Early(Flow(1, 2)) <==> now < 7_200_000)
  {
    r := new Rewriter();
    var v, outf := r.Push(Keep(0, 1), 1, 2, now, 0, 0);
    assert r.PairOk(Flow(1, 2));
    v, outf := r.Push(Keep(0, 1), 2, 1, now, 0, 0);
    assert r.PairOk(Flow(1, 2));
  }

  /** They are sent in jiffy 7 199 999, and the timer running in that jiffy discards their pair. */
  method DiscardedInUse() returns (r: Rewriter)
    ensures r.Paired() && Flow(1, 2) !in r.table
  {
    r := OneFlow(GC_JIFFIES - 1);
    r.RunTimer();
  }

  /** Sent in the next jiffy they leave a pair that the timer does not discard, however often it runs. */
  method NeverDiscarded(runs: nat) returns (r: Rewriter)
    ensures r.Paired() && Flow(1, 2) in r.table
  {
    r := OneFlow(GC_JIFFIES);
    var n := 0;
    while n < runs
      invariant r.Paired() && Flow(1, 2) in r.table && fresh(r)
      invariant r.InTime(Flow(1, 2)) && !r.Early(Flow(1, 2))
    {
      r.RunTimer();
      n := n + 1;
    }
  }
}
