/**
 * The table of `IPAddrPairRewriter` (bfclick/ip/ipaddrpairrewriter.cc,
 * bfclick/ip/iprw.cc): every live flow has a mapping out and one back.
 */
module NatTables {
  import opened NatPatterns

  class Mapping {
    var mapto: FlowId           // _mapto
    var output: nat             // _output
    var secondary: bool         // F_REVERSE
    var mate: Mapping?          // _reverse
    var used: nat               // _used, in jiffies
    var tracked: bool           // F_FREE_TRACKED

    /** Lines 48-51 of iprw.cc: when it was used is not set before it is. */
    constructor ()
      ensures mate == null && !tracked
    {
      mapto, output, secondary, mate, tracked := FlowId(0, 0, 0, 0), 0, false, null, false;
      used := *;
    }
  }

  /** `used_since`, for one mapping: jiffies are compared as 32-bit differences. */
  predicate Since(used: nat, last: nat) {
    (used - last) % WORD < WORD / 2
  }

  /** So times less than half a wrap apart are told in order, whether or not the counter wrapped between. */
  lemma SinceIsOrder(u: nat, l: nat)
    requires -(WORD / 2) <= u - l < WORD / 2
    ensures Since(u % WORD, l % WORD) <==> l <= u
  {
    SinceOfTrue(u / WORD, l / WORD, u % WORD, l % WORD);
  }

  lemma SinceOfTrue(a: int, b: int, x: int, y: int)
    requires 0 <= x < WORD && 0 <= y < WORD && -(WORD / 2) <= (a * WORD + x) - (b * WORD + y) < WORD / 2
    ensures (x - y) % WORD < WORD / 2 <==> b * WORD + y <= a * WORD + x
  {
    assert -1 <= a - b <= 1;
  }

  /** `GC_INTERVAL_SEC * 1000`. */
  const GC_JIFFIES := 7_200_000

  lemma SinceInterval(u: nat)
    requires u < GC_JIFFIES + WORD / 2
    ensures Since(u, GC_JIFFIES) <==> GC_JIFFIES <= u
  {
    SinceOfTrue(0, 0, u, GC_JIFFIES);
  }

  /** Lines 84-91 of iprw.cc. */
  method MakePair(inf: FlowId, outf: FlowId, foutput: nat, routput: nat, f: Mapping, r: Mapping)
    requires f != r
    modifies f, r
    ensures f.mapto == outf && f.output == foutput && !f.secondary && f.mate == r
    ensures r.mapto == inf.Reverse() && r.output == routput && r.secondary && r.mate == f
    ensures f.used == old(f.used) && r.used == old(r.used) && f.tracked == old(f.tracked) && r.tracked == old(r.tracked)
  {
    f.mapto, f.output, f.secondary, f.mate := outf, foutput, false, r;
    r.mapto, r.output, r.secondary, r.mate := inf.Reverse(), routput, true, f;
  }

  /** What is done with an input's new flows: `INPUT_SPEC_DROP`, `_NOCHANGE`, `_KEEP`, `_PATTERN`. */
  datatype InputSpec =
    | Drop
    | NoChange(output: nat)
    | Keep(fport: nat, rport: nat)
    | Through(pattern: Pattern, fport: nat, rport: nat)
  {
    function Pattern(): Pattern? { if Through? then pattern else null }

    /** `allow_nat`, which `notify_pattern` asks of every pattern. */
    ghost predicate Valid()
      reads Pattern()
    {
      Through? ==> pattern.Valid() && (!pattern.isNapt || pattern.top == 0)
    }

    predicate NewPair() { Keep? || Through? }

    /** The pattern, if there is one, leaves the ports of a flow alone. */
    predicate PortsKept() { Through? ==> pattern.sport == 0 && pattern.dport == 0 }
  }

  /** A flow as a rewriter of address pairs knows it: without ports. */
  function Flow(src: nat, dst: nat): FlowId { FlowId(src, 0, dst, 0) }

  datatype Verdict = Killed | Sent(src: nat, dst: nat, output: nat)

  class Rewriter {
    var table: map<FlowId, Mapping>     // _map

    constructor ()
      ensures Paired() && table == map[]
    {
      table := map[];
    }

    /** The mapping of `k` is one of two, each the way back from the other. */
    ghost predicate PairOk(k: FlowId)
      requires k in table
      reads this, table.Values
    {
      var m := table[k];
      var back := m.mapto.Reverse();
      && back in table && back != k
      && m.mate == table[back] && table[back].mate == m
      && table[back].mapto == k.Reverse() && m.secondary != table[back].secondary
    }

    /** The table is a set of such pairs. */
    ghost predicate Paired()
      reads this, table.Values
    {
      forall k {:trigger PairOk(k)} | k in table :: PairOk(k)
    }

    /** A reply to a rewritten packet is rewritten to a reply to the packet itself. */
    lemma ReplyReturns(k: FlowId)
      requires Paired() && k in table
      ensures table[k].mapto.Reverse() in table && table[table[k].mapto.Reverse()].mapto == k.Reverse()
    {
      assert PairOk(k);
    }

    /** No two flows are rewritten alike, and no mapping serves two. */
    lemma NoCollision(k: FlowId, l: FlowId)
      requires Paired() && k in table && l in table && k != l
      ensures table[k].mapto != table[l].mapto && table[k] != table[l]
    {
      assert PairOk(k) && PairOk(l);
    }

    /** The way back of an outside flow is not a key yet, and not to become one. */
    static ghost predicate NewWay(flow: FlowId, outf: FlowId, keys: set<FlowId>) {
      outf.Reverse() !in keys && outf.Reverse() != flow
    }

    /** Lines 135-147: a mapping out and one back are entered. They are a pair exactly when the way back is new. */
    method Install(flow: FlowId, outf: FlowId, fport: nat, rport: nat) returns (m: Mapping)
      requires Paired() && flow !in table
      modifies this
      ensures m.mapto == outf && m.output == fport && !m.secondary && flow in table && fresh(m)
      ensures !m.tracked
      ensures fresh(table.Values - old(table.Values))
      ensures Paired() <==> NewWay(flow, outf, old(table.Keys))
      ensures table.Keys == old(table).Keys + {flow, outf.Reverse()}
      ensures Paired() ==> table[flow] == m && table[outf.Reverse()].output == rport
      ensures forall k <- old(table) :: k != outf.Reverse() ==> table[k] == old(table)[k]
      ensures forall k <- old(table) :: unchanged(old(table)[k])
    {
      var f := new Mapping();
      var r := new Mapping();
      MakePair(flow, outf, fport, rport, f, r);
      var rev := f.mapto.Reverse();
      table := table[flow := f];
      table := table[rev := r];
      m := f;
      Added(flow, outf, f, r);
    }

    /**
     * Lines 128-154. It fails only when a pattern has no variation to give. A pattern with variations
     * gives one whose way back is not in the table, though it may be the flow itself; one without
     * does not look.
     */
    method ApplyPattern(pattern: Pattern?, flow: FlowId, fport: nat, rport: nat, start: nat, stride: nat)
      returns (m: Mapping?)
      requires Paired() && flow !in table && (pattern != null ==> pattern.Valid())
      modifies this, pattern
      ensures (pattern != null ==> pattern.Valid()) && fresh(table.Values - old(table.Values))
      ensures m == null <==> Exhausted(pattern, flow, old(table.Keys), old(From(pattern)))
      ensures m == null ==> Paired() && table == old(table)
      ensures m != null ==> m.output == fport && flow in table && fresh(m) && Outside(pattern, flow, m.mapto, old(table.Keys), old(From(pattern)))
      ensures m == null ==> Spent(pattern, flow, old(table.Keys), old(From(pattern)))
      ensures m != null ==> Given(pattern, flow, m.mapto, old(table.Keys), old(From(pattern)))
      ensures m != null ==> !m.secondary && !m.tracked
      ensures m != null ==> (Paired() <==> NewWay(flow, m.mapto, old(table.Keys)))
      ensures m != null && !Varies(pattern) ==> (Paired() <==> NewWay(flow, Single(pattern, flow), old(table.Keys)))
      ensures m != null && Varies(pattern) ==> (Paired() <==> m.mapto != flow.Reverse())
      ensures m != null && Varies(pattern) && pattern.Fixed(flow).daddr != flow.saddr ==> Paired()
      ensures m != null ==> table.Keys == old(table).Keys + {flow, m.mapto.Reverse()}
      ensures m != null && Paired() ==> table[flow] == m && table[m.mapto.Reverse()].output == rport
      ensures m != null && Varies(pattern) ==>
        pattern.next > 0 && pattern.FirstFree(flow, old(table.Keys), pattern.First(old(From(pattern)), start), pattern.Stride(stride), pattern.next - 1)
        && m.mapto == pattern.Varied(flow, pattern.next - 1)
      ensures forall k <- old(table) :: k in table && (m == null || k != m.mapto.Reverse() ==> table[k] == old(table)[k])
    {
      if pattern == null {
        m := Install(flow, flow, fport, rport);
        return;
      }
      var found, outf := pattern.Choose(flow, table.Keys, start, stride);
      if !found {
        return null;
      }
      m := Install(flow, outf, fport, rport);
    }

    static predicate Varies(pattern: Pattern?) { pattern != null && pattern.top > 0 }

    /** The one flow a pattern without variations gives. */
    static function Single(pattern: Pattern?, flow: FlowId): FlowId {
      if pattern == null then flow else pattern.Fixed(flow)
    }

    /** What is asked of an input for a flow to be entered as a pair, whatever variation it is given. */
    static ghost predicate SurelyPairs(pattern: Pattern?, flow: FlowId, keys: set<FlowId>) {
      if Varies(pattern) then pattern.Fixed(flow).daddr != flow.saddr else NewWay(flow, Single(pattern, flow), keys)
    }

    static ghost function From(pattern: Pattern?): nat
      reads pattern
    {
      if pattern == null then 0 else pattern.next
    }

    /** No variation is left to give. */
    static ghost predicate Exhausted(pattern: Pattern?, flow: FlowId, keys: set<FlowId>, from: nat) {
      pattern != null && pattern.top > 0 && forall v: nat :: !pattern.Offers(flow, v, keys, from)
    }

    /** What a flow may be rewritten to. */
    static ghost predicate Outside(pattern: Pattern?, flow: FlowId, outf: FlowId, keys: set<FlowId>, from: nat) {
      if !Varies(pattern) then outf == Single(pattern, flow)
      else exists v: nat :: pattern.Offers(flow, v, keys, from) && outf == pattern.Varied(flow, v)
    }

    /** No outside flow of the range is left to give. */
    static ghost predicate Spent(pattern: Pattern?, flow: FlowId, keys: set<FlowId>, from: nat) {
      Varies(pattern) && (pattern.NoWrap() ==> forall o: FlowId :: !pattern.MayGive(flow, o, keys, from))
    }

    /** The outside flow has the fields the pattern sets, one of its range in the place of the one it varies. */
    static ghost predicate Given(pattern: Pattern?, flow: FlowId, outf: FlowId, keys: set<FlowId>, from: nat) {
      if pattern == null then outf == flow
      else pattern.Keeps(flow, outf) && (Varies(pattern) && pattern.NoWrap() ==> pattern.MayGive(flow, outf, keys, from))
    }

    /** `mark_used`. */
    method MarkUsed(m: Mapping, now: nat)
      modifies m`used
      ensures m.used == now && (Paired() <==> old(Paired()))
    {
      m.used := now;
      forall k | k in table
        ensures PairOk(k) <==> old(PairOk(k))
      {
      }
    }

    /**
     * `push`: a flow in the table goes by its mapping; a new one is treated as its input says. Flows
     * are looked up without ports.
     */
    method Push(spec: InputSpec, src: nat, dst: nat, now: nat, start: nat, stride: nat) returns (v: Verdict, ghost outf: FlowId)
      requires Paired() && spec.Valid()
      modifies this, table.Values`used, spec.Pattern()
      ensures spec.Valid() && fresh(table.Values - old(table.Values))
      ensures Flow(src, dst) in old(table) ==>
        Paired() && table == old(table) && outf == old(table[Flow(src, dst)].mapto) &&
        v == Sent(outf.saddr, outf.daddr, old(table[Flow(src, dst)].output)) && table[Flow(src, dst)].used == now &&
        forall k <- table :: table[k] != table[Flow(src, dst)] ==> table[k].used == old(table[k].used)
      ensures Flow(src, dst) !in old(table) && !spec.NewPair() ==>
        Paired() && table == old(table) && v == if spec.Drop? then Killed else Sent(src, dst, spec.output)
      ensures Flow(src, dst) !in old(table) && spec.NewPair() ==>
        (v == Killed <==> Exhausted(spec.Pattern(), Flow(src, dst), old(table.Keys), old(From(spec.Pattern()))))
      ensures Flow(src, dst) !in old(table) && spec.NewPair() && v == Killed ==>
        Paired() && table == old(table) && Spent(spec.Pattern(), Flow(src, dst), old(table.Keys), old(From(spec.Pattern())))
      ensures Flow(src, dst) !in old(table) && spec.NewPair() && v != Killed ==>
        Outside(spec.Pattern(), Flow(src, dst), outf, old(table.Keys), old(From(spec.Pattern()))) &&
        Given(spec.Pattern(), Flow(src, dst), outf, old(table.Keys), old(From(spec.Pattern()))) &&
        v == Sent(outf.saddr, outf.daddr, spec.fport) && table.Keys == old(table.Keys) + {Flow(src, dst), outf.Reverse()} &&
        (Paired() <==> NewWay(Flow(src, dst), outf, old(table.Keys)))
      // what is there stays as it is, but for an entry whose key is the new way back
      ensures Flow(src, dst) !in old(table) ==> forall k <- old(table) ::
        k in table && (v == Killed || !spec.NewPair() || k != outf.Reverse() ==> table[k] == old(table)[k]) &&
        old(table)[k].used == old(table[k].used)
      ensures Flow(src, dst) !in old(table) && spec.NewPair() && v != Killed && SurelyPairs(spec.Pattern(), Flow(src, dst), old(table.Keys)) ==>
        Paired()
      ensures Flow(src, dst) !in old(table) && spec.NewPair() && v != Killed && Paired() ==>
        Flow(src, dst) in table && outf.Reverse() in table && table[Flow(src, dst)].mapto == outf &&
        table[outf.Reverse()].mapto == Flow(dst, src) && table[outf.Reverse()].output == spec.rport &&
        table[Flow(src, dst)].used == now && !table[Flow(src, dst)].secondary && !table[Flow(src, dst)].tracked
    {
      var flow := Flow(src, dst);
      outf := flow;
      if flow in table {
        var m := table[flow];
        MarkUsed(m, now);
        return Sent(m.mapto.saddr, m.mapto.daddr, m.output), m.mapto;
      }
      match spec {
        case Drop => v := Killed;
        case NoChange(output) => v := Sent(src, dst, output);
        case _ =>
          var m := ApplyPattern(spec.Pattern(), flow, spec.fport, spec.rport, start, stride);
          if m == null {
            return Killed, outf;
          }
          outf := m.mapto;
          v := Sent(m.mapto.saddr, m.mapto.daddr, m.output);
          assert Paired() ==> PairOk(flow);
          MarkUsed(m, now);
      }
    }

    twostate lemma Added(new flow: FlowId, new outf: FlowId, new f: Mapping, new r: Mapping)
      requires old(Paired()) && flow !in old(table) && table == old(table)[flow := f][outf.Reverse() := r]
      requires fresh(f) && fresh(r) && f != r && f.mapto == outf && f.mate == r && !f.secondary
      requires r.mapto == flow.Reverse() && r.mate == f && r.secondary
      requires forall k <- old(table) :: unchanged(old(table)[k])
      ensures Paired() <==> NewWay(flow, outf, old(table.Keys))
    {
      var rev := outf.Reverse();
      if rev !in old(table) && rev != flow {
        forall k <- table
          ensures PairOk(k)
        {
          assert k in old(table) ==> old(PairOk(k));
        }
      } else if rev == flow {
        assert !PairOk(flow);
      } else {
        assert old(PairOk(rev));
        assert !PairOk(old(table)[rev].mapto.Reverse());
      }
    }

    /** A pattern that sets no port keeps the outside flows of address pairs without ports too. */
    static lemma PortsStayOut(spec: InputSpec, src: nat, dst: nat, outf: FlowId, keys: set<FlowId>, from: nat)
      requires spec.Valid() && spec.NewPair() && Outside(spec.Pattern(), Flow(src, dst), outf, keys, from)
      ensures spec.PortsKept() ==> outf == Flow(outf.saddr, outf.daddr)
    {
    }

    /** The answer to a packet of flow `k` is looked up as the way back of its mapping: it is the mate that rewrites it. */
    ghost predicate Answers(k: FlowId)
      requires k in table
      reads this, table.Values
    {
      var back := Flow(table[k].mapto.daddr, table[k].mapto.saddr);
      back in table && table[back] == table[k].mate
    }

    /** A mapping with a port hides its answers, and only such a one does. */
    lemma AnswersIffNoPorts(k: FlowId)
      requires Paired() && k in table
      ensures Answers(k) <==> table[k].mapto.sport == 0 && table[k].mapto.dport == 0
    {
      assert PairOk(k);
      var m := table[k].mapto;
      if Answers(k) && Flow(m.daddr, m.saddr) != m.Reverse() {
        NoCollision(Flow(m.daddr, m.saddr), m.Reverse());
      }
    }

    /**
     * A packet, of a flow known or new, and the answer to it, by whatever input that comes. The answer
     * leaves by the reply output, addressed to the first sender from the node first asked, if the
     * mapping has no ports; with ports the mapping does not see it.
     */
    method Exchange(spec: InputSpec, other: InputSpec, src: nat, dst: nat, now: nat, later: nat, start: nat, stride: nat)
      returns (asked: Verdict, answered: Verdict, ghost outf: FlowId, ghost own: bool)
      requires Paired() && spec.Valid() && other.Valid()
      requires Flow(src, dst) !in table ==> spec.NewPair() && SurelyPairs(spec.Pattern(), Flow(src, dst), table.Keys)
      modifies this, table.Values`used, spec.Pattern(), other.Pattern()
      ensures asked.Killed? ==> answered.Killed? && table == old(table)
      ensures asked.Sent? ==> asked.src == outf.saddr && asked.dst == outf.daddr && (own <==> outf.sport == 0 && outf.dport == 0)
      ensures asked.Sent? && Flow(src, dst) !in old(table) ==>
        Outside(spec.Pattern(), Flow(src, dst), outf, old(table.Keys), old(From(spec.Pattern())))
      ensures asked.Sent? && own ==> Paired() && answered.Sent? && answered.src == dst && answered.dst == src
      ensures asked.Sent? && own && Flow(src, dst) !in old(table) ==> answered.output == spec.rport
    {
      asked, outf := Push(spec, src, dst, now, start, stride);
      own := false;
      if asked.Killed? {
        return asked, Killed, outf, own;
      }
      own := Answers(Flow(src, dst));
      AnswersIffNoPorts(Flow(src, dst));
      assert PairOk(Flow(src, dst));
      ghost var back;
      answered, back := Push(other, asked.dst, asked.src, later, start, stride);
    }

    /** Neither half of the pair was used at `last` or after, and its primary is not kept on a free list. */
    ghost predicate Stale(m: Mapping, last: nat)
      reads m, m.mate
    {
      m.mate != null && !Since(m.used, last) && !Since(m.mate.used, last) && !(if m.secondary then m.mate.tracked else m.tracked)
    }

    ghost function StaleFlows(last: nat): (s: set<FlowId>)
      reads this, table.Values
      requires Paired()
    {
      set k | k in table && PairOk(k) && Stale(table[k], last)
    }

    /** The flow at the other end of each pair. */
    ghost function Backs(): (back: map<FlowId, FlowId>)
      reads this, table.Values
    {
      map k | k in table :: table[k].mapto.Reverse()
    }

    lemma BacksInvolute()
      requires Paired()
      ensures Involution(Backs())
    {
      forall k <- table
        ensures Backs()[k] in Backs() && Backs()[Backs()[k]] == k
      {
        assert PairOk(k);
      }
    }

    lemma StalePair(k: FlowId, last: nat)
      requires Paired() && k in table
      ensures k in StaleFlows(last) <==> Backs()[k] in StaleFlows(last)
      ensures Backs()[k] in table && table[k].secondary != table[Backs()[k]].secondary
    {
      assert PairOk(k) && PairOk(table[k].mapto.Reverse());
    }

    /** Lines 537-550 of iprw.cc: both entries of a pair go. */
    method FreePair(k: FlowId)
      requires Paired() && k in table
      modifies this
      ensures Paired() && table == old(table) - {k, old(table)[k].mapto.Reverse()}
    {
      assert PairOk(k);
      var m := table[k];
      var n := m.mate;
      table := table - {n.mapto.Reverse()};
      table := table - {m.mapto.Reverse()};
      forall j <- table
        ensures PairOk(j)
      {
        assert old(PairOk(j)) && old(PairOk(k));
      }
    }

    /** The first loop of `clean_map`: the stale pairs, each by its primary. */
    method Collect(last: nat) returns (list: seq<FlowId>)
      requires Paired()
      ensures forall k :: k in list <==> k in StaleFlows(last) && k in table && !table[k].secondary
      ensures forall i, j :: 0 <= i < j < |list| ==> list[i] != list[j]
    {
      var todo := table.Keys;
      list := [];
      while todo != {}
        invariant todo <= table.Keys
        invariant forall k :: k in list <==> k in StaleFlows(last) && k in table && !table[k].secondary && k !in todo
        invariant forall i, j :: 0 <= i < j < |list| ==> list[i] != list[j]
        decreases todo
      {
        var k :| k in todo;
        todo := todo - {k};
        assert PairOk(k);
        var m := table[k];
        if !m.secondary && !Since(m.used, last) && !Since(m.mate.used, last) && !m.tracked {
          list := list + [k];
        }
      }
    }

    /** Lines 591-607 of iprw.cc: exactly the stale pairs go. */
    method CleanMap(last: nat)
      requires Paired()
      modifies this
      ensures Paired() && table == old(table) - old(StaleFlows(last))
    {
      var list := Collect(last);
      AreStale(last, list);
      FreeAll(list);
    }

    /** Both halves of the pair were last used before jiffy 7 200 000. */
    ghost predicate Early(k: FlowId)
      requires Paired() && k in table
      reads this, table.Values
    {
      assert PairOk(k);
      table[k].used < 7_200_000 && table[k].mate.used < 7_200_000
    }

    /** No half of the pair was used half a wrap of the counter after that, or later. */
    ghost predicate InTime(k: FlowId)
      requires Paired() && k in table
      reads this, table.Values
    {
      assert PairOk(k);
      table[k].used < 7_200_000 + 0x8000_0000 && table[k].mate.used < 7_200_000 + 0x8000_0000
    }

    ghost predicate Tracked(k: FlowId)
      requires Paired() && k in table
      reads this, table.Values
    {
      assert PairOk(k);
      if table[k].secondary then table[k].mate.tracked else table[k].tracked
    }

    /**
     * Lines 122-126 of ipaddrpairrewriter.cc: `clean_map` is handed the interval, not
     * the time that long ago. So a pair goes iff both halves were last used before
     * that jiffy, however long ago that is, or how short a time.
     */
    method RunTimer()
      requires Paired()
      modifies this
      ensures Paired() && table == old(table) - old(StaleFlows(GC_JIFFIES))
      ensures forall k <- old(table) :: old(InTime(k)) ==> (k !in table <==> old(Early(k) && !Tracked(k)))
    {
      forall k <- table | InTime(k)
        ensures k in StaleFlows(GC_JIFFIES) <==> Early(k) && !Tracked(k)
      {
        assert PairOk(k);
        SinceInterval(table[k].used);
        SinceInterval(table[k].mate.used);
      }
      CleanMap(GC_JIFFIES);
    }

    lemma AreStale(last: nat, list: seq<FlowId>)
      requires Paired()
      requires forall k :: k in list <==> k in StaleFlows(last) && k in table && !table[k].secondary
      ensures forall k <- list :: k in Backs() && Backs()[k] !in list
      ensures Both(list, Backs()) == StaleFlows(last)
    {
      BacksInvolute();
      forall k <- table
        ensures k in Both(list, Backs()) <==> k in StaleFlows(last)
        ensures k in list ==> Backs()[k] !in list
      {
        StalePair(k, last);
        BothIs(list, Backs(), k);
      }
      BothInside(list, Backs());
    }

    /** The second loop of `clean_map`. */
    method FreeAll(list: seq<FlowId>)
      requires Paired() && forall k <- list :: k in Backs() && Backs()[k] !in list
      requires forall i, j :: 0 <= i < j < |list| ==> list[i] != list[j]
      modifies this
      ensures Paired() && table == old(table) - Both(list, old(Backs()))
    {
      ghost var start, back := table, Backs();
      BacksInvolute();
      for i := 0 to |list|
        invariant Paired() && table == start - Both(list[..i], back)
      {
        var k := list[i];
        assert k in list;
        NotYet(list, back, i);
        FreePair(k);
        WithoutMore(start, list, back, i);
      }
      assert list[..|list|] == list;
    }
  }

  // ---- pairs of keys

  ghost predicate Involution<T>(back: map<T, T>) {
    forall k <- back :: back[k] in back && back[back[k]] == k
  }

  /** The keys listed, and the keys they are paired with. */
  ghost function Both<T>(list: seq<T>, back: map<T, T>): set<T>
    requires forall k <- list :: k in back
  {
    if list == [] then {}
    else
      var k := list[|list| - 1];
      Both(list[..|list| - 1], back) + {k, back[k]}
  }

  lemma {:induction false} BothIs<T>(list: seq<T>, back: map<T, T>, x: T)
    requires Involution(back) && x in back && forall k <- list :: k in back
    ensures x in Both(list, back) <==> x in list || back[x] in list
  {
    if list != [] {
      var k := list[|list| - 1];
      BothIs(list[..|list| - 1], back, x);
      assert list == list[..|list| - 1] + [k];
      assert back[k] == x <==> back[x] == k;
    }
  }

  lemma {:induction false} BothInside<T>(list: seq<T>, back: map<T, T>)
    requires Involution(back) && forall k <- list :: k in back
    ensures Both(list, back) <= back.Keys
  {
    if list != [] {
      BothInside(list[..|list| - 1], back);
    }
  }

  lemma NotYet<T>(list: seq<T>, back: map<T, T>, i: nat)
    requires Involution(back) && (forall k <- list :: k in back && back[k] !in list) && i < |list|
    requires forall i, j :: 0 <= i < j < |list| ==> list[i] != list[j]
    ensures list[i] !in Both(list[..i], back)
  {
    BothIs(list[..i], back, list[i]);
  }

  lemma WithoutMore<T, U>(m: map<T, U>, list: seq<T>, back: map<T, T>, i: nat)
    requires i < |list| && forall k <- list :: k in back
    ensures (m - Both(list[..i], back)) - {list[i], back[list[i]]} == m - Both(list[..i + 1], back)
  {
    assert list[..i + 1][..i] == list[..i];
  }
}
