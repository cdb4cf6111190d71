/**
 * `IPReassembler` (bfclick/ip/ipreassembler.cc): the datagrams under
 * reassembly, found by flow, given up when they are old or memory is short.
 */
module Reassemblers {
  import opened Packets
  import opened ReassemblyQueues
  import opened Results

  const NMAP := 256
  const IPH_MEM_USED := 40
  const REAP_TIMEOUT := 30
  const REAP_INTERVAL := 10

  /** What a queue stands for: a datagram, and which of its bytes have arrived. */
  datatype Entry = Entry(w: Packet, seen: set<nat>, len: nat, stamp: int)

  // ---- one bucket

  ghost function Lookup(es: seq<Entry>, f: Flow): Option<Entry> {
    if es == [] then None
    else if es[0].w.flow == f then Some(es[0])
    else Lookup(es[1..], f)
  }

  ghost predicate Distinct(es: seq<Entry>) {
    forall k, l :: 0 <= k < l < |es| ==> es[k].w.flow != es[l].w.flow
  }

  lemma {:induction false} LookupAt(es: seq<Entry>, f: Flow, k: nat)
    requires k < |es| && es[k].w.flow == f && Distinct(es)
    ensures Lookup(es, f) == Some(es[k])
  {
    if k > 0 {
      LookupAt(es[1..], f, k - 1);
    }
  }

  lemma {:induction false} LookupNone(es: seq<Entry>, f: Flow)
    ensures Lookup(es, f) == None <==> forall k :: 0 <= k < |es| ==> es[k].w.flow != f
  {
    if es != [] {
      LookupNone(es[1..], f);
      assert forall k :: 0 <= k < |es[1..]| ==> es[1..][k] == es[k + 1];
      assert forall k :: 0 < k < |es| ==> es[1..][k - 1] == es[k];
    }
  }

  /** Replacing an entry changes the answer for its flow only. */
  lemma {:induction false} LookupReplace(es: seq<Entry>, k: nat, e: Entry, f: Flow)
    requires k < |es| && Distinct(es) && e.w.flow == es[k].w.flow
    ensures Distinct(es[k := e])
    ensures Lookup(es[k := e], f) == if f == e.w.flow then Some(e) else Lookup(es, f)
  {
    if k == 0 {
      assert es[0 := e][1..] == es[1..];
    } else {
      LookupReplace(es[1..], k - 1, e, f);
      assert es[k := e][1..] == es[1..][k - 1 := e];
    }
  }

  ghost function Without(es: seq<Entry>, k: nat): seq<Entry>
    requires k < |es|
  {
    es[..k] + es[k + 1..]
  }

  lemma {:induction false} LookupWithout(es: seq<Entry>, k: nat, f: Flow)
    requires k < |es| && Distinct(es)
    ensures Lookup(Without(es, k), f) == if f == es[k].w.flow then None else Lookup(es, f)
  {
    if k == 0 {
      assert Without(es, 0) == es[1..];
      LookupNone(es[1..], es[0].w.flow);
    } else {
      LookupWithout(es[1..], k - 1, f);
      assert Without(es, k)[1..] == Without(es[1..], k - 1);
    }
  }

  lemma DistinctWithout(es: seq<Entry>, k: nat)
    requires k < |es| && Distinct(es)
    ensures Distinct(Without(es, k))
  {
  }

  lemma {:induction false} LookupFinds(es: seq<Entry>, f: Flow)
    requires Lookup(es, f).Some?
    ensures Lookup(es, f).value in es && Lookup(es, f).value.w.flow == f
  {
    if es[0].w.flow != f {
      LookupFinds(es[1..], f);
    }
  }

  // ---- memory accounting

  ghost function Mem(es: seq<Entry>): nat {
    if es == [] then 0 else IPH_MEM_USED + es[0].len + Mem(es[1..])
  }

  ghost function MemAll(m: seq<seq<Entry>>): nat {
    if m == [] then 0 else Mem(m[0]) + MemAll(m[1..])
  }

  lemma {:induction false} MemReplace(es: seq<Entry>, k: nat, e: Entry)
    requires k < |es|
    ensures Mem(es[k := e]) == Mem(es) - es[k].len + e.len
  {
    if k == 0 {
      assert es[0 := e][1..] == es[1..];
    } else {
      MemReplace(es[1..], k - 1, e);
      assert es[k := e][1..] == es[1..][k - 1 := e];
    }
  }

  lemma {:induction false} MemWithout(es: seq<Entry>, k: nat)
    requires k < |es|
    ensures Mem(Without(es, k)) == Mem(es) - IPH_MEM_USED - es[k].len
  {
    if k == 0 {
      assert Without(es, 0) == es[1..];
    } else {
      MemWithout(es[1..], k - 1);
      assert Without(es, k)[1..] == Without(es[1..], k - 1);
    }
  }

  lemma {:induction false} MemBucket(m: seq<seq<Entry>>, b: nat, es: seq<Entry>)
    requires b < |m|
    ensures MemAll(m[b := es]) == MemAll(m) - Mem(m[b]) + Mem(es)
  {
    if b == 0 {
      assert m[0 := es][1..] == m[1..];
    } else {
      MemBucket(m[1..], b - 1, es);
      assert m[b := es][1..] == m[1..][b - 1 := es];
    }
  }

  lemma {:induction false} MemEmpty(m: seq<seq<Entry>>)
    requires forall b :: 0 <= b < |m| ==> m[b] == []
    ensures MemAll(m) == 0
  {
    if m != [] {
      MemEmpty(m[1..]);
    }
  }

  /** `bucketno`. */
  function Bucket(f: Flow): (b: nat)
    ensures b < NMAP
  {
    f.id % NMAP
  }

  /** The bytes of a datagram that have arrived. */
  ghost function Seen(o: Option<Entry>): set<nat> {
    if o.Some? then o.value.seen else {}
  }

  /** The memory a queue is charged for. */
  ghost function Charge(o: Option<Entry>): nat {
    if o.Some? then 40 + o.value.len else 0
  }

  /** Lines 246-248: a fragment that cannot be right. */
  predicate Malformed(p: Packet) {
    || p.End() > 0xFFFF || p.End() <= p.off
    || (p.End() % 8 != 0 && p.mf)
    || |p.data| < p.End() - p.off
  }

  /** The bytes of the datagram that have arrived once `p` has. */
  ghost function With(o: Option<Entry>, p: Packet): set<nat>
    requires p.End() >= 0
  {
    Seen(o) + Range(p.off, p.End())
  }

  /** A queue has the time of the piece at offset 0 if that opened it, and otherwise none: lines 196-202. */
  ghost function Stamp(o: Option<Entry>, p: Packet, now: int): int {
    if o.Some? then o.value.stamp else if p.off == 0 then now else 0
  }

  /** What there is of the datagram of a flow in a table of queues. */
  ghost function At(m: seq<seq<Entry>>, f: Flow): Option<Entry>
    requires |m| == NMAP
  {
    Lookup(m[Bucket(f)], f)
  }

  /** The entry is older than `t`. */
  ghost predicate Expired(o: Option<Entry>, t: int) {
    o.Some? && o.value.stamp < t
  }

  /** While a queue more than `d` seconds old is left, none that is no older has gone; `but` apart. */
  ghost predicate OlderFirst(m: seq<seq<Entry>>, m': seq<seq<Entry>>, but: set<Flow>, now: int, d: int)
    requires |m| == |m'| == NMAP
  {
    || (forall f :: f !in but ==> !Expired(At(m', f), now - d))
    || (forall f :: f !in but && At(m, f).Some? && At(m', f) == None ==> Expired(At(m, f), now - d))
  }

  /** A reaping of what is over 30 seconds old, before, changes nothing in that. */
  lemma OlderFirstAfter(m: seq<seq<Entry>>, reaped: seq<seq<Entry>>, m': seq<seq<Entry>>, but: set<Flow>, now: int, d: int)
    requires |m| == |reaped| == |m'| == NMAP && d <= 30 && OlderFirst(reaped, m', but, now, d)
    requires forall f :: At(reaped, f) == At(m, f) || (At(reaped, f) == None && Expired(At(m, f), now - 30))
    ensures OlderFirst(m, m', but, now, d)
  {
  }

  class Reassembler {
    var buckets: seq<seq<PacketQueue>>      // _map
    var reapTime: int
    var memUsed: int
    const memHigh: nat
    const memLow: nat
    ghost var model: seq<seq<Entry>>
    ghost var queues: set<PacketQueue>

    constructor (high: nat)
      ensures Valid() && fresh(queues) && memHigh == high && memLow == high / 4 * 3 && memUsed == 0 && reapTime == 0
      ensures forall f :: Current(f) == None
    {
      buckets := seq(NMAP, i => []);
      reapTime, memUsed := 0, 0;
      memHigh, memLow := high, high / 4 * 3;
      model := seq(NMAP, i => []);
      queues := {};
      new;
      MemEmpty(model);
    }

    /** Queue `k` of bucket `b` is what the model says. */
    ghost predicate Kept(b: nat, k: nat)
      requires b < |buckets| && k < |buckets[b]| && b < |model| && k < |model[b]|
      reads this, buckets[b][k]
    {
      var q, e := buckets[b][k], model[b][k];
      q.Tracks(e.w, e.seen) && q.len == e.len && q.stamp == e.stamp && Bucket(e.w.flow) == b && e.seen != {}
    }

    ghost predicate Shape()
      reads this
    {
      && |buckets| == NMAP == |model|
      && (forall b :: 0 <= b < NMAP ==> |buckets[b]| == |model[b]| && Distinct(model[b]))
      && (forall b, k :: 0 <= b < NMAP && 0 <= k < |buckets[b]| ==> buckets[b][k] in queues)
      && memUsed == MemAll(model) && memLow <= memHigh
    }

    ghost predicate Valid()
      reads this, queues
    {
      Shape() && forall b, k :: 0 <= b < NMAP && 0 <= k < |buckets[b]| ==> Kept(b, k)
    }

    /** What there is of the datagram of a flow. */
    ghost function Current(f: Flow): Option<Entry>
      requires |model| == NMAP
      reads this
    {
      Lookup(model[Bucket(f)], f)
    }

    lemma CurrentIsAt()
      requires |model| == NMAP
      ensures forall f {:trigger At(model, f)} :: At(model, f) == Current(f)
    {
    }

    /** The memory in use other than for a flow. */
    ghost function Elsewhere(f: Flow): int
      requires |model| == NMAP
      reads this
    {
      memUsed - Charge(Current(f))
    }

    /** What there is of a flow's datagram when a packet comes: at a reaping the old queues go. */
    ghost function Reaped(f: Flow, now: int): Option<Entry>
      requires |model| == NMAP
      reads this
    {
      if now >= reapTime && Expired(Current(f), now - 30) then None else Current(f)
    }

    lemma SomethingSeen(f: Flow)
      requires Valid() && Current(f).Some?
      ensures Seen(Current(f)) != {}
    {
      var b := Bucket(f);
      LookupFinds(model[b], f);
      var k :| 0 <= k < |model[b]| && model[b][k] == Current(f).value;
      assert Kept(b, k);
    }

    /** Lines 139-155. */
    method FindQueue(f: Flow) returns (k: int)
      requires Valid()
      ensures -1 <= k < |buckets[Bucket(f)]|
      ensures if k < 0 then Current(f) == None else Current(f) == Some(model[Bucket(f)][k])
    {
      var b := Bucket(f);
      k := 0;
      while k < |buckets[b]|
        invariant 0 <= k <= |buckets[b]|
        invariant forall l :: 0 <= l < k ==> model[b][l].w.flow != f
      {
        assert Kept(b, k);
        if buckets[b][k].flow == f {
          LookupAt(model[b], f, k);
          return;
        }
        k := k + 1;
      }
      LookupNone(model[b], f);
      k := -1;
    }

    /** Bucket `b` of the model is `es`, and all else is as it was. */
    twostate predicate Rebucketed(new b: nat, new es: seq<Entry>)
      requires |old(model)| == NMAP && b < NMAP
      reads this
    {
      model == old(model)[b := es]
    }

    /** A change to one bucket only shows in the flows of that bucket. */
    twostate lemma OtherFlows(new b: nat, new es: seq<Entry>)
      requires |old(model)| == NMAP && b < NMAP && Rebucketed(b, es)
      ensures forall f :: Bucket(f) != b ==> Current(f) == old(Current(f))
      ensures forall f :: Bucket(f) == b ==> Current(f) == Lookup(es, f)
    {
    }

    /** A queue taken off its list: lines 161, 174, 368-369, 392-394. */
    method Drop(b: nat, k: nat) returns (q: PacketQueue)
      requires Valid() && b < NMAP && k < |buckets[b]|
      modifies `buckets, `model, `memUsed
      ensures Valid() && q == old(buckets)[b][k]
      ensures buckets == old(buckets)[b := old(buckets)[b][..k] + old(buckets)[b][k + 1..]]
      ensures model == old(model)[b := Without(old(model)[b], k)]
      ensures memUsed == old(memUsed) - IPH_MEM_USED - old(model)[b][k].len
      ensures forall f :: Current(f) == if f == old(model)[b][k].w.flow then None else old(Current(f))
      ensures forall f :: Elsewhere(f) <= old(Elsewhere(f))
    {
      assert Kept(b, k);
      LookupAt(model[b], model[b][k].w.flow, k);
      q := buckets[b][k];
      memUsed := memUsed - (IPH_MEM_USED + q.len);
      buckets := buckets[b := buckets[b][..k] + buckets[b][k + 1..]];
      model := model[b := Without(model[b], k)];
      Dropped(b, k);
    }

    twostate lemma Dropped(new b: nat, new k: nat)
      requires old(Valid()) && b < NMAP && k < |old(buckets)[b]| && queues == old(queues)
      requires buckets == old(buckets)[b := old(buckets)[b][..k] + old(buckets)[b][k + 1..]]
      requires model == old(model)[b := Without(old(model)[b], k)]
      requires memUsed == old(memUsed) - IPH_MEM_USED - old(model)[b][k].len
      requires forall q <- queues :: unchanged(q)
      ensures Valid()
      ensures forall f :: Current(f) == if f == old(model)[b][k].w.flow then None else old(Current(f))
    {
      var es := Without(old(model)[b], k);
      MemWithout(old(model)[b], k);
      MemBucket(old(model), b, es);
      DistinctWithout(old(model)[b], k);
      FlowsWithout(b, k);
      forall c, l | 0 <= c < NMAP && 0 <= l < |buckets[c]|
        ensures Kept(c, l)
      {
        assert old(Kept(c, if c == b && l >= k then l + 1 else l));
      }
    }

    twostate lemma FlowsWithout(new b: nat, new k: nat)
      requires old(Valid()) && b < NMAP && k < |old(model)[b]| && model == old(model)[b := Without(old(model)[b], k)]
      ensures forall f :: Current(f) == if f == old(model)[b][k].w.flow then None else old(Current(f))
    {
      assert old(Kept(b, k));
      var es := Without(old(model)[b], k);
      forall f | Bucket(f) == b
        ensures Lookup(es, f) == if f == old(model)[b][k].w.flow then None else old(Current(f))
      {
        LookupWithout(old(model)[b], k, f);
      }
      OtherFlows(b, es);
    }

    /** Lines 178-211. The new queue goes to the front of its bucket. */
    method MakeQueue(p: Packet, now: int, ghost w: Packet)
      requires Valid() && w.Whole() && p.PieceOf(w) && |p.data| == p.len - p.hlen && Current(p.flow) == None
      modifies `buckets, `model, `memUsed, `queues
      ensures Valid() && fresh(queues - old(queues)) && memUsed == old(memUsed) + Charge(Current(p.flow))
      ensures Current(p.flow)
        == Some(Entry(w, Range(p.off, p.End()), p.End(), if p.off == 0 then now else 0))
      ensures forall f :: f != p.flow ==> Current(f) == old(Current(f))
    {
      var b := Bucket(p.flow);
      var q := new PacketQueue(p, now, w);
      ghost var e := Entry(w, Range(p.off, p.End()), p.End(), q.stamp);
      assert From(p.off, p.off) && p.off in Range(p.off, p.End());
      memUsed := memUsed + IPH_MEM_USED + q.len;
      buckets := buckets[b := [q] + buckets[b]];
      model := model[b := [e] + model[b]];
      queues := queues + {q};
      Added(b, q, e);
    }

    twostate lemma Added(new b: nat, new q: PacketQueue, new e: Entry)
      requires old(Valid()) && b < NMAP && fresh(q) && queues == old(queues) + {q}
      requires old(Current(e.w.flow)) == None && b == Bucket(e.w.flow) && e.seen != {}
      requires buckets == old(buckets)[b := [q] + old(buckets)[b]] && model == old(model)[b := [e] + old(model)[b]]
      requires memUsed == old(memUsed) + IPH_MEM_USED + e.len
      requires q.Tracks(e.w, e.seen) && q.len == e.len && q.stamp == e.stamp
      requires forall r <- old(queues) :: unchanged(r)
      ensures Valid() && Current(e.w.flow) == Some(e)
      ensures forall f :: f != e.w.flow ==> Current(f) == old(Current(f))
    {
      var es := [e] + old(model)[b];
      assert es[1..] == old(model)[b];
      LookupNone(old(model)[b], e.w.flow);
      MemBucket(old(model), b, es);
      OtherFlows(b, es);
      forall c, l | 0 <= c < NMAP && 0 <= l < |buckets[c]| && !(c == b && l == 0)
        ensures Kept(c, l)
      {
        assert old(Kept(c, if c == b then l - 1 else l));
      }
    }

    /** Lines 270-342 on the queue found, with the memory it takes. */
    method Update(k: nat, p: Packet, ghost w: Packet)
      requires Valid() && p.PieceOf(w) && |p.data| == p.len - p.hlen
      requires k < |buckets[Bucket(p.flow)]| && model[Bucket(p.flow)][k].w == w
      modifies `model, `memUsed, queues
      ensures Valid() && buckets == old(buckets)
      ensures memUsed == old(memUsed) - Charge(old(Current(p.flow))) + Charge(Current(p.flow))
      ensures var b, e := Bucket(p.flow), old(model)[Bucket(p.flow)][k];
        Current(p.flow) == Some(Entry(w, e.seen + Range(p.off, p.End()), Max(e.len, p.End()), e.stamp))
      ensures |model[Bucket(p.flow)]| == |buckets[Bucket(p.flow)]|
      ensures Current(p.flow) == Some(model[Bucket(p.flow)][k])
      ensures forall f :: f != p.flow ==> Current(f) == old(Current(f))
    {
      var b := Bucket(p.flow);
      assert Kept(b, k);
      var q := buckets[b][k];
      ghost var e := model[b][k];
      ghost var e' := Entry(w, e.seen + Range(p.off, p.End()), Max(e.len, p.End()), e.stamp);
      Others(b, k);
      var oldLen := q.len;
      var kept := q.Absorb(p, w, e.seen);
      memUsed := memUsed + q.len - oldLen;
      model := model[b := model[b][k := e']];
      Updated(b, k, e');
    }

    twostate lemma Updated(new b: nat, new k: nat, new e: Entry)
      requires old(Valid()) && buckets == old(buckets) && queues == old(queues) && b < NMAP && k < |buckets[b]|
      requires e.w.flow == old(model)[b][k].w.flow && e.seen != {}
      requires memUsed == old(memUsed) - old(model)[b][k].len + e.len
      requires model == old(model)[b := old(model)[b][k := e]]
      requires buckets[b][k].Tracks(e.w, e.seen) && buckets[b][k].len == e.len && buckets[b][k].stamp == e.stamp
      requires forall c, l :: 0 <= c < NMAP && 0 <= l < |buckets[c]| && !(c == b && l == k) ==>
        unchanged(buckets[c][l])
      ensures Valid() && Current(e.w.flow) == Some(e) && old(Current(e.w.flow)) == Some(old(model)[b][k])
      ensures forall f :: f != e.w.flow ==> Current(f) == old(Current(f))
    {
      assert old(Kept(b, k));
      var es := old(model)[b][k := e];
      MemReplace(old(model)[b], k, e);
      MemBucket(old(model), b, es);
      LookupReplace(old(model)[b], k, e, e.w.flow);
      LookupAt(old(model)[b], e.w.flow, k);
      forall f | Bucket(f) == b
        ensures Lookup(es, f) == if f == e.w.flow then Some(e) else old(Current(f))
      {
        LookupReplace(old(model)[b], k, e, f);
      }
      OtherFlows(b, es);
      forall c, l | 0 <= c < NMAP && 0 <= l < |buckets[c]|
        ensures Kept(c, l)
      {
        assert old(Kept(c, l));
      }
    }

    /** No other place holds the same queue. */
    lemma Others(b: nat, k: nat)
      requires Valid() && b < NMAP && k < |buckets[b]|
      ensures forall c, l :: 0 <= c < NMAP && 0 <= l < |buckets[c]| && !(c == b && l == k) ==>
        buckets[c][l] != buckets[b][k]
    {
      assert Kept(b, k);
      forall c, l | 0 <= c < NMAP && 0 <= l < |buckets[c]| && !(c == b && l == k)
        ensures buckets[c][l] != buckets[b][k]
      {
        assert Kept(c, l);
      }
    }

    /** The flow's queue has been given up. */
    twostate predicate Gone(new f: Flow)
      requires |old(model)| == NMAP == |model|
      reads this
    {
      old(Current(f)).Some? && Current(f) == None
    }

    /** Only what is older than `t` has been given up, and nothing else has changed. */
    twostate predicate OnlyOlder(t: int)
      requires |old(model)| == NMAP == |model|
      reads this
    {
      forall f :: Current(f) == old(Current(f)) || (Current(f) == None && Expired(old(Current(f)), t))
    }

    ghost predicate NoneOlder(t: int)
      requires |model| == NMAP
      reads this
    {
      forall f :: !Expired(Current(f), t)
    }

    /** Giving up this queue has brought memory down to `low`: it was the last to go. */
    twostate predicate LastToGo(new f: Flow, low: int)
      requires |old(model)| == NMAP == |model|
      reads this
    {
      Gone(f) && memUsed <= low < memUsed + old(Charge(Current(f)))
    }

    /** Lines 389-399 and 365-376: one bucket is rid of what is older than `t`, until memory is down to `low`. */
    method Sweep(b: nat, t: int, low: int) returns (done: bool)
      requires Valid() && b < NMAP && memUsed > low
      modifies `buckets, `model, `memUsed
      ensures Valid()
      ensures OnlyOlder(t)
      ensures forall f :: Bucket(f) != b ==> Current(f) == old(Current(f))
      ensures forall f :: Elsewhere(f) <= old(Elsewhere(f))
      ensures if done then exists f :: LastToGo(f, low) else memUsed > low
      ensures !done ==> forall f :: Bucket(f) == b ==> !Expired(Current(f), t)
    {
      var k := 0;
      while k < |buckets[b]|
        invariant Valid() && 0 <= k <= |buckets[b]| && memUsed > low
        invariant OnlyOlder(t)
        invariant forall f :: Bucket(f) != b ==> Current(f) == old(Current(f))
        invariant forall f :: Elsewhere(f) <= old(Elsewhere(f))
        invariant forall l :: 0 <= l < k ==> model[b][l].stamp >= t
        decreases |buckets[b]| - k
      {
        assert Kept(b, k);
        if buckets[b][k].stamp < t {
          ghost var f := model[b][k].w.flow;
          LookupAt(model[b], f, k);
          var q := Drop(b, k);
          if memUsed <= low {
            assert LastToGo(f, low);
            return true;
          }
        } else {
          k := k + 1;
        }
      }
      Swept(b, t);
      done := false;
    }

    lemma Swept(b: nat, t: int)
      requires Shape() && b < NMAP && forall l :: 0 <= l < |model[b]| ==> model[b][l].stamp >= t
      ensures forall f :: Bucket(f) == b ==> !Expired(Current(f), t)
    {
      forall f | Bucket(f) == b && Current(f).Some?
        ensures Current(f).value.stamp >= t
      {
        LookupFinds(model[b], f);
      }
    }

    /** Lines 382-403: everything whose timestamp is over 30 seconds old goes. */
    method Reap(now: int)
      requires Valid()
      modifies `buckets, `model, `memUsed, `reapTime
      ensures Valid() && reapTime == now + 10
      ensures forall f :: Current(f) == if Expired(old(Current(f)), now - 30) then None else old(Current(f))
      ensures forall f :: Elsewhere(f) <= old(Elsewhere(f))
    {
      var killTime := now - REAP_TIMEOUT;
      MemNonNegative();
      for i := 0 to NMAP
        invariant Valid() && memUsed >= 0
        invariant OnlyOlder(killTime)
        invariant forall f :: Bucket(f) < i ==> !Expired(Current(f), killTime)
        invariant forall f :: Elsewhere(f) <= old(Elsewhere(f))
      {
        var done := Sweep(i, killTime, -1);
        MemNonNegative();
      }
      label Swept:
      reapTime := now + REAP_INTERVAL;
      SameModel@Swept();
    }

    twostate lemma SameModel()
      requires old(Valid()) && model == old(model) && buckets == old(buckets) && queues == old(queues)
      requires memUsed == old(memUsed) && forall q <- queues :: unchanged(q)
      ensures Valid() && forall f :: Current(f) == old(Current(f)) && Elsewhere(f) == old(Elsewhere(f))
    {
      forall b, k | 0 <= b < NMAP && 0 <= k < |buckets[b]|
        ensures Kept(b, k)
      {
        assert old(Kept(b, k));
      }
    }

    lemma MemNonNegative()
      requires Shape()
      ensures memUsed >= 0
    {
    }

    /**
     * Lines 357-379: what is over 10 seconds old, then over 5, then all that is older than now, until
     * memory is down to the lower mark: nothing goes after that.
     */
    method ReapOverfull(now: int)
      requires Valid() && memUsed > memLow
      modifies `buckets, `model, `memUsed
      ensures Valid()
      ensures OnlyOlder(now) && OlderFirst(old(model), model, {}, now, 10) && OlderFirst(old(model), model, {}, now, 5)
      ensures forall f :: Elsewhere(f) <= old(Elsewhere(f))
      ensures (exists f :: LastToGo(f, memLow)) || (memUsed > memLow && NoneOlder(now))
    {
      CurrentIsAt();
      var delta := 10;
      while delta >= 0
        invariant Valid() && (delta == 10 || delta == 5 || delta == 0 || delta == -5) && memUsed > memLow
        invariant if delta == 10 then forall f :: Current(f) == old(Current(f)) else OnlyOlder(now - delta - 5)
        invariant forall f :: Elsewhere(f) <= old(Elsewhere(f))
        invariant delta < 10 ==> NoneOlder(now - delta - 5)
      {
        label Turn:
        var done := SweepAll(now - delta);
        if done {
          ghost var f :| LastToGo@Turn(f, memLow);
          assert LastToGo(f, memLow);
          CurrentIsAt();
          return;
        }
        delta := delta - 5;
      }
      CurrentIsAt();
    }

    /** One turn of the outer loop. */
    method SweepAll(t: int) returns (done: bool)
      requires Valid() && memUsed > memLow
      modifies `buckets, `model, `memUsed
      ensures Valid()
      ensures OnlyOlder(t)
      ensures forall f :: Elsewhere(f) <= old(Elsewhere(f))
      ensures if done then exists f :: LastToGo(f, memLow) else memUsed > memLow && NoneOlder(t)
    {
      for b := 0 to NMAP
        invariant Valid() && memUsed > memLow
        invariant OnlyOlder(t)
        invariant forall f :: Bucket(f) < b ==> !Expired(Current(f), t)
        invariant forall f :: Elsewhere(f) <= old(Elsewhere(f))
      {
        label Bucket:
        done := Sweep(b, t, memLow);
        if done {
          ghost var f :| LastToGo@Bucket(f, memLow);
          assert LastToGo(f, memLow);
          return;
        }
      }
      done := false;
    }

    /** `p` may be added to what there is of its datagram `w`. */
    ghost predicate Fits(p: Packet, w: Packet)
      requires |model| == NMAP
      reads this
    {
      w.Whole() && p.PieceOf(w) && (Current(p.flow).Some? ==> Current(p.flow).value.w == w)
    }

    /** Lines 260-353: the datagram is emitted when all of it has arrived, and only then. */
    method Receive(p: Packet, now: int, ghost w: Packet) returns (out: Option<Packet>)
      requires Valid() && p.IsFragment() && Fits(p, w) && |p.data| == p.len - p.hlen
      modifies this, queues
      ensures Valid() && fresh(queues - old(queues)) && reapTime == old(reapTime)
      ensures Elsewhere(p.flow) == old(Elsewhere(p.flow))
      ensures Current(p.flow).Some? ==> Current(p.flow).value.len <= |w.data|
      ensures forall f :: f != p.flow ==> Current(f) == old(Current(f))
      ensures With(old(Current(p.flow)), p) == Range(0, |w.data|) ==> out == Some(w) && Current(p.flow) == None
      ensures With(old(Current(p.flow)), p) != Range(0, |w.data|) ==>
        out == None && Current(p.flow).Some? && Current(p.flow).value.w == w
        && Current(p.flow).value.seen == With(old(Current(p.flow)), p)
        && Current(p.flow).value.stamp == Stamp(old(Current(p.flow)), p, now)
    {
      var b := Bucket(p.flow);
      var k := FindQueue(p.flow);
      if k < 0 {
        MakeQueue(p, now, w);
        NotAll(p, w);
        return None;
      }
      Update(k, p, w);
      assert Kept(b, k);
      var q := buckets[b][k];
      ghost var e := model[b][k];
      q.Complete(w, e.seen);
      if q.Done() {
        var whole := q.Emit(w, e.seen);
        out := Some(whole);
        q := Drop(b, k);
      } else {
        out := None;
      }
    }

    /** One fragment is never the whole datagram. */
    lemma NotAll(p: Packet, w: Packet)
      requires w.Whole() && p.PieceOf(w) && p.IsFragment()
      ensures Range(p.off, p.End()) != Range(0, |w.data|)
    {
      var n := |w.data|;
      assert 0 in Range(0, n) <==> From(0, 0);
      assert n - 1 in Range(0, n) <==> From(0, n - 1);
      assert 0 in Range(p.off, p.End()) <==> 0 < p.End() && From(p.off, 0);
      assert n - 1 in Range(p.off, p.End()) <==> n - 1 < p.End() && From(p.off, n - 1);
    }

    ghost predicate OthersNotOlder(g: Flow, t: int)
      requires |model| == NMAP
      reads this
    {
      forall f :: f != g ==> !Expired(Current(f), t)
    }

    /** Lines 256-353: a fragment that is not malformed, when memory has been seen to. */
    method TakeIn(p: Packet, now: int, ghost w: Packet) returns (out: Option<Packet>, ghost had: Option<Entry>)
      requires Valid() && p.IsFragment() && Fits(p, w) && |p.data| == p.len - p.hlen
      modifies this, queues
      ensures Valid() && fresh(queues - old(queues)) && reapTime == old(reapTime)
      ensures forall f :: f != p.flow ==>
        Current(f) == old(Current(f)) || (Current(f) == None && Expired(old(Current(f)), now))
      ensures had == old(Current(p.flow)) || (had == None && Expired(old(Current(p.flow)), now))
      ensures old(memUsed) <= memHigh ==>
        had == old(Current(p.flow)) && Elsewhere(p.flow) == old(Elsewhere(p.flow)) &&
        forall f :: f != p.flow ==> Current(f) == old(Current(f))
      ensures OlderFirst(old(model), model, {p.flow}, now, 10) && OlderFirst(old(model), model, {p.flow}, now, 5)
      ensures Elsewhere(p.flow) <= (if old(memUsed) > memHigh then memLow else memHigh) || OthersNotOlder(p.flow, now)
      ensures Elsewhere(p.flow) <= old(Elsewhere(p.flow))
      ensures Current(p.flow).Some? ==> Current(p.flow).value.len <= |w.data|
      ensures With(had, p) == Range(0, |w.data|) ==> out == Some(w) && Current(p.flow) == None
      ensures With(had, p) != Range(0, |w.data|) ==>
        out == None && Current(p.flow).Some? && Current(p.flow).value.w == w
        && Current(p.flow).value.seen == With(had, p) && Current(p.flow).value.stamp == Stamp(had, p, now)
    {
      CurrentIsAt();
      ReapIfOver(now);
      CurrentIsAt();
      had := Current(p.flow);
      assert Elsewhere(p.flow) <= memUsed;
      out := Receive(p, now, w);
      CurrentIsAt();
    }

    /** Lines 237-353: a fragment. */
    method Fragment(p: Packet, now: int, ghost w: Packet) returns (out: Option<Packet>, ghost had: Option<Entry>)
      requires Valid() && p.IsFragment() && (!Malformed(p) ==> Fits(p, w))
      modifies this, queues
      ensures Valid() && fresh(queues - old(queues))
      ensures reapTime == if now >= old(reapTime) then now + 10 else old(reapTime)
      ensures forall f :: (!Malformed(p) ==> f != p.flow) ==>
        Current(f) == old(Current(f)) || (Current(f) == None && Expired(old(Current(f)), now))
      ensures Malformed(p) ==> out == None && Current(p.flow) == had
      ensures had == old(Current(p.flow)) || (had == None && Expired(old(Current(p.flow)), now))
      ensures old(memUsed) <= memHigh ==>
        had == old(Reaped(p.flow, now)) && forall f :: f != p.flow ==> Current(f) == old(Reaped(f, now))
      ensures OlderFirst(old(model), model, {p.flow}, now, 10) && OlderFirst(old(model), model, {p.flow}, now, 5)
      ensures !Malformed(p) ==>
        Elsewhere(p.flow) <= (if now < old(reapTime) && old(memUsed) > memHigh then memLow else memHigh)
        || OthersNotOlder(p.flow, now)
      ensures Elsewhere(p.flow) <= old(Elsewhere(p.flow))
      ensures now < old(reapTime) && old(memUsed) <= memHigh ==> Elsewhere(p.flow) == old(Elsewhere(p.flow))
      ensures !Malformed(p) && Current(p.flow).Some? ==> Current(p.flow).value.len <= |w.data|
      ensures !Malformed(p) && With(had, p) == Range(0, |w.data|) ==> out == Some(w) && Current(p.flow) == None
      ensures !Malformed(p) && With(had, p) != Range(0, |w.data|) ==>
        out == None && Current(p.flow).Some? && Current(p.flow).value.w == w
        && Current(p.flow).value.seen == With(had, p) && Current(p.flow).value.stamp == Stamp(had, p, now)
    {
      CurrentIsAt();
      ReapIfDue(p.flow, now);
      had := Current(p.flow);
      ghost var reaped := model;
      CurrentIsAt();
      if Malformed(p) {
        OlderFirstAfter(old(model), reaped, model, {p.flow}, now, 10);
        OlderFirstAfter(old(model), reaped, model, {p.flow}, now, 5);
        return None, had;
      }
      out, had := TakeIn(p.(data := p.data[..p.End() - p.off]), now, w);
      OlderFirstAfter(old(model), reaped, model, {p.flow}, now, 10);
      OlderFirstAfter(old(model), reaped, model, {p.flow}, now, 5);
    }

    /**
     * Lines 223-354. A packet that is no fragment passes through; a malformed
     * fragment is dropped; any other is taken in. `had` is what there was of its
     * datagram when old queues had been given up.
     */
    method SimpleAction(p: Packet, now: int, ghost w: Packet) returns (out: Option<Packet>, ghost had: Option<Entry>)
      requires Valid()
      requires p.IsFragment() && !Malformed(p) ==> Fits(p, w)
      modifies this, queues
      ensures Valid() && fresh(queues - old(queues))
      ensures !p.IsFragment() ==> out == Some(p) && reapTime == old(reapTime) && forall f :: Current(f) == old(Current(f))
      ensures p.IsFragment() ==> reapTime == if now >= old(reapTime) then now + 10 else old(reapTime)
      ensures forall f :: (p.IsFragment() && !Malformed(p) ==> f != p.flow) ==>
        Current(f) == old(Current(f)) || (Current(f) == None && Expired(old(Current(f)), now))
      ensures p.IsFragment() && Malformed(p) ==> out == None && Current(p.flow) == had
      ensures had == old(Current(p.flow)) || (had == None && Expired(old(Current(p.flow)), now))
      // while memory lasts only a reaping gives anything up
      ensures p.IsFragment() && old(memUsed) <= memHigh ==>
        had == old(Reaped(p.flow, now)) && forall f :: f != p.flow ==> Current(f) == old(Reaped(f, now))
      // when memory is over the higher mark others are given up, the oldest first, down to the lower mark
      ensures OlderFirst(old(model), model, {p.flow}, now, 10) && OlderFirst(old(model), model, {p.flow}, now, 5)
      ensures p.IsFragment() && !Malformed(p) ==>
        Elsewhere(p.flow) <= (if now < old(reapTime) && old(memUsed) > memHigh then memLow else memHigh)
        || OthersNotOlder(p.flow, now)
      ensures Elsewhere(p.flow) <= old(Elsewhere(p.flow))
      ensures now < old(reapTime) && old(memUsed) <= memHigh ==> Elsewhere(p.flow) == old(Elsewhere(p.flow))
      ensures p.IsFragment() && !Malformed(p) && Current(p.flow).Some? ==> Current(p.flow).value.len <= |w.data|
      ensures p.IsFragment() && !Malformed(p) && With(had, p) == Range(0, |w.data|) ==>
        out == Some(w) && Current(p.flow) == None
      ensures p.IsFragment() && !Malformed(p) && With(had, p) != Range(0, |w.data|) ==>
        out == None && Current(p.flow).Some? && Current(p.flow).value.w == w
        && Current(p.flow).value.seen == With(had, p) && Current(p.flow).value.stamp == Stamp(had, p, now)
    {
      if !p.IsFragment() {
        return Some(p), Current(p.flow);
      }
      out, had := Fragment(p, now, w);
    }

    method ReapIfDue(ghost g: Flow, now: int)
      requires Valid()
      modifies `buckets, `model, `memUsed, `reapTime
      ensures Valid() && reapTime == if now >= old(reapTime) then now + 10 else old(reapTime)
      ensures forall f :: Current(f) == old(Reaped(f, now))
      ensures Elsewhere(g) <= old(Elsewhere(g)) && memUsed <= old(memUsed)
      ensures now < old(reapTime) ==> memUsed == old(memUsed)
    {
      if now >= reapTime {
        Reap(now);
      }
      assert Elsewhere(g) <= old(Elsewhere(g)) && Charge(Current(g)) <= old(Charge(Current(g)));
    }

    method ReapIfOver(now: int)
      requires Valid()
      modifies `buckets, `model, `memUsed
      ensures Valid()
      ensures forall f :: Current(f) == old(Current(f)) || (Current(f) == None && Expired(old(Current(f)), now))
      ensures forall f :: Elsewhere(f) <= old(Elsewhere(f))
      ensures if old(memUsed) <= memHigh then unchanged(this) else
        OlderFirst(old(model), model, {}, now, 10) && OlderFirst(old(model), model, {}, now, 5)
        && ((exists f :: LastToGo(f, memLow)) || (memUsed > memLow && NoneOlder(now)))
    {
      if memUsed > memHigh {
        ReapOverfull(now);
      }
    }
  }
}
