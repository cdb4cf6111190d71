/**
 * The two ends of a compressed link: `RFC2507c` (bfclick/ip/rfc2507c.cc) and
 * `RFC2507d` (bfclick/ip/rfc2507d.cc), and how they stay in step.
 */
module HeaderCompression {
  import opened ReassemblyChunks
  import opened HeaderCodec
  import opened Results

  const TCP_SPACE := 15

  class Compressor {
    const ccbs: array<Headers>          // _ccbs
    var cids: map<FlowId, nat>          // _map; 0 is no CID

    constructor (blank: Headers)
      ensures Valid() && fresh(ccbs) && ccbs.Length == 15 && cids == map[]
    {
      ccbs := new Headers[TCP_SPACE](i => blank);
      cids := map[];
    }

    /** A CID is that of the flow its context is of. */
    ghost predicate Valid()
      reads this, ccbs
    {
      ccbs.Length == TCP_SPACE && forall k <- cids :: cids[k] != 0 ==> Current(k)
    }

    ghost predicate Current(k: FlowId)
      requires ccbs.Length == TCP_SPACE && k in cids
      reads this, ccbs
    {
      var cid := cids[k];
      cid < TCP_SPACE && FlowOf(ccbs[cid]) == k && Compressible(ccbs[cid]) && Fits(ccbs[cid])
    }

    /** Lines 83-101: bytes are appended to the buffer. */
    static method EncodeX(o: int, n: int, fbuf: array<Byte>, i: nat) returns (x: int, i': nat)
      requires i + 3 <= fbuf.Length
      modifies fbuf
      ensures i <= i' <= i + 3
      ensures match Diff(o, n)
        case None => x < 0
        case Some(b) => x == (if b == [] then 0 else 1) && fbuf[..i'] == old(fbuf[..i]) + b
      // a number that has risen by less than 65536 can be sent, and what is sent stands for it
      ensures -0x8000_0000 <= o < 0x8000_0000 && -0x8000_0000 <= n < 0x8000_0000 ==>
        (x >= 0 <==> Rises(o, n) || Overflows(o, n)) && (x >= 0 ==> StandsFor(fbuf[i..i'], o, n))
    {
      if -HALF <= o < HALF && -HALF <= n < HALF {
        DiffSends(o, n);
      }
      if o == n {
        return 0, i;
      }
      if n < o {
        return -1, i;
      }
      var d := Signed(n - o);
      if d < 256 {
        fbuf[i] := d % 256;
        return 1, i + 1;
      }
      if d < 65536 {
        fbuf[i], fbuf[i + 1], fbuf[i + 2] := 0, d / 256, d % 256;
        return 1, i + 3;
      }
      return -1, i;
    }

    /** Lines 156-164: the id, unless it is the next one. */
    static method EncodeId(c: Headers, h: Headers, fbuf: array<Byte>, i: nat) returns (x: int, i': nat)
      requires i + 3 <= fbuf.Length
      modifies fbuf
      ensures i <= i' <= i + 3
      ensures match IdDiff(c, h)
        case None => x < 0
        case Some(b) => x == (if b == [] then 0 else 1) && fbuf[..i'] == old(fbuf[..i]) + b
    {
      if h.ip.id == c.ip.id + 1 {
        return 0, i;
      }
      x, i' := EncodeX(c.ip.id, h.ip.id, fbuf, i);
    }

    /** Lines 124-146: the urgent pointer, the window and the acknowledgement. */
    static method EncodeFirst(c: Headers, h: Headers, fbuf: array<Byte>) returns (ok: bool, u: int, w: int, a: int, flen: nat)
      requires fbuf.Length == 512
      modifies fbuf
      ensures flen <= 9
      ensures ok <==> FirstEncodable(c, h)
      ensures ok ==>
        var b1, b2 := Diff(c.tcp.urp, h.tcp.urp).value, Diff(c.tcp.win, h.tcp.win).value;
        var b3 := Diff(Signed(c.tcp.ack), Signed(h.tcp.ack)).value;
        (u != 0 <==> b1 != []) && (w != 0 <==> b2 != []) && (a != 0 <==> b3 != []) && fbuf[..flen] == b1 + b2 + b3
    {
      ok, w, a := false, 0, 0;
      u, flen := EncodeX(c.tcp.urp, h.tcp.urp, fbuf, 0);
      if u < 0 { return; }
      w, flen := EncodeX(c.tcp.win, h.tcp.win, fbuf, flen);
      if w < 0 { return; }
      a, flen := EncodeX(Signed(c.tcp.ack), Signed(h.tcp.ack), fbuf, flen);
      ok := a >= 0;
    }

    /** Lines 124-164: the five fields, in the order they are sent. */
    method EncodeFields(c: Headers, h: Headers, fbuf: array<Byte>) returns (f: Option<Flags>, flen: nat)
      requires fbuf.Length == 512
      modifies fbuf
      ensures flen <= 512
      ensures (f.Some? <==> Encodable(c, h)) && (f.Some? ==> f.value == FlagsFor(c, h) && fbuf[..flen] == Encoded(c, h))
    {
      var ok, u, w, a, s, i;
      ok, u, w, a, flen := EncodeFirst(c, h, fbuf);
      if !ok { return None, 0; }
      s, flen := EncodeX(Signed(c.tcp.seqno), Signed(h.tcp.seqno), fbuf, flen);
      if s < 0 { return None, 0; }
      i, flen := EncodeId(c, h, fbuf, flen);
      if i < 0 { return None, 0; }
      f := Some(Flags(i != 0, h.tcp.push, s != 0, a != 0, w != 0, u != 0));
    }

    /** Lines 103-180. */
    method MakeCompressed(cid: nat, p: Packet) returns (m: Message)
      requires ccbs.Length == TCP_SPACE && cid < TCP_SPACE
      ensures m == Compress(ccbs[cid], cid, p)
      ensures Fits(ccbs[cid]) && Fits(p.h) ==> Compression(ccbs[cid], cid, p, m)
    {
      var ctx := ccbs[cid];
      if Fits(ctx) && Fits(p.h) {
        WhatIsCompressed(ctx, cid, p);
      }
      if !SameShape(ctx, p.h) {
        return Full(cid, p);
      }
      var fbuf := new Byte[512];
      var f, flen := EncodeFields(ctx, p.h, fbuf);
      if f.None? {
        return Full(cid, p);
      }
      m := Compressed(cid, f.value, p.h.tcp.sum, fbuf[..flen] + p.rest);
      Regroup(ctx, p);
    }

    /** A packet of the same shape whose numbers can be sent goes compressed, and any other in full. */
    static ghost predicate Compression(c: Headers, cid: nat, p: Packet, m: Message) {
      if SameShape(c, p.h) && Sendable(c, p.h)
      then m.Compressed? && m.cid == cid && |m.body| == CostOf(c, p.h) + |p.rest| && exists u, w, a, s, i :: Carries(m, c, p, u, w, a, s, i)
      else m == Full(cid, p)
    }

    /** Lines 207-257. `pick` is the CID `click_random` gives. */
    method SimpleAction(p: Packet, pick: nat) returns (m: Message)
      requires Valid() && Fits(p.h) && 0 < pick < TCP_SPACE
      modifies this, ccbs
      ensures Valid()
      // what is left alone: all but the unfragmented option-free TCP segments that acknowledge, and neither begin nor end
      ensures m.Other? <==> !(p.h.ip.v == 4 && p.h.ip.hl == 5 && p.h.ip.off == 0 && !p.h.ip.mf && p.h.ip.proto == 6
                              && p.h.tcp.acks && !p.h.tcp.fin && !p.h.tcp.syn && !p.h.tcp.rst)
      ensures !Compressible(p.h) ==> m == Other(p) && cids == old(cids) && ccbs[..] == old(ccbs[..])
      ensures Compressible(p.h) ==> 0 < Cid(m) < 15 && ccbs[..] == old(ccbs[..])[Cid(m) := p.h]
      ensures Compressible(p.h) ==> FlowOf(p.h) in cids && cids[FlowOf(p.h)] == Cid(m) != 0
      ensures Compressible(p.h) ==> if Known(old(cids), FlowOf(p.h))
        then m == Compress(old(ccbs[..])[Cid(m)], Cid(m), p) && Cid(m) == old(cids)[FlowOf(p.h)]
        else m == Full(pick, p)
      ensures Compressible(p.h) && Known(old(cids), FlowOf(p.h)) ==>
        Compression(old(ccbs[..])[old(cids)[FlowOf(p.h)]], old(cids)[FlowOf(p.h)], p, m)
      // no other flow gains a CID, and only a new flow takes one away, from the flow last seen with it
      ensures !Compressible(p.h) || Known(old(cids), FlowOf(p.h)) ==> cids == old(cids)
      ensures Compressible(p.h) && !Known(old(cids), FlowOf(p.h)) ==> forall k :: k != FlowOf(p.h) ==>
        (Known(cids, k) <==> Known(old(cids), k) && k != FlowOf(old(ccbs[..])[pick]))
      ensures forall k :: k != FlowOf(p.h) && Known(cids, k) ==> Known(old(cids), k) && cids[k] == old(cids)[k]
      ensures Compressible(p.h) ==>
        forall k :: k != FlowOf(p.h) && Known(cids, k) ==> cids[k] != Cid(m)
    {
      if !Compressible(p.h) {
        return Other(p);
      }
      var key := FlowOf(p.h);
      var cid := if key in cids then cids[key] else 0;
      Distinct(key);
      if cid != 0 {
        assert Current(key);
        m := MakeCompressed(cid, p);
      } else {
        cid := pick;
        Assign(key, cid);
        m := Full(cid, p);
      }
      ccbs[cid] := p.h;
      assert ccbs[..] == old(ccbs[..])[cid := p.h];
      forall k <- cids | cids[k] != 0
        ensures Current(k)
      {
        assert k != key ==> k in old(cids) && old(cids)[k] == cids[k] && old(Current(k));
      }
    }

    /** Lines 233-242: the flow that had the CID loses it, and this one gets it. */
    method Assign(key: FlowId, cid: nat)
      requires Valid() && 0 < cid < TCP_SPACE
      modifies `cids
      ensures key in cids && cids[key] == cid
      ensures forall k :: k != key && Known(cids, k) ==> Known(old(cids), k) && cids[k] == old(cids)[k] != cid
      ensures forall k :: k != key ==> (Known(cids, k) <==> Known(old(cids), k) && k != FlowOf(ccbs[cid]))
    {
      var okey := FlowOf(ccbs[cid]);
      Distinct(okey);
      if okey in cids && cids[okey] != 0 {
        cids := cids[okey := 0];
      }
      cids := cids[key := cid];
    }

    /** No two flows have one CID. */
    lemma Distinct(key: FlowId)
      requires Valid()
      ensures forall k <- cids :: cids[k] != 0 ==> cids[k] < TCP_SPACE && FlowOf(ccbs[cids[k]]) == k
    {
      forall k <- cids | cids[k] != 0
        ensures cids[k] < TCP_SPACE && FlowOf(ccbs[cids[k]]) == k
      {
        assert Current(k);
      }
    }
  }

  class Decompressor {
    const ccbs: array<Headers>          // _ccbs

    constructor (blank: Headers)
      ensures ccbs.Length == 15 && fresh(ccbs)
    {
      ccbs := new Headers[TCP_SPACE](i => blank);
    }

    /** Lines 32-63: a difference is read at `pos` and added to a field of `size` values. */
    static method Decode(body: seq<Byte>, pos: nat, x: nat, size: nat) returns (ok: bool, pos': nat, x': nat)
      requires pos <= |body| && size > 0
      ensures match Field(true, body[pos..], x, size)
        case None => !ok
        case Some(r) => ok && pos' <= |body| && body[pos'..] == r.left && x' == r.x
    {
      var b := body[pos..];
      if pos >= |body| {
        return false, pos, x;
      }
      if body[pos] != 0 {
        assert b[1..] == body[pos + 1..];
        return true, pos + 1, (x + body[pos]) % size;
      }
      if pos + 3 > |body| {
        return false, pos, x;
      }
      assert b[3..] == body[pos + 3..];
      return true, pos + 3, (x + Word(body[pos + 2], body[pos + 1])) % size;
    }

    /** The same, if the flag for the field is set. */
    static method Update(flag: bool, body: seq<Byte>, pos: nat, x: nat, size: nat) returns (ok: bool, pos': nat, x': nat)
      requires pos <= |body| && size > 0
      ensures match Field(flag, body[pos..], x, size)
        case None => !ok
        case Some(r) => ok && pos' <= |body| && body[pos'..] == r.left && x' == r.x
    {
      if flag {
        ok, pos', x' := Decode(body, pos, x, size);
      } else {
        return true, pos, x;
      }
    }

    /** Lines 122-142. */
    method UncompressId(ctx: Headers, f: Flags, sum: nat, urp: nat, win: nat, ack: nat, seqno: nat,
                        body: seq<Byte>, pos: nat, ck: Checksum) returns (q: Option<Packet>)
      requires pos <= |body|
      ensures q == ExpandId(ctx, f, sum, urp, win, ack, seqno, body[pos..], ck)
    {
      var ok, end, id := Update(f.i, body, pos, ctx.ip.id, 0x1_0000);
      if !ok { return None; }
      if !f.i {
        id := (ctx.ip.id + 1) % 0x1_0000;
      }
      var rest := body[end..];
      var tcp := ctx.tcp.(push := f.p, urg := f.u, urp := urp, win := win, ack := ack, seqno := seqno, sum := sum);
      var ip := ctx.ip.(id := id, len := (|rest| + 40) % 0x1_0000, sum := 0);
      q := Some(Packet(Headers(ip.(sum := ck(ip)), tcp), rest));
    }

    /** Lines 114-142. */
    method UncompressAck(ctx: Headers, f: Flags, sum: nat, urp: nat, win: nat, body: seq<Byte>, pos: nat, ck: Checksum)
      returns (q: Option<Packet>)
      requires pos <= |body|
      ensures q == ExpandAck(ctx, f, sum, urp, win, body[pos..], ck)
    {
      var ok, mid, ack := Update(f.a, body, pos, ctx.tcp.ack, WORD);
      if !ok { return None; }
      var seqno, end;
      ok, end, seqno := Update(f.s, body, mid, ctx.tcp.seqno, WORD);
      if !ok { return None; }
      q := UncompressId(ctx, f, sum, urp, win, ack, seqno, body, end, ck);
    }

    /** Lines 93-142. Where the original would read past the packet, there is no result. */
    method Uncompress(ctx: Headers, f: Flags, sum: nat, body: seq<Byte>, ck: Checksum) returns (q: Option<Packet>)
      ensures q == Expand(ctx, f, sum, body, ck)
    {
      assert body[0..] == body;
      var ok, mid, urp := Update(f.u, body, 0, ctx.tcp.urp, 0x1_0000);
      if !ok { return None; }
      var end, win;
      ok, end, win := Update(f.w, body, mid, ctx.tcp.win, 0x1_0000);
      if !ok { return None; }
      q := UncompressAck(ctx, f, sum, urp, win, body, end, ck);
    }

    /** Lines 67-145. */
    method SimpleAction(m: Message, ck: Checksum) returns (q: Option<Packet>)
      requires ccbs.Length == TCP_SPACE
      modifies ccbs
      ensures m.Other? ==> q == Some(m.p) && ccbs[..] == old(ccbs[..])
      ensures m.Full? && 0 < m.cid < TCP_SPACE ==> q == Some(m.p) && ccbs[..] == old(ccbs[..])[m.cid := m.p.h]
      ensures m.Compressed? && 0 < m.cid < TCP_SPACE ==>
        q == Expand(old(ccbs[..])[m.cid], m.flags, m.sum, m.body, ck)
        && (q.Some? ==> ccbs[..] == old(ccbs[..])[m.cid := q.value.h])
      ensures !m.Other? && !(0 < m.cid < TCP_SPACE) ==> q == None && ccbs[..] == old(ccbs[..])
    {
      match m {
        case Other(p) =>
          q := Some(p);
        case Full(cid, p) =>
          if cid == 0 || cid >= TCP_SPACE { return None; }
          ccbs[cid] := p.h;
          q := Some(p);
        case Compressed(cid, f, sum, body) =>
          if cid == 0 || cid >= TCP_SPACE { return None; }
          q := Uncompress(ccbs[cid], f, sum, body, ck);
          if q.Some? {
            ccbs[cid] := q.value.h;
          }
      }
    }
  }

  /** Both ends hold the same context for every flow that has a CID. */
  ghost predicate InStep(c: Compressor, d: Decompressor)
    reads c, c.ccbs, d.ccbs
  {
    && c.Valid() && d.ccbs.Length == TCP_SPACE && c.ccbs != d.ccbs
    && forall k <- c.cids :: c.cids[k] != 0 ==> Agree(c, d, k)
  }

  ghost predicate Agree(c: Compressor, d: Decompressor, k: FlowId)
    requires c.ccbs.Length == TCP_SPACE == d.ccbs.Length && k in c.cids
    reads c, c.ccbs, d.ccbs
  {
    c.cids[k] < TCP_SPACE && d.ccbs[c.cids[k]] == c.ccbs[c.cids[k]]
  }

  /** The two ends after `m`, sent for `p`, has crossed the link and `q` has come out. */
  twostate predicate Crossed(new c: Compressor, new d: Decompressor, new p: Packet, new m: Message, new q: Option<Packet>)
    requires old(allocated(c)) && old(allocated(d)) && old(InStep(c, d))
    reads c, c.ccbs, d.ccbs
  {
    && c.Valid() && d.ccbs.Length == TCP_SPACE
    && (if !Compressible(p.h) then
          q == Some(p) && c.cids == old(c.cids) && c.ccbs[..] == old(c.ccbs[..]) && d.ccbs[..] == old(d.ccbs[..])
        else
          && 0 < Cid(m) < TCP_SPACE && c.ccbs[..] == old(c.ccbs[..])[Cid(m) := p.h]
          && Known(c.cids, FlowOf(p.h)) && c.cids[FlowOf(p.h)] == Cid(m)
          && (q.Some? ==> d.ccbs[..] == old(d.ccbs[..])[Cid(m) := q.value.h])
          && forall k :: k != FlowOf(p.h) && Known(c.cids, k) ==>
               Known(old(c.cids), k) && c.cids[k] == old(c.cids)[k] != Cid(m))
  }

  twostate lemma StaysInStep(new c: Compressor, new d: Decompressor, new p: Packet, new m: Message)
    requires old(allocated(c)) && old(allocated(d)) && old(InStep(c, d)) && Crossed(c, d, p, m, Some(p))
    ensures InStep(c, d)
    ensures forall k :: k != FlowOf(p.h) && Known(c.cids, k) ==>
      Known(old(c.cids), k) && c.cids[k] == old(c.cids)[k] < TCP_SPACE && c.ccbs[c.cids[k]] == old(c.ccbs[c.cids[k]])
  {
    forall k <- c.cids | c.cids[k] != 0
      ensures Agree(c, d, k)
      ensures k != FlowOf(p.h) ==> c.ccbs[c.cids[k]] == old(c.ccbs[c.cids[k]])
    {
      assert Known(c.cids, k) && c.Current(k);
      var cid := c.cids[k];
      assert Known(old(c.cids), k) && old(c.cids)[k] == cid ==> old(Agree(c, d, k));
      assert c.ccbs[cid] == c.ccbs[..][cid] && d.ccbs[cid] == d.ccbs[..][cid];
      assert old(c.ccbs[cid]) == old(c.ccbs[..])[cid] && old(d.ccbs[cid]) == old(d.ccbs[..])[cid];
    }
  }

  /**
   * A packet across the link. It comes out as it went in exactly when it was
   * not sent compressed or its compression is faithful, and then the ends stay in
   * step; what it is compressed against is always a context of its own flow.
   */
  method Transmit(c: Compressor, d: Decompressor, p: Packet, pick: nat, ck: Checksum)
    returns (q: Option<Packet>, ghost m: Message)
    requires InStep(c, d) && Fits(p.h) && 0 < pick < TCP_SPACE
    modifies c, c.ccbs, d.ccbs
    ensures m.Compressed? ==> Compressible(p.h) && Known(old(c.cids), FlowOf(p.h)) && 0 < m.cid < 15
    ensures m.Compressed? ==> m.cid == old(c.cids)[FlowOf(p.h)] && FlowOf(old(c.ccbs[..])[m.cid]) == FlowOf(p.h)
    ensures q == Some(p) <==> (m.Compressed? ==> Faithful(old(c.ccbs[..])[m.cid], p, ck))
    ensures Crossed(c, d, p, m, q)
    ensures q == Some(p) ==> InStep(c, d)
  {
    ghost var key := FlowOf(p.h);
    if Known(c.cids, key) {
      assert c.Current(key) && Agree(c, d, key);
    }
    var sent := c.SimpleAction(p, pick);
    m := sent;
    if m.Compressed? {
      CompressExact(old(c.ccbs[..])[m.cid], m.cid, p, ck);
    }
    q := d.SimpleAction(sent, ck);
    if q == Some(p) {
      StaysInStep(c, d, p, m);
    }
  }

  ghost predicate Known(cids: map<FlowId, nat>, k: FlowId) {
    k in cids && cids[k] != 0
  }

  ghost function Cid(m: Message): nat {
    match m
    case Other(_) => 0
    case Full(cid, _) => cid
    case Compressed(cid, _, _, _) => cid
  }

  ghost predicate FirstEncodable(c: Headers, h: Headers) {
    && Diff(c.tcp.urp, h.tcp.urp).Some? && Diff(c.tcp.win, h.tcp.win).Some?
    && Diff(Signed(c.tcp.ack), Signed(h.tcp.ack)).Some?
  }

  ghost predicate Encodable(c: Headers, h: Headers) {
    && FirstEncodable(c, h) && Diff(Signed(c.tcp.seqno), Signed(h.tcp.seqno)).Some?
    && IdDiff(c, h).Some?
  }

  ghost function FlagsFor(c: Headers, h: Headers): Flags
    requires Encodable(c, h)
  {
    Flags(IdDiff(c, h).value != [], h.tcp.push, Diff(Signed(c.tcp.seqno), Signed(h.tcp.seqno)).value != [],
          Diff(Signed(c.tcp.ack), Signed(h.tcp.ack)).value != [], Diff(c.tcp.win, h.tcp.win).value != [],
          Diff(c.tcp.urp, h.tcp.urp).value != [])
  }

  ghost function Encoded(c: Headers, h: Headers): seq<Byte>
    requires Encodable(c, h)
  {
    Diff(c.tcp.urp, h.tcp.urp).value + Diff(c.tcp.win, h.tcp.win).value
    + Diff(Signed(c.tcp.ack), Signed(h.tcp.ack)).value + Diff(Signed(c.tcp.seqno), Signed(h.tcp.seqno)).value
    + IdDiff(c, h).value
  }

  lemma Regroup(c: Headers, p: Packet)
    requires Encodable(c, p.h) && SameShape(c, p.h)
    ensures Compress(c, 0, p).Compressed? && Compress(c, 0, p).body == Encoded(c, p.h) + p.rest
  {
    var u, w := Diff(c.tcp.urp, p.h.tcp.urp).value, Diff(c.tcp.win, p.h.tcp.win).value;
    var a := Diff(Signed(c.tcp.ack), Signed(p.h.tcp.ack)).value;
    var s := Diff(Signed(c.tcp.seqno), Signed(p.h.tcp.seqno)).value;
    var i := IdDiff(c, p.h).value;
    assert u + w + a + s + i + p.rest == u + (w + (a + (s + (i + p.rest))));
  }

  // ---- whole runs

  /** The headers a flow's packets were last seen with, those that may be compressed. */
  ghost function LastOf(ps: seq<Packet>, k: FlowId): Option<Headers> {
    if ps == [] then None
    else
      var h := ps[|ps| - 1].h;
      if Compressible(h) && FlowOf(h) == k then Some(h) else LastOf(ps[..|ps| - 1], k)
  }

  /** Every packet is faithful to the one before it in its flow. */
  ghost predicate Steady(ps: seq<Packet>, ck: Checksum) {
    forall n :: 0 <= n < |ps| ==> Fits(ps[n].h) && SteadyAt(ps, n, ck)
  }

  ghost predicate SteadyAt(ps: seq<Packet>, n: nat, ck: Checksum)
    requires n < |ps|
  {
    Compressible(ps[n].h) && LastOf(ps[..n], FlowOf(ps[n].h)).Some? ==>
      Faithful(LastOf(ps[..n], FlowOf(ps[n].h)).value, ps[n], ck)
  }

  /** The contexts are of the packets last seen. */
  ghost predicate UpToDate(c: Compressor, sent: seq<Packet>)
    requires c.ccbs.Length == TCP_SPACE
    reads c, c.ccbs
  {
    forall k :: Known(c.cids, k) ==> c.cids[k] < TCP_SPACE && LastOf(sent, k) == Some(c.ccbs[c.cids[k]])
  }

  twostate lemma BroughtUpToDate(new c: Compressor, new d: Decompressor, new sent: seq<Packet>, new p: Packet, new m: Message)
    requires old(allocated(c)) && old(allocated(d)) && old(InStep(c, d)) && Crossed(c, d, p, m, Some(p))
    requires old(UpToDate(c, sent))
    ensures UpToDate(c, sent + [p])
  {
    StaysInStep(c, d, p, m);
    assert (sent + [p])[..|sent|] == sent;
    forall k | Known(c.cids, k)
      ensures c.cids[k] < TCP_SPACE && LastOf(sent + [p], k) == Some(c.ccbs[c.cids[k]])
    {
      var cid := c.cids[k];
      assert c.Current(k);
      if Compressible(p.h) && k == FlowOf(p.h) {
        assert c.ccbs[cid] == c.ccbs[..][cid];
      } else if !Compressible(p.h) {
        assert c.ccbs[cid] == c.ccbs[..][cid];
        assert old(c.ccbs[cid]) == old(c.ccbs[..])[cid];
        assert old(Known(c.cids, k));
      } else {
        assert old(Known(c.cids, k));
      }
    }
  }

  /** Over a whole run, whatever CIDs are picked for reuse, every packet comes out as it went in. */
  method TransmitAll(c: Compressor, d: Decompressor, ps: seq<Packet>, picks: seq<nat>, ck: Checksum)
    returns (qs: seq<Option<Packet>>)
    requires InStep(c, d) && c.cids == map[] && Steady(ps, ck)
    requires |picks| == |ps| && forall n :: 0 <= n < |picks| ==> 0 < picks[n] < TCP_SPACE
    modifies c, c.ccbs, d.ccbs
    ensures |qs| == |ps| && forall n :: 0 <= n < |ps| ==> qs[n] == Some(ps[n])
    ensures InStep(c, d) && UpToDate(c, ps)
  {
    qs := [];
    var n := 0;
    while n < |ps|
      invariant 0 <= n <= |ps| && |qs| == n && InStep(c, d) && UpToDate(c, ps[..n])
      invariant forall i :: 0 <= i < n ==> qs[i] == Some(ps[i])
    {
      assert ps[..n + 1] == ps[..n] + [ps[n]] && SteadyAt(ps, n, ck);
      label Before:
      var q, m := Transmit(c, d, ps[n], picks[n], ck);
      BroughtUpToDate@Before(c, d, ps[..n], ps[n], m);
      qs := qs + [q];
      n := n + 1;
    }
    assert ps[..n] == ps;
  }
}
