/**
 * The compressed form of TCP/IP headers: `encodeX` and `make_compressed`
 * (bfclick/ip/rfc2507c.cc), `decode` and the compressed case of
 * `simple_action` (bfclick/ip/rfc2507d.cc), after section 6 of RFC 2507.
 */
module HeaderCodec {
  import opened ReassemblyChunks
  import opened Results

  const PROTO_TCP := 6

  datatype Ip = Ip(v: nat, hl: nat, tos: nat, len: nat, id: nat, rf: bool, df: bool, mf: bool, off: nat,
                   ttl: nat, proto: nat, sum: nat, src: nat, dst: nat)

  /** `x2` is the reserved half of the byte that holds the header length. */
  datatype Tcp = Tcp(sport: nat, dport: nat, seqno: nat, ack: nat, doff: nat, x2: nat, fin: bool, syn: bool, rst: bool,
                     push: bool, acks: bool, urg: bool, ece: bool, cwr: bool, win: nat, sum: nat, urp: nat)

  datatype Headers = Headers(ip: Ip, tcp: Tcp)

  /** A packet: its first 40 bytes read as headers, and the rest. */
  datatype Packet = Packet(h: Headers, rest: seq<Byte>)

  datatype FlowId = FlowId(src: nat, sport: nat, dst: nat, dport: nat)

  datatype Flags = Flags(i: bool, p: bool, s: bool, a: bool, w: bool, u: bool)

  /** What goes over the link; the first byte tells the cases apart. */
  datatype Message =
    | Other(p: Packet)
    | Full(cid: nat, p: Packet)
    | Compressed(cid: nat, flags: Flags, sum: nat, body: seq<Byte>)

  function FlowOf(h: Headers): FlowId {
    FlowId(h.ip.src, h.tcp.sport, h.ip.dst, h.tcp.dport)
  }

  const WORD := 0x1_0000_0000
  const HALF := 0x8000_0000

  /** Field values fit their fields. */
  ghost predicate Fits(h: Headers) {
    && h.ip.id < 0x1_0000 && h.ip.len < 0x1_0000 && h.tcp.win < 0x1_0000 && h.tcp.urp < 0x1_0000
    && h.tcp.seqno < WORD && h.tcp.ack < WORD
  }

  /** rfc2507c.cc:216-220, the other way round. */
  predicate Compressible(h: Headers) {
    && h.ip.hl == 5 && h.ip.v == 4 && h.ip.off == 0 && !h.ip.mf && h.ip.proto == PROTO_TCP
    && h.tcp.acks && !h.tcp.fin && !h.tcp.syn && !h.tcp.rst
  }

  // ---- one field

  /** A 32-bit value as a C `int`. */
  function Signed(x: int): (r: int)
    ensures -0x8000_0000 <= r < 0x8000_0000 && (r - x) % 0x1_0000_0000 == 0
  {
    if x % WORD < HALF then x % WORD else x % WORD - WORD
  }

  /** `encodeX`: nothing for no change, one byte or three for an increase, and otherwise no encoding. */
  function Diff(o: int, n: int): Option<seq<Byte>> {
    var d := Signed(n - o);
    if o == n then Some([])
    else if n < o then None
    else if d < 256 then Some([d % 256])
    else if d < 65536 then Some([0, d / 256, d % 256])
    else None
  }

  /** The number has not fallen, and is less than 65536 further on. */
  ghost predicate Rises(o: int, n: int) { 0 <= n - o < 65536 }

  /** The difference of two C `int`s is out of range: it comes out negative, and so below 256. */
  ghost predicate Overflows(o: int, n: int) { n - o > 0x7FFF_FFFF }

  /** The bytes sent for a number that was `o` and is `n`. */
  ghost predicate StandsFor(b: seq<Byte>, o: int, n: int) {
    if n == o then b == []
    else if 0 < n - o < 256 then b == [n - o]
    else if 256 <= n - o < 65536 then |b| == 3 && b[0] == 0 && n - o == 256 * (b[1] as int) + b[2] as int
    else Overflows(o, n) && |b| == 1 && (n - o - b[0] as int) % 256 == 0
  }

  /** A number is sent exactly when it has risen by less than 65536, or its difference overflows. */
  lemma DiffSends(o: int, n: int)
    requires -HALF <= o < HALF && -HALF <= n < HALF
    ensures Diff(o, n).Some? <==> Rises(o, n) || Overflows(o, n)
    ensures Diff(o, n).Some? ==> StandsFor(Diff(o, n).value, o, n)
  {
    if Overflows(o, n) {
      Congruent(o, n, 0);
      var d := n - o - WORD;
      assert d % 256 == (n - o) % 256;
      Remains(n - o);
    } else if o <= n {
      InRange(n - o);
    }
  }

  lemma InRange(d: int)
    requires -HALF <= d < HALF
    ensures Signed(d) == d
  {
  }

  lemma Remains(x: int)
    ensures (x - x % 256) % 256 == 0
  {
  }

  /** `decode`: the bytes a difference takes, and the difference. */
  function Taken(b: seq<Byte>): Option<nat> {
    if b == [] then None else if b[0] != 0 then Some(1) else if |b| < 3 then None else Some(3)
  }

  function Added(b: seq<Byte>): nat
    requires Taken(b).Some?
  {
    if b[0] != 0 then b[0] else Word(b[2], b[1])
  }

  /** The difference of the two numbers does not overflow a C `int`. */
  predicate NoOverflow(o: int, n: int) {
    n - o < HALF
  }

  /** A difference is read back, whatever follows it, exactly when it did not overflow. */
  lemma DiffRoundTrip(o: int, n: int, tail: seq<Byte>)
    requires -HALF <= o < HALF && -HALF <= n < HALF && o != n && Diff(o, n).Some?
    ensures Diff(o, n).value != []
    ensures NoOverflow(o, n) ==> Taken(Diff(o, n).value + tail) == Some(|Diff(o, n).value|)
    ensures Taken(Diff(o, n).value + tail).Some? ==>
      (NoOverflow(o, n) <==> (o + Added(Diff(o, n).value + tail)) % WORD == n % WORD)
  {
    var b := Diff(o, n).value + tail;
    var d := n - o;
    if d >= HALF {
      Congruent(o, n, 0);
      if Taken(b).Some? {
        assert Added(b) < 65536;
        NotCongruent(o, n, Added(b));
      }
    } else {
      assert Signed(d) == d;
    }
  }

  lemma Congruent(o: int, n: int, x: int)
    requires HALF <= n - o < WORD
    ensures Signed(n - o) == n - o - WORD
  {
  }

  lemma NotCongruent(o: int, n: int, a: nat)
    requires HALF <= n - o < WORD && a < 65536
    ensures (o + a) % WORD != n % WORD
  {
    var q := n / WORD - (o + a) / WORD;
    assert n - o - a == q * WORD + n % WORD - (o + a) % WORD;
  }

  /** For 16-bit fields nothing overflows. */
  lemma DiffRoundTrip16(o: nat, n: nat, tail: seq<Byte>)
    requires o < 0x1_0000 && n < 0x1_0000 && o != n && Diff(o, n).Some?
    ensures Diff(o, n).value != [] && Taken(Diff(o, n).value + tail) == Some(|Diff(o, n).value|)
    ensures (o + Added(Diff(o, n).value + tail)) % 0x1_0000 == n
  {
    assert Signed(n - o) == n - o;
  }

  // ---- all fields

  /** The fields that are sent in full when they change (lines 114-119). */
  predicate SameShape(c: Headers, h: Headers) {
    && h.ip.v == c.ip.v && h.ip.hl == c.ip.hl && h.ip.tos == c.ip.tos && h.ip.df == c.ip.df && h.ip.ttl == c.ip.ttl
    && h.tcp.doff == c.tcp.doff
  }

  /** Lines 156-164: nothing for the next id. */
  function IdDiff(c: Headers, h: Headers): Option<seq<Byte>> {
    if h.ip.id == c.ip.id + 1 then Some([]) else Diff(c.ip.id, h.ip.id)
  }

  /** What `make_compressed` makes of a packet whose flow was last seen with headers `c`. */
  function Compress(c: Headers, cid: nat, p: Packet): Message {
    var h := p.h;
    var u := Diff(c.tcp.urp, h.tcp.urp);
    var w := Diff(c.tcp.win, h.tcp.win);
    var a := Diff(Signed(c.tcp.ack), Signed(h.tcp.ack));
    var s := Diff(Signed(c.tcp.seqno), Signed(h.tcp.seqno));
    var i := IdDiff(c, h);
    if SameShape(c, h) && u.Some? && w.Some? && a.Some? && s.Some? && i.Some? then
      Compressed(cid, Flags(i.value != [], h.tcp.push, s.value != [], a.value != [], w.value != [], u.value != []),
                 h.tcp.sum, u.value + (w.value + (a.value + (s.value + (i.value + p.rest)))))
    else Full(cid, p)
  }

  /** Every number that has changed can be sent; the id need not when it is the next one. */
  ghost predicate Sendable(c: Headers, h: Headers) {
    && Moves(c.tcp.urp, h.tcp.urp) && Moves(c.tcp.win, h.tcp.win)
    && Moves(Signed(c.tcp.ack), Signed(h.tcp.ack)) && Moves(Signed(c.tcp.seqno), Signed(h.tcp.seqno))
    && (h.ip.id == c.ip.id + 1 || Moves(c.ip.id, h.ip.id))
  }

  ghost predicate Moves(o: int, n: int) { Rises(o, n) || Overflows(o, n) }

  /** A compressed message carries the numbers that have changed, flagged, in this order, and then the payload. */
  ghost predicate Carries(m: Message, c: Headers, p: Packet, u: seq<Byte>, w: seq<Byte>, a: seq<Byte>, s: seq<Byte>, i: seq<Byte>) {
    && m.Compressed? && m.body == u + w + a + s + i + p.rest && m.sum == p.h.tcp.sum && m.flags.p == p.h.tcp.push
    && StandsFor(u, c.tcp.urp, p.h.tcp.urp) && (m.flags.u <==> p.h.tcp.urp != c.tcp.urp)
    && StandsFor(w, c.tcp.win, p.h.tcp.win) && (m.flags.w <==> p.h.tcp.win != c.tcp.win)
    && StandsFor(a, Signed(c.tcp.ack), Signed(p.h.tcp.ack)) && (m.flags.a <==> p.h.tcp.ack != c.tcp.ack)
    && StandsFor(s, Signed(c.tcp.seqno), Signed(p.h.tcp.seqno)) && (m.flags.s <==> p.h.tcp.seqno != c.tcp.seqno)
    && (if p.h.ip.id == c.ip.id + 1 then i == [] && !m.flags.i
        else StandsFor(i, c.ip.id, p.h.ip.id) && (m.flags.i <==> p.h.ip.id != c.ip.id))
  }

  /** How many bytes go out for a number that was `o` and is `n`. */
  ghost function Cost(o: int, n: int): nat {
    if n == o then 0 else if 256 <= n - o < 65536 then 3 else 1
  }

  ghost function CostOf(c: Headers, h: Headers): nat {
    Cost(c.tcp.urp, h.tcp.urp) + Cost(c.tcp.win, h.tcp.win) + Cost(Signed(c.tcp.ack), Signed(h.tcp.ack))
    + Cost(Signed(c.tcp.seqno), Signed(h.tcp.seqno)) + if h.ip.id == c.ip.id + 1 then 0 else Cost(c.ip.id, h.ip.id)
  }

  /** Each number can be sent, and the bytes sent for it stand for it. */
  lemma EachSends(c: Headers, h: Headers)
    requires Fits(c) && Fits(h)
    ensures Moves(c.tcp.urp, h.tcp.urp) <==> Diff(c.tcp.urp, h.tcp.urp).Some?
    ensures Moves(c.tcp.win, h.tcp.win) <==> Diff(c.tcp.win, h.tcp.win).Some?
    ensures Moves(Signed(c.tcp.ack), Signed(h.tcp.ack)) <==> Diff(Signed(c.tcp.ack), Signed(h.tcp.ack)).Some?
    ensures Moves(Signed(c.tcp.seqno), Signed(h.tcp.seqno)) <==> Diff(Signed(c.tcp.seqno), Signed(h.tcp.seqno)).Some?
    ensures h.ip.id == c.ip.id + 1 || Moves(c.ip.id, h.ip.id) <==> IdDiff(c, h).Some?
  {
    DiffSends(c.tcp.urp, h.tcp.urp);
    DiffSends(c.tcp.win, h.tcp.win);
    DiffSends(Signed(c.tcp.ack), Signed(h.tcp.ack));
    DiffSends(Signed(c.tcp.seqno), Signed(h.tcp.seqno));
    DiffSends(c.ip.id, h.ip.id);
  }

  /** What is sent compressed, and how: the packets of unchanged shape all of whose numbers can be sent. */
  lemma WhatIsCompressed(c: Headers, cid: nat, p: Packet)
    requires Fits(c) && Fits(p.h)
    ensures var m := Compress(c, cid, p);
      if SameShape(c, p.h) && Sendable(c, p.h)
      then m.Compressed? && m.cid == cid && |m.body| == CostOf(c, p.h) + |p.rest| && exists u, w, a, s, i :: Carries(m, c, p, u, w, a, s, i)
      else m == Full(cid, p)
  {
    EachSends(c, p.h);
    if SameShape(c, p.h) && Sendable(c, p.h) {
      var u, w, a, s, i := AllCarried(c, cid, p);
      var h := p.h;
      SameLength(u, c.tcp.urp, h.tcp.urp);
      SameLength(w, c.tcp.win, h.tcp.win);
      SameLength(a, Signed(c.tcp.ack), Signed(h.tcp.ack));
      SameLength(s, Signed(c.tcp.seqno), Signed(h.tcp.seqno));
      SameLength(i, c.ip.id, h.ip.id);
    }
  }

  lemma SameLength(b: seq<Byte>, o: int, n: int)
    ensures StandsFor(b, o, n) ==> |b| == Cost(o, n)
  {
  }

  lemma Stands(o: int, n: int)
    requires -HALF <= o < HALF && -HALF <= n < HALF && Diff(o, n).Some?
    ensures StandsFor(Diff(o, n).value, o, n) && (Diff(o, n).value == [] <==> o == n)
  {
    DiffSends(o, n);
  }

  lemma StandsWord(o: nat, n: nat)
    requires o < WORD && n < WORD && Diff(Signed(o), Signed(n)).Some?
    ensures StandsFor(Diff(Signed(o), Signed(n)).value, Signed(o), Signed(n))
    ensures Diff(Signed(o), Signed(n)).value == [] <==> o == n
  {
    Stands(Signed(o), Signed(n));
    SignedEqual(o, n);
  }

  lemma AllCarried(c: Headers, cid: nat, p: Packet) returns (u: seq<Byte>, w: seq<Byte>, a: seq<Byte>, s: seq<Byte>, i: seq<Byte>)
    requires Fits(c) && Fits(p.h) && SameShape(c, p.h) && Compress(c, cid, p).Compressed?
    ensures Carries(Compress(c, cid, p), c, p, u, w, a, s, i)
  {
    var h := p.h;
    u, w := Diff(c.tcp.urp, h.tcp.urp).value, Diff(c.tcp.win, h.tcp.win).value;
    a, s := Diff(Signed(c.tcp.ack), Signed(h.tcp.ack)).value, Diff(Signed(c.tcp.seqno), Signed(h.tcp.seqno)).value;
    i := IdDiff(c, h).value;
    Stands(c.tcp.urp, h.tcp.urp);
    Stands(c.tcp.win, h.tcp.win);
    StandsWord(c.tcp.ack, h.tcp.ack);
    StandsWord(c.tcp.seqno, h.tcp.seqno);
    if h.ip.id != c.ip.id + 1 {
      Stands(c.ip.id, h.ip.id);
    }
    assert u + w + a + s + i + p.rest == u + (w + (a + (s + (i + p.rest))));
  }

  datatype Reading = Reading(x: nat, left: seq<Byte>)

  /** A field of the context, brought up to date from the front of `b` if its flag is set. */
  function Field(flag: bool, b: seq<Byte>, x: nat, size: nat): Option<Reading>
    requires size > 0
  {
    if !flag then Some(Reading(x, b))
    else match Taken(b)
      case None => None
      case Some(k) => Some(Reading((x + Added(b)) % size, b[if k <= |b| then k else |b|..]))
  }

  /** The checksum a sender computes, over the header with none in it. */
  type Checksum = Ip -> nat

  /** Lines 94-142: the packet a compressed one stands for. No packet when its bytes run out. */
  function Expand(c: Headers, f: Flags, sum: nat, body: seq<Byte>, ck: Checksum): Option<Packet> {
    match Field(f.u, body, c.tcp.urp, 0x1_0000)
    case None => None
    case Some(u) =>
      match Field(f.w, u.left, c.tcp.win, 0x1_0000)
      case None => None
      case Some(w) => ExpandAck(c, f, sum, u.x, w.x, w.left, ck)
  }

  function ExpandAck(c: Headers, f: Flags, sum: nat, urp: nat, win: nat, b: seq<Byte>, ck: Checksum): Option<Packet> {
    match Field(f.a, b, c.tcp.ack, WORD)
    case None => None
    case Some(a) => ExpandSeq(c, f, sum, urp, win, a.x, a.left, ck)
  }

  function ExpandSeq(c: Headers, f: Flags, sum: nat, urp: nat, win: nat, ack: nat, b: seq<Byte>, ck: Checksum)
    : Option<Packet>
  {
    match Field(f.s, b, c.tcp.seqno, WORD)
    case None => None
    case Some(s) => ExpandId(c, f, sum, urp, win, ack, s.x, s.left, ck)
  }

  function ExpandId(c: Headers, f: Flags, sum: nat, urp: nat, win: nat, ack: nat, seqno: nat, b: seq<Byte>,
                    ck: Checksum): Option<Packet>
  {
    match Field(f.i, b, c.ip.id, 0x1_0000)
    case None => None
    case Some(i) =>
      var id := if f.i then i.x else (c.ip.id + 1) % 0x1_0000;
      Some(Rebuilt(c, f, sum, urp, win, ack, seqno, id, i.left, ck))
  }

  function Rebuilt(c: Headers, f: Flags, sum: nat, urp: nat, win: nat, ack: nat, seqno: nat, id: nat,
                   rest: seq<Byte>, ck: Checksum): Packet {
    var tcp := c.tcp.(push := f.p, urg := f.u, urp := urp, win := win, ack := ack, seqno := seqno, sum := sum);
    var ip := c.ip.(id := id, len := (|rest| + 40) % 0x1_0000, sum := 0);
    Packet(Headers(ip.(sum := ck(ip)), tcp), rest)
  }

  /** What a packet must satisfy for its compressed form to stand for it. */
  ghost predicate Faithful(c: Headers, p: Packet, ck: Checksum) {
    && p.h.ip.id != c.ip.id
    && (p.h.tcp.urg <==> p.h.tcp.urp != c.tcp.urp)
    && NoOverflow(Signed(c.tcp.ack), Signed(p.h.tcp.ack)) && NoOverflow(Signed(c.tcp.seqno), Signed(p.h.tcp.seqno))
    && Uncompared(c, p.h)
    && p.h.ip.len == (|p.rest| + 40) % 0x1_0000 && p.h.ip.sum == ck(p.h.ip.(sum := 0))
  }

  /** The fields no one compares and no one sends. */
  ghost predicate Uncompared(c: Headers, h: Headers) {
    h.ip.rf == c.ip.rf && h.tcp.x2 == c.tcp.x2 && h.tcp.ece == c.tcp.ece && h.tcp.cwr == c.tcp.cwr
  }

  ghost predicate SameFlow(c: Headers, h: Headers) {
    FlowOf(c) == FlowOf(h) && Compressible(c) && Compressible(h) && Fits(c) && Fits(h)
  }

  /** A 16-bit field is read back from its difference. */
  lemma Field16(o: nat, n: nat, tail: seq<Byte>)
    requires o < 0x1_0000 && n < 0x1_0000 && Diff(o, n).Some?
    ensures Field(Diff(o, n).value != [], Diff(o, n).value + tail, o, 0x1_0000) == Some(Reading(n, tail))
  {
    if o != n {
      DiffRoundTrip16(o, n, tail);
      assert (Diff(o, n).value + tail)[|Diff(o, n).value|..] == tail;
    } else {
      assert [] + tail == tail;
    }
  }

  /** A 32-bit field is, exactly when its difference does not overflow. */
  lemma Field32(o: nat, n: nat, tail: seq<Byte>)
    requires o < WORD && n < WORD && Diff(Signed(o), Signed(n)).Some?
    ensures var b := Diff(Signed(o), Signed(n)).value; var r := Field(b != [], b + tail, o, WORD);
      if NoOverflow(Signed(o), Signed(n)) then r == Some(Reading(n, tail)) else r == None || r.value.x != n
  {
    var b := Diff(Signed(o), Signed(n)).value;
    if o != n {
      DiffRoundTrip(Signed(o), Signed(n), tail);
      Unsigned(o, n, Added0(b + tail));
      assert (b + tail)[|b|..] == tail;
    } else {
      assert [] + tail == tail;
    }
  }

  ghost function Added0(b: seq<Byte>): nat {
    if Taken(b).Some? then Added(b) else 0
  }

  lemma SignedMod(o: nat, a: nat)
    requires o < WORD
    ensures (Signed(o) + a) % WORD == (o + a) % WORD
  {
  }

  lemma Unsigned(o: nat, n: nat, a: nat)
    requires o < WORD && n < WORD
    ensures (Signed(o) + a) % WORD == Signed(n) % WORD <==> (o + a) % WORD == n
    ensures -HALF <= Signed(o) < HALF && -HALF <= Signed(n) < HALF && (Signed(o) == Signed(n) <==> o == n)
  {
    SignedMod(o, a);
    SignedMod(n, 0);
  }

  /** The id is read back exactly when it is not the one before again. */
  lemma FieldId(c: Headers, h: Headers, tail: seq<Byte>)
    requires Fits(c) && Fits(h) && IdDiff(c, h).Some?
    ensures var b := IdDiff(c, h).value; var r := Field(b != [], b + tail, c.ip.id, 0x1_0000);
      r.Some? && r.value.left == tail
      && ((if b != [] then r.value.x else (c.ip.id + 1) % 0x1_0000) == h.ip.id <==> h.ip.id != c.ip.id)
  {
    if h.ip.id == c.ip.id + 1 {
      assert [] + tail == tail;
    } else {
      Field16(c.ip.id, h.ip.id, tail);
      if h.ip.id != c.ip.id {
        DiffRoundTrip16(c.ip.id, h.ip.id, tail);
      }
    }
  }

  /** The headers rebuilt from the right field values are the packet's, the rest of `Faithful` granted. */
  lemma RebuiltExact(c: Headers, p: Packet, f: Flags, id: nat, ck: Checksum)
    requires SameFlow(c, p.h) && SameShape(c, p.h) && f.p == p.h.tcp.push && (f.u <==> p.h.tcp.urp != c.tcp.urp)
    ensures (Rebuilt(c, f, p.h.tcp.sum, p.h.tcp.urp, p.h.tcp.win, p.h.tcp.ack, p.h.tcp.seqno, id, p.rest, ck) == p)
      <==> (id == p.h.ip.id && (p.h.tcp.urg <==> p.h.tcp.urp != c.tcp.urp) && Uncompared(c, p.h)
            && p.h.ip.len == (|p.rest| + 40) % 0x1_0000 && p.h.ip.sum == ck(p.h.ip.(sum := 0)))
  {
    var q := Rebuilt(c, f, p.h.tcp.sum, p.h.tcp.urp, p.h.tcp.win, p.h.tcp.ack, p.h.tcp.seqno, id, p.rest, ck);
    if id == p.h.ip.id && Uncompared(c, p.h) && p.h.ip.len == (|p.rest| + 40) % 0x1_0000 {
      assert q.h.ip.(sum := 0) == p.h.ip.(sum := 0);
    }
    if q == p {
      assert q.h.ip.(sum := 0) == p.h.ip.(sum := 0);
    }
  }

  /** The flags `make_compressed` sets. */
  ghost predicate FlagsOf(f: Flags, c: Headers, h: Headers)
    requires IdDiff(c, h).Some?
  {
    && f.p == h.tcp.push && (f.u <==> h.tcp.urp != c.tcp.urp) && (f.a <==> h.tcp.ack != c.tcp.ack)
    && (f.s <==> h.tcp.seqno != c.tcp.seqno) && (f.w <==> h.tcp.win != c.tcp.win) && f.i == (IdDiff(c, h).value != [])
  }

  ghost function SeqBytes(c: Headers, p: Packet): seq<Byte>
    requires Diff(Signed(c.tcp.seqno), Signed(p.h.tcp.seqno)).Some? && IdDiff(c, p.h).Some?
  {
    Diff(Signed(c.tcp.seqno), Signed(p.h.tcp.seqno)).value + (IdDiff(c, p.h).value + p.rest)
  }

  /** All that `Faithful` asks but for the overflows. */
  ghost predicate FaithfulRest(c: Headers, p: Packet, ck: Checksum) {
    && p.h.ip.id != c.ip.id && (p.h.tcp.urg <==> p.h.tcp.urp != c.tcp.urp) && Uncompared(c, p.h)
    && p.h.ip.len == (|p.rest| + 40) % 0x1_0000 && p.h.ip.sum == ck(p.h.ip.(sum := 0))
  }

  lemma IdExact(c: Headers, p: Packet, f: Flags, ck: Checksum)
    requires SameFlow(c, p.h) && SameShape(c, p.h) && IdDiff(c, p.h).Some? && FlagsOf(f, c, p.h)
    ensures var b := IdDiff(c, p.h).value + p.rest;
      var q := ExpandId(c, f, p.h.tcp.sum, p.h.tcp.urp, p.h.tcp.win, p.h.tcp.ack, p.h.tcp.seqno, b, ck);
      q == Some(p) <==> FaithfulRest(c, p, ck)
  {
    var i := IdDiff(c, p.h).value;
    FieldId(c, p.h, p.rest);
    var id := if f.i then Field(true, i + p.rest, c.ip.id, 0x1_0000).value.x else (c.ip.id + 1) % 0x1_0000;
    RebuiltExact(c, p, f, id, ck);
  }

  /** A wrong sequence number is never made good. */
  lemma WrongSeq(c: Headers, p: Packet, f: Flags, seqno: nat, b: seq<Byte>, ck: Checksum)
    requires seqno != p.h.tcp.seqno
    ensures ExpandId(c, f, p.h.tcp.sum, p.h.tcp.urp, p.h.tcp.win, p.h.tcp.ack, seqno, b, ck) != Some(p)
  {
  }

  lemma SeqExact(c: Headers, p: Packet, f: Flags, ck: Checksum)
    requires SameFlow(c, p.h) && SameShape(c, p.h)
    requires Diff(Signed(c.tcp.seqno), Signed(p.h.tcp.seqno)).Some? && IdDiff(c, p.h).Some? && FlagsOf(f, c, p.h)
    ensures var q := ExpandSeq(c, f, p.h.tcp.sum, p.h.tcp.urp, p.h.tcp.win, p.h.tcp.ack, SeqBytes(c, p), ck);
      q == Some(p) <==> NoOverflow(Signed(c.tcp.seqno), Signed(p.h.tcp.seqno)) && FaithfulRest(c, p, ck)
  {
    var o, n := c.tcp.seqno, p.h.tcp.seqno;
    var b := Diff(Signed(o), Signed(n)).value;
    SignedEqual(o, n);
    Field32(o, n, IdDiff(c, p.h).value + p.rest);
    IdExact(c, p, f, ck);
    var r := Field(b != [], SeqBytes(c, p), o, WORD);
    if r.Some? && r.value.x != n {
      WrongSeq(c, p, f, r.value.x, r.value.left, ck);
    }
  }

  lemma SignedEqual(o: nat, n: nat)
    requires o < WORD && n < WORD
    ensures Signed(o) == Signed(n) <==> o == n
    ensures Diff(Signed(o), Signed(n)).Some? ==> (Diff(Signed(o), Signed(n)).value == [] <==> o == n)
  {
  }

  lemma AckExact(c: Headers, p: Packet, f: Flags, ck: Checksum)
    requires SameFlow(c, p.h) && SameShape(c, p.h)
    requires Diff(Signed(c.tcp.ack), Signed(p.h.tcp.ack)).Some?
    requires Diff(Signed(c.tcp.seqno), Signed(p.h.tcp.seqno)).Some? && IdDiff(c, p.h).Some? && FlagsOf(f, c, p.h)
    ensures var b := Diff(Signed(c.tcp.ack), Signed(p.h.tcp.ack)).value + SeqBytes(c, p);
      ExpandAck(c, f, p.h.tcp.sum, p.h.tcp.urp, p.h.tcp.win, b, ck) == Some(p) <==> Faithful(c, p, ck)
  {
    SignedEqual(c.tcp.ack, p.h.tcp.ack);
    Field32(c.tcp.ack, p.h.tcp.ack, SeqBytes(c, p));
    SeqExact(c, p, f, ck);
  }

  /** A compressed packet stands for the packet it was made of exactly when that is faithful. */
  lemma CompressExact(c: Headers, cid: nat, p: Packet, ck: Checksum)
    requires SameFlow(c, p.h) && Compress(c, cid, p).Compressed?
    ensures var m := Compress(c, cid, p);
      Expand(c, m.flags, m.sum, m.body, ck) == Some(p) <==> Faithful(c, p, ck)
  {
    var f := Compress(c, cid, p).flags;
    var u, w := Diff(c.tcp.urp, p.h.tcp.urp).value, Diff(c.tcp.win, p.h.tcp.win).value;
    var ab := Diff(Signed(c.tcp.ack), Signed(p.h.tcp.ack)).value + SeqBytes(c, p);
    SignedEqual(c.tcp.ack, p.h.tcp.ack);
    SignedEqual(c.tcp.seqno, p.h.tcp.seqno);
    Field16(c.tcp.urp, p.h.tcp.urp, w + ab);
    Field16(c.tcp.win, p.h.tcp.win, ab);
    AckExact(c, p, f, ck);
  }
}
