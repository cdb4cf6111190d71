/**
 * IPv4 packets as far as fragmentation sees them, and what it is to be a
 * fragment of a datagram (section 3.2 of RFC 791).
 */
module Packets {
  import opened ReassemblyChunks

  datatype Flow = Flow(id: nat, proto: nat, src: nat, dst: nat)

  /**
   * `hlen` is the header length in bytes, `rest` the type of service,
   * the time to live and the options, `off` the fragment offset in bytes, `len` the total length
   * the header claims, and `data` everything after the header.
   */
  datatype Packet = Packet(flow: Flow, hlen: nat, rest: seq<Byte>, df: bool, mf: bool, off: nat, len: nat,
                           data: seq<Byte>)
  {
    /** The payload the header claims ends here: `p_lastoff`. */
    function End(): int { off + len - hlen }

    /** IP_ISFRAG. */
    predicate IsFragment() { mf || off != 0 }

    /** A datagram no one has cut. */
    ghost predicate Whole() {
      off == 0 && !mf && len == hlen + |data| && 20 <= hlen <= 60 && 0 < |data| && len < 0x1_0000
    }

    /** A piece of datagram `w`, with perhaps some bytes of padding after it. */
    ghost predicate PieceOf(w: Packet) {
      && flow == w.flow && df == w.df && 20 <= hlen <= 60
      && hlen <= len <= hlen + |data| && Cut(Chunk(off, End()), |w.data|)
      && data[..len - hlen] == w.data[off..End()]
      && (mf <==> End() < |w.data|)
      && (off == 0 ==> hlen == w.hlen && rest == w.rest)
    }
  }
}
