/** The `tcp` module root: connection identity, the send and receive
    sequence-space records of section 3.2 of RFC 793, and the wraparound-aware
    comparisons every window check reduces to. Headers are abstract records:
    decoding bytes into them belongs to an external codec. */
module Tcp {
  import opened Prelude
  import opened CrateRoot

  /** Window the endpoint advertises in its SYN-ACK. */
  const DEFAULT_WINDOW_SIZE: u16 := 64240

  datatype Ipv4Addr = Ipv4Addr(a: u8, b: u8, c: u8, d: u8)

  /** The four-tuple keying the connection table; compared structurally. */
  datatype ConnectionID = ConnectionID(srcAddr: Ipv4Addr, srcPort: u16, dstAddr: Ipv4Addr, dstPort: u16)

  /** The IPv4 header fields the endpoint reads or writes. */
  datatype Ipv4Header = Ipv4Header(payloadLen: u16, ttl: u8, protocol: u8, srcAddr: Ipv4Addr, dstAddr: Ipv4Addr)

  /** The TCP header fields the endpoint reads or writes (control bits other
      than SYN, ACK and FIN are never consulted). */
  datatype TcpHeader = TcpHeader(
    srcPort: u16, dstPort: u16, seqNum: u32, ackNum: u32,
    syn: bool, ack: bool, fin: bool, window: u16)

  /** What the external codec makes of one received buffer: the IPv4 header
      decoded at ETH_HEADER_OFFSET (None when it does not decode) and the TCP
      header decoded right after it (None when it does not decode). */
  datatype Frame = Frame(ip: Option<Ipv4Header>, tcp: Option<TcpHeader>)

  datatype ParseError = MalformedIpv4 | NotTcp(protocol: u8) | MalformedTcp

  /** Send sequence variables: SND.UNA, SND.NXT, SND.WND, SND.UP, SND.WL1,
      SND.WL2 and ISS. */
  datatype SendSequenceSpace = SendSequenceSpace(up: bool, wnd: u16, una: u32, nxt: u32, wl1: u32, wl2: u32, iss: u32)

  /** Receive sequence variables: RCV.NXT, RCV.WND, RCV.UP and IRS. */
  datatype ReceiveSequenceSpace = ReceiveSequenceSpace(up: bool, wnd: u16, nxt: u32, irs: u32)

  /** A connection in typestate `S`: its identity and the payload of that state. */
  datatype Connection<S> = Connection(id: ConnectionID, state: S)

  /** Extracts the connection identity from a frame; a non-TCP datagram or
      one whose headers do not decode is rejected. */
  function ParseConnectionId(f: Frame): (r: Result<(ConnectionID, Ipv4Header, TcpHeader), ParseError>)
    ensures f.ip.None? ==> r == Err(MalformedIpv4)
    ensures f.ip.Some? && f.ip.value.protocol != TCP_PROTOCOL ==> r == Err(NotTcp(f.ip.value.protocol))
    ensures f.ip.Some? && f.ip.value.protocol == TCP_PROTOCOL && f.tcp.None? ==> r == Err(MalformedTcp)
    ensures r.Ok? <==> f.ip.Some? && f.ip.value.protocol == TCP_PROTOCOL && f.tcp.Some?
    ensures r.Ok? ==>
      var (id, ip, tcp) := r.value;
      ip == f.ip.value && tcp == f.tcp.value &&
      id.srcAddr == ip.srcAddr && id.srcPort == tcp.srcPort &&
      id.dstAddr == ip.dstAddr && id.dstPort == tcp.dstPort
  {
    match f.ip
    case None => Err(MalformedIpv4)
    case Some(ip) =>
      if ip.protocol != TCP_PROTOCOL then Err(NotTcp(ip.protocol))
      else
        match f.tcp
        case None => Err(MalformedTcp)
        case Some(tcp) =>
          Ok((ConnectionID(ip.srcAddr, tcp.srcPort, ip.dstAddr, tcp.dstPort), ip, tcp))
  }

  // ---------------------------------------------------------------------
  // Wrapping comparison

  /** `a <= b < c` with wrapping, by the three orderings of the case split:
      walking forward from `a`, `b` is met strictly before `c`. */
  predicate IsWrappingLteLs(a: u32, b: u32, c: u32)
    ensures IsWrappingLteLs(a, b, c) <==> Dist(a, b) < Dist(a, c)
  {
    if a <= b && b < c then true        // a, b, c
    else if c < a && a <= b then true   // c, a, b
    else if b < c && c < a then true    // b, c, a
    else false
  }

  /** An interval that starts and ends at the same point is empty, and its
      start lies in every non-empty one. */
  lemma WrappingLteLsEmptyAndStart(a: u32, b: u32, c: u32)
    ensures !IsWrappingLteLs(a, b, a)
    ensures IsWrappingLteLs(a, a, c) <==> a != c
  {
  }

  /** The successor of `a` lies between `a` and any point at most 2^31 + 1
      steps ahead of it. */
  lemma WrappingLteLsSuccessor(a: u32, k: int)
    requires 1 <= k <= 0x8000_0000
    ensures IsWrappingLteLs(a, WrappingAdd(a, 1), WrappingAdd(a, k + 1))
  {
    DistUnique(a, WrappingAdd(a, 1), 1);
    DistUnique(a, WrappingAdd(a, k + 1), k + 1);
  }

  // ---------------------------------------------------------------------
  // Acknowledgment acceptability: SND.UNA < SEG.ACK =< SND.NXT

  /** Without wraparound the check is exactly una < ack <= nxt; once nxt has
      wrapped below una, cases 2 and 3 together accept every number. */
  predicate IsAckInWindow(snd: SendSequenceSpace, ack: u32)
    ensures snd.una <= snd.nxt ==> (IsAckInWindow(snd, ack) <==> snd.una < ack <= snd.nxt)
    ensures snd.nxt < snd.una ==> IsAckInWindow(snd, ack)
  {
    if snd.una < ack && ack <= snd.nxt then true               // una, ack, nxt
    else if snd.nxt < snd.una && snd.una < ack then true       // nxt, una, ack
    else if ack <= snd.una && snd.nxt < snd.una then true      // as written: tests ack <= una
    else false
  }

  /** The boundary cases for una = 100, nxt = 200. */
  lemma AckInWindowBoundaries(snd: SendSequenceSpace)
    requires snd.una == 100 && snd.nxt == 200
    ensures IsAckInWindow(snd, 150) && IsAckInWindow(snd, 200)
    ensures !IsAckInWindow(snd, 100) && !IsAckInWindow(snd, 201)
  {
  }

  /** The check with its third case comparing ack against nxt, as the case
      comment next to it describes: exactly the modular interval (una, nxt]. */
  predicate IsAckInWindowIntended(snd: SendSequenceSpace, ack: u32)
    ensures IsAckInWindowIntended(snd, ack) <==> 0 < Dist(snd.una, ack) <= Dist(snd.una, snd.nxt)
  {
    if snd.una < ack && ack <= snd.nxt then true
    else if snd.nxt < snd.una && snd.una < ack then true
    else if ack <= snd.nxt && snd.nxt < snd.una then true
    else false
  }

  /** The check as written accepts an acknowledgment outside (una, nxt]:
      with una = 10 and nxt = 5 the window wraps through 2^32, and 7 is not in it. */
  lemma AckInWindowAsWrittenAcceptsOutside()
    ensures var snd := SendSequenceSpace(false, 0, 10, 5, 0, 0, 10);
      IsAckInWindow(snd, 7) && !(0 < Dist(snd.una, 7) <= Dist(snd.una, snd.nxt))
  {
  }

  /** Both versions agree whenever nxt has not wrapped below una. */
  lemma AckInWindowAgreesUnwrapped(snd: SendSequenceSpace, ack: u32)
    requires snd.una <= snd.nxt
    ensures IsAckInWindow(snd, ack) == IsAckInWindowIntended(snd, ack)
  {
  }

  // ---------------------------------------------------------------------
  // Segment acceptability (the four-case table of section 3.3 of RFC 793)

  /** SEG.LEN: the sequence numbers a segment occupies, its payload octets
      plus one each for SYN and FIN. */
  function SegOctets(seg: TcpHeader, data: seq<u8>): nat
  {
    |data| + (if seg.syn then 1 else 0) + (if seg.fin then 1 else 0)
  }

  /** SEG.LEN as the endpoint computes it in 32 bits: the payload length
      truncated to u32, then the control bits added. */
  function SegLen(seg: TcpHeader, data: seq<u8>): (n: u32)
    ensures n == SegOctets(seg, data) % MOD32
  {
    var n := WrappingAdd(|data| % MOD32, if seg.syn then 1 else 0);
    WrappingAdd(n, if seg.fin then 1 else 0)
  }

  /** SEG.SEQ + SEG.LEN - 1, computed with wrapping: the last sequence
      number the segment occupies, modulo 2^32. */
  function SegLastSeq(seg: TcpHeader, data: seq<u8>): (last: u32)
    ensures last == (seg.seqNum + SegOctets(seg, data) - 1) % MOD32
  {
    var n := SegLen(seg, data);
    var sum := WrappingAdd(seg.seqNum, n);
    WrappingSub(sum, 1)
  }

  /** RCV.NXT =< x < RCV.NXT + RCV.WND, modulo 2^32. */
  predicate InRecvWindow(rcv: ReceiveSequenceSpace, x: u32)
  {
    Dist(rcv.nxt, x) < rcv.wnd
  }

  /** Acceptability of an incoming segment; `data` is the payload, absent
      (None) for a bare header such as a handshake ACK. With a zero window
      only a bare header at RCV.NXT passes; with an open window the first
      octet, or (with a payload) the last octet, must lie in the window. */
  predicate IsRecvDataInWindow(rcv: ReceiveSequenceSpace, seg: TcpHeader, data: Option<seq<u8>>)
    ensures rcv.wnd == 0 && data.None? ==> (IsRecvDataInWindow(rcv, seg, data) <==> seg.seqNum == rcv.nxt)
    ensures rcv.wnd == 0 && data.Some? ==> !IsRecvDataInWindow(rcv, seg, data)
    ensures rcv.wnd > 0 ==> (IsRecvDataInWindow(rcv, seg, data) <==>
      InRecvWindow(rcv, seg.seqNum) || (data.Some? && InRecvWindow(rcv, SegLastSeq(seg, data.value))))
  {
    var wndEdge := WrappingAdd(rcv.nxt, rcv.wnd);
    WindowEdgeIsInRecvWindow(rcv, seg.seqNum);
    if data.None? && rcv.wnd == 0 && seg.seqNum == rcv.nxt then true          // case 1
    else if data.Some? && rcv.wnd == 0 then false                           // case 3
    else if IsWrappingLteLs(rcv.nxt, seg.seqNum, wndEdge) then true          // case 2, first half of case 4
    else if data.Some? && rcv.wnd > 0 then                                  // second half of case 4
      WindowEdgeIsInRecvWindow(rcv, SegLastSeq(seg, data.value));
      IsWrappingLteLs(rcv.nxt, SegLastSeq(seg, data.value), wndEdge)
    else false
  }

  /** The wrapping comparison against RCV.NXT + RCV.WND is membership in the
      receive window. */
  lemma WindowEdgeIsInRecvWindow(rcv: ReceiveSequenceSpace, x: u32)
    ensures IsWrappingLteLs(rcv.nxt, x, WrappingAdd(rcv.nxt, rcv.wnd)) <==> InRecvWindow(rcv, x)
  {
    DistUnique(rcv.nxt, WrappingAdd(rcv.nxt, rcv.wnd), rcv.wnd);
  }

  /** The acceptability table of section 3.3 of RFC 793, stated on SEG.LEN. */
  predicate Rfc793Acceptable(rcv: ReceiveSequenceSpace, segSeq: u32, segLen: nat)
  {
    if segLen == 0 && rcv.wnd == 0 then segSeq == rcv.nxt
    else if segLen == 0 then InRecvWindow(rcv, segSeq)
    else if rcv.wnd == 0 then false
    else InRecvWindow(rcv, segSeq) || InRecvWindow(rcv, (segSeq + segLen - 1) % MOD32)
  }

  /** The endpoint classifies segments by whether a payload is present rather
      than by SEG.LEN; where the two coincide (a bare header without SYN or
      FIN, or a non-empty payload) it decides exactly as the RFC table does. */
  lemma RecvAgreesWithRfc793(rcv: ReceiveSequenceSpace, seg: TcpHeader, data: Option<seq<u8>>)
    requires data.None? ==> !seg.syn && !seg.fin
    requires data.Some? ==> 0 < |data.value| < MOD32
    ensures IsRecvDataInWindow(rcv, seg, data) <==>
      Rfc793Acceptable(rcv, seg.seqNum, if data.Some? then SegOctets(seg, data.value) else 0)
  {
  }

  /** Exactly where the two classifications differ. Let SEG.LEN count the
      payload (none for a bare header) plus SYN and FIN. The endpoint and the
      RFC table disagree only when payload presence and SEG.LEN > 0 do not
      match: a bare header with SYN or FIN, or an empty payload without
      them. With a zero window they then disagree iff SEG.SEQ = RCV.NXT. With
      an open window they disagree iff the first octet lies outside the
      window and SEG.SEQ + SEG.LEN - 1 lies in it. */
  lemma RecvDivergesFromRfc793(rcv: ReceiveSequenceSpace, seg: TcpHeader, data: Option<seq<u8>>)
    ensures var len := SegOctets(seg, if data.Some? then data.value else []);
      var mismatched := data.None? <==> len > 0;
      (IsRecvDataInWindow(rcv, seg, data) != Rfc793Acceptable(rcv, seg.seqNum, len)) <==>
        mismatched &&
        (if rcv.wnd == 0 then seg.seqNum == rcv.nxt
         else !InRecvWindow(rcv, seg.seqNum) && InRecvWindow(rcv, (seg.seqNum + len - 1) % MOD32))
  {
    var len := SegOctets(seg, if data.Some? then data.value else []);
    if rcv.wnd > 0 && data.Some? {
      assert SegLastSeq(seg, data.value) == (seg.seqNum + len - 1) % MOD32;
    }
  }
}
