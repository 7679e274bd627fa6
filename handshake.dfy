/** The server side of the three-way handshake (section 3.4 of RFC 793):
    Listen --SYN / SYN-ACK--> SynRecv --ACK--> Established. Each transition
    consumes the connection and yields the next one or an error. */
module Handshake {
  import opened Prelude
  import opened CrateRoot
  import opened Tcp
  import opened State

  /** Initial send sequence number: fixed, not chosen per connection. */
  const ISS: u32 := 0

  /** Time-to-live of the SYN-ACK datagram. */
  const REPLY_TTL: u8 := 64

  /** Length of a TCP header without options, the IPv4 payload of the SYN-ACK. */
  const TCP_HEADER_LEN: u16 := 20

  datatype HandshakeError =
    | AckOnListen          // an ACK-bearing segment reached a listening connection
    | SynMissing           // the opening segment does not carry SYN
    | AckMissing           // the segment answering the SYN-ACK does not carry ACK
    | AckNotInWindow       // its acknowledgment number fails the send-window check
    | SeqNotInWindow       // its sequence number fails the receive-window check

  /** One outgoing datagram: the IPv4 header followed by the TCP header. */
  datatype Segment = Segment(ip: Ipv4Header, tcp: TcpHeader)

  /** Checks an opening segment, ACK first, then SYN. */
  function PreflightChecks(c: Connection<Listen>): (r: Result<(), HandshakeError>)
    ensures r.Ok? <==> !c.state.tcpHeader.ack && c.state.tcpHeader.syn
    ensures c.state.tcpHeader.ack ==> r == Err(AckOnListen)
    ensures !c.state.tcpHeader.ack && !c.state.tcpHeader.syn ==> r == Err(SynMissing)
  {
    if c.state.tcpHeader.ack then Err(AckOnListen)
    else if !c.state.tcpHeader.syn then Err(SynMissing)
    else Ok(())
  }

  /** The transmission control block after a SYN: SND.UNA = ISS with one
      number (the SYN) outstanding, and RCV.NXT one past the peer's SYN. */
  function NextState(c: Connection<Listen>, iss: u32, wnd: u16): (s: SynRecv)
    ensures s.snd.una == iss && s.snd.iss == iss && Dist(s.snd.una, s.snd.nxt) == 1
    ensures s.snd.wnd == wnd && !s.snd.up && s.snd.wl1 == 0 && s.snd.wl2 == 0
    ensures s.rcv.irs == c.state.tcpHeader.seqNum && Dist(s.rcv.irs, s.rcv.nxt) == 1
    ensures s.rcv.wnd == c.state.tcpHeader.window && !s.rcv.up
  {
    var seg := c.state.tcpHeader;
    SynRecv(
      SendSequenceSpace(up := false, wnd := wnd, una := iss, nxt := WrappingAdd(iss, 1), wl1 := 0, wl2 := 0, iss := iss),
      ReceiveSequenceSpace(up := false, wnd := seg.window, nxt := WrappingAdd(seg.seqNum, 1), irs := seg.seqNum))
  }

  /** A fresh TCP header as the codec builds one: no flags, acknowledgment 0. */
  function NewTcpHeader(srcPort: u16, dstPort: u16, seqNum: u32, window: u16): TcpHeader
  {
    TcpHeader(srcPort, dstPort, seqNum, 0, false, false, false, window)
  }

  /** The identity of a connection as seen from its other end. */
  function Reversed(id: ConnectionID): ConnectionID
  {
    ConnectionID(id.dstAddr, id.dstPort, id.srcAddr, id.srcPort)
  }

  /** The wire form of <SEQ=ISS><ACK=RCV.NXT><CTL=SYN,ACK> answering `id`. */
  predicate IsSynAckFor(reply: Segment, id: ConnectionID, rcvNxt: u32)
  {
    && reply.tcp.srcPort == id.dstPort && reply.tcp.dstPort == id.srcPort
    && reply.tcp.seqNum == ISS && reply.tcp.ackNum == rcvNxt
    && reply.tcp.syn && reply.tcp.ack && !reply.tcp.fin
    && reply.tcp.window == DEFAULT_WINDOW_SIZE
    && reply.ip.payloadLen == TCP_HEADER_LEN && reply.ip.ttl == REPLY_TTL
    && reply.ip.protocol == TCP_PROTOCOL
    && reply.ip.srcAddr == id.dstAddr && reply.ip.dstAddr == id.srcAddr
  }

  /** The SYN-ACK for a connection is fully determined by its identity and
      RCV.NXT: every header field the endpoint writes is fixed by them. */
  lemma SynAckDetermined(a: Segment, b: Segment, id: ConnectionID, rcvNxt: u32)
    requires IsSynAckFor(a, id, rcvNxt) && IsSynAckFor(b, id, rcvNxt)
    ensures a == b
  {
  }

  /** Answers a SYN: on a segment that passes the preflight checks, returns
      the SynRecv connection under the same identity together with the
      SYN-ACK to send; otherwise the preflight error and no reply. */
  method SynAck(c: Connection<Listen>) returns (r: Result<(Connection<SynRecv>, Segment), HandshakeError>)
    ensures PreflightChecks(c).Err? ==> r == Err(PreflightChecks(c).error)
    ensures PreflightChecks(c).Ok? ==> r.Ok?
    ensures r.Ok? ==> r.value.0 == Connection(c.id, NextState(c, ISS, DEFAULT_WINDOW_SIZE))
    ensures r.Ok? ==> IsSynAckFor(r.value.1, c.id, WrappingAdd(c.state.tcpHeader.seqNum, 1))
  {
    var check := PreflightChecks(c);
    if check.Err? {
      return Err(check.error);
    }

    var initialSeqNum := ISS;
    var windowSize := DEFAULT_WINDOW_SIZE;
    var nextState := NextState(c, initialSeqNum, windowSize);

    var replyTcp := NewTcpHeader(c.id.dstPort, c.id.srcPort, initialSeqNum, windowSize);
    replyTcp := replyTcp.(ackNum := nextState.rcv.nxt);
    replyTcp := replyTcp.(syn := true);
    replyTcp := replyTcp.(ack := true);

    var replyIp := Ipv4Header(TCP_HEADER_LEN, REPLY_TTL, TCP_PROTOCOL, c.id.dstAddr, c.id.srcAddr);

    r := Ok((Connection(c.id, nextState), Segment(replyIp, replyTcp)));
  }

  /** The SYN-ACK travels back along the connection: the peer demultiplexes
      it to the reversed identity, whose reversal is the original one. */
  lemma SynAckRoutesToPeer(reply: Segment, id: ConnectionID, rcvNxt: u32)
    requires IsSynAckFor(reply, id, rcvNxt)
    ensures ParseConnectionId(Frame(Some(reply.ip), Some(reply.tcp))) == Ok((Reversed(id), reply.ip, reply.tcp))
    ensures Reversed(Reversed(id)) == id
  {
  }

  /** Validates the handshake's final segment: it must carry ACK, acknowledge
      a number in the send window and start in the receive window (it is
      checked as a bare header). On success the connection is relabelled
      Established with its records unchanged. */
  function CheckAck(c: Connection<SynRecv>, seg: TcpHeader): (r: Result<Connection<Established>, HandshakeError>)
    ensures r.Ok? <==>
      seg.ack && IsAckInWindow(c.state.snd, seg.ackNum) && IsRecvDataInWindow(c.state.rcv, seg, None)
    ensures !seg.ack ==> r == Err(AckMissing)
    ensures seg.ack && !IsAckInWindow(c.state.snd, seg.ackNum) ==> r == Err(AckNotInWindow)
    ensures seg.ack && IsAckInWindow(c.state.snd, seg.ackNum) && !IsRecvDataInWindow(c.state.rcv, seg, None) ==>
      r == Err(SeqNotInWindow)
    ensures r.Ok? ==> r.value.id == c.id && r.value.state.snd == c.state.snd && r.value.state.rcv == c.state.rcv
  {
    if !seg.ack then Err(AckMissing)
    else if !IsAckInWindow(c.state.snd, seg.ackNum) then Err(AckNotInWindow)
    else if !IsRecvDataInWindow(c.state.rcv, seg, None) then Err(SeqNotInWindow)
    else Ok(Connection(c.id, ToEstablished(c.state)))
  }

  /** End to end: after the SYN-ACK for a SYN with sequence number s, a bare
      ACK with acknowledgment ISS + 1 and sequence number s + 1 completes the
      handshake, whatever window the peer advertised. */
  lemma HandshakeCompletes(c: Connection<Listen>, seg: TcpHeader)
    requires seg.ack && seg.ackNum == WrappingAdd(ISS, 1)
    requires seg.seqNum == WrappingAdd(c.state.tcpHeader.seqNum, 1)
    ensures var s := NextState(c, ISS, DEFAULT_WINDOW_SIZE);
      CheckAck(Connection(c.id, s), seg) == Ok(Connection(c.id, ToEstablished(s)))
  {
    var s := NextState(c, ISS, DEFAULT_WINDOW_SIZE);
    DistUnique(s.rcv.irs, seg.seqNum, 1);
    assert seg.seqNum == s.rcv.nxt;
  }

  /** A retransmitted SYN (no ACK bit) never completes the handshake. */
  lemma RepeatedSynRejected(c: Connection<SynRecv>, seg: TcpHeader)
    requires seg.syn && !seg.ack
    ensures CheckAck(c, seg) == Err(AckMissing)
  {
  }

  /** The exchange of the handshake's opening: a SYN with sequence number 100
      and window 500 from 1.2.3.4:1111 to 5.6.7.8:80. */
  lemma OpeningExample(c: Connection<Listen>)
    requires c.id == ConnectionID(Ipv4Addr(1, 2, 3, 4), 1111, Ipv4Addr(5, 6, 7, 8), 80)
    requires c.state.tcpHeader.seqNum == 100 && c.state.tcpHeader.window == 500
    requires c.state.tcpHeader.syn && !c.state.tcpHeader.ack
    ensures var s := NextState(c, ISS, DEFAULT_WINDOW_SIZE);
      PreflightChecks(c).Ok? && s.rcv.nxt == 101 && s.rcv.irs == 100 && s.rcv.wnd == 500 &&
      s.snd.una == 0 && s.snd.nxt == 1
  {
  }
}
