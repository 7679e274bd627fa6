/** The typestates of a connection. Each is a plain record; a connection
    moves between them by being rebuilt, never by mutation. */
module State {
  import opened Tcp

  /** A connection that has seen an opening segment but not answered it: the
      inbound IPv4 and TCP headers that created it. */
  datatype Listen = Listen(ipHeader: Ipv4Header, tcpHeader: TcpHeader)

  /** After the SYN-ACK has been sent. */
  datatype SynRecv = SynRecv(snd: SendSequenceSpace, rcv: ReceiveSequenceSpace)

  /** After the handshake's final ACK has been accepted. */
  datatype Established = Established(snd: SendSequenceSpace, rcv: ReceiveSequenceSpace)

  /** Relabels a SynRecv as Established by copying every field across. */
  function ToEstablished(s: SynRecv): (e: Established)
    ensures e.snd.up == s.snd.up && e.snd.wnd == s.snd.wnd
    ensures e.snd.una == s.snd.una && e.snd.nxt == s.snd.nxt
    ensures e.snd.wl1 == s.snd.wl1 && e.snd.wl2 == s.snd.wl2 && e.snd.iss == s.snd.iss
    ensures e.rcv.up == s.rcv.up && e.rcv.wnd == s.rcv.wnd
    ensures e.rcv.nxt == s.rcv.nxt && e.rcv.irs == s.rcv.irs
  {
    var snd := SendSequenceSpace(s.snd.up, s.snd.wnd, s.snd.una, s.snd.nxt, s.snd.wl1, s.snd.wl2, s.snd.iss);
    var rcv := ReceiveSequenceSpace(s.rcv.up, s.rcv.wnd, s.rcv.nxt, s.rcv.irs);
    Established(snd, rcv)
  }

  /** The copy carries both records over whole, so it loses nothing: two
      SynRecv states relabel to the same Established state only if they are
      equal. */
  lemma ToEstablishedPreservesRecords(s: SynRecv, t: SynRecv)
    ensures ToEstablished(s).snd == s.snd && ToEstablished(s).rcv == s.rcv
    ensures ToEstablished(s) == ToEstablished(t) <==> s == t
  {
  }

  /** The field values of the transmute test: every send variable survives. */
  lemma TransmuteExample()
    ensures var sr := SynRecv(SendSequenceSpace(true, 10, 20, 30, 40, 50, 60),
                              ReceiveSequenceSpace(true, 70, 80, 90));
      var tr := ToEstablished(sr);
      tr.snd.up && tr.snd.wnd == 10 && tr.snd.una == 20 && tr.snd.nxt == 30 &&
      tr.snd.wl1 == 40 && tr.snd.wl2 == 50 && tr.snd.iss == 60
  {
  }
}
