/** The dispatch loop: a table from connection identity to the connection's
    current state, and the processing of one received frame against it. An
    existing entry is taken out of the table before its transition is tried
    and only a successful transition puts one back. */
module Dispatch {
  import opened Prelude
  import opened Tcp
  import opened State
  import opened Handshake

  /** What the table stores: a connection past its SYN-ACK. There is no
      Listen variant, so the table never holds an unanswered connection. */
  datatype ConnectionWrapper =
    | SynRecvConn(synRecv: Connection<SynRecv>)
    | EstablishedConn(established: Connection<Established>)
  {
    function Id(): ConnectionID
    {
      match this
      case SynRecvConn(c) => c.id
      case EstablishedConn(c) => c.id
    }

    function Snd(): SendSequenceSpace
    {
      match this
      case SynRecvConn(c) => c.state.snd
      case EstablishedConn(c) => c.state.snd
    }

    function Rcv(): ReceiveSequenceSpace
    {
      match this
      case SynRecvConn(c) => c.state.rcv
      case EstablishedConn(c) => c.state.rcv
    }
  }

  type Table = map<ConnectionID, ConnectionWrapper>

  /** What one pass of the loop body did. */
  datatype Outcome =
    | Skipped(parseError: ParseError)     // the frame is not a TCP segment: `continue`
    | Opened                              // SYN answered, SynRecv entry inserted
    | Advanced                            // SynRecv entry replaced by Established
    | Dropped(error: HandshakeError)      // the final ACK was rejected: entry lost
    | InvalidState                        // the entry was already Established: entry lost
    | Aborted(error: HandshakeError)      // a new identity failed its SYN checks: the loop ends

  datatype StepResult = StepResult(table: Table, outcome: Outcome)

  /** `after` differs from `before` at most in the entry for `id`. */
  ghost predicate OnlyEntryChanged(before: Table, after: Table, id: ConnectionID)
  {
    && (forall k :: k != id ==> (k in after <==> k in before))
    && (forall k :: k != id && k in before ==> after[k] == before[k])
  }

  /** The loop body, as a function of the table and the received frame. */
  function Dispatch(table: Table, frame: Frame): (r: StepResult)
    ensures ParseConnectionId(frame).Err? ==> r == StepResult(table, Skipped(ParseConnectionId(frame).error))
    ensures ParseConnectionId(frame).Ok? ==> OnlyEntryChanged(table, r.table, ParseConnectionId(frame).value.0)
    ensures r.outcome.Aborted? ==> r.table == table
    ensures r.outcome == Opened ==>
      ParseConnectionId(frame).Ok? && ParseConnectionId(frame).value.0 !in table &&
      ParseConnectionId(frame).value.0 in r.table && r.table[ParseConnectionId(frame).value.0].SynRecvConn?
  {
    match ParseConnectionId(frame)
    case Err(e) => StepResult(table, Skipped(e))
    case Ok((id, ipHeader, tcpHeader)) =>
      if id !in table then
        var handshake := Connection(id, Listen(ipHeader, tcpHeader));
        match PreflightChecks(handshake)
        case Err(e) => StepResult(table, Aborted(e))
        case Ok(_) =>
          var next := Connection(id, NextState(handshake, ISS, DEFAULT_WINDOW_SIZE));
          StepResult(table[id := SynRecvConn(next)], Opened)
      else
        var rest := table - {id};
        match table[id]
        case SynRecvConn(conn) =>
          (match CheckAck(conn, tcpHeader)
           case Ok(est) => StepResult(rest[id := EstablishedConn(est)], Advanced)
           case Err(e) => StepResult(rest, Dropped(e)))
        case EstablishedConn(_) => StepResult(rest, InvalidState)
  }

  /** A segment for an unknown identity: a valid SYN inserts a SynRecv entry
      built from it; anything else ends the loop and leaves the table alone. */
  lemma DispatchNewIdentity(table: Table, frame: Frame)
    requires ParseConnectionId(frame).Ok? && ParseConnectionId(frame).value.0 !in table
    ensures var (id, ipHeader, tcpHeader) := ParseConnectionId(frame).value;
      var handshake := Connection(id, Listen(ipHeader, tcpHeader));
      var r := Dispatch(table, frame);
      && (PreflightChecks(handshake).Ok? ==>
            r.outcome == Opened &&
            r.table == table[id := SynRecvConn(Connection(id, NextState(handshake, ISS, DEFAULT_WINDOW_SIZE)))])
      && (PreflightChecks(handshake).Err? ==> r == StepResult(table, Aborted(PreflightChecks(handshake).error)))
  {
  }

  /** A segment for a SynRecv entry: an acceptable ACK relabels it as
      Established with identical records; any other segment removes it. */
  lemma DispatchSynRecvEntry(table: Table, frame: Frame)
    requires ParseConnectionId(frame).Ok?
    requires var id := ParseConnectionId(frame).value.0; id in table && table[id].SynRecvConn?
    ensures var (id, _, tcpHeader) := ParseConnectionId(frame).value;
      var conn := table[id].synRecv;
      var r := Dispatch(table, frame);
      && (CheckAck(conn, tcpHeader).Ok? ==>
            r.outcome == Advanced && id in r.table && r.table[id].EstablishedConn? &&
            r.table[id].Id() == conn.id &&
            r.table[id].Snd() == conn.state.snd && r.table[id].Rcv() == conn.state.rcv)
      && (CheckAck(conn, tcpHeader).Err? ==>
            id !in r.table && r.outcome == Dropped(CheckAck(conn, tcpHeader).error))
  {
  }

  /** Any segment for an Established entry removes it. */
  lemma DispatchEstablishedEntry(table: Table, frame: Frame)
    requires ParseConnectionId(frame).Ok?
    requires var id := ParseConnectionId(frame).value.0; id in table && table[id].EstablishedConn?
    ensures var id := ParseConnectionId(frame).value.0;
      id !in Dispatch(table, frame).table && Dispatch(table, frame).outcome == InvalidState
  {
  }

  // ---------------------------------------------------------------------
  // The table invariant

  /** The send record every connection gets from its SYN-ACK. */
  const INITIAL_SND: SendSequenceSpace :=
    SendSequenceSpace(up := false, wnd := DEFAULT_WINDOW_SIZE, una := ISS, nxt := WrappingAdd(ISS, 1), wl1 := 0, wl2 := 0, iss := ISS)

  /** Each entry sits under its own identity, carries the initial send record
      and expects the octet right after the peer's SYN. */
  predicate TableInvariant(table: Table)
  {
    forall k :: k in table ==>
      table[k].Id() == k && table[k].Snd() == INITIAL_SND && Dist(table[k].Rcv().irs, table[k].Rcv().nxt) == 1
  }

  lemma DispatchPreservesInvariant(table: Table, frame: Frame)
    requires TableInvariant(table)
    ensures TableInvariant(Dispatch(table, frame).table)
  {
    var r := Dispatch(table, frame);
    match ParseConnectionId(frame)
    case Err(_) =>
    case Ok((id, ipHeader, tcpHeader)) =>
      forall k | k in r.table
        ensures r.table[k].Id() == k && r.table[k].Snd() == INITIAL_SND
        ensures Dist(r.table[k].Rcv().irs, r.table[k].Rcv().nxt) == 1
      {
        if k != id {
          assert r.table[k] == table[k];
        }
      }
  }

  /** On every state the table can hold, the send-window check as written
      coincides with the modular interval (SND.UNA, SND.NXT]. */
  lemma ReachableAckCheckIsModular(table: Table, id: ConnectionID, ack: u32)
    requires TableInvariant(table) && id in table
    ensures IsAckInWindow(table[id].Snd(), ack) <==>
      0 < Dist(table[id].Snd().una, ack) <= Dist(table[id].Snd().una, table[id].Snd().nxt)
  {
    AckInWindowAgreesUnwrapped(table[id].Snd(), ack);
  }

  // ---------------------------------------------------------------------
  // Several passes of the loop

  /** A SYN for a new identity followed by the matching bare ACK leaves that
      identity Established, with the records its SYN produced. */
  lemma FullHandshake(table: Table, syn: Frame, ack: Frame)
    requires ParseConnectionId(syn).Ok? && ParseConnectionId(ack).Ok?
    requires var (id, _, synTcp) := ParseConnectionId(syn).value;
      id !in table && synTcp.syn && !synTcp.ack
    requires var (id, _, synTcp) := ParseConnectionId(syn).value;
      var (ackId, _, ackTcp) := ParseConnectionId(ack).value;
      ackId == id && ackTcp.ack && ackTcp.ackNum == WrappingAdd(ISS, 1) &&
      ackTcp.seqNum == WrappingAdd(synTcp.seqNum, 1)
    ensures var (id, ipHeader, synTcp) := ParseConnectionId(syn).value;
      var s := NextState(Connection(id, Listen(ipHeader, synTcp)), ISS, DEFAULT_WINDOW_SIZE);
      var r1 := Dispatch(table, syn);
      var r2 := Dispatch(r1.table, ack);
      r1.outcome == Opened && r2.outcome == Advanced &&
      r2.table == table[id := EstablishedConn(Connection(id, ToEstablished(s)))]
  {
    var (id, ipHeader, synTcp) := ParseConnectionId(syn).value;
    var ackTcp := ParseConnectionId(ack).value.2;
    var listen := Connection(id, Listen(ipHeader, synTcp));
    var s := NextState(listen, ISS, DEFAULT_WINDOW_SIZE);
    HandshakeCompletes(listen, ackTcp);
    var r1 := Dispatch(table, syn);
    assert r1.table == table[id := SynRecvConn(Connection(id, s))];
    assert r1.table - {id} == table;
  }

  /** Once an entry is lost, the peer's next ACK-bearing segment for that
      identity is treated as an opening segment, fails the preflight checks
      and ends the loop. */
  lemma LostEntryThenAckAborts(table: Table, f: Frame, g: Frame)
    requires ParseConnectionId(f).Ok? && ParseConnectionId(g).Ok?
    requires ParseConnectionId(g).value.0 == ParseConnectionId(f).value.0
    requires ParseConnectionId(g).value.2.ack
    requires Dispatch(table, f).outcome.Dropped? || Dispatch(table, f).outcome.InvalidState?
    ensures Dispatch(Dispatch(table, f).table, g) == StepResult(Dispatch(table, f).table, Aborted(AckOnListen))
  {
    var id := ParseConnectionId(f).value.0;
    assert id !in Dispatch(table, f).table;
  }

  datatype ServeResult = ServeResult(table: Table, aborted: Option<HandshakeError>)

  /** Some frame of the run parses to a segment of connection `id`. */
  predicate Mentions(frames: seq<Frame>, id: ConnectionID)
    decreases |frames|
  {
    && frames != []
    && ((ParseConnectionId(frames[0]).Ok? && ParseConnectionId(frames[0]).value.0 == id) || Mentions(frames[1..], id))
  }

  /** The loop over a finite run of received frames: each is dispatched in
      turn until one aborts the loop. A connection no frame of the run
      belongs to keeps its entry, or its absence, untouched. */
  function Serve(table: Table, frames: seq<Frame>): (r: ServeResult)
    ensures forall k {:trigger Mentions(frames, k)} :: !Mentions(frames, k) ==> (k in r.table <==> k in table)
    ensures forall k {:trigger Mentions(frames, k)} :: !Mentions(frames, k) && k in table ==> r.table[k] == table[k]
    decreases |frames|
  {
    if frames == [] then ServeResult(table, None)
    else
      var step := Dispatch(table, frames[0]);
      if step.outcome.Aborted? then ServeResult(step.table, Some(step.outcome.error))
      else Serve(step.table, frames[1..])
  }

  /** The connections a run opens, in order: for each pass that answered a
      SYN, the new entry's identity and its RCV.NXT. Each is a connection
      some frame of the run belongs to. */
  function ServeOpened(table: Table, frames: seq<Frame>): (answered: seq<(ConnectionID, u32)>)
    ensures |answered| <= |frames|
    ensures forall j :: 0 <= j < |answered| ==> Mentions(frames, answered[j].0)
    decreases |frames|
  {
    if frames == [] then []
    else
      var step := Dispatch(table, frames[0]);
      if step.outcome.Aborted? then []
      else if step.outcome == Opened then
        var id := ParseConnectionId(frames[0]).value.0;
        [(id, step.table[id].Rcv().nxt)] + ServeOpened(step.table, frames[1..])
      else ServeOpened(step.table, frames[1..])
  }

  /** One pass of the loop that does not abort: the rest of the run starts
      from the table it leaves, after the SYN-ACK it answered, if any. */
  lemma ServeStep(table: Table, frames: seq<Frame>)
    requires frames != [] && !Dispatch(table, frames[0]).outcome.Aborted?
    ensures var step := Dispatch(table, frames[0]);
      && Serve(table, frames) == Serve(step.table, frames[1..])
      && (step.outcome == Opened ==>
            var id := ParseConnectionId(frames[0]).value.0;
            ServeOpened(table, frames) == [(id, step.table[id].Rcv().nxt)] + ServeOpened(step.table, frames[1..]))
      && (step.outcome != Opened ==> ServeOpened(table, frames) == ServeOpened(step.table, frames[1..]))
  {
  }

  /** A pass that aborts ends the run: the table is left as it was and no
      later frame is answered. */
  lemma ServeAborts(table: Table, frames: seq<Frame>)
    requires frames != [] && Dispatch(table, frames[0]).outcome.Aborted?
    ensures Serve(table, frames) == ServeResult(table, Some(Dispatch(table, frames[0]).outcome.error))
    ensures ServeOpened(table, frames) == []
  {
  }

  /** The table invariant holds after any run of the loop. */
  lemma {:induction false} ServePreservesInvariant(table: Table, frames: seq<Frame>)
    requires TableInvariant(table)
    ensures TableInvariant(Serve(table, frames).table)
    decreases |frames|
  {
    if frames != [] {
      DispatchPreservesInvariant(table, frames[0]);
      var step := Dispatch(table, frames[0]);
      if !step.outcome.Aborted? {
        ServePreservesInvariant(step.table, frames[1..]);
      }
    }
  }

  /** The connection table the loop owns. */
  class ConnectionTable {
    var connections: Table

    constructor ()
      ensures connections == map[] && TableInvariant(connections)
    {
      connections := map[];
    }

    /** One pass of the loop body: parse, look up, transition, reinsert.
        Returns the SYN-ACK to send, if one was built. */
    method Step(frame: Frame) returns (outcome: Outcome, reply: Option<Segment>)
      requires TableInvariant(connections)
      modifies this
      ensures StepResult(connections, outcome) == Dispatch(old(connections), frame)
      ensures TableInvariant(connections)
      ensures reply.Some? <==> outcome == Opened
      ensures reply.Some? ==>
        var id := ParseConnectionId(frame).value.0;
        id in connections && connections[id].SynRecvConn? &&
        IsSynAckFor(reply.value, id, connections[id].Rcv().nxt)
    {
      DispatchPreservesInvariant(connections, frame);
      reply := None;
      var parsed := ParseConnectionId(frame);
      if parsed.Err? {
        outcome := Skipped(parsed.error);
        return;
      }
      var (id, ipHeader, tcpHeader) := parsed.value;

      if id !in connections {
        var handshake := Connection(id, Listen(ipHeader, tcpHeader));
        var next := SynAck(handshake);
        if next.Err? {
          outcome := Aborted(next.error);
          return;
        }
        connections := connections[id := SynRecvConn(next.value.0)];
        outcome, reply := Opened, Some(next.value.1);
      } else {
        var entry := connections[id];
        connections := connections - {id};
        match entry {
          case SynRecvConn(conn) =>
            var checked := CheckAck(conn, tcpHeader);
            if checked.Ok? {
              connections := connections[id := EstablishedConn(checked.value)];
              outcome := Advanced;
            } else {
              outcome := Dropped(checked.error);
            }
          case EstablishedConn(_) =>
            outcome := InvalidState;
        }
      }
    }

    /** The loop over the frames the interface delivers, stopping when a
        pass aborts. Returns the abort's error, if any, and the SYN-ACKs sent. */
    method Run(frames: seq<Frame>) returns (aborted: Option<HandshakeError>, sent: seq<Segment>)
      requires TableInvariant(connections)
      modifies this
      ensures Serve(old(connections), frames) == ServeResult(connections, aborted)
      ensures TableInvariant(connections)
      ensures |sent| == |ServeOpened(old(connections), frames)|
      ensures forall j :: 0 <= j < |sent| ==>
        IsSynAckFor(sent[j], ServeOpened(old(connections), frames)[j].0, ServeOpened(old(connections), frames)[j].1)
    {
      sent := [];
      ghost var answered: seq<(ConnectionID, u32)> := [];
      var i := 0;
      while i < |frames|
        invariant 0 <= i <= |frames|
        invariant TableInvariant(connections)
        invariant Serve(old(connections), frames) == Serve(connections, frames[i..])
        invariant ServeOpened(old(connections), frames) == answered + ServeOpened(connections, frames[i..])
        invariant |sent| == |answered|
        invariant forall j :: 0 <= j < |sent| ==> IsSynAckFor(sent[j], answered[j].0, answered[j].1)
      {
        assert frames[i..][0] == frames[i] && frames[i..][1..] == frames[i + 1..];
        ghost var before := connections;
        var outcome, reply := Step(frames[i]);
        if outcome.Aborted? {
          ServeAborts(before, frames[i..]);
          return Some(outcome.error), sent;
        }
        ServeStep(before, frames[i..]);
        if reply.Some? {
          var id := ParseConnectionId(frames[i]).value.0;
          sent := sent + [reply.value];
          ghost var x := (id, connections[id].Rcv().nxt);
          assert answered + ([x] + ServeOpened(connections, frames[i + 1..])) == (answered + [x]) + ServeOpened(connections, frames[i + 1..]);
          answered := answered + [x];
        }
        i := i + 1;
      }
      assert frames[i..] == [];
      aborted := None;
    }
  }
}
