# mini-tcp in Dafny

A model of a user-space TCP endpoint that answers the server side of the
three-way handshake (section 3.4 of RFC 793) over raw IPv4 datagrams. It has
three parts:

- **Sequence-space arithmetic** (module `Tcp`, `tcp.dfy`). It covers the
  wrapping comparison `a <= b < c`, the acknowledgment check
  SND.UNA < SEG.ACK =< SND.NXT and the segment acceptability test of
  section 3.3 of RFC 793. These are stated over 32-bit sequence numbers.
  Each one is related to forward distances `(y - x) mod 2^32` (`Prelude.Dist`).
- **The handshake state machine** (modules `State` and `Handshake`). It
  models the typestates Listen, SynRecv and Established, and the
  preflight checks on a SYN. It builds the transmission control block as
  in the LISTEN case of section 3.9 of RFC 793, constructs the SYN-ACK and
  validates the final ACK. The SYN-ACK is a returned `Segment` value, not a
  send.
- **The dispatch loop** (module `Dispatch`). The class `ConnectionTable`
  owns the `map` from connection identity to `ConnectionWrapper`. `Step`
  is one pass of the loop body and `Run` is the loop over a finite run of
  received frames. Both are proved against the pure `Dispatch` and
  `Serve`.

The model follows the code's actual behaviour:

- An existing entry is removed before its transition is attempted and is
  lost if the transition fails.
- Any segment that reaches an Established entry removes that entry.
- A new identity whose opening segment fails the SYN checks ends the loop.
- The table never holds a Listen connection. `ConnectionWrapper` has only
  SynRecv and Established variants, so this holds by construction.
- `Dispatch.LostEntryThenAckAborts` combines these. After an entry has been
  lost, the peer's next ACK for that identity ends the loop.
- The acknowledgment check is modelled as written. Its third case differs
  from the modular interval once SND.NXT has wrapped below SND.UNA (see
  Findings).
- The send-sequence record stores the endpoint's own advertised window in
  SND.WND, and the receive record stores the peer's window in RCV.WND.
  Section 3.2 of RFC 793 gives these two variables the opposite meanings.
  As a result, the final-ACK check tests the sequence number against the
  window the peer advertised. `Handshake.NextState` keeps this assignment.
- Any ACK-bearing segment for an identity not in the table fails the SYN
  checks and ends the loop, because the loop propagates the error with `?`
  (src/main.rs:39).
- The segment test classifies a segment by whether a payload is present,
  not by SEG.LEN. `Tcp.RecvAgreesWithRfc793` proves it matches the RFC
  table where the two notions coincide. `Tcp.RecvDivergesFromRfc793` states
  exactly the inputs where they differ.

Fixed-width integers are subset types of `int` (`u8`, `u16`, `u32`), and
wrapping addition and subtraction are written out modulo 2^32. Headers are
abstract records holding only the fields the endpoint reads or writes. A
received buffer is a `Frame`: the external codec's decoding of its IPv4
header and of the TCP header after it. `Connection::new` and
`Connection::from` are the datatype constructor `Connection(id, Listen(ip, tcp))`.

## Model

| member | source | states |
|---|---|---|
| `Tcp.ParseConnectionId` | src/tcp/mod.rs:20-38 | A datagram whose IPv4 header does not decode, whose protocol is not 6, or whose TCP header does not decode is rejected, in that order. Otherwise the id is (IP source, TCP source port, IP destination, TCP destination port) and both headers are returned. |
| `Tcp.IsWrappingLteLs` | src/tcp/mod.rs:167-185 | The three-case comparison holds iff the distance from a to b modulo 2^32 is less than the distance from a to c, i.e. walking forward from a reaches b strictly before c. |
| `Tcp.WrappingLteLsEmptyAndStart` | src/tcp/mod.rs:168-185 | The interval from a to a is empty for every b. a lies in the interval from a to c iff a != c. |
| `Tcp.WrappingLteLsSuccessor` | src/tcp/mod.rs:167-185 | For 1 <= k <= 2^31, a+1 lies between a and a+k+1 (with wrapping). |
| `Tcp.IsAckInWindow` | src/tcp/mod.rs:187-207 | When una <= nxt, the acknowledgment check holds iff una < ack <= nxt. When nxt < una, cases 2 and 3 as written together accept every acknowledgment number. |
| `Tcp.AckInWindowBoundaries` | src/tcp/mod.rs:188-207 | With una = 100 and nxt = 200, the check accepts 150 and 200 and rejects 100 and 201. |
| `Tcp.AckInWindowAsWrittenAcceptsOutside` | src/tcp/mod.rs:201-204 | With una = 10 and nxt = 5, the check as written accepts 7, which is outside the modular interval (una, nxt]. |
| `Tcp.IsAckInWindowIntended` | src/tcp/mod.rs:196-204 | The check with case 3 comparing ack against nxt holds exactly on the modular interval (una, nxt]. |
| `Tcp.AckInWindowAgreesUnwrapped` | src/tcp/mod.rs:188-207 | When una <= nxt, the check as written and the intended one decide alike. |
| `Tcp.SegLen` | src/tcp/mod.rs:148-157 | The 32-bit segment length is (payload octets + SYN + FIN) mod 2^32. |
| `Tcp.SegLastSeq` | src/tcp/mod.rs:148-159 | SEG.SEQ + SEG.LEN - 1, computed with wrapping, is the last occupied sequence number modulo 2^32, for every payload length and every combination of SYN and FIN. |
| `Tcp.WindowEdgeIsInRecvWindow` | src/tcp/mod.rs:138-141 | Comparing against the wrapped edge RCV.NXT + RCV.WND is membership in the receive window: distance from RCV.NXT below RCV.WND. |
| `Tcp.IsRecvDataInWindow` | src/tcp/mod.rs:122-165 | With a zero window, a bare header is accepted iff SEG.SEQ = RCV.NXT and a segment with a payload (even an empty one) never is. With an open window, a segment is accepted iff its first octet is in the window, or it has a payload and its last octet is in the window. |
| `Tcp.RecvAgreesWithRfc793` | src/tcp/mod.rs:106-165 | For a bare header without SYN or FIN, or a non-empty payload, the test equals the four-case acceptability table of RFC 793 on SEG.LEN. |
| `Tcp.RecvDivergesFromRfc793` | src/tcp/mod.rs:127-165 | The test and the RFC table, with SEG.LEN counting the payload plus SYN and FIN, disagree iff payload presence does not match SEG.LEN > 0 (a bare header with SYN or FIN, or an empty payload without them) and, with a zero window, SEG.SEQ = RCV.NXT, or, with an open window, SEG.SEQ is outside the window while SEG.SEQ + SEG.LEN - 1 is inside. |
| `State.ToEstablished` | src/tcp/handshake.rs:164-165 | Relabelling SynRecv as Established preserves every send field (up, wnd, una, nxt, wl1, wl2, iss) and every receive field. |
| `State.ToEstablishedPreservesRecords` | src/tcp/state.rs:10-22 | The relabelling keeps both records whole. Two SynRecv states relabel equally iff they are equal (structural equality). |
| `State.TransmuteExample` | src/tcp/state.rs:29-58 | The field values of the transmute test all survive the relabelling. |
| `Handshake.PreflightChecks` | src/tcp/handshake.rs:75-99 | The SYN passes iff it has no ACK and has SYN. An ACK is reported first, a missing SYN second. |
| `Handshake.NextState` | src/tcp/handshake.rs:50-71 | SND.UNA = ISS = iss with one number outstanding (SND.NXT = iss + 1 mod 2^32), SND.WND = wnd, no urgent, WL1 = WL2 = 0. IRS = SEG.SEQ, RCV.NXT one past it, RCV.WND = the peer's window. |
| `Handshake.SynAck` | src/tcp/handshake.rs:101-141 | A failed preflight gives its error and no reply. Otherwise it returns SynRecv under the same id, built with ISS = 0 and window 64240, and a reply with ports and addresses swapped, SEQ = 0, ACK = RCV.NXT, SYN and ACK set, window 64240, TTL 64, protocol 6. |
| `Handshake.SynAckRoutesToPeer` | src/tcp/handshake.rs:111-130 | The SYN-ACK parses back to the reversed identity, whose reversal is the original id. |
| `Handshake.SynAckDetermined` | src/tcp/handshake.rs:111-130 | Two SYN-ACKs for the same identity and RCV.NXT are the same segment: the identity and RCV.NXT fix every header field the endpoint writes. |
| `Handshake.CheckAck` | src/tcp/handshake.rs:147-168 | Accepts iff ACK is set, the acknowledgment passes the send-window check and the segment passes the receive-window check as a bare header. A missing ACK, a failed send-window check and a failed receive-window check give AckMissing, AckNotInWindow and SeqNotInWindow, in that order. On success the id and both records are unchanged. |
| `Handshake.HandshakeCompletes` | src/tcp/handshake.rs:147-167 | After the SYN-ACK for a SYN with sequence s, a bare ACK with acknowledgment 1 and sequence s + 1 is accepted, whatever window the peer advertised. |
| `Handshake.RepeatedSynRejected` | src/tcp/handshake.rs:152-154 | A retransmitted SYN without ACK is rejected by the final-ACK check. |
| `Handshake.OpeningExample` | src/tcp/handshake.rs:50-71 | A SYN with sequence 100 and window 500 gives RCV.NXT = 101, IRS = 100, RCV.WND = 500, SND.UNA = 0, SND.NXT = 1. |
| `Dispatch.Dispatch` | src/main.rs:24-65 | A frame that fails to parse leaves the table unchanged. A step changes at most the entry under the segment's own id. An aborted step leaves the table unchanged. |
| `Dispatch.DispatchNewIdentity` | src/main.rs:35-41 | For an absent id, a valid SYN inserts a SynRecv entry built from it. Any other segment aborts the loop with the preflight error, before any insertion. |
| `Dispatch.DispatchSynRecvEntry` | src/main.rs:50-58 | A SynRecv entry with an acceptable ACK becomes Established with identical id, snd and rcv. With any other segment it is removed. |
| `Dispatch.DispatchEstablishedEntry` | src/main.rs:59-61 | Any segment for an Established entry removes it. |
| `Dispatch.DispatchPreservesInvariant` | src/main.rs:34-65 | Every entry stays under its own id, with the initial send record and RCV.NXT one past IRS. |
| `Dispatch.ReachableAckCheckIsModular` | src/tcp/mod.rs:196-204 | On every table satisfying the invariant, the acknowledgment check as written is exactly the modular interval (SND.UNA, SND.NXT]. |
| `Dispatch.FullHandshake` | src/main.rs:34-65 | A SYN for a new id followed by the matching bare ACK leaves that id Established, with the records its SYN produced. The rest of the table is unchanged. |
| `Dispatch.LostEntryThenAckAborts` | src/main.rs:35-61 | After an entry is lost, the next ACK-bearing segment for that id aborts the loop. |
| `Dispatch.Serve` | src/main.rs:20-66 | Frames are dispatched in order until one aborts. An identity that no frame of the run belongs to keeps its entry, or its absence, unchanged. |
| `Dispatch.ServeOpened` | src/main.rs:35-41 | The connections a run opens, in order, with each new entry's RCV.NXT. There are at most as many as frames, and each belongs to some frame of the run. |
| `Dispatch.ServePreservesInvariant` | src/main.rs:20-66 | The table invariant holds after any run of the loop. |
| `Dispatch.ConnectionTable.constructor` | src/main.rs:17 | The table starts empty, so it satisfies the table invariant. |
| `Dispatch.ConnectionTable.Step` | src/main.rs:21-65 | Removes the entry before the transition and reinserts only on success. It keeps the table invariant. The new table and outcome are those of `Dispatch`. A reply is produced exactly when a SYN opened an entry, and it is the SYN-ACK for that entry's RCV.NXT. |
| `Dispatch.ConnectionTable.Run` | src/main.rs:20-66 | Dispatches frames in order until a step aborts, keeping the table invariant. The final table and abort error are those of `Serve`. The segments sent are exactly one SYN-ACK per connection the run opens, in order, each addressed to that connection's peer and acknowledging its RCV.NXT (`ServeOpened`). |

## Left out

- Byte-level IPv4/TCP decoding and encoding, done by an external codec, is not modelled. A `Frame` carries the codec's decoded headers; `ETH_HEADER_OFFSET` is kept as a constant only.
- The TCP checksum (a call into the codec) is left out. The reply carries no checksum field, and the error path of the checksum call is not modelled.
- Interface I/O is not modelled. The frames received are the parameter of `Run`, and the SYN-ACK is returned rather than sent.
- Failures of receive, serialise or send are not modelled. In the code each of them ends the loop.
- The 1500-byte receive buffer and the unused byte count are not modelled.
- Logging is not modelled.
- Dispatch.ConnectionTable.Run: models a finite prefix of the unbounded loop, because the interface delivers frames forever.
- Tcp.SegLen: the debug-build overflow panic of adding the SYN and FIN bits is modelled as wrapping. A payload from a 1500-byte frame cannot come near 2^32.
- The `unsafe` reinterpretation of SynRecv as Established is modelled as the field-by-field copy `State.ToEstablished`.
- The generic comparison bound of the wrapping comparison is specialised to `u32`.
- Rust lifetimes and borrowed header slices are not modelled.
- The unused interface parameter of the final-ACK check is not modelled.
- Restoring a table entry after a failed transition is not modelled, because the code does not do it. The model keeps the loss.
- Reset segments, retransmission and timers, data transfer after establishment and a varying ISS are not implemented by the code and are not modelled.

## Findings

| source | as written | input that shows it | evidently intended | confidence | as-written member | corrected member |
|---|---|---|---|---|---|---|
| src/tcp/mod.rs:202 | case 3 tests `ack <= snd.una && snd.nxt < snd.una` | una = 10, nxt = 5, ack = 7: accepted, though 7 is outside (10, 5] modulo 2^32 | `ack <= snd.nxt && snd.nxt < snd.una`, as the case comment's order ack, nxt, una says | high; not executed | `Tcp.AckInWindowAsWrittenAcceptsOutside` | `Tcp.IsAckInWindowIntended` |

`Tcp.IsAckInWindowIntended` is the corrected check. The handshake keeps the
check as written. Every table state the loop can reach satisfies
`Dispatch.TableInvariant` (SND.UNA = 0, SND.NXT = 1). The constructor of
`Dispatch.ConnectionTable` establishes it, and `Step` and `Run` keep it.
`Dispatch.ReachableAckCheckIsModular` proves that on such states the check as
written already is the intended interval. So the correction changes no
behaviour of this endpoint.
