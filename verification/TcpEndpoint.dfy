/** One TCP socket of src/net/tcp.cpp as a value, and its reaction to a received segment. */
module TcpEndpoints {
  import opened Words

  datatype State = CLOSED | LISTEN | SYN_SENT | SYN_RECEIVED | ESTABLISHED
                 | FIN_WAIT1 | FIN_WAIT2 | CLOSING | TIME_WAIT | CLOSE_WAIT

  const FIN: bv8 := 1
  const SYN: bv8 := 2
  const RST: bv8 := 4
  const PSH: bv8 := 8
  const ACK: bv8 := 16

  /** The initial sequence number both ends use. */
  const ISS: Word := 0xBEEF_CAFE

  /** The header this code writes is six words long. */
  const HEADER_WORDS := 6

  datatype Socket = Socket(localIP: Word, localPort: Half, remoteIP: Word, remotePort: Half,
                           sequenceNumber: Word, acknowledgementNumber: Word, state: State)

  /** A segment with its numbers in host order; payload is everything behind the header. */
  datatype Segment = Segment(srcIP: Word, dstIP: Word, srcPort: Half, dstPort: Half,
                             seqNo: Word, ackNo: Word, headerWords: nat, flags: bv8, payload: seq<Byte>)

  // ----- sending

  function Emit(s: Socket, flags: bv8, data: seq<Byte>): Segment {
    Segment(s.localIP, s.remoteIP, s.localPort, s.remotePort, s.sequenceNumber, s.acknowledgementNumber,
            HEADER_WORDS, flags, data)
  }

  function Advanced(s: Socket, n: int): Socket { s.(sequenceNumber := Wrap(s.sequenceNumber + n)) }

  function Acked(s: Socket, n: int): Socket { s.(acknowledgementNumber := Wrap(s.acknowledgementNumber + n)) }

  // ----- receiving

  /** The lookup condition of the provider's loop. */
  predicate Matches(s: Socket, m: Segment) {
    && s.localPort == m.dstPort && s.localIP == m.dstIP
    && ((s.state == LISTEN && m.flags & (SYN | ACK) == SYN) || (s.remotePort == m.srcPort && s.remoteIP == m.srcIP))
  }

  /** The segment is for the socket's own address and port. */
  predicate SentTo(s: Socket, m: Segment) { m.dstIP == s.localIP && m.dstPort == s.localPort }

  /** The segment travels on the socket's connection: all four addresses agree. */
  predicate OnConnection(s: Socket, m: Segment) {
    SentTo(s, m) && m.srcIP == s.remoteIP && m.srcPort == s.remotePort
  }

  /** The socket waits for connections at the segment's destination, and the segment asks for one. */
  predicate WouldOpen(s: Socket, m: Segment) {
    s.state == LISTEN && SentTo(s, m) && m.flags & 2 != 0 && m.flags & 16 == 0
  }

  /** The lookup accepts just these two. */
  lemma MatchesWhen(s: Socket, m: Segment)
    ensures Matches(s, m) <==> OnConnection(s, m) || WouldOpen(s, m)
  {
    var f := m.flags;
    assert f & (SYN | ACK) == SYN <==> f & 2 != 0 && f & 16 == 0;
  }

  /** Data without its trailing zero bytes: link-layer padding cannot be told from zeros that were sent. */
  function Strip(d: seq<Byte>): (r: seq<Byte>)
    ensures r <= d && (r != [] ==> r[|r| - 1] != 0)
    ensures forall i :: |r| <= i < |d| ==> d[i] == 0
  {
    if d == [] || d[|d| - 1] != 0 then d else Strip(d[..|d| - 1])
  }

  /** How far the acknowledgement moves: past the last non-zero byte or, if there is none, back by a
      header less one, because the loop's variable then still holds 0. */
  function AckAdvance(m: Segment): int {
    if Strip(m.payload) == [] then 1 - 4 * m.headerWords else |Strip(m.payload)|
  }

  /** The socket afterwards, the segments sent in order, and the data handed to the handler, if any. */
  datatype Reaction = Reaction(sock: Socket, out: seq<Segment>, handed: seq<seq<Byte>>)

  function Reset(s: Socket, handed: seq<seq<Byte>>): Reaction { Reaction(s, [Emit(s, RST, [])], handed) }

  function OnSyn(s: Socket, m: Segment): Reaction {
    if s.state == LISTEN then
      var t := s.(state := SYN_RECEIVED, remotePort := m.srcPort, remoteIP := m.srcIP,
                  acknowledgementNumber := Wrap(m.seqNo + 1), sequenceNumber := ISS);
      Reaction(Advanced(t, 1), [Emit(t, SYN | ACK, [])], [])
    else Reset(s, [])
  }

  function OnSynAck(s: Socket, m: Segment): Reaction {
    if s.state == SYN_SENT then
      var t := Advanced(s.(state := ESTABLISHED, acknowledgementNumber := Wrap(m.seqNo + 1)), 1);
      Reaction(t, [Emit(t, ACK, [])], [])
    else Reset(s, [])
  }

  function OnFin(s: Socket): Reaction {
    if s.state == ESTABLISHED then
      var t := Acked(s.(state := CLOSE_WAIT), 1);
      Reaction(t, [Emit(t, ACK, []), Emit(t, FIN | ACK, [])], [])
    else if s.state == CLOSE_WAIT then
      Reaction(s.(state := CLOSED), [], [])
    else if s.state == FIN_WAIT1 || s.state == FIN_WAIT2 then
      var t := Acked(s.(state := CLOSED), 1);
      Reaction(t, [Emit(t, ACK, [])], [])
    else Reset(s, [])
  }

  /** The default branch: data in sequence goes to the handler, whose answer decides between
      acknowledging and resetting; anything else is reset. */
  function OnData(s: Socket, m: Segment, answer: bool): Reaction {
    if m.seqNo == s.acknowledgementNumber then
      if answer then var t := Acked(s, AckAdvance(m)); Reaction(t, [Emit(t, ACK, [])], [m.payload])
      else Reset(s, [m.payload])
    else Reset(s, [])
  }

  function OnAck(s: Socket, m: Segment, answer: bool): Reaction {
    if s.state == SYN_RECEIVED then Reaction(s.(state := ESTABLISHED), [], [])
    else if s.state == FIN_WAIT1 then Reaction(s.(state := FIN_WAIT2), [], [])
    else if s.state == CLOSE_WAIT then Reaction(s.(state := CLOSED), [], [])
    else if m.flags == ACK then Reaction(s, [], [])
    else OnData(s, m, answer)
  }

  /** What a matching socket does with a segment; answer is the handler's, should it be asked. */
  function React(s: Socket, m: Segment, answer: bool): Reaction {
    if m.flags & RST != 0 || s.state == CLOSED then Reaction(s.(state := CLOSED), [], [])
    else
      var f := m.flags & (SYN | ACK | FIN);
      if f == SYN then OnSyn(s, m)
      else if f == SYN | ACK then OnSynAck(s, m)
      else if f == SYN | FIN || f == SYN | FIN | ACK then Reset(s, [])
      else if f == FIN || f == FIN | ACK then OnFin(s)
      else if f == ACK then OnAck(s, m, answer)
      else OnData(s, m, answer)
  }

  // ----- laws of one reaction

  /** How far a connection has come. */
  function Rank(s: State): nat {
    match s
    case LISTEN => 0
    case SYN_SENT => 0
    case SYN_RECEIVED => 1
    case ESTABLISHED => 2
    case FIN_WAIT1 => 3
    case FIN_WAIT2 => 4
    case CLOSE_WAIT => 4
    case CLOSING => 4
    case TIME_WAIT => 4
    case CLOSED => 5
  }

  /** Whatever arrives, a connection only moves forward, and it becomes ESTABLISHED only from
      SYN_RECEIVED on an acknowledgement or from SYN_SENT on a SYN|ACK. */
  lemma OnlyForward(s: Socket, m: Segment, answer: bool)
    ensures var t := React(s, m, answer).sock;
            && Rank(s.state) <= Rank(t.state) && (Rank(s.state) == Rank(t.state) ==> t.state == s.state)
            && (t.state == ESTABLISHED && s.state != ESTABLISHED ==>
                  || (s.state == SYN_RECEIVED && m.flags & (SYN | ACK | FIN) == ACK)
                  || (s.state == SYN_SENT && m.flags & (SYN | ACK | FIN) == SYN | ACK))
            && (s.state == CLOSED ==> t == s && React(s, m, answer).out == [])
  {
  }

  function Zeros(n: nat): (z: seq<Byte>)
    ensures |z| == n && forall i :: 0 <= i < n ==> z[i] == 0
  {
    seq(n, i => 0)
  }

  /** Some byte is not zero. */
  predicate Meaningful(d: seq<Byte>) { exists i :: 0 <= i < |d| && d[i] != 0 }

  lemma StripUnique(d: seq<Byte>, r: seq<Byte>)
    requires r <= d && (r != [] ==> r[|r| - 1] != 0)
    requires forall i :: |r| <= i < |d| ==> d[i] == 0
    ensures Strip(d) == r
  {
  }

  /** Padding does not change what is left after stripping. */
  lemma StripPadded(d: seq<Byte>, pad: nat)
    ensures Strip(d + Zeros(pad)) == Strip(d)
    ensures Strip(d) != [] <==> Meaningful(d)
  {
    var r := Strip(d);
    assert d + Zeros(pad) == r + (d[|r|..] + Zeros(pad));
    StripUnique(d + Zeros(pad), r);
  }

  /** Accepting a segment moves the acknowledgement by the length the peer sent exactly when that
      data ends in a non-zero byte, however it was padded on the way. */
  lemma AckCountsPayloadExactlyWhen(m: Segment, data: seq<Byte>, pad: nat)
    requires m.payload == data + Zeros(pad) && m.headerWords >= 1
    ensures AckAdvance(m) == |data| <==> data != [] && data[|data| - 1] != 0
  {
    StripPadded(data, pad);
    if data != [] && data[|data| - 1] != 0 { StripUnique(data, data); }
  }

  /** All-zero data moves the acknowledgement back, by one less than the length of its header in bytes. */
  lemma ZeroDataMovesBack(m: Segment)
    requires !Meaningful(m.payload)
    ensures AckAdvance(m) == -(4 * m.headerWords - 1)
  {
    StripUnique(m.payload, []);
  }
}
