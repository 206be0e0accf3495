/** The endpoint's state diagram, written state by state as a protocol description would, and that the
    endpoint, whose code goes flag by flag, follows it. Flags are written as numbers here. */
module TcpDiagram {
  import opened Words
  import opened TcpEndpoints

  /** What becomes of the acknowledgement number. */
  datatype Acknowledges = Nothing | TheirSyn | TheirFin | TheirData

  /** The next state, the flags of the segments sent, and whether the handler is asked. */
  datatype Cell = Cell(next: State, sends: seq<bv8>, asks: bool, takes: Acknowledges)

  /** The facts about a segment that the diagram looks at. */
  datatype Arrival = Arrival(syn: bool, ack: bool, fin: bool, onlyAck: bool, inOrder: bool, accepted: bool)

  function Stay(st: State): Cell { Cell(st, [], false, Nothing) }

  function Refuse(st: State): Cell { Cell(st, [4], false, Nothing) }

  /** Data is offered to the handler if it is the data awaited, and acknowledged if the handler takes it. */
  function Data(st: State, a: Arrival): Cell {
    if !a.inOrder then Refuse(st)
    else if a.accepted then Cell(st, [16], true, TheirData)
    else Cell(st, [4], true, Nothing)
  }

  /** No SYN, no FIN: a bare acknowledgement is ignored, everything else is data. */
  function Plain(st: State, a: Arrival): Cell { if a.onlyAck then Stay(st) else Data(st, a) }

  function Diagram(st: State, a: Arrival): Cell {
    match st
    case CLOSED => Stay(CLOSED)
    case LISTEN =>
      if a.syn && !a.ack && !a.fin then Cell(SYN_RECEIVED, [18], false, TheirSyn)
      else if a.syn || a.fin then Refuse(st)
      else Plain(st, a)
    case SYN_SENT =>
      if a.syn && a.ack && !a.fin then Cell(ESTABLISHED, [16], false, TheirSyn)
      else if a.syn || a.fin then Refuse(st)
      else Plain(st, a)
    case SYN_RECEIVED =>
      if a.syn || a.fin then Refuse(st)
      else if a.ack then Stay(ESTABLISHED)
      else Data(st, a)
    case ESTABLISHED =>
      if a.syn then Refuse(st)
      else if a.fin then Cell(CLOSE_WAIT, [16, 17], false, TheirFin)
      else Plain(st, a)
    case FIN_WAIT1 =>
      if a.syn then Refuse(st)
      else if a.fin then Cell(CLOSED, [16], false, TheirFin)
      else if a.ack then Stay(FIN_WAIT2)
      else Data(st, a)
    case FIN_WAIT2 =>
      if a.syn then Refuse(st)
      else if a.fin then Cell(CLOSED, [16], false, TheirFin)
      else Plain(st, a)
    case CLOSE_WAIT =>
      if a.syn then Refuse(st)
      else if a.fin || a.ack then Stay(CLOSED)
      else Data(st, a)
    case CLOSING => if a.syn || a.fin then Refuse(st) else Plain(st, a)
    case TIME_WAIT => if a.syn || a.fin then Refuse(st) else Plain(st, a)
  }

  function ArrivalOf(s: Socket, m: Segment, answer: bool): Arrival {
    Arrival(m.flags & 2 != 0, m.flags & 16 != 0, m.flags & 1 != 0, m.flags == 16,
            m.seqNo == s.acknowledgementNumber, answer)
  }

  /** The cell for a segment: a RST closes whatever the state. */
  function CellFor(s: Socket, m: Segment, answer: bool): Cell {
    if m.flags & 4 != 0 then Stay(CLOSED) else Diagram(s.state, ArrivalOf(s, m, answer))
  }

  /** The socket after the cell: a listening socket that takes a SYN is aimed at its sender and numbered. */
  function After(s: Socket, m: Segment, c: Cell): Socket {
    var ackNo := match c.takes
      case Nothing => s.acknowledgementNumber
      case TheirSyn => Wrap(m.seqNo + 1)
      case TheirFin => Wrap(s.acknowledgementNumber + 1)
      case TheirData => Wrap(s.acknowledgementNumber + AckAdvance(m));
    var t := s.(state := c.next, acknowledgementNumber := ackNo);
    if c.takes != TheirSyn then t
    else if c.next == SYN_RECEIVED then
      t.(remotePort := m.srcPort, remoteIP := m.srcIP, sequenceNumber := 0xBEEF_CAFF)
    else t.(sequenceNumber := Wrap(s.sequenceNumber + 1))
  }

  /** A bare segment of socket t; a SYN is numbered before its own place in the sequence. */
  function Bare(t: Socket, flags: bv8): Segment {
    Segment(t.localIP, t.remoteIP, t.localPort, t.remotePort,
            if flags & 2 != 0 then 0xBEEF_CAFE else t.sequenceNumber, t.acknowledgementNumber, 6, flags, [])
  }

  function AllBare(t: Socket, sends: seq<bv8>): (ms: seq<Segment>)
    ensures |ms| == |sends| && forall i :: 0 <= i < |ms| ==> ms[i] == Bare(t, sends[i])
  {
    seq(|sends|, i requires 0 <= i < |sends| => Bare(t, sends[i]))
  }

  /** The reaction is the one the cell describes: its socket, its segments in their order, and the handler
      asked just when it says so. */
  ghost predicate Does(s: Socket, m: Segment, r: Reaction, c: Cell) {
    && r.sock == After(s, m, c)
    && r.out == AllBare(r.sock, c.sends)
    && r.handed == if c.asks then [m.payload] else []
  }

  /** For every socket, segment and answer, the endpoint does exactly what the diagram's cell says. */
  lemma FollowsDiagram(s: Socket, m: Segment, answer: bool)
    ensures Does(s, m, React(s, m, answer), CellFor(s, m, answer))
  {
    var f, a := m.flags, ArrivalOf(s, m, answer);
    RstAndAck(f);
    if !(f & RST != 0) && s.state != CLOSED {
      FlagCases(f);
      if a.syn || a.fin { ControlFollows(s, m, answer, a); } else { DataFollows(s, m, answer); }
    }
  }

  lemma ControlFollows(s: Socket, m: Segment, answer: bool, a: Arrival)
    requires s.state != CLOSED && (a.syn || a.fin)
    ensures a.syn && !a.ack && !a.fin ==> Does(s, m, OnSyn(s, m), Diagram(s.state, a))
    ensures a.syn && a.ack && !a.fin ==> Does(s, m, OnSynAck(s, m), Diagram(s.state, a))
    ensures a.syn && a.fin ==> Does(s, m, Reset(s, []), Diagram(s.state, a))
    ensures !a.syn && a.fin ==> Does(s, m, OnFin(s), Diagram(s.state, a))
  {
  }

  lemma DataFollows(s: Socket, m: Segment, answer: bool)
    requires s.state != CLOSED && m.flags & 2 == 0 && m.flags & 1 == 0
    ensures var c := Diagram(s.state, ArrivalOf(s, m, answer));
            if m.flags & 16 != 0 then Does(s, m, OnAck(s, m, answer), c) else Does(s, m, OnData(s, m, answer), c)
  {
    RstAndAck(m.flags);
  }

  lemma RstAndAck(f: bv8)
    ensures (f & RST != 0 <==> f & 4 != 0) && (f == ACK <==> f == 16) && (f & 16 == 0 ==> f != 16)
  {
  }

  /** The code compares three flags at once. */
  lemma FlagCases(f: bv8)
    ensures var g := f & (SYN | ACK | FIN); var syn, ack, fin := f & 2 != 0, f & 16 != 0, f & 1 != 0;
            && (g == SYN <==> syn && !ack && !fin) && (g == SYN | ACK <==> syn && ack && !fin)
            && (g == SYN | FIN || g == SYN | FIN | ACK <==> syn && fin)
            && (g == FIN || g == FIN | ACK <==> !syn && fin)
            && (g == ACK <==> !syn && ack && !fin)
  {
  }
}
