/** Two endpoints, one connecting and one listening, joined by a network that may lose, repeat and
    reorder whatever was sent, and may append zero padding. */
module TcpNetworks {
  import opened Words
  import opened TcpEndpoints

  /** An endpoint with its history: the bytes its user sent, the bytes its handler accepted (less
      trailing zeros), and every segment it ever put on the network. */
  datatype Peer = Peer(sock: Socket, sent: seq<Byte>, got: seq<Byte>, out: set<Segment>)

  datatype System = System(x: Peer, y: Peer)

  /** Which peer acts, and how. A delivery picks any segment the other peer ever sent. */
  datatype Action =
    | Send(byX: bool, data: seq<Byte>)
    | Disconnect(byX: bool)
    | Deliver(toX: bool, m: Segment, pad: nat, answer: bool)

  // ----- what one peer does

  function UserSend(p: Peer, data: seq<Byte>): Peer {
    var m := Emit(p.sock, PSH | ACK, data);
    Peer(Advanced(p.sock, |data|), p.sent + data, p.got, p.out + {m})
  }

  function UserDisconnect(p: Peer): Peer {
    var s := p.sock.(state := FIN_WAIT1);
    p.(sock := Advanced(s, 1), out := p.out + {Emit(s, FIN | ACK, [])})
  }

  function ToSet(ms: seq<Segment>): set<Segment> { set m | m in ms }

  function Accepted(r: Reaction, answer: bool): seq<Byte> {
    if answer && r.handed != [] then Strip(r.handed[0]) else []
  }

  function Receive(p: Peer, m: Segment, answer: bool): Peer {
    if Matches(p.sock, m) then
      var r := React(p.sock, m, answer);
      Peer(r.sock, p.sent, p.got + Accepted(r, answer), p.out + ToSet(r.out))
    else p
  }

  // ----- runs

  /** The largest datagram whose sizes the 16-bit length fields can hold, pseudo header included. */
  const MAX_DATA := 65535 - 24 - 12

  ghost predicate SendOk(p: Peer, data: seq<Byte>) {
    p.sock.state == ESTABLISHED && |data| <= MAX_DATA && |p.sent| + |data| + 2 < TWO32
  }

  ghost predicate Enabled(s: System, a: Action) {
    match a
    case Send(byX, data) => SendOk(if byX then s.x else s.y, data)
    case Disconnect(byX) => (if byX then s.x else s.y).sock.state == ESTABLISHED
    case Deliver(toX, m, pad, answer) => m in (if toX then s.y else s.x).out && |m.payload| + pad <= MAX_DATA
  }

  function Padded(m: Segment, pad: nat): Segment { m.(payload := m.payload + Zeros(pad)) }

  function Next(s: System, a: Action): System {
    match a
    case Send(byX, data) => if byX then s.(x := UserSend(s.x, data)) else s.(y := UserSend(s.y, data))
    case Disconnect(byX) => if byX then s.(x := UserDisconnect(s.x)) else s.(y := UserDisconnect(s.y))
    case Deliver(toX, m, pad, answer) =>
      if toX then s.(x := Receive(s.x, Padded(m, pad), answer)) else s.(y := Receive(s.y, Padded(m, pad), answer))
  }

  /** `Listen` done on y, `Connect` done on x. The fields neither of them sets hold anything. */
  ghost predicate Initial(s: System) {
    && s.x.sock.state == SYN_SENT && s.x.sock.sequenceNumber == ISS && s.x.out == {Emit(s.x.sock, SYN, [])}
    && s.y.sock.state == LISTEN && s.y.out == {}
    && s.x.sent == s.x.got == s.y.sent == s.y.got == []
  }

  ghost predicate Run(ss: seq<System>, acts: seq<Action>) {
    && |ss| == |acts| + 1 && Initial(ss[0])
    && forall i :: 0 <= i < |acts| ==> StepAt(ss, acts, i)
  }

  ghost predicate StepAt(ss: seq<System>, acts: seq<Action>, i: nat)
    requires |ss| == |acts| + 1 && i < |acts|
  {
    Enabled(ss[i], acts[i]) && ss[i + 1] == Next(ss[i], acts[i])
  }

  /** No user sends data that is all zeros, or empty. */
  ghost predicate MeaningfulRun(acts: seq<Action>) {
    forall a :: a in acts && a.Send? ==> Meaningful(a.data)
  }

  // ----- the invariant

  /** The sequence number counts what was sent, plus the SYN, plus the FIN of an active close. */
  ghost predicate SeqOk(p: Peer) {
    match p.sock.state
    case SYN_SENT => p.sock.sequenceNumber == ISS && p.sent == []
    case LISTEN => p.sent == []
    case SYN_RECEIVED => p.sock.sequenceNumber == Wrap(ISS + 1) && p.sent == []
    case ESTABLISHED => p.sock.sequenceNumber == Wrap(ISS + 1 + |p.sent|)
    case CLOSE_WAIT => p.sock.sequenceNumber == Wrap(ISS + 1 + |p.sent|)
    case FIN_WAIT1 => p.sock.sequenceNumber == Wrap(ISS + 2 + |p.sent|)
    case FIN_WAIT2 => p.sock.sequenceNumber == Wrap(ISS + 2 + |p.sent|)
    case CLOSED => true
    case _ => false
  }

  /** In every state in which data can still be accepted, the acknowledgement counts what was; once the
      other side has closed, it counts the FIN too. */
  ghost predicate AckOk(p: Peer) {
    && (p.sock.state == CLOSE_WAIT ==> p.sock.acknowledgementNumber == Wrap(ISS + 2 + |p.got|))
    && (p.sock.state in {SYN_RECEIVED, ESTABLISHED, FIN_WAIT1, FIN_WAIT2} ==>
          p.sock.acknowledgementNumber == Wrap(ISS + 1 + |p.got|))
    && (p.sock.state in {LISTEN, SYN_SENT, SYN_RECEIVED} ==> p.got == [])
  }

  /** m carries the bytes of stream from offset o on. */
  ghost predicate CarriesAt(m: Segment, stream: seq<Byte>, o: nat) {
    o + |m.payload| <= |stream| && m.payload == stream[o..o + |m.payload|] && m.seqNo == Wrap(ISS + 1 + o)
  }

  ghost predicate Carries(m: Segment, stream: seq<Byte>) { exists o: nat :: CarriesAt(m, stream, o) }

  /** Every segment a peer sent is of a known kind; a SYN carries the initial number, data its place. */
  ghost predicate SegmentOk(m: Segment, stream: seq<Byte>) {
    && m.headerWords == HEADER_WORDS && m.flags in {SYN, SYN | ACK, ACK, PSH | ACK, FIN | ACK, RST}
    && (m.flags in {SYN, SYN | ACK} ==> m.seqNo == ISS)
    && (m.flags == PSH | ACK ==> Carries(m, stream) && Meaningful(m.payload))
  }

  ghost predicate OutOk(p: Peer) { forall m :: m in p.out ==> SegmentOk(m, p.sent) }

  ghost predicate OnlyFlags(p: Peer, allowed: set<bv8>) { forall m :: m in p.out ==> m.flags in allowed }

  /** How far the two ends of the handshake can be apart. */
  ghost predicate Handshake(s: System) {
    && s.x.sock.state in {SYN_SENT, ESTABLISHED, FIN_WAIT1, FIN_WAIT2, CLOSE_WAIT, CLOSED}
    && s.y.sock.state in {LISTEN, SYN_RECEIVED, ESTABLISHED, FIN_WAIT1, FIN_WAIT2, CLOSE_WAIT, CLOSED}
    && (s.y.sock.state == LISTEN ==> s.x.sock.state == SYN_SENT && s.y.out == {})
    && (s.y.sock.state == SYN_RECEIVED ==> OnlyFlags(s.y, {SYN | ACK, RST}))
    && (s.x.sock.state == SYN_SENT ==> s.y.sock.state in {LISTEN, SYN_RECEIVED} && OnlyFlags(s.x, {SYN}))
    && OnlyFlags(s.x, {SYN, ACK, PSH | ACK, FIN | ACK, RST})
    && OnlyFlags(s.y, {SYN | ACK, ACK, PSH | ACK, FIN | ACK, RST})
  }

  ghost predicate PeerOk(p: Peer, q: Peer) {
    SeqOk(p) && AckOk(p) && OutOk(p) && |p.sent| + 2 < TWO32 && p.got <= q.sent
  }

  ghost predicate Inv(s: System) { Handshake(s) && PeerOk(s.x, s.y) && PeerOk(s.y, s.x) }

  // ----- one peer's part of each step

  lemma UserSendKeeps(p: Peer, q: Peer, data: seq<Byte>)
    requires PeerOk(p, q) && PeerOk(q, p) && SendOk(p, data) && Meaningful(data)
    ensures PeerOk(UserSend(p, data), q) && PeerOk(q, UserSend(p, data))
  {
    WrapAdd(ISS + 1 + |p.sent|, |data|);
    var p' := UserSend(p, data);
    forall m | m in p'.out ensures SegmentOk(m, p'.sent) {
      if m in p.out { StillCarried(m, p.sent, data); }
      else { NewlyCarried(m, p.sent, data); }
    }
  }

  lemma StillCarried(m: Segment, stream: seq<Byte>, data: seq<Byte>)
    requires SegmentOk(m, stream)
    ensures SegmentOk(m, stream + data)
  {
    if m.flags == PSH | ACK {
      var o: nat :| CarriesAt(m, stream, o);
      assert CarriesAt(m, stream + data, o);
    }
  }

  lemma NewlyCarried(m: Segment, stream: seq<Byte>, data: seq<Byte>)
    requires m.flags == PSH | ACK && m.headerWords == HEADER_WORDS && m.payload == data && Meaningful(data)
    requires m.seqNo == Wrap(ISS + 1 + |stream|)
    ensures SegmentOk(m, stream + data)
  {
    assert CarriesAt(m, stream + data, |stream|);
  }

  lemma UserDisconnectKeeps(p: Peer, q: Peer)
    requires PeerOk(p, q) && PeerOk(q, p) && p.sock.state == ESTABLISHED
    ensures PeerOk(UserDisconnect(p), q) && PeerOk(q, UserDisconnect(p))
  {
  }

  /** A segment whose number is the one awaited carries the stream on from where it was left. */
  lemma InSequence(p: Peer, q: Peer, m: Segment)
    requires AckOk(p) && p.got <= q.sent && |q.sent| + 2 < TWO32 && Carries(m, q.sent)
    requires p.sock.state in {ESTABLISHED, FIN_WAIT2} && m.seqNo == p.sock.acknowledgementNumber
    ensures p.got + m.payload <= q.sent
  {
    var o: nat :| CarriesAt(m, q.sent, o);
    assert o == |p.got| by { WrapInjective(ISS + 1, o, |p.got|); }
    assert q.sent[..o] + q.sent[o..o + |m.payload|] == q.sent[..o + |m.payload|];
  }

  /** Data in sequence continues the accepted stream. */
  lemma AcceptedContinues(p: Peer, q: Peer, m: Segment, pad: nat)
    requires AckOk(p) && p.got <= q.sent && |q.sent| + 2 < TWO32 && Carries(m, q.sent)
    requires p.sock.state in {ESTABLISHED, FIN_WAIT2} && m.seqNo == p.sock.acknowledgementNumber
    ensures p.got + Strip(Padded(m, pad).payload) <= q.sent
  {
    InSequence(p, q, m);
    StripPadded(m.payload, pad);
    PrefixExtends(p.got, Strip(m.payload), m.payload, q.sent);
  }

  lemma ReceiveData(p: Peer, q: Peer, m: Segment, pad: nat, answer: bool)
    requires SeqOk(p) && AckOk(p) && p.got <= q.sent && |q.sent| + 2 < TWO32
    requires Carries(m, q.sent) && Meaningful(m.payload)
    requires Matches(p.sock, Padded(m, pad)) && HandsOver(p.sock, Padded(m, pad))
    ensures var p' := Receive(p, Padded(m, pad), answer); SeqOk(p') && AckOk(p') && p'.got <= q.sent
  {
    StripPadded(m.payload, pad);
    if answer {
      AcceptedContinues(p, q, m, pad);
      DataAccepted(p, Padded(m, pad));
    } else {
      DataRefused(p, Padded(m, pad));
    }
  }

  /** Accepted data that is not all zeros is counted by the acknowledgement. */
  lemma DataAccepted(p: Peer, n: Segment)
    requires SeqOk(p) && AckOk(p) && Matches(p.sock, n) && HandsOver(p.sock, n) && Strip(n.payload) != []
    ensures var p' := Receive(p, n, true); SeqOk(p') && AckOk(p') && p'.got == p.got + Strip(n.payload)
  {
    ReceiveDataIs(p, n, true);
    AckCounts(p.sock, n, |p.got|, Strip(n.payload));
    assert |p.got + Strip(n.payload)| == |p.got| + |Strip(n.payload)|;
  }

  lemma DataRefused(p: Peer, n: Segment)
    requires SeqOk(p) && AckOk(p) && Matches(p.sock, n) && HandsOver(p.sock, n)
    ensures var p' := Receive(p, n, false); SeqOk(p') && AckOk(p') && p'.got == p.got
  {
  }

  lemma ReceiveDataIs(p: Peer, m: Segment, answer: bool)
    requires Matches(p.sock, m) && HandsOver(p.sock, m)
    ensures var p' := Receive(p, m, answer);
            && p'.sent == p.sent
            && p'.sock == (if answer then Acked(p.sock, AckAdvance(m)) else p.sock)
            && p'.got == (if answer then p.got + Strip(m.payload) else p.got)
  {
  }

  lemma PrefixExtends(got: seq<Byte>, d: seq<Byte>, payload: seq<Byte>, stream: seq<Byte>)
    requires d <= payload && got + payload <= stream
    ensures got + d <= stream && |got + d| == |got| + |d|
  {
  }

  lemma AckCounts(s: Socket, m: Segment, n: nat, d: seq<Byte>)
    requires s.acknowledgementNumber == Wrap(ISS + 1 + n) && Strip(m.payload) == d != []
    ensures Acked(s, AckAdvance(m)).acknowledgementNumber == Wrap(ISS + 1 + n + |d|)
  {
  }

  /** What a peer may be handed in which state; the handshake provides it. */
  ghost predicate Expected(p: Peer, m: Segment) {
    && (p.sock.state == LISTEN ==> m.flags == SYN)
    && (p.sock.state == SYN_SENT ==> m.flags in {SYN | ACK, RST})
    && (m.flags == SYN ==> p.sock.state != SYN_SENT)
  }

  lemma ReceiveKeeps(p: Peer, q: Peer, m: Segment, pad: nat, answer: bool)
    requires PeerOk(p, q) && PeerOk(q, p) && m in q.out && Expected(p, m)
    ensures var p' := Receive(p, Padded(m, pad), answer);
            && PeerOk(p', q) && p'.sent == p.sent
            && Rank(p.sock.state) <= Rank(p'.sock.state)
  {
    assert SegmentOk(m, q.sent);
    var n := Padded(m, pad);
    if Matches(p.sock, n) {
      OnlyForward(p.sock, n, answer);
      ReceiveOut(p, n, answer);
      if HandsOver(p.sock, n) {
        ReceiveData(p, q, m, pad, answer);
      } else {
        ReceiveControl(p, n, answer);
      }
    }
  }

  /** The data branch is reached and the number is the one awaited. */
  predicate HandsOver(s: Socket, m: Segment) {
    m.flags == PSH | ACK && s.state in {ESTABLISHED, FIN_WAIT2} && m.seqNo == s.acknowledgementNumber
  }

  lemma ReceiveOut(p: Peer, m: Segment, answer: bool)
    requires OutOk(p) && Matches(p.sock, m)
    ensures OutOk(Receive(p, m, answer))
  {
    ReactionFlags(p.sock, m, answer);
    var r := React(p.sock, m, answer);
    forall k | k in Receive(p, m, answer).out ensures SegmentOk(k, p.sent) {
      if k !in p.out { assert k in r.out; }
    }
  }

  /** Nothing but data in sequence touches the accepted bytes, and the counters stay right. */
  lemma ReceiveControl(p: Peer, m: Segment, answer: bool)
    requires SeqOk(p) && AckOk(p) && Matches(p.sock, m) && !HandsOver(p.sock, m)
    requires m.flags in {SYN, SYN | ACK, ACK, PSH | ACK, FIN | ACK, RST} && Expected(p, m)
    requires m.flags in {SYN, SYN | ACK} ==> m.seqNo == ISS
    ensures var p' := Receive(p, m, answer); SeqOk(p') && AckOk(p') && p'.got == p.got
  {
    ReceiveControlSeq(p, m, answer);
    ReceiveControlAck(p, m, answer);
  }

  lemma ReceiveControlSeq(p: Peer, m: Segment, answer: bool)
    requires SeqOk(p) && Matches(p.sock, m) && !HandsOver(p.sock, m)
    requires m.flags in {SYN, SYN | ACK, ACK, PSH | ACK, FIN | ACK, RST} && Expected(p, m)
    ensures SeqOk(Receive(p, m, answer)) && Receive(p, m, answer).got == p.got
  {
    WrapAdd(ISS, 1);
  }

  lemma ReceiveControlAck(p: Peer, m: Segment, answer: bool)
    requires AckOk(p) && Matches(p.sock, m) && !HandsOver(p.sock, m)
    requires m.flags in {SYN, SYN | ACK, ACK, PSH | ACK, FIN | ACK, RST} && Expected(p, m)
    requires m.flags in {SYN, SYN | ACK} ==> m.seqNo == ISS
    ensures AckOk(Receive(p, m, answer))
  {
    assert Wrap(Wrap(ISS + 1 + |p.got|) + 1) == Wrap(ISS + 2 + |p.got|) by { WrapAdd(ISS + 1 + |p.got|, 1); }
  }

  /** The kinds of segment a reaction can send. */
  lemma ReactionFlags(s: Socket, m: Segment, answer: bool)
    ensures forall k :: k in React(s, m, answer).out ==>
              && k.headerWords == HEADER_WORDS && k.flags in {SYN | ACK, ACK, FIN | ACK, RST}
              && (k.flags == SYN | ACK ==> s.state == LISTEN && k.seqNo == ISS)
  {
  }

  // ----- the handshake

  /** What a client or a server in the opening states can answer. */
  lemma OpeningReactions(s: Socket, m: Segment, answer: bool)
    requires m.flags in {SYN, SYN | ACK, ACK, PSH | ACK, FIN | ACK, RST}
    ensures var r := React(s, m, answer);
            && (s.state == SYN_SENT && m.flags in {SYN | ACK, RST} ==> r.sock.state in {ESTABLISHED, CLOSED})
            && (s.state == LISTEN && m.flags == SYN ==>
                  r.sock.state == SYN_RECEIVED && forall k :: k in r.out ==> k.flags == SYN | ACK)
            && (s.state == SYN_RECEIVED && m.flags == SYN ==> r.sock.state == SYN_RECEIVED)
            && (s.state == SYN_RECEIVED && r.sock.state == SYN_RECEIVED ==> forall k :: k in r.out ==> k.flags == RST)
            && (r.sock.state == SYN_RECEIVED ==> s.state in {LISTEN, SYN_RECEIVED})
            && (r.sock.state in {LISTEN, SYN_SENT, CLOSING, TIME_WAIT} ==> s.state == r.sock.state)
  {
  }

  lemma DeliverToX(s: System, m: Segment, pad: nat, answer: bool)
    requires Inv(s) && m in s.y.out
    ensures Expected(s.x, m) && Handshake(s.(x := Receive(s.x, Padded(m, pad), answer)))
  {
    assert SegmentOk(m, s.y.sent);
    var n := Padded(m, pad);
    OpeningReactions(s.x.sock, n, answer);
    ReactionFlags(s.x.sock, n, answer);
    OnlyForward(s.x.sock, n, answer);
  }

  lemma DeliverToY(s: System, m: Segment, pad: nat, answer: bool)
    requires Inv(s) && m in s.x.out
    ensures Expected(s.y, m) && Handshake(s.(y := Receive(s.y, Padded(m, pad), answer)))
  {
    assert SegmentOk(m, s.x.sent);
    var n := Padded(m, pad);
    OpeningReactions(s.y.sock, n, answer);
    ReactionFlags(s.y.sock, n, answer);
    OnlyForward(s.y.sock, n, answer);
  }

  lemma StepKeeps(s: System, a: Action)
    requires Inv(s) && Enabled(s, a) && (a.Send? ==> Meaningful(a.data))
    ensures Inv(Next(s, a))
  {
    match a
    case Send(byX, data) =>
      if byX { UserSendKeeps(s.x, s.y, data); } else { UserSendKeeps(s.y, s.x, data); }
    case Disconnect(byX) =>
      if byX { UserDisconnectKeeps(s.x, s.y); } else { UserDisconnectKeeps(s.y, s.x); }
    case Deliver(toX, m, pad, answer) =>
      if toX {
        DeliverToX(s, m, pad, answer);
        ReceiveKeeps(s.x, s.y, m, pad, answer);
      } else {
        DeliverToY(s, m, pad, answer);
        ReceiveKeeps(s.y, s.x, m, pad, answer);
      }
  }

  lemma {:induction false} RunKeeps(ss: seq<System>, acts: seq<Action>, i: nat)
    requires Run(ss, acts) && MeaningfulRun(acts) && i < |ss|
    ensures Inv(ss[i])
  {
    if i > 0 {
      RunKeeps(ss, acts, i - 1);
      assert StepAt(ss, acts, i - 1) && acts[i - 1] in acts;
      StepKeeps(ss[i - 1], acts[i - 1]);
    }
  }

  // ----- theorems

  /** Stream safety: whatever the network loses, repeats, reorders or pads, what each handler has
      accepted is a prefix of what the other user has sent. */
  lemma StreamSafety(ss: seq<System>, acts: seq<Action>, i: nat)
    requires Run(ss, acts) && MeaningfulRun(acts) && i < |ss|
    ensures ss[i].x.got <= ss[i].y.sent && ss[i].y.got <= ss[i].x.sent
  {
    RunKeeps(ss, acts, i);
  }

  /** Once both ends are ESTABLISHED each one's acknowledgement trails the other's sequence number by
      exactly the bytes not yet accepted; before any data the two agree. */
  lemma NumbersAgree(ss: seq<System>, acts: seq<Action>, i: nat)
    requires Run(ss, acts) && MeaningfulRun(acts) && i < |ss|
    requires ss[i].x.sock.state == ESTABLISHED && ss[i].y.sock.state == ESTABLISHED
    ensures var x, y := ss[i].x, ss[i].y;
            && x.sock.sequenceNumber == Wrap(y.sock.acknowledgementNumber + (|x.sent| - |y.got|))
            && y.sock.sequenceNumber == Wrap(x.sock.acknowledgementNumber + (|y.sent| - |x.got|))
            && (x.sent == [] && y.sent == [] ==>
                  && x.sock.sequenceNumber == y.sock.acknowledgementNumber
                  && y.sock.sequenceNumber == x.sock.acknowledgementNumber)
  {
    RunKeeps(ss, acts, i);
    var x, y := ss[i].x, ss[i].y;
    WrapAdd(ISS + 1 + |y.got|, |x.sent| - |y.got|);
    WrapAdd(ISS + 1 + |x.got|, |y.sent| - |x.got|);
  }

  /** When one end has closed and the other has taken note, whichever closed, the FIN is accounted for:
      the closer's sequence number leads the other's acknowledgement by exactly the bytes that never got
      through, so the two agree if and only if the whole stream was accepted. */
  lemma CloseAccountsForFin(ss: seq<System>, acts: seq<Action>, i: nat)
    requires Run(ss, acts) && MeaningfulRun(acts) && i < |ss|
    ensures FinTaken(ss[i].x, ss[i].y) ==> FinAccounted(ss[i].x, ss[i].y)
    ensures FinTaken(ss[i].y, ss[i].x) ==> FinAccounted(ss[i].y, ss[i].x)
  {
    RunKeeps(ss, acts, i);
    var x, y := ss[i].x, ss[i].y;
    if FinTaken(x, y) { CloserLeads(x, y); }
    if FinTaken(y, x) { CloserLeads(y, x); }
  }

  /** p has closed and q has received its FIN. */
  ghost predicate FinTaken(p: Peer, q: Peer) {
    p.sock.state in {FIN_WAIT1, FIN_WAIT2} && q.sock.state == CLOSE_WAIT
  }

  ghost predicate FinAccounted(p: Peer, q: Peer) {
    && p.sock.sequenceNumber == Wrap(q.sock.acknowledgementNumber + (|p.sent| - |q.got|))
    && (p.sock.sequenceNumber == q.sock.acknowledgementNumber <==> q.got == p.sent)
  }

  lemma CloserLeads(p: Peer, q: Peer)
    requires PeerOk(p, q) && PeerOk(q, p) && FinTaken(p, q)
    ensures FinAccounted(p, q)
  {
    WrapAdd(ISS + 2 + |q.got|, |p.sent| - |q.got|);
    if p.sock.sequenceNumber == q.sock.acknowledgementNumber {
      WrapInjective(ISS + 2, |p.sent|, |q.got|);
    }
  }

  /** Each end is ESTABLISHED during one stretch of the run at most. This needs no assumption on the data. */
  lemma {:induction false} StatesOnlyAdvance(ss: seq<System>, acts: seq<Action>, i: nat, j: nat)
    requires Run(ss, acts) && i <= j < |ss|
    ensures Rank(ss[i].x.sock.state) <= Rank(ss[j].x.sock.state) && Rank(ss[i].y.sock.state) <= Rank(ss[j].y.sock.state)
  {
    if i < j {
      StatesOnlyAdvance(ss, acts, i, j - 1);
      assert StepAt(ss, acts, j - 1);
      StepAdvances(ss[j - 1], acts[j - 1]);
    }
  }

  lemma StepAdvances(s: System, a: Action)
    requires Enabled(s, a)
    ensures var t := Next(s, a);
            Rank(s.x.sock.state) <= Rank(t.x.sock.state) && Rank(s.y.sock.state) <= Rank(t.y.sock.state)
  {
    match a
    case Deliver(toX, m, pad, answer) =>
      OnlyForward(if toX then s.x.sock else s.y.sock, Padded(m, pad), answer);
    case _ =>
  }

  lemma EstablishedAtMostOnce(ss: seq<System>, acts: seq<Action>, i: nat, j: nat, k: nat)
    requires Run(ss, acts) && i <= j <= k < |ss|
    ensures ss[i].x.sock.state == ESTABLISHED && ss[k].x.sock.state == ESTABLISHED ==> ss[j].x.sock.state == ESTABLISHED
    ensures ss[i].y.sock.state == ESTABLISHED && ss[k].y.sock.state == ESTABLISHED ==> ss[j].y.sock.state == ESTABLISHED
  {
    StatesOnlyAdvance(ss, acts, i, j);
    StatesOnlyAdvance(ss, acts, j, k);
  }

  /** An end becomes ESTABLISHED only by a delivery: the client's of a SYN|ACK with the server past
      its SYN, the server's of a segment sent by a client that is past its own SYN|ACK. */
  lemma EstablishedAfterHandshake(ss: seq<System>, acts: seq<Action>, i: nat)
    requires Run(ss, acts) && MeaningfulRun(acts) && i < |acts|
    ensures ss[i].x.sock.state != ESTABLISHED && ss[i + 1].x.sock.state == ESTABLISHED ==>
              ss[i].x.sock.state == SYN_SENT && ss[i].y.sock.state == SYN_RECEIVED
              && acts[i].Deliver? && acts[i].toX && acts[i].m.flags == SYN | ACK
    ensures ss[i].y.sock.state != ESTABLISHED && ss[i + 1].y.sock.state == ESTABLISHED ==>
              ss[i].y.sock.state == SYN_RECEIVED && ss[i].x.sock.state != SYN_SENT
              && acts[i].Deliver? && !acts[i].toX && acts[i].m.flags in {ACK, PSH | ACK}
  {
    RunKeeps(ss, acts, i);
    RunKeeps(ss, acts, i + 1);
    assert StepAt(ss, acts, i);
    var s := ss[i];
    match acts[i]
    case Deliver(toX, m, pad, answer) =>
      if toX {
        assert SegmentOk(m, s.y.sent);
        OnlyForward(s.x.sock, Padded(m, pad), answer);
      } else {
        assert SegmentOk(m, s.x.sent);
        OnlyForward(s.y.sock, Padded(m, pad), answer);
      }
    case _ =>
  }
}
