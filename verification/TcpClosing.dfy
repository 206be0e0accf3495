/** How a connection closes: what an end that is closing has sent, over every run, and that an open connection
    can always be closed at both ends, whichever begins. */
module TcpClosing {
  import opened Words
  import opened TcpEndpoints
  import opened TcpNetworks
  import opened TcpZeroData

  // ----- whoever is closing has sent its FIN

  /** A FIN and ACK, flags 17, from this end to the other, with this sequence number. */
  ghost predicate IsFin(p: Peer, k: Segment, seqNo: Word) {
    && k.flags == 17 && k.seqNo == seqNo
    && k.srcIP == p.sock.localIP && k.srcPort == p.sock.localPort
    && k.dstIP == p.sock.remoteIP && k.dstPort == p.sock.remotePort
  }

  /** An end that has closed first or second has sent a FIN: with the number its sequence number has now if it
      was second, and with the one before if it was first, as that takes a number for its FIN. */
  ghost predicate FinSent(p: Peer) {
    && (p.sock.state == CLOSE_WAIT ==> exists k :: k in p.out && IsFin(p, k, p.sock.sequenceNumber))
    && (p.sock.state in {FIN_WAIT1, FIN_WAIT2} ==>
          exists k :: k in p.out && IsFin(p, k, Wrap(p.sock.sequenceNumber - 1)))
  }

  lemma DisconnectSendsFin(p: Peer)
    ensures FinSent(UserDisconnect(p))
  {
    var s := p.sock.(state := FIN_WAIT1);
    var k := Emit(s, FIN | ACK, []);
    WrapAdd(s.sequenceNumber + 1, -1);
    assert k in UserDisconnect(p).out && IsFin(UserDisconnect(p), k, s.sequenceNumber);
  }

  lemma ReactionKeepsFin(p: Peer, m: Segment, answer: bool)
    requires FinSent(p)
    ensures FinSent(Receive(p, m, answer))
  {
    var p' := Receive(p, m, answer);
    if Matches(p.sock, m) {
      ReactionClosing(p.sock, m, answer);
      var r := React(p.sock, m, answer);
      if p'.sock.state == CLOSE_WAIT && p.sock.state == ESTABLISHED {
        assert r.out[1] in p'.out && IsFin(p', r.out[1], p'.sock.sequenceNumber);
      } else if p'.sock.state == CLOSE_WAIT {
        var k :| k in p.out && IsFin(p, k, p.sock.sequenceNumber);
        assert k in p'.out && IsFin(p', k, p'.sock.sequenceNumber);
      } else if p'.sock.state in {FIN_WAIT1, FIN_WAIT2} {
        var k :| k in p.out && IsFin(p, k, Wrap(p.sock.sequenceNumber - 1));
        assert k in p'.out && IsFin(p', k, Wrap(p'.sock.sequenceNumber - 1));
      }
    }
  }

  /** How a reaction gets to a closing state: by answering a FIN with two segments, or by staying in one. */
  lemma ReactionClosing(s: Socket, m: Segment, answer: bool)
    ensures var r := React(s, m, answer);
            && (r.sock.state in {CLOSE_WAIT, FIN_WAIT1, FIN_WAIT2} ==>
                  && s.state in {ESTABLISHED, CLOSE_WAIT, FIN_WAIT1, FIN_WAIT2}
                  && r.sock.(state := s.state, acknowledgementNumber := s.acknowledgementNumber) == s)
            && (r.sock.state == CLOSE_WAIT && s.state == ESTABLISHED ==>
                  |r.out| == 2 && r.out[1] == Emit(r.sock, 17, []))
            && (r.sock.state == CLOSE_WAIT ==> s.state in {ESTABLISHED, CLOSE_WAIT})
            && (r.sock.state in {FIN_WAIT1, FIN_WAIT2} ==> s.state in {FIN_WAIT1, FIN_WAIT2})
  {
  }

  /** Over every run, whatever is lost, repeated or sent. */
  lemma {:induction false} ClosingEndsHaveSentFin(ss: seq<System>, acts: seq<Action>, i: nat)
    requires Run(ss, acts) && i < |ss|
    ensures FinSent(ss[i].x) && FinSent(ss[i].y)
  {
    if i > 0 {
      ClosingEndsHaveSentFin(ss, acts, i - 1);
      assert StepAt(ss, acts, i - 1);
      var s := ss[i - 1];
      match acts[i - 1]
      case Send(byX, data) =>
      case Disconnect(byX) => DisconnectSendsFin(if byX then s.x else s.y);
      case Deliver(toX, m, pad, answer) => ReactionKeepsFin(if toX then s.x else s.y, Padded(m, pad), answer);
    }
  }

  // ----- an open connection can be closed

  /** From s the actions can be taken one after the other, and lead to t. */
  ghost predicate Leads(s: System, acts: seq<Action>, t: System)
    decreases |acts|
  {
    if acts == [] then t == s else Enabled(s, acts[0]) && Leads(Next(s, acts[0]), acts[1..], t)
  }

  lemma {:induction false} RunGoesOn(ss: seq<System>, acts: seq<Action>, more: seq<Action>, t: System)
    returns (ss': seq<System>)
    requires Run(ss, acts) && Leads(ss[|acts|], more, t)
    ensures Run(ss', acts + more) && ss'[0] == ss[0] && ss'[|acts + more|] == t
    decreases |more|
  {
    if more == [] {
      ss' := ss;
      assert acts + more == acts;
    } else {
      var ss1, acts1 := Extend(ss, acts, more[0]);
      ss' := RunGoesOn(ss1, acts1, more[1..], t);
      assert acts1 + more[1..] == acts + more;
    }
  }

  /** The two ends seen from the other side. */
  function Mirror(s: System): System { System(s.y, s.x) }

  function MirrorAction(a: Action): Action {
    match a
    case Send(byX, data) => Send(!byX, data)
    case Disconnect(byX) => Disconnect(!byX)
    case Deliver(toX, m, pad, answer) => Deliver(!toX, m, pad, answer)
  }

  function MirrorAll(acts: seq<Action>): (r: seq<Action>)
    ensures |r| == |acts| && forall i :: 0 <= i < |r| ==> r[i] == MirrorAction(acts[i])
  {
    seq(|acts|, i requires 0 <= i < |acts| => MirrorAction(acts[i]))
  }

  lemma {:induction false} MirrorLeads(s: System, acts: seq<Action>, t: System)
    requires Leads(s, acts, t)
    ensures Leads(Mirror(s), MirrorAll(acts), Mirror(t))
    decreases |acts|
  {
    if acts != [] {
      MirrorLeads(Next(s, acts[0]), acts[1..], t);
      assert MirrorAll(acts)[1..] == MirrorAll(acts[1..]);
      assert Next(Mirror(s), MirrorAction(acts[0])) == Mirror(Next(s, acts[0]));
    }
  }

  /** p, which closed first, has become p', and q has become q': both are CLOSED, each acknowledges one number
      more than before, for the other's FIN, no data has gone either way, no RST has been sent, and p's last
      segment acknowledges q's FIN, which has the sequence number q had. */
  ghost predicate Closed(p: Peer, q: Peer, p': Peer, q': Peer) {
    && p'.sock == p.sock.(state := CLOSED, sequenceNumber := Wrap(p.sock.sequenceNumber + 1),
                          acknowledgementNumber := Wrap(p.sock.acknowledgementNumber + 1))
    && q'.sock == q.sock.(state := CLOSED, acknowledgementNumber := Wrap(q.sock.acknowledgementNumber + 1))
    && p'.sent == p.sent && p'.got == p.got && q'.sent == q.sent && q'.got == q.got
    && (forall k :: k in p'.out - p.out || k in q'.out - q.out ==> k.flags in {16, 17})
    && (exists k :: k in q'.out && IsFin(q, k, q.sock.sequenceNumber))
    && (exists k :: k in p'.out && k.flags == 16 && k.ackNo == Wrap(p.sock.acknowledgementNumber + 1))
  }

  /** The other end takes the FIN: it answers it and closes too. */
  lemma TakesFin(q: Peer, m: Segment)
    requires q.sock.state == ESTABLISHED && OnConnection(q.sock, m) && m.flags == 17
    ensures var t := q.sock.(state := CLOSE_WAIT, acknowledgementNumber := Wrap(q.sock.acknowledgementNumber + 1));
            Receive(q, Padded(m, 0), true) == Peer(t, q.sent, q.got, q.out + {Emit(t, 16, []), Emit(t, 17, [])})
  {
    UnpaddedSame(m);
    MatchesWhen(q.sock, m);
    var r := React(q.sock, m, true);
    assert r.handed == [] && ToSet(r.out) == {r.out[0], r.out[1]};
    assert q.got + [] == q.got;
  }

  /** The first end takes the acknowledgement of its FIN. */
  lemma TakesFinAck(p: Peer, m: Segment)
    requires p.sock.state == FIN_WAIT1 && OnConnection(p.sock, m) && m.flags == 16
    ensures Receive(p, Padded(m, 0), true) == p.(sock := p.sock.(state := FIN_WAIT2))
  {
    UnpaddedSame(m);
    MatchesWhen(p.sock, m);
    assert ToSet([]) == {} && p.out + {} == p.out;
  }

  /** And the other's FIN, which it acknowledges. */
  lemma TakesTheirFin(p: Peer, m: Segment)
    requires p.sock.state == FIN_WAIT2 && OnConnection(p.sock, m) && m.flags == 17
    ensures var t := p.sock.(state := CLOSED, acknowledgementNumber := Wrap(p.sock.acknowledgementNumber + 1));
            Receive(p, Padded(m, 0), true) == Peer(t, p.sent, p.got, p.out + {Emit(t, 16, [])})
  {
    UnpaddedSame(m);
    MatchesWhen(p.sock, m);
    var r := React(p.sock, m, true);
    assert ToSet(r.out) == {r.out[0]};
  }

  /** The other end takes that acknowledgement. */
  lemma TakesLastAck(q: Peer, m: Segment)
    requires q.sock.state == CLOSE_WAIT && OnConnection(q.sock, m) && m.flags == 16
    ensures Receive(q, Padded(m, 0), true) == q.(sock := q.sock.(state := CLOSED))
  {
    UnpaddedSame(m);
    MatchesWhen(q.sock, m);
    assert ToSet([]) == {} && q.out + {} == q.out;
  }

  lemma LeadsFirst(s: System, a: Action, acts: seq<Action>, t: System)
    requires Enabled(s, a) && Leads(Next(s, a), acts, t)
    ensures Leads(s, [a] + acts, t)
  {
    assert ([a] + acts)[1..] == acts;
  }

  lemma {:induction false} LeadsOn(s: System, acts: seq<Action>, t: System, more: seq<Action>, u: System)
    requires Leads(s, acts, t) && Leads(t, more, u)
    ensures Leads(s, acts + more, u)
    decreases |acts|
  {
    if acts == [] {
      assert acts + more == more;
    } else {
      LeadsOn(Next(s, acts[0]), acts[1..], t, more, u);
      assert (acts + more)[1..] == acts[1..] + more;
    }
  }

  /** The first end disconnects and the other takes its FIN. */
  lemma HalfCloses(s: System) returns (acts: seq<Action>, s2: System)
    requires Open(s)
    ensures Leads(s, acts, s2) && |acts| == 2 && acts[0] == Disconnect(true) && acts[1].Deliver?
    ensures var t := s.y.sock.(state := CLOSE_WAIT, acknowledgementNumber := Wrap(s.y.sock.acknowledgementNumber + 1));
            && s2.x == UserDisconnect(s.x)
            && s2.y == Peer(t, s.y.sent, s.y.got, s.y.out + {Emit(t, 16, []), Emit(t, 17, [])})
  {
    var fin := Emit(s.x.sock.(state := FIN_WAIT1), FIN | ACK, []);
    TakesFin(s.y, fin);
    var s1 := Next(s, Disconnect(true));
    s2 := Next(s1, Pass(false, fin));
    LeadsFirst(s1, Pass(false, fin), [], s2);
    LeadsFirst(s, Disconnect(true), [Pass(false, fin)], s2);
    acts := [Disconnect(true)] + [Pass(false, fin)];
  }

  /** Then the first end takes both answers, and the other the last acknowledgement. */
  lemma FullyCloses(s2: System) returns (acts: seq<Action>, t: System)
    requires s2.x.sock.state == FIN_WAIT1 && s2.y.sock.state == CLOSE_WAIT && Aimed(s2) && AimedBack(s2)
    requires Emit(s2.y.sock, 16, []) in s2.y.out && Emit(s2.y.sock, 17, []) in s2.y.out
    ensures Leads(s2, acts, t) && |acts| == 3 && forall i :: 0 <= i < 3 ==> acts[i].Deliver?
    ensures var u := s2.x.sock.(state := CLOSED, acknowledgementNumber := Wrap(s2.x.sock.acknowledgementNumber + 1));
            && t.x == Peer(u, s2.x.sent, s2.x.got, s2.x.out + {Emit(u, 16, [])})
            && t.y == s2.y.(sock := s2.y.sock.(state := CLOSED))
  {
    var ack, fin := Emit(s2.y.sock, 16, []), Emit(s2.y.sock, 17, []);
    TakesFinAck(s2.x, ack);
    var s3 := Next(s2, Pass(true, ack));
    TakesTheirFin(s3.x, fin);
    var s4 := Next(s3, Pass(true, fin));
    var last := Emit(s4.x.sock, 16, []);
    TakesLastAck(s4.y, last);
    t := Next(s4, Pass(false, last));
    LeadsFirst(s4, Pass(false, last), [], t);
    LeadsFirst(s3, Pass(true, fin), [Pass(false, last)], t);
    LeadsFirst(s2, Pass(true, ack), [Pass(true, fin)] + [Pass(false, last)], t);
    acts := [Pass(true, ack)] + ([Pass(true, fin)] + [Pass(false, last)]);
  }

  /** One disconnect and four deliveries. */
  lemma ClosesFrom(s: System) returns (acts: seq<Action>, t: System)
    requires Open(s)
    ensures Leads(s, acts, t) && Closed(s.x, s.y, t.x, t.y)
    ensures |acts| == 5 && acts[0] == Disconnect(true) && forall i :: 1 <= i < 5 ==> acts[i].Deliver?
  {
    var first, s2 := HalfCloses(s);
    var second;
    second, t := FullyCloses(s2);
    LeadsOn(s, first, s2, second, t);
    acts := first + second;
    BothClosed(s.x, s.y, t.x, t.y, Emit(s2.y.sock, 17, []), Emit(t.x.sock, 16, []));
  }

  lemma BothClosed(p: Peer, q: Peer, p': Peer, q': Peer, fin2: Segment, last: Segment)
    requires var t := q.sock.(state := CLOSE_WAIT, acknowledgementNumber := Wrap(q.sock.acknowledgementNumber + 1));
             && q' == Peer(t.(state := CLOSED), q.sent, q.got, q.out + {Emit(t, 16, []), Emit(t, 17, [])})
             && fin2 == Emit(t, 17, [])
    requires var d := UserDisconnect(p);
             var u := d.sock.(state := CLOSED, acknowledgementNumber := Wrap(d.sock.acknowledgementNumber + 1));
             p' == Peer(u, d.sent, d.got, d.out + {last}) && last == Emit(u, 16, [])
    ensures Closed(p, q, p', q')
  {
    assert fin2 in q'.out && IsFin(q, fin2, q.sock.sequenceNumber);
    assert last in p'.out && last.flags == 16;
  }

  /** Every run that has an open connection goes on to one in which it is closed at both ends, whichever end
      begins, by a disconnect and deliveries only. */
  lemma OpenCanClose(ss: seq<System>, acts: seq<Action>, byX: bool) returns (ss': seq<System>, more: seq<Action>)
    requires Run(ss, acts) && Open(ss[|acts|])
    ensures Run(ss', acts + more) && ss'[0] == ss[0] && |more| == 5 && more[0] == Disconnect(byX)
    ensures forall i :: 1 <= i < 5 ==> more[i].Deliver?
    ensures var s, t := ss[|acts|], ss'[|acts + more|];
            if byX then Closed(s.x, s.y, t.x, t.y) else Closed(s.y, s.x, t.y, t.x)
  {
    var s := ss[|acts|];
    var t;
    if byX {
      more, t := ClosesFrom(s);
    } else {
      var other, u := ClosesFrom(Mirror(s));
      MirrorLeads(Mirror(s), other, u);
      more, t := MirrorAll(other), Mirror(u);
    }
    ss' := RunGoesOn(ss, acts, more, t);
  }
}
