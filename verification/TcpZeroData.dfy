/** Why stream safety needs data that is not all zeros: any all-zero payload can make a receiver accept
    old data again. */
module TcpZeroData {
  import opened Words
  import opened TcpEndpoints
  import opened TcpNetworks

  /** The client's socket is aimed at the server's. */
  ghost predicate Aimed(s: System) {
    s.x.sock.remoteIP == s.y.sock.localIP && s.x.sock.remotePort == s.y.sock.localPort
  }

  /** And the server's at the client's. */
  ghost predicate AimedBack(s: System) {
    s.y.sock.remoteIP == s.x.sock.localIP && s.y.sock.remotePort == s.x.sock.localPort
  }

  /** Both ends ESTABLISHED and aimed at each other. */
  ghost predicate Open(s: System) {
    s.x.sock.state == ESTABLISHED && s.y.sock.state == ESTABLISHED && Aimed(s) && AimedBack(s)
  }

  ghost predicate NoDataYet(s: System) { s.x.sent == s.x.got == s.y.sent == s.y.got == [] }

  /** Deliver the newest thing one side has sent, unpadded, to a handler that accepts. */
  function Pass(toX: bool, m: Segment): Action { Deliver(toX, m, 0, true) }

  lemma UnpaddedSame(m: Segment)
    ensures Padded(m, 0) == m
  {
  }

  /** One more step of a run. */
  lemma Extend(ss: seq<System>, acts: seq<Action>, a: Action) returns (ss': seq<System>, acts': seq<Action>)
    requires Run(ss, acts) && Enabled(ss[|acts|], a)
    ensures Run(ss', acts') && ss'[0] == ss[0]
    ensures acts' == acts + [a] && ss'[|acts'|] == Next(ss[|acts|], a)
  {
    ss', acts' := ss + [Next(ss[|acts|], a)], acts + [a];
    forall i | 0 <= i < |acts'| ensures StepAt(ss', acts', i) {
      if i < |acts| { assert StepAt(ss, acts, i); }
    }
  }

  // ----- the handshake, delivery by delivery

  /** The server has taken the SYN and answered it. */
  ghost predicate SynTaken(s: System) {
    && s.x.sock.state == SYN_SENT && s.y.sock.state == SYN_RECEIVED && Aimed(s) && AimedBack(s) && NoDataYet(s)
    && s.x.sock.sequenceNumber == ISS && s.y.sock.acknowledgementNumber == ISS + 1
    && Emit(s.y.sock, SYN | ACK, []).(seqNo := ISS) in s.y.out
  }

  /** The client has taken the answer and acknowledged it. */
  ghost predicate SynAckTaken(s: System) {
    && s.x.sock.state == ESTABLISHED && s.y.sock.state == SYN_RECEIVED && Aimed(s) && AimedBack(s) && NoDataYet(s)
    && s.x.sock.sequenceNumber == s.y.sock.acknowledgementNumber == ISS + 1
    && Emit(s.x.sock, ACK, []) in s.x.out
  }

  lemma TakesSyn(s: System)
    requires Initial(s) && Aimed(s)
    ensures var a := Pass(false, Emit(s.x.sock, SYN, [])); Enabled(s, a) && SynTaken(Next(s, a))
  {
    UnpaddedSame(Emit(s.x.sock, SYN, []));
  }

  lemma TakesSynAck(s: System)
    requires SynTaken(s)
    ensures var a := Pass(true, Emit(s.y.sock, SYN | ACK, []).(seqNo := ISS)); Enabled(s, a) && SynAckTaken(Next(s, a))
  {
    UnpaddedSame(Emit(s.y.sock, SYN | ACK, []).(seqNo := ISS));
  }

  lemma TakesAck(s: System)
    requires SynAckTaken(s)
    ensures var a := Pass(false, Emit(s.x.sock, ACK, []));
            && Enabled(s, a) && Open(Next(s, a)) && NoDataYet(Next(s, a))
            && Next(s, a).x.sock.sequenceNumber == Next(s, a).y.sock.acknowledgementNumber == ISS + 1
  {
    UnpaddedSame(Emit(s.x.sock, ACK, []));
  }

  /** Three deliveries open the connection. */
  lemma Opens(s: System) returns (ss: seq<System>, acts: seq<Action>)
    requires Initial(s) && Aimed(s)
    ensures Run(ss, acts) && ss[0] == s && forall a :: a in acts ==> a.Deliver?
    ensures var t := ss[|acts|];
            && Open(t) && NoDataYet(t)
            && t.x.sock.sequenceNumber == t.y.sock.acknowledgementNumber == ISS + 1
  {
    TakesSyn(s);
    ss, acts := Extend([s], [], Pass(false, Emit(s.x.sock, SYN, [])));
    TakesSynAck(ss[1]);
    ss, acts := Extend(ss, acts, Pass(true, Emit(ss[1].y.sock, SYN | ACK, []).(seqNo := ISS)));
    TakesAck(ss[2]);
    ss, acts := Extend(ss, acts, Pass(false, Emit(ss[2].x.sock, ACK, [])));
  }

  // ----- data

  /** What accepting the client's segment m does to the server. */
  lemma Accepts(s: System, m: Segment)
    requires Open(s) && m in s.x.out && m.flags == PSH | ACK && |m.payload| <= MAX_DATA
    requires m.seqNo == s.y.sock.acknowledgementNumber
    requires m.srcIP == s.x.sock.localIP && m.srcPort == s.x.sock.localPort
    requires m.dstIP == s.y.sock.localIP && m.dstPort == s.y.sock.localPort
    ensures var t := Next(s, Pass(false, m));
            && Enabled(s, Pass(false, m)) && t.x == s.x && Open(t)
            && t.y.sock == Acked(s.y.sock, AckAdvance(m)) && t.y.got == s.y.got + Strip(m.payload)
  {
    UnpaddedSame(m);
    ReceiveDataIs(s.y, m, true);
  }

  function Ones(n: nat): (d: seq<Byte>)
    ensures |d| == n && forall i :: 0 <= i < n ==> d[i] == 1
  {
    seq(n, i => 1)
  }

  /** Sending keeps the connection open and puts the segment where it can be delivered. */
  lemma Sends(s: System, data: seq<Byte>)
    requires Open(s) && |data| <= MAX_DATA && |s.x.sent| <= 23
    ensures var t, m := Next(s, Send(true, data)), Emit(s.x.sock, PSH | ACK, data);
            && Enabled(s, Send(true, data)) && Open(t) && t.y == s.y && t.x.sent == s.x.sent + data
            && m in t.x.out && s.x.out <= t.x.out
            && t.x.sock == Advanced(s.x.sock, |data|)
  {
  }

  /** The client sends data that arrives in sequence: the server accepts what is left of it without
      trailing zeros, and its acknowledgement moves as the handling of that data says. */
  lemma Transfers(rs: seq<System>, bs: seq<Action>, data: seq<Byte>) returns (ss: seq<System>, acts: seq<Action>)
    requires Run(rs, bs) && Open(rs[|bs|]) && |data| <= MAX_DATA && |rs[|bs|].x.sent| <= 23
    requires rs[|bs|].x.sock.sequenceNumber == rs[|bs|].y.sock.acknowledgementNumber
    ensures var s, m := rs[|bs|], Emit(rs[|bs|].x.sock, PSH | ACK, data);
            && acts == bs + [Send(true, data)] + [Pass(false, m)] && Run(ss, acts) && ss[0] == rs[0]
            && var t := ss[|acts|];
               && Open(t) && m in t.x.out && s.x.out <= t.x.out
               && t.x.sock == Advanced(s.x.sock, |data|) && t.x.sent == s.x.sent + data
               && t.y.sock == Acked(s.y.sock, AckAdvance(m)) && t.y.got == s.y.got + Strip(data)
  {
    var s := rs[|bs|];
    var m := Emit(s.x.sock, PSH | ACK, data);
    Sends(s, data);
    ss, acts := Extend(rs, bs, Send(true, data));
    Accepts(ss[|acts|], m);
    ss, acts := Extend(ss, acts, Pass(false, m));
  }

  /** The first 23 bytes of the stream are somewhere in the network, fit to be delivered at any time. */
  ghost predicate Lurking(s: System, m: Segment) {
    && m in s.x.out && m.flags == PSH | ACK && m.payload == Ones(23) && m.seqNo == ISS + 1
    && m.srcIP == s.x.sock.localIP && m.srcPort == s.x.sock.localPort
    && m.dstIP == s.y.sock.localIP && m.dstPort == s.y.sock.localPort
  }

  /** 23 bytes are sent and accepted. */
  lemma SendsOnes(rs: seq<System>, bs: seq<Action>) returns (ss: seq<System>, acts: seq<Action>, m: Segment)
    requires Run(rs, bs) && (forall a :: a in bs ==> a.Deliver?) && Open(rs[|bs|]) && NoDataYet(rs[|bs|])
    requires rs[|bs|].x.sock.sequenceNumber == rs[|bs|].y.sock.acknowledgementNumber == ISS + 1
    ensures Run(ss, acts) && ss[0] == rs[0] && MeaningfulRun(acts)
    ensures var t := ss[|acts|];
            && Open(t) && Lurking(t, m) && t.x.sent == t.y.got == Ones(23)
            && t.x.sock.sequenceNumber == t.y.sock.acknowledgementNumber == ISS + 24
  {
    var d := Ones(23);
    StripUnique(d, d);
    assert d[0] != 0 && Meaningful(d);
    m := Emit(rs[|bs|].x.sock, PSH | ACK, d);
    ss, acts := Transfers(rs, bs, d);
  }

  /** All-zero data is sent and accepted: the acknowledgement is back where it began. */
  lemma SendsZeros(rs: seq<System>, bs: seq<Action>, m: Segment, zeros: seq<Byte>)
    returns (ss: seq<System>, acts: seq<Action>)
    requires Run(rs, bs) && MeaningfulRun(bs) && !Meaningful(zeros) && |zeros| <= MAX_DATA
    requires var s := rs[|bs|];
             && Open(s) && Lurking(s, m) && s.x.sent == s.y.got == Ones(23)
             && s.x.sock.sequenceNumber == s.y.sock.acknowledgementNumber == ISS + 24
    ensures Run(ss, acts) && ss[0] == rs[0] && SendsMeaningfulOr(acts, zeros)
    ensures var t := ss[|acts|];
            && Open(t) && Lurking(t, m) && t.x.sent == Ones(23) + zeros && t.y.got == Ones(23)
            && t.y.sock.acknowledgementNumber == ISS + 1
  {
    StripUnique(zeros, []);
    ss, acts := Transfers(rs, bs, zeros);
  }

  /** After 23 bytes, an all-zero payload takes the acknowledgement back to where it began, and the
      23 bytes are accepted a second time. */
  lemma Replays(rs: seq<System>, bs: seq<Action>, zeros: seq<Byte>) returns (ss: seq<System>, acts: seq<Action>)
    requires Run(rs, bs) && (forall a :: a in bs ==> a.Deliver?) && Open(rs[|bs|]) && NoDataYet(rs[|bs|])
    requires rs[|bs|].x.sock.sequenceNumber == rs[|bs|].y.sock.acknowledgementNumber == ISS + 1
    requires !Meaningful(zeros) && |zeros| <= MAX_DATA
    ensures Run(ss, acts) && ss[0] == rs[0] && SendsMeaningfulOr(acts, zeros)
    ensures ss[|acts|].x.sent == Ones(23) + zeros && ss[|acts|].y.got == Ones(23) + Ones(23)
  {
    var m;
    ss, acts, m := SendsOnes(rs, bs);
    ss, acts := SendsZeros(ss, acts, m, zeros);
    StripUnique(Ones(23), Ones(23));
    Accepts(ss[|acts|], m);
    ss, acts := Extend(ss, acts, Pass(false, m));
  }

  /** Every payload sent is meaningful, or is this one. */
  ghost predicate SendsMeaningfulOr(acts: seq<Action>, data: seq<Byte>) {
    forall a :: a in acts && a.Send? ==> Meaningful(a.data) || a.data == data
  }

  /** For every all-zero payload, and from every initial state, there is a run that sends it once,
      otherwise only meaningful data, and ends with the stream broken. */
  lemma ZeroDataBreaksStream(s: System, zeros: seq<Byte>) returns (ss: seq<System>, acts: seq<Action>)
    requires Initial(s) && Aimed(s) && !Meaningful(zeros) && |zeros| <= MAX_DATA
    ensures Run(ss, acts) && ss[0] == s
    ensures SendsMeaningfulOr(acts, zeros)
    ensures !(ss[|acts|].y.got <= ss[|acts|].x.sent)
  {
    var rs, bs := Opens(s);
    ss, acts := Replays(rs, bs, zeros);
    TwiceIsNoPrefix(zeros);
  }

  lemma TwiceIsNoPrefix(zeros: seq<Byte>)
    requires !Meaningful(zeros)
    ensures !(Ones(23) + Ones(23) <= Ones(23) + zeros)
  {
    var got, sent := Ones(23) + Ones(23), Ones(23) + zeros;
    assert got[23] == 1;
    assert |sent| > 23 ==> sent[23] == zeros[0] == 0;
  }

  /** So one payload decides: data may be sent without endangering any stream exactly when it is not all zeros. */
  lemma SafeDataExactlyWhenMeaningful(s: System, data: seq<Byte>)
    requires Initial(s) && Aimed(s) && |data| <= MAX_DATA
    ensures Meaningful(data) <==>
            forall ss: seq<System>, acts: seq<Action> ::
              Run(ss, acts) && ss[0] == s && SendsMeaningfulOr(acts, data) ==>
                ss[|acts|].y.got <= ss[|acts|].x.sent && ss[|acts|].x.got <= ss[|acts|].y.sent
  {
    if Meaningful(data) {
      forall ss: seq<System>, acts: seq<Action> | Run(ss, acts) && ss[0] == s && SendsMeaningfulOr(acts, data)
        ensures ss[|acts|].y.got <= ss[|acts|].x.sent && ss[|acts|].x.got <= ss[|acts|].y.sent
      {
        StreamSafety(ss, acts, |acts|);
      }
    } else {
      var ss, acts := ZeroDataBreaksStream(s, data);
    }
  }
}
