/** The TCP provider as written: sockets updated in place, segments built byte by byte and handed to IP. */
module TcpProviders {
  import opened Words
  import opened InternetChecksums
  import opened TcpEndpoints
  import opened TcpWire

  /** What the provider gave to IP: a destination address and the bytes. */
  datatype Datagram = Datagram(dstIP: Word, bytes: seq<Byte>)

  /** The datagram is this segment's, byte for byte. */
  ghost predicate IsDatagramOf(d: Datagram, m: Segment) {
    |m.payload| + HEADER_SIZE < 65536 && d == Datagram(m.dstIP, Wire(m))
  }

  /** The first twelve bytes of a header: where it goes and how it counts. */
  function Addressing(m: Segment): (b: seq<Byte>)
    ensures |b| == 12
  {
    var q, k := BigEndian32(m.seqNo), BigEndian32(m.ackNo);
    [m.srcPort % 256, m.srcPort / 256, m.dstPort % 256, m.dstPort / 256,
     ByteAt(q, 0), ByteAt(q, 1), ByteAt(q, 2), ByteAt(q, 3),
     ByteAt(k, 0), ByteAt(k, 1), ByteAt(k, 2), ByteAt(k, 3)]
  }

  /** The eight bytes after them, with the checksum still zero; the options end the header. */
  function Control(flags: bv8): (b: seq<Byte>)
    ensures |b| == 8
  {
    [HEADER_WORDS * 16, flags as int, 0xFF, 0xFF, 0, 0, 0, 0]
  }

  lemma HeaderParts(m: Segment)
    ensures Header(m, 0) == Addressing(m) + Control(m.flags) + Bytes32(Options(m.flags))
  {
  }

  lemma Assembled(b: seq<Byte>, m: Segment)
    requires |m.payload| + HEADER_SIZE < 65536 && |b| == PSEUDO_SIZE + HEADER_SIZE + |m.payload|
    requires b[..12] == PseudoHeader(m) && b[12..24] == Addressing(m) && b[24..32] == Control(m.flags)
    requires b[32..36] == Bytes32(Options(m.flags)) && b[36..] == m.payload
    ensures b == Summed(m, 0)
  {
    HeaderParts(m);
    assert b == b[..12] + (b[12..24] + b[24..32] + b[32..36]) + b[36..];
  }

  lemma StampedIsWire(m: Segment, c: Half, b: seq<Byte>)
    requires |m.payload| + HEADER_SIZE < 65536 && c == ChecksumOf(m)
    requires b == StoreHalf(Summed(m, 0), 14, c)
    ensures b[PSEUDO_SIZE..] == Wire(m)
  {
    ChecksumField(m, c);
    StampAround(PseudoHeader(m), Header(m, 0), Header(m, c), m.payload, c, b);
  }

  lemma StampAround(p: seq<Byte>, h0: seq<Byte>, h: seq<Byte>, d: seq<Byte>, c: Half, b: seq<Byte>)
    requires |p| == PSEUDO_SIZE && |h0| == |h| == HEADER_SIZE && b == StoreHalf(p + h0 + d, 14, c)
    requires h[16] == c % 256 && h[17] == c / 256 && h[..16] == h0[..16] && h[18..] == h0[18..]
    ensures b[PSEUDO_SIZE..] == h + d
  {
  }

  /** Where the data behind a header ends once trailing zeros are ignored. */
  lemma StripAt(bytes: seq<Byte>, header: nat, n: nat)
    requires header + n <= |bytes| && (n > 0 ==> bytes[header + n - 1] != 0)
    requires forall j :: header + n <= j < |bytes| ==> bytes[j] == 0
    ensures |Strip(bytes[header..])| == n
  {
  }

  class TcpHandler {
    /** How it answers, and what it has been handed. */
    var accepts: bool
    var handed: seq<seq<Byte>>

    method HandleMessage(data: seq<Byte>) returns (answer: bool)
      modifies this`handed
      ensures handed == old(handed) + [data] && answer == accepts
    {
      handed := handed + [data];
      answer := accepts;
    }
  }

  class TcpSocket {
    var remotePort: Half
    var remoteIP: Word
    var localPort: Half
    var localIP: Word
    var sequenceNumber: Word
    var acknowledgementNumber: Word
    var handler: TcpHandler?
    var state: State

    /** A closed socket without handler; every other field holds whatever its memory held. */
    constructor ()
      ensures handler == null && state == CLOSED
    {
      handler := null;
      state := CLOSED;
    }

    function View(): Socket
      reads this
    {
      Socket(localIP, localPort, remoteIP, remotePort, sequenceNumber, acknowledgementNumber, state)
    }

    /** `sequenceNumber += size`. */
    method Advance(size: nat)
      modifies this`sequenceNumber
      ensures View() == Advanced(old(View()), size) && (size == 0 ==> View() == old(View()))
    {
      sequenceNumber := Wrap(sequenceNumber + size);
    }

    /** The answer data would get: without a handler it is refused. */
    function Answer(): bool
      reads this, handler
    {
      handler != null && handler.accepts
    }

    ghost function Handlers(): set<TcpHandler>
      reads this
    {
      if handler == null then {} else {handler}
    }

    method HandleMessage(data: seq<Byte>) returns (answer: bool)
      modifies Handlers()
      ensures answer == old(Answer()) == Answer()
      ensures handler == null ==> !answer
      ensures handler != null ==> handler.handed == old(handler.handed) + [data]
    {
      if handler != null {
        answer := handler.HandleMessage(data);
      } else {
        answer := false;
      }
    }
  }

  class TcpProvider {
    const ip: Word
    var sockets: seq<TcpSocket>
    var freePort: Half
    /** Everything handed to IP so far, as bytes and as the segments those bytes are. */
    var wire: seq<Datagram>
    ghost var sentOut: seq<Segment>

    ghost predicate Faithful()
      reads this
    {
      |wire| == |sentOut| && forall i {:trigger wire[i]} :: 0 <= i < |wire| ==> IsDatagramOf(wire[i], sentOut[i])
    }

    constructor (ip: Word)
      ensures this.ip == ip && sockets == [] && sentOut == [] && Faithful() && freePort == 1024
    {
      this.ip := ip;
      sockets := [];
      freePort := 1024;
      wire, sentOut := [], [];
    }

    // ----- sending

    /** Build pseudo header, header and data in one buffer, checksum it, hand on all but the pseudo header. */
    method Send(socket: TcpSocket, data: seq<Byte>, flags: bv8)
      requires |data| + HEADER_SIZE + PSEUDO_SIZE < 65536 && Faithful()
      modifies this`wire, this`sentOut, socket`sequenceNumber
      ensures Faithful() && sentOut == old(sentOut) + [Emit(old(socket.View()), flags, data)]
      ensures socket.View() == Advanced(old(socket.View()), |data|)
      ensures data == [] ==> socket.View() == old(socket.View())
    {
      ghost var m := Emit(socket.View(), flags, data);
      var dstIP := socket.remoteIP;
      var bytes := Build(socket, data, flags);
      socket.Advance(|data|);
      HandOn(dstIP, bytes, m);
    }

    /** Pass a finished segment to IP. */
    method HandOn(dstIP: Word, bytes: seq<Byte>, ghost m: Segment)
      requires Faithful() && IsDatagramOf(Datagram(dstIP, bytes), m)
      modifies this`wire, this`sentOut
      ensures Faithful() && sentOut == old(sentOut) + [m]
    {
      wire := wire + [Datagram(dstIP, bytes)];
      sentOut := sentOut + [m];
    }

    static method Build(socket: TcpSocket, data: seq<Byte>, flags: bv8) returns (bytes: seq<Byte>)
      requires |data| + HEADER_SIZE + PSEUDO_SIZE < 65536
      ensures IsDatagramOf(Datagram(socket.remoteIP, bytes), Emit(socket.View(), flags, data))
    {
      ghost var m := Emit(socket.View(), flags, data);
      var buffer := new Byte[PSEUDO_SIZE + HEADER_SIZE + |data|];
      WriteAddressing(buffer, socket, m);
      ghost var b1 := buffer[..];
      WriteControl(buffer, flags);
      ghost var b2 := buffer[..];
      WriteOptions(buffer, flags);
      ghost var b3 := buffer[..];
      WriteData(buffer, data);
      ghost var b4 := buffer[..];
      WritePseudoHeader(buffer, socket, |data| + HEADER_SIZE, m);
      ghost var b := buffer[..];
      assert b[12..24] == b1[12..24] by { assert forall i :: 12 <= i < 24 ==> b[i] == b1[i]; }
      assert b[24..32] == b2[24..32] by { assert forall i :: 24 <= i < 32 ==> b[i] == b2[i]; }
      assert b[32..36] == b3[32..36] by { assert forall i :: 32 <= i < 36 ==> b[i] == b3[i]; }
      assert b[36..] == b4[36..] by { assert forall i :: 36 <= i < |b| ==> b[i] == b4[i]; }
      Assembled(b, m);
      var c := Checksum(buffer, buffer.Length);
      assert buffer[..buffer.Length] == buffer[..];
      ghost var zeroed := buffer[..];
      buffer[28], buffer[29] := c % 256, c / 256;
      assert buffer[..] == StoreHalf(zeroed, 14, c);
      bytes := buffer[PSEUDO_SIZE..];
      StampedIsWire(m, c, buffer[..]);
    }

    /** Ports and numbers. */
    static method WriteAddressing(buffer: array<Byte>, socket: TcpSocket, ghost m: Segment)
      requires buffer.Length >= PSEUDO_SIZE + HEADER_SIZE
      requires m.srcPort == socket.localPort && m.dstPort == socket.remotePort
      requires m.seqNo == socket.sequenceNumber && m.ackNo == socket.acknowledgementNumber
      modifies buffer
      ensures buffer[12..24] == Addressing(m)
    {
      var q, k := BigEndian32(socket.sequenceNumber), BigEndian32(socket.acknowledgementNumber);
      buffer[12], buffer[13] := socket.localPort % 256, socket.localPort / 256;
      buffer[14], buffer[15] := socket.remotePort % 256, socket.remotePort / 256;
      buffer[16], buffer[17], buffer[18], buffer[19] := ByteAt(q, 0), ByteAt(q, 1), ByteAt(q, 2), ByteAt(q, 3);
      buffer[20], buffer[21], buffer[22], buffer[23] := ByteAt(k, 0), ByteAt(k, 1), ByteAt(k, 2), ByteAt(k, 3);
      assert buffer[12..24] == [buffer[12], buffer[13], buffer[14], buffer[15], buffer[16], buffer[17],
                                buffer[18], buffer[19], buffer[20], buffer[21], buffer[22], buffer[23]];
    }

    /** Header size, flags, window, a zero checksum and urgent pointer. */
    static method WriteControl(buffer: array<Byte>, flags: bv8)
      requires buffer.Length >= PSEUDO_SIZE + HEADER_SIZE
      modifies buffer
      ensures buffer[24..32] == Control(flags)
      ensures forall i :: 0 <= i < buffer.Length && !(24 <= i < 32) ==> buffer[i] == old(buffer[i])
    {
      buffer[24], buffer[25] := HEADER_WORDS * 16, flags as int;
      buffer[26], buffer[27] := 0xFF, 0xFF;
      buffer[28], buffer[29] := 0, 0;
      buffer[30], buffer[31] := 0, 0;
    }

    static method WriteOptions(buffer: array<Byte>, flags: bv8)
      requires buffer.Length >= PSEUDO_SIZE + HEADER_SIZE
      modifies buffer
      ensures buffer[32..36] == Bytes32(Options(flags))
      ensures forall i :: 0 <= i < buffer.Length && !(32 <= i < 36) ==> buffer[i] == old(buffer[i])
    {
      var o: Word := if flags & SYN != 0 then 0xB405_0402 else 0;
      buffer[32], buffer[33], buffer[34], buffer[35] := ByteAt(o, 0), ByteAt(o, 1), ByteAt(o, 2), ByteAt(o, 3);
    }

    static method WriteData(buffer: array<Byte>, data: seq<Byte>)
      requires buffer.Length == PSEUDO_SIZE + HEADER_SIZE + |data|
      modifies buffer
      ensures buffer[36..] == data
      ensures forall i :: 0 <= i < 36 ==> buffer[i] == old(buffer[i])
    {
      var i := 0;
      while i < |data|
        invariant 0 <= i <= |data|
        invariant buffer[36..36 + i] == data[..i]
        invariant forall j :: 0 <= j < 36 ==> buffer[j] == old(buffer[j])
      {
        buffer[36 + i] := data[i];
        i := i + 1;
      }
      assert buffer[36..] == buffer[36..36 + |data|];
    }

    static method WritePseudoHeader(buffer: array<Byte>, socket: TcpSocket, totalLength: Half, ghost m: Segment)
      requires buffer.Length >= PSEUDO_SIZE && |m.payload| + HEADER_SIZE == totalLength
      requires m.srcIP == socket.localIP && m.dstIP == socket.remoteIP
      modifies buffer
      ensures buffer[..12] == PseudoHeader(m)
      ensures forall i :: 12 <= i < buffer.Length ==> buffer[i] == old(buffer[i])
    {
      var s, d, l := socket.localIP, socket.remoteIP, SwapHalf(totalLength);
      buffer[0], buffer[1], buffer[2], buffer[3] := ByteAt(s, 0), ByteAt(s, 1), ByteAt(s, 2), ByteAt(s, 3);
      buffer[4], buffer[5], buffer[6], buffer[7] := ByteAt(d, 0), ByteAt(d, 1), ByteAt(d, 2), ByteAt(d, 3);
      buffer[8], buffer[9] := 0x00, 0x06;
      buffer[10], buffer[11] := l % 256, l / 256;
    }

    // ----- the user's side

    method Connect(ip: Word, port: Half) returns (socket: TcpSocket)
      requires Faithful()
      modifies this`sockets, this`freePort, this`wire, this`sentOut
      ensures Faithful() && fresh(socket) && sockets == old(sockets) + [socket] && socket.handler == null
      ensures freePort == (old(freePort) + 1) % 65536
      ensures var s := socket.View();
              && s.remoteIP == ip && s.remotePort == SwapHalf(port) && s.localIP == this.ip
              && s.localPort == SwapHalf(old(freePort)) && s.state == SYN_SENT && s.sequenceNumber == 0xBEEF_CAFE
              && sentOut == old(sentOut) + [Emit(s, 2, [])]
    {
      socket := new TcpSocket();
      socket.remotePort := port;
      socket.remoteIP := ip;
      socket.localPort := freePort;
      freePort := (freePort + 1) % 65536;
      socket.localIP := this.ip;
      socket.remotePort := SwapHalf(socket.remotePort);
      socket.localPort := SwapHalf(socket.localPort);
      sockets := sockets + [socket];
      socket.state := SYN_SENT;
      socket.sequenceNumber := ISS;
      Send(socket, [], SYN);
    }

    method Listen(port: Half) returns (socket: TcpSocket)
      modifies this`sockets
      ensures fresh(socket) && sockets == old(sockets) + [socket] && socket.handler == null
      ensures socket.state == LISTEN && socket.localIP == ip && socket.localPort == SwapHalf(port)
    {
      socket := new TcpSocket();
      socket.state := LISTEN;
      socket.localIP := ip;
      socket.localPort := SwapHalf(port);
      sockets := sockets + [socket];
    }

    method Disconnect(socket: TcpSocket)
      requires Faithful()
      modifies this`wire, this`sentOut, socket
      ensures Faithful()
      ensures var s := old(socket.View()).(state := FIN_WAIT1);
              socket.View() == Advanced(s, 1) && sentOut == old(sentOut) + [Emit(s, 17, [])]
    {
      socket.state := FIN_WAIT1;
      Send(socket, [], FIN + ACK);
      socket.sequenceNumber := Wrap(socket.sequenceNumber + 1);
    }

    /** The socket's `Send`, past its wait for ESTABLISHED. */
    method SendData(socket: TcpSocket, data: seq<Byte>)
      requires Faithful() && socket.state == ESTABLISHED && |data| + HEADER_SIZE + PSEUDO_SIZE < 65536
      modifies this`wire, this`sentOut, socket`sequenceNumber
      ensures Faithful() && socket.View() == Advanced(old(socket.View()), |data|)
      ensures sentOut == old(sentOut) + [Emit(old(socket.View()), 24, data)]
    {
      Send(socket, data, PSH | ACK);
    }

    // ----- receiving

    /** The lookup loop: the first matching socket. */
    method FindSocket(m: Segment) returns (found: TcpSocket?, ghost at: nat)
      ensures found == null ==> forall s :: s in sockets ==> !Matches(s.View(), m)
      ensures found != null ==> found in sockets && Matches(found.View(), m)
      ensures at <= |sockets| && forall j :: 0 <= j < at ==> !Matches(sockets[j].View(), m)
      ensures if at == |sockets| then found == null else found == sockets[at] && Matches(found.View(), m)
      ensures forall j :: 0 <= j < at ==> !OnConnection(sockets[j].View(), m) && !WouldOpen(sockets[j].View(), m)
      ensures found != null ==> OnConnection(found.View(), m) || WouldOpen(found.View(), m)
    {
      found := null;
      at := 0;
      var i := 0;
      while i < |sockets| && found == null
        invariant 0 <= at <= i <= |sockets|
        invariant forall j :: 0 <= j < at ==> !Matches(sockets[j].View(), m)
        invariant if found == null then at == i else at < |sockets| && found == sockets[at] && Matches(found.View(), m)
      {
        var s := sockets[i];
        if s.localPort == m.dstPort && s.localIP == m.dstIP && s.state == LISTEN && m.flags & (SYN | ACK) == SYN {
          found := s;
        } else if s.localPort == m.dstPort && s.localIP == m.dstIP
            && s.remotePort == m.srcPort && s.remoteIP == m.srcIP {
          found := s;
        } else {
          at := at + 1;
        }
        i := i + 1;
      }
      forall s | s in sockets { MatchesWhen(s.View(), m); }
    }

    method HandleSyn(socket: TcpSocket, m: Segment) returns (reset: bool)
      requires Faithful()
      modifies this`wire, this`sentOut, socket
      ensures Faithful() && socket.handler == old(socket.handler) && reset == (old(socket.state) != LISTEN)
      ensures reset ==> socket.View() == old(socket.View()) && sentOut == old(sentOut)
      ensures !reset ==> var r := OnSyn(old(socket.View()), m);
                         socket.View() == r.sock && sentOut == old(sentOut) + [r.out[0]]
    {
      reset := false;
      if socket.state == LISTEN {
        socket.state := SYN_RECEIVED;
        socket.remotePort := m.srcPort;
        socket.remoteIP := m.srcIP;
        socket.acknowledgementNumber := Wrap(m.seqNo + 1);
        socket.sequenceNumber := ISS;
        Send(socket, [], SYN | ACK);
        socket.sequenceNumber := Wrap(socket.sequenceNumber + 1);
      } else {
        reset := true;
      }
    }

    method HandleSynAck(socket: TcpSocket, m: Segment) returns (reset: bool)
      requires Faithful()
      modifies this`wire, this`sentOut, socket
      ensures Faithful() && socket.handler == old(socket.handler) && reset == (old(socket.state) != SYN_SENT)
      ensures reset ==> socket.View() == old(socket.View()) && sentOut == old(sentOut)
      ensures !reset ==> var r := OnSynAck(old(socket.View()), m);
                         socket.View() == r.sock && sentOut == old(sentOut) + [r.out[0]]
    {
      reset := false;
      if socket.state == SYN_SENT {
        socket.state := ESTABLISHED;
        socket.acknowledgementNumber := Wrap(m.seqNo + 1);
        socket.sequenceNumber := Wrap(socket.sequenceNumber + 1);
        Send(socket, [], ACK);
      } else {
        reset := true;
      }
    }

    method HandleFin(socket: TcpSocket) returns (reset: bool)
      requires Faithful()
      modifies this`wire, this`sentOut, socket
      ensures Faithful() && socket.handler == old(socket.handler)
      ensures reset == (old(socket.state) !in {ESTABLISHED, CLOSE_WAIT, FIN_WAIT1, FIN_WAIT2})
      ensures reset ==> socket.View() == old(socket.View()) && sentOut == old(sentOut)
      ensures !reset ==> var r := OnFin(old(socket.View()));
                         socket.View() == r.sock && sentOut == old(sentOut) + r.out
    {
      reset := false;
      if socket.state == ESTABLISHED {
        socket.state := CLOSE_WAIT;
        socket.acknowledgementNumber := Wrap(socket.acknowledgementNumber + 1);
        Send(socket, [], ACK);
        Send(socket, [], FIN | ACK);
      } else if socket.state == CLOSE_WAIT {
        socket.state := CLOSED;
      } else if socket.state == FIN_WAIT1 || socket.state == FIN_WAIT2 {
        socket.state := CLOSED;
        socket.acknowledgementNumber := Wrap(socket.acknowledgementNumber + 1);
        Send(socket, [], ACK);
      } else {
        reset := true;
      }
    }

    /** The loop that looks for the last non-zero byte of the data: 0 if it finds none. */
    static method LastNonZero(bytes: seq<Byte>, header: nat) returns (x: nat)
      requires header <= |bytes|
      ensures x == if Strip(bytes[header..]) == [] then 0 else header + |Strip(bytes[header..])| - 1
    {
      x := 0;
      var i := header;
      ghost var n := 0;
      while i < |bytes|
        invariant header <= i <= |bytes| && 0 <= n <= i - header
        invariant x == (if n == 0 then 0 else header + n - 1) && (n > 0 ==> bytes[header + n - 1] != 0)
        invariant forall j :: header + n <= j < i ==> bytes[j] == 0
      {
        if bytes[i] != 0 {
          x := i;
          n := i + 1 - header;
        }
        i := i + 1;
      }
      StripAt(bytes, header, n);
    }

    method HandleData(socket: TcpSocket, m: Segment, bytes: seq<Byte>) returns (reset: bool)
      requires Faithful() && |bytes| >= 4 * m.headerWords && m.payload == bytes[4 * m.headerWords..]
      modifies this`wire, this`sentOut, socket`acknowledgementNumber, socket`sequenceNumber, socket.Handlers()
      ensures var s, r := old(socket.View()), OnData(old(socket.View()), m, old(socket.Answer()));
              && Faithful() && reset == (m.seqNo != s.acknowledgementNumber || !old(socket.Answer()))
              && socket.View() == r.sock
              && (socket.handler != null ==> socket.handler.handed == old(socket.handler.handed) + r.handed)
              && sentOut == old(sentOut) + if reset then [] else [r.out[0]]
    {
      if m.seqNo == socket.acknowledgementNumber {
        var answer := socket.HandleMessage(bytes[4 * m.headerWords..]);
        reset := !answer;
        if !reset {
          var x := LastNonZero(bytes, 4 * m.headerWords);
          socket.acknowledgementNumber := Wrap(socket.acknowledgementNumber + (x - 4 * m.headerWords + 1));
          Send(socket, [], ACK);
        }
      } else {
        reset := true;
      }
    }

    method HandleAck(socket: TcpSocket, m: Segment, bytes: seq<Byte>) returns (reset: bool)
      requires Faithful() && |bytes| >= 4 * m.headerWords && m.payload == bytes[4 * m.headerWords..]
      modifies this`wire, this`sentOut, socket, socket.Handlers()
      ensures Faithful() && socket.handler == old(socket.handler)
      ensures AfterCase(old(socket.View()), OnAck(old(socket.View()), m, old(socket.Answer())), socket.View(), reset,
                        old(sentOut), sentOut)
      ensures socket.handler != null ==>
                socket.handler.handed ==
                old(socket.handler.handed) + OnAck(old(socket.View()), m, old(socket.Answer())).handed
    {
      reset := false;
      if socket.state == SYN_RECEIVED {
        socket.state := ESTABLISHED;
      } else if socket.state == FIN_WAIT1 {
        socket.state := FIN_WAIT2;
      } else if socket.state == CLOSE_WAIT {
        socket.state := CLOSED;
      } else if m.flags == ACK {
      } else {
        reset := HandleData(socket, m, bytes);
      }
    }

    /** The switch on SYN, ACK and FIN of a live socket. */
    method HandleLive(socket: TcpSocket, m: Segment, bytes: seq<Byte>) returns (reset: bool)
      requires Faithful() && |bytes| >= 4 * m.headerWords && m.payload == bytes[4 * m.headerWords..]
      requires m.flags & RST == 0 && socket.state != CLOSED
      modifies this`wire, this`sentOut, socket, socket.Handlers()
      ensures Faithful() && socket.handler == old(socket.handler)
      ensures AfterCase(old(socket.View()), React(old(socket.View()), m, old(socket.Answer())), socket.View(), reset,
                        old(sentOut), sentOut)
      ensures socket.handler != null ==>
                socket.handler.handed ==
                old(socket.handler.handed) + React(old(socket.View()), m, old(socket.Answer())).handed
    {
      var kind := m.flags & (SYN | ACK | FIN);
      if kind == SYN {
        reset := HandleSyn(socket, m);
      } else if kind == SYN | ACK {
        reset := HandleSynAck(socket, m);
      } else if kind == SYN | FIN || kind == SYN | FIN | ACK {
        reset := true;
      } else if kind == FIN || kind == FIN | ACK {
        reset := HandleFin(socket);
      } else if kind == ACK {
        reset := HandleAck(socket, m, bytes);
      } else {
        reset := HandleData(socket, m, bytes);
      }
    }

    /** What a matching socket does: a RST closes it, a live one goes through the switch, and a refusal
        is answered with a RST. */
    method ReactTo(socket: TcpSocket, m: Segment, bytes: seq<Byte>)
      requires Faithful() && |bytes| >= 4 * m.headerWords && m.payload == bytes[4 * m.headerWords..]
      modifies this`wire, this`sentOut, socket, socket.Handlers()
      ensures Faithful() && socket.handler == old(socket.handler)
      ensures var r := React(old(socket.View()), m, old(socket.Answer()));
              && socket.View() == r.sock && sentOut == old(sentOut) + r.out
              && (socket.handler != null ==> socket.handler.handed == old(socket.handler.handed) + r.handed)
    {
      if m.flags & RST != 0 {
        socket.state := CLOSED;
      }
      if socket.state != CLOSED {
        var reset := HandleLive(socket, m, bytes);
        if reset {
          Send(socket, [], RST);
        }
      }
    }

    ghost function Views(): (v: seq<Socket>)
      reads this, sockets
      ensures |v| == |sockets| && forall i :: 0 <= i < |v| ==> v[i] == sockets[i].View()
    {
      seq(|sockets|, i requires 0 <= i < |sockets| reads this, sockets => sockets[i].View())
    }

    /** Hand a segment to the first matching socket. */
    method Demultiplex(m: Segment, bytes: seq<Byte>)
      returns (ghost at: nat, ghost answer: bool, ghost handed: seq<seq<Byte>>)
      requires Faithful() && (forall i, j :: 0 <= i < j < |sockets| ==> sockets[i] != sockets[j])
      requires |bytes| >= 4 * m.headerWords && m.payload == bytes[4 * m.headerWords..]
      modifies this`wire, this`sentOut, sockets, set s, h | s in sockets && h in s.Handlers() :: h
      ensures Faithful() && sockets == old(sockets)
      ensures FirstReacts(old(Views()), m, at, answer, Views(), old(sentOut), sentOut, handed)
      ensures at < |sockets| ==> sockets[at].handler == old(sockets[at].handler) && answer == old(sockets[at].Answer())
      ensures at < |sockets| && sockets[at].handler == null ==> !answer
      ensures at < |sockets| && sockets[at].handler != null ==> answer == old(sockets[at].handler.accepts)
      ensures at < |sockets| && sockets[at].handler != null ==>
                sockets[at].handler.handed == old(sockets[at].handler.handed) + handed
    {
      var socket;
      socket, at := FindSocket(m);
      answer := socket != null && socket.Answer();
      handed := if socket == null then [] else React(socket.View(), m, answer).handed;
      if socket != null {
        ReactTo(socket, m, bytes);
      }
    }

    /** The receive entry: the first fourteen header bytes select a socket, which reacts; a segment no
        socket matches, or one too short, is dropped. */
    method OnInternetProtocolReceived(srcIP: Word, dstIP: Word, bytes: seq<Byte>)
      returns (ghost at: nat, ghost answer: bool, ghost handed: seq<seq<Byte>>)
      requires Faithful() && (forall i, j :: 0 <= i < j < |sockets| ==> sockets[i] != sockets[j])
      requires |bytes| >= 20 ==> bytes[12] / 16 * 4 <= |bytes|
      modifies this`wire, this`sentOut, sockets, set s, h | s in sockets && h in s.Handlers() :: h
      ensures Faithful() && sockets == old(sockets)
      ensures |bytes| < 20 ==> Views() == old(Views()) && sentOut == old(sentOut)
      ensures |bytes| >= 20 ==>
                FirstReacts(old(Views()), Parse(bytes, srcIP, dstIP), at, answer, Views(),
                            old(sentOut), sentOut, handed)
      ensures at < |sockets| ==> sockets[at].handler == old(sockets[at].handler) && answer == old(sockets[at].Answer())
      ensures at < |sockets| && sockets[at].handler == null ==> !answer
      ensures at < |sockets| && sockets[at].handler != null ==> answer == old(sockets[at].handler.accepts)
      ensures at < |sockets| && sockets[at].handler != null ==>
                sockets[at].handler.handed == old(sockets[at].handler.handed) + handed
    {
      if |bytes| < 20 {
        at, answer, handed := |sockets|, false, [];
        return;
      }
      at, answer, handed := Demultiplex(Parse(bytes, srcIP, dstIP), bytes);
    }
  }

  /** The first matching socket reacts, the others stay as they are, and just its answer is sent. */
  ghost predicate FirstReacts(vs: seq<Socket>, m: Segment, at: nat, answer: bool, vs': seq<Socket>,
                              before: seq<Segment>, after: seq<Segment>, handed: seq<seq<Byte>>) {
    && at <= |vs| == |vs'|
    && (forall j :: 0 <= j < at ==> !Matches(vs[j], m))
    && (forall j :: 0 <= j < |vs| && j != at ==> vs'[j] == vs[j])
    && if at == |vs| then after == before && handed == []
       else var r := React(vs[at], m, answer);
            Matches(vs[at], m) && vs'[at] == r.sock && after == before + r.out && handed == r.handed
  }

  /** What a case of the switch leaves: either its reaction carried out, or a request to reset with the
      socket untouched. */
  ghost predicate AfterCase(s: Socket, r: Reaction, s': Socket, reset: bool,
                            before: seq<Segment>, after: seq<Segment>)
  {
    if reset then s' == s == r.sock && after == before && r.out == [Emit(s, RST, [])]
    else s' == r.sock && after == before + r.out
  }
}
