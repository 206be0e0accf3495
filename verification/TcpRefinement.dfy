/** From bytes and objects to peers: each thing a user or the network does to the provider's objects is
    the step the network model takes, and what goes out are the bytes of the segments the model sends. */
module TcpRefinement {
  import opened Words
  import opened TcpEndpoints
  import opened TcpNetworks
  import opened TcpWire
  import opened TcpProviders
  import TcpZeroData

  /** A socket and all its provider has sent show the peer. */
  ghost predicate Shows(s: Socket, sentOut: seq<Segment>, p: Peer) { s == p.sock && ToSet(sentOut) == p.out }

  lemma ToSetConcat(ms: seq<Segment>, ns: seq<Segment>)
    ensures ToSet(ms + ns) == ToSet(ms) + ToSet(ns)
  {
  }

  /** Since every datagram is the bytes of its segment, one more segment is one more datagram. */
  lemma OneMoreDatagram(before: seq<Datagram>, after: seq<Datagram>, ms: seq<Segment>, m: Segment)
    requires |before| == |ms| && forall i {:trigger before[i]} :: 0 <= i < |ms| ==> IsDatagramOf(before[i], ms[i])
    requires |after| == |ms| + 1
    requires forall i {:trigger after[i]} :: 0 <= i <= |ms| ==> IsDatagramOf(after[i], (ms + [m])[i])
    ensures |m.payload| + HEADER_SIZE < 65536 && after == before + [Datagram(m.dstIP, Wire(m))]
  {
    assert IsDatagramOf(after[|ms|], m);
    assert forall i :: 0 <= i < |ms| ==> after[i] == before[i];
  }

  // ----- the user's side

  /** `Listen` on one provider and `Connect` to it from another are an initial state of the network, the
      client aimed at the server, with the SYN's bytes on their way. */
  method ListenThenConnect(client: TcpProvider, server: TcpProvider, port: Half) returns (x: TcpSocket, y: TcpSocket)
    requires client != server && client.Faithful() && client.sentOut == server.sentOut == []
    modifies client, server
    ensures var s := System(Peer(x.View(), [], [], ToSet(client.sentOut)),
                            Peer(y.View(), [], [], ToSet(server.sentOut)));
            Initial(s) && TcpZeroData.Aimed(s)
    ensures client.Faithful() && client.wire == [Datagram(server.ip, Wire(Emit(x.View(), SYN, [])))]
  {
    y := server.Listen(port);
    ghost var wire := client.wire;
    x := client.Connect(server.ip, port);
    OneMoreDatagram(wire, client.wire, [], Emit(x.View(), SYN, []));
    assert ToSet([]) == {} && ToSet([Emit(x.View(), SYN, [])]) == {Emit(x.View(), SYN, [])};
  }

  /** A user's send is the peer's send, and puts the bytes of its segment on the wire. */
  method SendIsUserSend(provider: TcpProvider, socket: TcpSocket, data: seq<Byte>, ghost p: Peer)
    requires provider.Faithful() && Shows(socket.View(), provider.sentOut, p) && SendOk(p, data)
    modifies provider`wire, provider`sentOut, socket`sequenceNumber
    ensures provider.Faithful() && Shows(socket.View(), provider.sentOut, UserSend(p, data))
    ensures provider.wire == old(provider.wire) + [Datagram(p.sock.remoteIP, Wire(Emit(p.sock, PSH | ACK, data)))]
  {
    ghost var wire, ms, m := provider.wire, provider.sentOut, Emit(p.sock, PSH | ACK, data);
    provider.SendData(socket, data);
    ToSetConcat(ms, [m]);
    OneMoreDatagram(wire, provider.wire, ms, m);
  }

  /** A user's disconnect is the peer's disconnect, and puts the bytes of the FIN on the wire. */
  method DisconnectIsUserDisconnect(provider: TcpProvider, socket: TcpSocket, ghost p: Peer)
    requires provider.Faithful() && Shows(socket.View(), provider.sentOut, p) && p.sock.state == ESTABLISHED
    modifies provider`wire, provider`sentOut, socket
    ensures provider.Faithful() && Shows(socket.View(), provider.sentOut, UserDisconnect(p))
    ensures var m := Emit(p.sock.(state := FIN_WAIT1), FIN | ACK, []);
            provider.wire == old(provider.wire) + [Datagram(p.sock.remoteIP, Wire(m))]
  {
    ghost var wire, ms, m := provider.wire, provider.sentOut, Emit(p.sock.(state := FIN_WAIT1), FIN | ACK, []);
    provider.Disconnect(socket);
    ToSetConcat(ms, [m]);
    OneMoreDatagram(wire, provider.wire, ms, m);
  }

  // ----- the network's side

  /** Putting a sent segment's bytes, padded, through the receive entry of a provider with one socket
      is a delivery to the peer that socket stands for: same socket, same segments sent, same bytes accepted. */
  lemma ReceivedBytesAreDelivery(p: Peer, m: Segment, pad: nat, at: nat, answer: bool,
                                 vs: seq<Socket>, before: seq<Segment>, after: seq<Segment>, handed: seq<seq<Byte>>)
    requires m.headerWords == HEADER_WORDS && |m.payload| + HEADER_SIZE < 65536 && ToSet(before) == p.out
    requires var b := Wire(m) + Zeros(pad);
             && |b| >= 20 && b[12] / 16 * 4 <= |b|
             && FirstReacts([p.sock], Parse(b, m.srcIP, m.dstIP), at, answer, vs, before, after, handed)
    ensures var p' := Receive(p, Padded(m, pad), answer);
            && vs == [p'.sock] && p'.out == ToSet(after)
            && p'.got == p.got + if answer && handed != [] then Strip(handed[0]) else []
  {
    WireRoundTrip(m, pad);
    var n := Padded(m, pad);
    if at == 0 {
      ToSetConcat(before, React(p.sock, n, answer).out);
    } else {
      assert !Matches([p.sock][0], n);
    }
  }

  /** The same of the objects: the receive entry, given those bytes, performs the delivery. */
  method ReceiveIsDelivery(provider: TcpProvider, socket: TcpSocket, bytes: seq<Byte>, ghost m: Segment, ghost pad: nat,
                           srcIP: Word, dstIP: Word, ghost p: Peer)
    returns (ghost answer: bool, ghost handed: seq<seq<Byte>>)
    requires provider.Faithful() && provider.sockets == [socket] && Shows(socket.View(), provider.sentOut, p)
    requires m.headerWords == HEADER_WORDS && |m.payload| + HEADER_SIZE < 65536 && srcIP == m.srcIP && dstIP == m.dstIP
    requires bytes == Wire(m) + Zeros(pad)
    modifies provider`wire, provider`sentOut, socket, socket.Handlers()
    ensures provider.Faithful() && provider.sockets == [socket]
    ensures var p' := Receive(p, Padded(m, pad), answer);
            && Shows(socket.View(), provider.sentOut, p')
            && p'.got == p.got + if answer && handed != [] then Strip(handed[0]) else []
    ensures Matches(p.sock, Padded(m, pad)) ==> answer == old(socket.Answer())
    ensures Matches(p.sock, Padded(m, pad)) && old(socket.handler) != null ==>
              socket.handler == old(socket.handler) && socket.handler.handed == old(socket.handler.handed) + handed
  {
    WireRoundTrip(m, pad);
    ghost var before := provider.sentOut;
    assert provider.Views() == [p.sock];
    ghost var at;
    at, answer, handed := provider.OnInternetProtocolReceived(srcIP, dstIP, bytes);
    ReceivedBytesAreDelivery(p, m, pad, at, answer, provider.Views(), before, provider.sentOut, handed);
    assert provider.Views()[0] == socket.View();
  }
}
