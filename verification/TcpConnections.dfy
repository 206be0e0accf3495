/** A provider with many sockets: who hears a segment, and that connections do not disturb one another. */
module TcpConnections {
  import opened Words
  import opened TcpEndpoints
  import opened TcpProviders

  // ----- the lookup

  /** The socket that reacts is the first that the segment opens or that has its four addresses; if there is
      none, nothing changes, nothing is sent and nobody is asked. */
  lemma FirstHears(vs: seq<Socket>, m: Segment, at: nat, answer: bool, vs': seq<Socket>,
                   before: seq<Segment>, after: seq<Segment>, handed: seq<seq<Byte>>)
    requires FirstReacts(vs, m, at, answer, vs', before, after, handed)
    ensures at <= |vs| == |vs'| && forall j :: 0 <= j < at ==> !OnConnection(vs[j], m) && !WouldOpen(vs[j], m)
    ensures at < |vs| ==> OnConnection(vs[at], m) || WouldOpen(vs[at], m)
    ensures at == |vs| ==> vs' == vs && after == before && handed == []
  {
    forall j | 0 <= j < |vs| { MatchesWhen(vs[j], m); }
  }

  /** A socket that is not listening is not touched by a segment from or to anywhere else. */
  lemma StrangersIgnored(vs: seq<Socket>, m: Segment, at: nat, answer: bool, vs': seq<Socket>,
                         before: seq<Segment>, after: seq<Segment>, handed: seq<seq<Byte>>, j: nat)
    requires FirstReacts(vs, m, at, answer, vs', before, after, handed)
    requires j < |vs| && vs[j].state != LISTEN
    requires || m.srcIP != vs[j].remoteIP || m.srcPort != vs[j].remotePort
             || m.dstIP != vs[j].localIP || m.dstPort != vs[j].localPort
    ensures at != j && vs'[j] == vs[j]
  {
    FirstHears(vs, m, at, answer, vs', before, after, handed);
  }

  /** A segment is heard by its connection if no other socket has its addresses or listens at its destination. */
  lemma ConnectionHears(vs: seq<Socket>, m: Segment, at: nat, answer: bool, vs': seq<Socket>,
                        before: seq<Segment>, after: seq<Segment>, handed: seq<seq<Byte>>, j: nat)
    requires FirstReacts(vs, m, at, answer, vs', before, after, handed)
    requires j < |vs| && OnConnection(vs[j], m)
    requires forall i :: 0 <= i < |vs| && i != j ==>
               !OnConnection(vs[i], m) && !(vs[i].state == LISTEN && SentTo(vs[i], m))
    ensures at == j
    ensures var r := React(vs[j], m, answer); vs'[j] == r.sock && after == before + r.out && handed == r.handed
  {
    FirstHears(vs, m, at, answer, vs', before, after, handed);
  }

  // ----- runs

  /** A segment received, with the socket that reacted, its handler's answer and what that was handed; or the
      user of a socket sending data or disconnecting. */
  datatype Event =
    | Arrives(m: Segment, at: nat, answer: bool, handed: seq<seq<Byte>>)
    | Says(at: nat, data: seq<Byte>)
    | Leaves(at: nat)

  /** What a socket does by an event that concerns it. */
  ghost function Does(s: Socket, e: Event): Reaction {
    match e
    case Arrives(m, at, answer, handed) => React(s, m, answer)
    case Says(at, data) => Reaction(Advanced(s, |data|), [Emit(s, 24, data)], [])
    case Leaves(at) => var t := s.(state := FIN_WAIT1); Reaction(Advanced(t, 1), [Emit(t, 17, [])], [])
  }

  /** The sockets and everything sent so far, before and after an event. */
  ghost predicate Happens(vs: seq<Socket>, e: Event, vs': seq<Socket>, before: seq<Segment>, after: seq<Segment>) {
    if e.Arrives? then FirstReacts(vs, e.m, e.at, e.answer, vs', before, after, e.handed)
    else
      && e.at < |vs| && (e.Says? ==> vs[e.at].state == ESTABLISHED)
      && var r := Does(vs[e.at], e); vs' == vs[e.at := r.sock] && after == before + r.out
  }

  ghost predicate HappensAt(vss: seq<seq<Socket>>, logs: seq<seq<Segment>>, es: seq<Event>, i: nat)
    requires |vss| == |logs| == |es| + 1 && i < |es|
  {
    Happens(vss[i], es[i], vss[i + 1], logs[i], logs[i + 1])
  }

  ghost predicate Run(vss: seq<seq<Socket>>, logs: seq<seq<Segment>>, es: seq<Event>) {
    |vss| == |logs| == |es| + 1 && forall i :: 0 <= i < |es| ==> HappensAt(vss, logs, es, i)
  }

  /** Socket j is connected or connecting, and no other socket has its four addresses or listens where it is. */
  ghost predicate Alone(vs: seq<Socket>, j: nat) {
    && j < |vs| && vs[j].state != LISTEN
    && forall i :: 0 <= i < |vs| && i != j ==>
         || vs[i].localIP != vs[j].localIP || vs[i].localPort != vs[j].localPort
         || (vs[i].state != LISTEN && (vs[i].remoteIP != vs[j].remoteIP || vs[i].remotePort != vs[j].remotePort))
  }

  /** Socket j as if there were no others: a segment concerns it if it travels on its connection, what a user
      does if the user is its own. */
  ghost predicate Concerns(s: Socket, j: nat, e: Event) { if e.Arrives? then OnConnection(s, e.m) else e.at == j }

  ghost function Own(s: Socket, j: nat, e: Event): Reaction {
    if Concerns(s, j, e) then Does(s, e) else Reaction(s, [], [])
  }

  /** And a whole run: the last state, everything sent and everything handed to the handler. */
  ghost function Conversation(s: Socket, j: nat, es: seq<Event>): Reaction {
    if es == [] then Reaction(s, [], [])
    else
      var c := Conversation(s, j, es[..|es| - 1]);
      var r := Own(c.sock, j, es[|es| - 1]);
      Reaction(r.sock, c.out + r.out, c.handed + r.handed)
  }

  /** The segments sent on the socket's connection. */
  ghost function SentOn(s: Socket, log: seq<Segment>): seq<Segment> {
    if log == [] then []
    else SentOn(s, log[..|log| - 1]) + if IsFrom(s, log[|log| - 1]) then [log[|log| - 1]] else []
  }

  ghost predicate IsFrom(s: Socket, m: Segment) {
    m.srcIP == s.localIP && m.srcPort == s.localPort && m.dstIP == s.remoteIP && m.dstPort == s.remotePort
  }

  /** What the handler of socket j is handed. */
  ghost function HandedBy(j: nat, e: Event): seq<seq<Byte>> { if e.Arrives? && e.at == j then e.handed else [] }

  ghost function HandedTo(j: nat, es: seq<Event>): seq<seq<Byte>> {
    if es == [] then [] else HandedTo(j, es[..|es| - 1]) + HandedBy(j, es[|es| - 1])
  }

  ghost predicate SameAddresses(s: Socket, t: Socket) {
    && t.localIP == s.localIP && t.localPort == s.localPort
    && t.remoteIP == s.remoteIP && t.remotePort == s.remotePort
  }

  /** A reaction keeps the socket's own addresses, and its peer's unless it was listening; it goes out from the
      one to the other. */
  lemma ReactionAddresses(s: Socket, m: Segment, answer: bool)
    ensures var r := React(s, m, answer);
            && r.sock.localIP == s.localIP && r.sock.localPort == s.localPort
            && (s.state != LISTEN ==> r.sock.state != LISTEN && SameAddresses(s, r.sock))
            && (r.sock.state == LISTEN ==> s.state == LISTEN)
            && forall k :: k in r.out ==> IsFrom(r.sock, k)
  {
  }

  /** One socket at most changes, keeping its addresses unless it was listening, and sends to its peer. */
  ghost predicate OneActs(vs: seq<Socket>, at: nat, vs': seq<Socket>, out: seq<Segment>) {
    && |vs'| == |vs| && (forall i :: 0 <= i < |vs| && i != at ==> vs'[i] == vs[i])
    && if at >= |vs| then out == []
       else && vs'[at].localIP == vs[at].localIP && vs'[at].localPort == vs[at].localPort
            && (vs[at].state != LISTEN ==> vs'[at].state != LISTEN && SameAddresses(vs[at], vs'[at]))
            && forall k :: k in out ==> IsFrom(vs'[at], k)
  }

  lemma EventActs(vs: seq<Socket>, e: Event, vs': seq<Socket>, before: seq<Segment>, after: seq<Segment>)
    returns (out: seq<Segment>)
    requires Happens(vs, e, vs', before, after)
    ensures OneActs(vs, e.at, vs', out) && after == before + out
    ensures e.at < |vs| ==> vs'[e.at] == Does(vs[e.at], e).sock && out == Does(vs[e.at], e).out
  {
    if e.Arrives? && e.at < |vs| { ReactionAddresses(vs[e.at], e.m, e.answer); }
    out := if e.at < |vs| then Does(vs[e.at], e).out else [];
  }

  lemma {:induction false} SentOnConcat(s: Socket, a: seq<Segment>, b: seq<Segment>)
    ensures SentOn(s, a + b) == SentOn(s, a) + SentOn(s, b)
  {
    if b == [] {
      assert a + b == a;
    } else {
      SentOnConcat(s, a, b[..|b| - 1]);
      assert (a + b)[..|a + b| - 1] == a + b[..|b| - 1];
    }
  }

  lemma {:induction false} SentOnAll(s: Socket, b: seq<Segment>)
    ensures (forall k :: k in b ==> IsFrom(s, k)) ==> SentOn(s, b) == b
    ensures (forall k :: k in b ==> !IsFrom(s, k)) ==> SentOn(s, b) == []
  {
    if b != [] {
      SentOnAll(s, b[..|b| - 1]);
      assert b == b[..|b| - 1] + [b[|b| - 1]];
    }
  }

  lemma {:induction false} SameAddressesSameSent(s: Socket, t: Socket, log: seq<Segment>)
    requires SameAddresses(s, t)
    ensures SentOn(t, log) == SentOn(s, log)
  {
    if log != [] { SameAddressesSameSent(s, t, log[..|log| - 1]); }
  }

  lemma StaysAlone(vs: seq<Socket>, at: nat, vs': seq<Socket>, out: seq<Segment>, j: nat)
    requires OneActs(vs, at, vs', out) && Alone(vs, j)
    ensures Alone(vs', j) && SameAddresses(vs[j], vs'[j])
  {
  }

  /** What socket j sends, and nothing else, goes out on its connection. */
  lemma SendsOnOwn(vs: seq<Socket>, at: nat, vs': seq<Socket>, before: seq<Segment>, out: seq<Segment>, j: nat)
    requires OneActs(vs, at, vs', out) && Alone(vs, j)
    ensures SentOn(vs[j], before + out) == SentOn(vs[j], before) + if at == j then out else []
  {
    StaysAlone(vs, at, vs', out, j);
    SentOnConcat(vs[j], before, out);
    SentOnAll(vs[j], out);
  }

  /** An event is socket j's just if it concerns it alone. */
  lemma WhomItConcerns(vs: seq<Socket>, e: Event, vs': seq<Socket>, before: seq<Segment>, after: seq<Segment>, j: nat)
    requires Happens(vs, e, vs', before, after) && Alone(vs, j)
    ensures e.at == j <==> Concerns(vs[j], j, e)
    ensures HandedBy(j, e) == if e.at == j then Does(vs[j], e).handed else []
  {
    if e.Arrives? { FirstHears(vs, e.m, e.at, e.answer, vs', before, after, e.handed); }
  }

  /** Socket j does by an event what it would do alone. */
  lemma OwnStep(vs: seq<Socket>, e: Event, vs': seq<Socket>, before: seq<Segment>, after: seq<Segment>, j: nat)
    requires Happens(vs, e, vs', before, after) && Alone(vs, j)
    ensures Alone(vs', j) && SameAddresses(vs[j], vs'[j])
    ensures var r := Own(vs[j], j, e);
            && vs'[j] == r.sock && SentOn(vs[j], after) == SentOn(vs[j], before) + r.out && HandedBy(j, e) == r.handed
  {
    var out := EventActs(vs, e, vs', before, after);
    StaysAlone(vs, e.at, vs', out, j);
    SendsOnOwn(vs, e.at, vs', before, out, j);
    WhomItConcerns(vs, e, vs', before, after, j);
  }

  /** Connections do not disturb one another: over every run of a provider with any number of sockets, whose
      users send and disconnect while segments arrive, a connection that is alone on its addresses ends in
      exactly the state, has sent exactly the segments and has handed on exactly the data that it would have
      with its own segments and its own user only. */
  lemma {:induction false} ConnectionsAreIsolated(vss: seq<seq<Socket>>, logs: seq<seq<Segment>>, es: seq<Event>,
                                                  n: nat, j: nat)
    requires Run(vss, logs, es) && n <= |es| && Alone(vss[0], j) && logs[0] == []
    ensures Alone(vss[n], j) && SameAddresses(vss[0][j], vss[n][j])
    ensures var c := Conversation(vss[0][j], j, es[..n]);
            vss[n][j] == c.sock && SentOn(vss[0][j], logs[n]) == c.out && HandedTo(j, es[..n]) == c.handed
  {
    if n > 0 {
      ConnectionsAreIsolated(vss, logs, es, n - 1, j);
      assert HappensAt(vss, logs, es, n - 1);
      OwnStep(vss[n - 1], es[n - 1], vss[n], logs[n - 1], logs[n], j);
      SameAddressesSameSent(vss[0][j], vss[n - 1][j], logs[n - 1]);
      SameAddressesSameSent(vss[0][j], vss[n - 1][j], logs[n]);
      assert es[..n][..n - 1] == es[..n - 1] && es[..n][n - 1] == es[n - 1];
    }
  }
}
