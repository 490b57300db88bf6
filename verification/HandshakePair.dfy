/** A client and a server of one handshake, and what is on its way between them. */
module HandshakePair {
  import opened HandshakeScript
  import opened HandshakeMachines

  function Wrapped(inbox: seq<Msg>): (items: seq<Item>)
    ensures |items| == |inbox|
    ensures inbox != [] ==> items != [] && items[0] == Hs(inbox[0]) && items[1..] == Wrapped(inbox[1..])
  {
    if inbox == [] then [] else [Hs(inbox[0])] + Wrapped(inbox[1..])
  }

  // ---------------------------------------------------------- one side and its peer

  /** What one side of a handshake has around it: the plan, the peer's place and transcript, what
      is on its way to the peer ahead of what is pending here, and on its way here behind what
      was opened. */
  datatype Around = Around(x: Plan, place: nat, transcript: seq<Msg>, before: seq<Item>, behind: seq<Item>)

  /** A side at place i with this connection is in step with its peer. */
  predicate At(o: Around, server: bool, i: nat, c: Conn) {
    InStep(o.x, server, i, o.place, c.transcript, o.transcript, o.before + c.pending, Wrapped(c.inbox) + o.behind)
  }

  lemma HashedOne(m: Msg)
    ensures Hashed([Hs(m)]) == [m] && Hashed([Ccs]) == [] && Hashed([]) == []
  {
  }

  /** Passing over a place with the connection as it is. */
  lemma Over(o: Around, server: bool, i: nat, c: Conn)
    requires At(o, server, i, c) && Said(o.x, i) == []
    ensures At(o, server, i + 1, c)
  {
    StepOver(o.x, server, i, o.place, c.transcript, o.transcript, o.before + c.pending, Wrapped(c.inbox) + o.behind);
  }

  lemma SoFar(o: Around, server: bool, i: nat, c: Conn)
    requires At(o, server, i, c)
    ensures c.transcript == Sent(o.x, i)
  {
  }

  lemma Say(o: Around, server: bool, i: nat, c: Conn)
    requires At(o, server, i, c) && FromServer(o.x, i) == server
    ensures At(o, server, i + 1, Says(c, Said(o.x, i))) && c.transcript == Sent(o.x, i)
    ensures Said(o.x, i) == [] ==> Says(c, Said(o.x, i)) == c
    ensures Says(c, Said(o.x, i)).wait == c.wait && Says(c, Said(o.x, i)).inbox == c.inbox
  {
    hide Said, FromServer, InStep, Sent, Speaks;
    SoFar(o, server, i, c);
    StepSay(o.x, server, i, o.place, c.transcript, o.transcript, o.before + c.pending, Wrapped(c.inbox) + o.behind);
    assert o.before + (c.pending + Said(o.x, i)) == o.before + c.pending + Said(o.x, i);
    if Said(o.x, i) == [] {
      HashedOne(Msg(ClientHello, Nothing));
      assert c.pending + [] == c.pending && c.transcript + [] == c.transcript;
    }
  }

  lemma Hear(o: Around, server: bool, i: nat, c: Conn)
    requires At(o, server, i, c) && Said(o.x, i) != [] && c.inbox != []
    ensures Said(o.x, i) == [Hs(c.inbox[0])] && c.transcript == Sent(o.x, i)
    ensures At(o, server, i + 1, Hears(c))
  {
    hide Said, FromServer, InStep, Sent, Hashed, Speaks, Wrapped;
    SoFar(o, server, i, c);
    var back := Wrapped(c.inbox) + o.behind;
    WrappedFirst(c.inbox, o.behind);
    StepHear(o.x, server, i, o.place, c.transcript, o.transcript, o.before + c.pending, back);
    JustOne(Said(o.x, i), c.inbox[0]);
    HashedOne(c.inbox[0]);
  }

  lemma WrappedFirst(inbox: seq<Msg>, behind: seq<Item>)
    requires inbox != []
    ensures Wrapped(inbox) + behind != [] && (Wrapped(inbox) + behind)[0] == Hs(inbox[0])
    ensures (Wrapped(inbox) + behind)[1..] == Wrapped(inbox[1..]) + behind
  {
    hide Wrapped;
    DropFirst(Wrapped(inbox), behind);
  }

  lemma DropFirst<T>(a: seq<T>, b: seq<T>)
    requires a != []
    ensures (a + b)[0] == a[0] && (a + b)[1..] == a[1..] + b
  {
  }

  lemma JustOne(items: seq<Item>, m: Msg)
    requires |items| == 1 && items[0] == Hs(m)
    ensures items == [Hs(m)]
  {
  }

  /** The message at hand was said at the first place from here where anything is said. */
  lemma Peek(o: Around, server: bool, i: nat, c: Conn) returns (k: nat)
    requires At(o, server, i, c) && c.inbox != []
    ensures i <= k && Said(o.x, k) == [Hs(c.inbox[0])] && forall l: nat :: i <= l < k ==> Said(o.x, l) == []
  {
    hide Said, InStep, FromServer;
    k := ComesNext(o.x, server, i, o.place, c.transcript, o.transcript, o.before + c.pending, Wrapped(c.inbox) + o.behind);
  }

  /** The wait is no part of being in step. */
  lemma AnyWait(o: Around, server: bool, i: nat, c: Conn, wait: Wait)
    requires At(o, server, i, c)
    ensures At(o, server, i, Waits(c, wait))
  {
  }

  lemma SaidHellos(x: Plan)
    ensures Said(x, 0) == Only(true, ClientHello, Nothing) && Said(x, 1) == Only(true, ServerHello, Negotiated(x.p))
  {
  }

  lemma SaidByServer(x: Plan)
    requires !x.p.resumed
    ensures Said(x, 2) == Only(x.p.certAuth, Certificate, Chain(false))
    ensures Said(x, 3) == Only(x.p.certAuth && x.p.status, CertificateStatus, Nothing)
    ensures Said(x, 4) == Only(x.p.sendsSke, ServerKeyExchange, Nothing)
    ensures Said(x, 5) == Only(x.p.certRequest, CertificateRequest, Nothing)
    ensures Said(x, 6) == Only(true, ServerHelloDone, Nothing)
  {
  }

  lemma SaidByClient(x: Plan)
    requires !x.p.resumed
    ensures Said(x, 7) == Only(x.p.certRequest, Certificate, Chain(!x.hasCert))
    ensures Said(x, 8) == Only(true, ClientKeyExchange, Nothing)
    ensures Said(x, 9) == Only(x.p.certRequest && x.hasCert, CertificateVerify, Nothing)
  {
  }

  /** Where the client's and the server's last flights begin. */
  function ClientEnd(x: Plan): nat {
    if x.p.resumed then 5 else 10
  }

  function ServerEnd(x: Plan): nat {
    if x.p.resumed then 2 else 14
  }

  lemma SaidAtEnd(x: Plan)
    ensures var k := ClientEnd(x);
            && Said(x, k) == [Ccs] && Said(x, k + 1) == Only(x.p.npn, NextProto, Nothing)
            && Said(x, k + 2) == Only(x.p.channelId, ChannelId, Nothing)
            && Said(x, k + 3) == Only(true, Finished, Mac(false, Sent(x, k + 3)))
    ensures var k := ServerEnd(x);
            && Said(x, k) == Only(x.p.ticket, NewSessionTicket, Nothing) && Said(x, k + 1) == [Ccs]
            && Said(x, k + 2) == Only(true, Finished, Mac(true, Sent(x, k + 2)))
  {
    hide Sent;
  }

  // ------------------------------------------------------------------- the client

  /** The client is in a state that needs a message. */
  predicate ClientWants(c: Client) {
    match c.state
    case ReadServerCertificate => c.p.certAuth
    case ReadCertificateStatus => c.p.status
    case ReadServerKeyExchange => true
    case ReadCertificateRequest => c.p.certAuth
    case ReadServerHelloDone => true
    case ReadSessionTicket => c.p.ticket
    case ReadServerFinished => true
    case _ => false
  }

  predicate ClientWaits(c: Client) {
    match c.conn.wait
    case ReadMessage => c.conn.inbox == [] && ClientWants(c)
    case ReadServerHello => c.conn.inbox == [] && c.state.AwaitServerHello?
    case ReadChangeCipherSpec => c.state.ProcessServerCcs?
    case _ => true
  }

  /** What the client's fields say at each state. */
  predicate ClientKnows(x: Plan, c: Client) {
    var stage := ClientStage(c.state);
    && ParamsOk(x.p) && c.hasCert == x.hasCert
    && (stage.settled ==> c.p == x.p)
    && (stage.fullOnly ==> !x.p.resumed)
    && c.certRequest == (stage.asked && x.p.certRequest)
    && (c.conn.pending != [] ==> stage.sending || c.conn.wait == Flush || c.conn.wait == Failed)
    && ClientWaits(c)
  }

  predicate ClientOk(c: Client, o: Around) {
    ClientKnows(o.x, c) && At(o, false, ClientPlace(c), c.conn)
  }

  /** Reading the one message that can come. */
  lemma ClientReadsOk(c: Client, o: Around, i: nat, kind: Kind, info: Info, next: ClientState)
    requires At(o, false, i, c.conn) && Said(o.x, i) == Only(true, kind, info)
    ensures var c' := ClientReads(c, kind, next);
            if c.conn.inbox == [] then
              c' == c.(conn := Waits(c.conn, ReadMessage)) && At(o, false, i, c'.conn)
            else
              && c.conn.inbox[0] == Msg(kind, info) && c.conn.transcript == Sent(o.x, i)
              && c' == ClientTo(c, next, Hears(c.conn)) && At(o, false, i + 1, c'.conn)
  {
    hide At, Said, Sent, Hashed;
    if c.conn.inbox == [] { AnyWait(o, false, i, c.conn, ReadMessage); } else { Hear(o, false, i, c.conn); }
  }

  lemma ClientStuck(c: Client, kind: Kind, next: ClientState)
    ensures c.conn.inbox == [] ==> ClientReads(c, kind, next) == c.(conn := Waits(c.conn, ReadMessage))
  {
  }

  /** Whatever message is at hand while the server's first flight is read. */
  lemma FlightRead(o: Around, i: nat, c: Conn)
    requires At(o, false, i, c) && !o.x.p.resumed && 2 <= i <= 6
    ensures Said(o.x, i) == [] ==> At(o, false, i + 1, c)
    ensures Said(o.x, i) == [] && c.inbox != [] ==>
              && (i == 3 ==> c.inbox[0].kind != CertificateStatus)
              && (i == 4 ==> c.inbox[0].kind != ServerKeyExchange)
              && (i == 5 ==> c.inbox[0].kind == ServerHelloDone)
    ensures Said(o.x, i) != [] && c.inbox != [] ==> Said(o.x, i) == [Hs(c.inbox[0])] && At(o, false, i + 1, Hears(c))
  {
    hide At, Said;
    SaidByServer(o.x);
    if Said(o.x, i) == [] {
      Over(o, false, i, c);
      if c.inbox != [] {
        var k := Peek(o, false, i, c);
        assert k <= 6;
      }
    } else if c.inbox != [] {
      Hear(o, false, i, c);
    }
  }

  lemma ClientStartConnectOk(c: Client, env: Env, o: Around)
    requires ClientOk(c, o) && c.conn.wait == Ready && c.state.StartConnect?
    ensures ClientOk(ClientListens(c, env), o) && ClientListens(c, env).conn.wait != Failed
  {
    hide At, Said, Sent, Hashed;
    SaidHellos(o.x);
    Say(o, false, 0, c.conn);
    AnyWait(o, false, 1, Says(c.conn, Said(o.x, 0)), Flush);
  }

  lemma ClientAwaitServerHelloOk(c: Client, env: Env, o: Around)
    requires ClientOk(c, o) && c.conn.wait == Ready && c.state.AwaitServerHello?
    ensures ClientOk(ClientListens(c, env), o) && ClientListens(c, env).conn.wait != Failed
  {
    hide At, Said, Sent, Hashed;
    SaidHellos(o.x);
    if c.conn.inbox == [] { AnyWait(o, false, 1, c.conn, ReadServerHello); } else { Hear(o, false, 1, c.conn); }
  }

  lemma ClientReadServerCertificateOk(c: Client, env: Env, o: Around)
    requires ClientOk(c, o) && c.conn.wait == Ready && c.state.ReadServerCertificate?
    ensures ClientOk(ClientListens(c, env), o) && ClientListens(c, env).conn.wait != Failed
  {
    hide At, Said, Sent, Hashed, ClientReads, Hears;
    HearsKeeps(c.conn);
    SaidByServer(o.x);
    if c.p.certAuth {
      ClientReadsOk(c, o, 2, Certificate, Chain(false), ReadCertificateStatus);
    } else {
      Over(o, false, 2, c.conn);
    }
  }

  lemma ClientReadCertificateStatusOk(c: Client, env: Env, o: Around)
    requires ClientOk(c, o) && c.conn.wait == Ready && c.state.ReadCertificateStatus?
    ensures ClientOk(ClientListens(c, env), o) && ClientListens(c, env).conn.wait != Failed
  {
    hide At, Said, Sent, Hashed, ClientReads;
    SaidByServer(o.x);
    FlightRead(o, 3, c.conn);
    if c.p.certAuth && c.p.status {
      ClientReadsOk(c, o, 3, CertificateStatus, Nothing, VerifyServerCertificate);
    } else {
      ClientStuck(c, CertificateStatus, VerifyServerCertificate);
      AnyWait(o, false, 3, c.conn, ReadMessage);
    }
  }

  lemma ClientReadServerKeyExchangeOk(c: Client, env: Env, o: Around)
    requires ClientOk(c, o) && c.conn.wait == Ready && c.state.ReadServerKeyExchange?
    ensures ClientOk(ClientListens(c, env), o) && ClientListens(c, env).conn.wait != Failed
  {
    hide At, Said, Sent, Hashed, ClientReads;
    SaidByServer(o.x);
    FlightRead(o, 4, c.conn);
    if c.p.sendsSke {
      ClientReadsOk(c, o, 4, ServerKeyExchange, Nothing, ReadCertificateRequest);
    } else {
      ClientStuck(c, ServerKeyExchange, ReadCertificateRequest);
      AnyWait(o, false, 4, c.conn, ReadMessage);
    }
  }

  lemma ClientReadCertificateRequestOk(c: Client, env: Env, o: Around)
    requires ClientOk(c, o) && c.conn.wait == Ready && c.state.ReadCertificateRequest?
    ensures ClientOk(ClientListens(c, env), o) && ClientListens(c, env).conn.wait != Failed
  {
    hide At, Said, Sent, Hashed, ClientReads, Hears;
    HearsKeeps(c.conn);
    SaidByServer(o.x);
    FlightRead(o, 5, c.conn);
    if c.p.certRequest {
      ClientReadsOk(c, o, 5, CertificateRequest, Nothing, ReadServerHelloDone);
    } else {
      ClientStuck(c, CertificateRequest, ReadServerHelloDone);
      AnyWait(o, false, 5, c.conn, ReadMessage);
    }
  }

  lemma ClientReadServerHelloDoneOk(c: Client, env: Env, o: Around)
    requires ClientOk(c, o) && c.conn.wait == Ready && c.state.ReadServerHelloDone?
    ensures ClientOk(ClientListens(c, env), o) && ClientListens(c, env).conn.wait != Failed
  {
    hide At, Said, Sent, Hashed, ClientReads, Hears;
    HearsKeeps(c.conn);
    SaidByServer(o.x);
    ClientReadsOk(c, o, 6, ServerHelloDone, Nothing, SendClientCertificate);
  }

  lemma ClientVerifyServerCertificateOk(c: Client, env: Env, o: Around)
    requires ClientOk(c, o) && c.conn.wait == Ready && c.state.VerifyServerCertificate?
    ensures ClientOk(ClientListens(c, env), o) && ClientListens(c, env).conn.wait != Failed
  {
    hide At, Said, Sent, Hashed;
    AnyWait(o, false, 4, c.conn, Suspended);
  }

  lemma ClientEnterEarlyDataOk(c: Client, env: Env, o: Around)
    requires ClientOk(c, o) && c.conn.wait == Ready && c.state.EnterEarlyData?
    ensures ClientOk(ClientListens(c, env), o) && ClientListens(c, env).conn.wait != Failed
  {
    hide At, Said, Sent, Hashed;
  }

  lemma ClientSendClientCertificateOk(c: Client, env: Env, o: Around)
    requires ClientOk(c, o) && c.conn.wait == Ready && c.state.SendClientCertificate?
    ensures ClientOk(ClientAnswers(c, env), o) && ClientAnswers(c, env).conn.wait != Failed
  {
    hide At, Said, Sent, Hashed;
    SaidByClient(o.x);
    Say(o, false, ClientPlace(c), c.conn);
    AnyWait(o, false, ClientPlace(c), c.conn, Suspended);
  }

  lemma ClientSendClientKeyExchangeOk(c: Client, env: Env, o: Around)
    requires ClientOk(c, o) && c.conn.wait == Ready && c.state.SendClientKeyExchange?
    ensures ClientOk(ClientAnswers(c, env), o) && ClientAnswers(c, env).conn.wait != Failed
  {
    hide At, Said, Sent, Hashed;
    SaidByClient(o.x);
    Say(o, false, ClientPlace(c), c.conn);
    AnyWait(o, false, ClientPlace(c), c.conn, Suspended);
  }

  lemma ClientSendClientCertificateVerifyOk(c: Client, env: Env, o: Around)
    requires ClientOk(c, o) && c.conn.wait == Ready && c.state.SendClientCertificateVerify?
    ensures ClientOk(ClientAnswers(c, env), o) && ClientAnswers(c, env).conn.wait != Failed
  {
    hide At, Said, Sent, Hashed;
    SaidByClient(o.x);
    Say(o, false, ClientPlace(c), c.conn);
    AnyWait(o, false, ClientPlace(c), c.conn, Suspended);
  }

  lemma ClientSendClientFinishedOk(c: Client, env: Env, o: Around)
    requires ClientOk(c, o) && c.conn.wait == Ready && c.state.SendClientFinished?
    ensures ClientOk(ClientAnswers(c, env), o) && ClientAnswers(c, env).conn.wait != Failed
  {
    hide At, Said, Sent, Hashed, Says;
    SaidAtEnd(o.x);
    var k := ClientEnd(o.x);
    AnyWait(o, false, k, c.conn, Suspended);
    Say(o, false, k, c.conn);
    var c1 := Says(c.conn, Said(o.x, k));
    Say(o, false, k + 1, c1);
    var c2 := Says(c1, Said(o.x, k + 1));
    Say(o, false, k + 2, c2);
    var c3 := Says(c2, Said(o.x, k + 2));
    Say(o, false, k + 3, c3);
    AnyWait(o, false, k + 4, Says(c3, Said(o.x, k + 3)), Flush);
  }

  lemma PlacesAtEnd(c: Client, x: Plan)
    requires ClientKnows(x, c) && (c.state.ReadSessionTicket? || c.state.ReadServerFinished?)
    ensures ClientPlace(c) == ServerEnd(x) + if c.state.ReadSessionTicket? then 0 else 2
  {
  }

  lemma HearsKeeps(c: Conn)
    ensures c.inbox != [] ==> Hears(c).wait == c.wait && Hears(c).pending == c.pending
  {
  }

  lemma ClientReadSessionTicketOk(c: Client, env: Env, o: Around)
    requires ClientOk(c, o) && c.conn.wait == Ready && c.state.ReadSessionTicket?
    ensures ClientOk(ClientCloses(c, env), o) && ClientCloses(c, env).conn.wait != Failed
  {
    hide At, Said, Sent, Hashed, ClientReads, Hears, ServerEnd, ClientCloses, Only;
    PlacesAtEnd(c, o.x);
    SaidAtEnd(o.x);
    NothingOnly();
    var k := ClientPlace(c);
    SessionTicketRead(c, env);
    if !c.p.ticket {
      Over(o, false, k, c.conn);
      AnyWait(o, false, k + 1, c.conn, ReadChangeCipherSpec);
    } else {
      ClientReadsOk(c, o, k, NewSessionTicket, Nothing, ProcessServerCcs);
      HearsKeeps(c.conn);
      if c.conn.inbox != [] { AnyWait(o, false, k + 1, Hears(c.conn), ReadChangeCipherSpec); }
    }
  }

  lemma NothingOnly()
    ensures forall kind, info :: Only(false, kind, info) == []
  {
  }

  lemma SessionTicketRead(c: Client, env: Env)
    requires c.conn.wait == Ready && c.state.ReadSessionTicket?
    ensures var c' := ClientReads(c, NewSessionTicket, ProcessServerCcs);
            ClientCloses(c, env)
            == if !c.p.ticket then ClientTo(c, ProcessServerCcs, Waits(c.conn, ReadChangeCipherSpec))
               else if c'.state == ProcessServerCcs then c'.(conn := Waits(c'.conn, ReadChangeCipherSpec)) else c'
  {
  }

  lemma ClientReadServerFinishedOk(c: Client, env: Env, o: Around)
    requires ClientOk(c, o) && c.conn.wait == Ready && c.state.ReadServerFinished?
    ensures ClientOk(ClientCloses(c, env), o) && ClientCloses(c, env).conn.wait != Failed
  {
    hide At, Said, Sent, Hashed, ClientReads, Hears, ServerEnd, ClientCloses, Only;
    PlacesAtEnd(c, o.x);
    SaidAtEnd(o.x);
    var k := ClientPlace(c);
    var next := if c.p.resumed then SendClientFinished else FinishClientHandshake;
    ClientReadsOk(c, o, k, Finished, Mac(true, Sent(o.x, k)), next);
    ServerFinishedRead(c, env);
    HearsKeeps(c.conn);
  }

  lemma ServerFinishedRead(c: Client, env: Env)
    requires c.conn.wait == Ready && c.state.ReadServerFinished?
    requires c.conn.inbox != [] ==> c.conn.inbox[0] == Msg(Finished, Mac(true, c.conn.transcript))
    ensures ClientCloses(c, env)
         == ClientReads(c, Finished, if c.p.resumed then SendClientFinished else FinishClientHandshake)
  {
  }

  lemma ClientProcessServerCcsOk(c: Client, env: Env, o: Around)
    requires ClientOk(c, o) && c.conn.wait == Ready && (c.state.ProcessServerCcs? || c.state.FinishFlight? || c.state.FinishClientHandshake? || c.state.ClientDone?)
    ensures ClientOk(ClientCloses(c, env), o) && ClientCloses(c, env).conn.wait != Failed
  {
    hide At, Said, Sent, Hashed;
  }

  /** No do_ function of the client breaks step, and none fails unless a callback does. */
  lemma ClientDoOk(c: Client, env: Env, o: Around)
    requires ClientOk(c, o) && c.conn.wait == Ready
    ensures ClientOk(ClientDo(c, env), o) && (env != Fail ==> ClientDo(c, env).conn.wait != Failed)
  {
    hide ClientOk, ClientListens, ClientAnswers, ClientCloses;
    if env == Fail {
      ClientFailsOk(c, o);
    } else {
      match c.state
      case StartConnect => ClientStartConnectOk(c, env, o);
      case EnterEarlyData => ClientEnterEarlyDataOk(c, env, o);
      case AwaitServerHello => ClientAwaitServerHelloOk(c, env, o);
      case ReadServerCertificate => ClientReadServerCertificateOk(c, env, o);
      case ReadCertificateStatus => ClientReadCertificateStatusOk(c, env, o);
      case VerifyServerCertificate => ClientVerifyServerCertificateOk(c, env, o);
      case ReadServerKeyExchange => ClientReadServerKeyExchangeOk(c, env, o);
      case ReadCertificateRequest => ClientReadCertificateRequestOk(c, env, o);
      case ReadServerHelloDone => ClientReadServerHelloDoneOk(c, env, o);
      case SendClientCertificate => ClientSendClientCertificateOk(c, env, o);
      case SendClientKeyExchange => ClientSendClientKeyExchangeOk(c, env, o);
      case SendClientCertificateVerify => ClientSendClientCertificateVerifyOk(c, env, o);
      case SendClientFinished => ClientSendClientFinishedOk(c, env, o);
      case ReadSessionTicket => ClientReadSessionTicketOk(c, env, o);
      case ReadServerFinished => ClientReadServerFinishedOk(c, env, o);
      case _ => ClientProcessServerCcsOk(c, env, o);
    }
  }

  lemma ClientFailsOk(c: Client, o: Around)
    requires ClientOk(c, o) && c.conn.wait == Ready
    ensures ClientOk(ClientFails(c), o)
  {
    hide At;
    AnyWait(o, false, ClientPlace(c), c.conn, Failed);
  }

  // ------------------------------------------------------------------- the server

  /** The server is in a state that needs a message. */
  predicate ServerWants(s: Server) {
    match s.state
    case ReadClientHello => true
    case SelectCertificate => true
    case SelectParameters => true
    case ReadClientCertificate => s.p.certRequest
    case ReadClientKeyExchange => true
    case ReadClientCertificateVerify => s.peerCert
    case ReadNextProto => s.p.npn
    case ReadChannelId => s.p.channelId
    case ReadClientFinished => true
    case _ => false
  }

  predicate ServerWaits(s: Server) {
    match s.conn.wait
    case ReadMessage => s.conn.inbox == [] && ServerWants(s)
    case ReadServerHello => false
    case ReadChangeCipherSpec => s.state.ProcessClientCcs?
    case _ => true
  }

  predicate ServerKnows(x: Plan, s: Server) {
    var stage := ServerStage(s.state);
    && ParamsOk(x.p) && s.p == x.p
    && (stage.fullOnly ==> !x.p.resumed)
    && s.peerCert == (stage.asked && x.p.certRequest && x.hasCert)
    && (s.conn.pending != [] ==> stage.sending || s.conn.wait == Flush || s.conn.wait == Failed)
    && ServerWaits(s)
  }

  predicate ServerOk(s: Server, o: Around) {
    ServerKnows(o.x, s) && At(o, true, ServerPlace(s), s.conn)
  }

  /** Reading the one message that can come. */
  lemma ServerReadsOk(s: Server, o: Around, i: nat, kind: Kind, info: Info, next: ServerState)
    requires At(o, true, i, s.conn) && Said(o.x, i) == Only(true, kind, info)
    ensures var s' := ServerReads(s, kind, next);
            if s.conn.inbox == [] then
              s' == s.(conn := Waits(s.conn, ReadMessage)) && At(o, true, i, s'.conn)
            else
              && s.conn.inbox[0] == Msg(kind, info) && s.conn.transcript == Sent(o.x, i)
              && s' == ServerTo(s, next, Hears(s.conn)) && At(o, true, i + 1, s'.conn)
  {
    hide At, Said, Sent, Hashed;
    if s.conn.inbox == [] { AnyWait(o, true, i, s.conn, ReadMessage); } else { Hear(o, true, i, s.conn); }
  }

  lemma ServerStartAcceptOk(s: Server, env: Env, o: Around)
    requires ServerOk(s, o) && s.conn.wait == Ready && s.state.StartAccept?
    ensures ServerOk(ServerOpens(s, env), o) && ServerOpens(s, env).conn.wait != Failed
  {
    hide At, Said, Sent, Hashed, ServerReads;
  }

  lemma ServerReadClientHelloOk(s: Server, env: Env, o: Around)
    requires ServerOk(s, o) && s.conn.wait == Ready && (s.state.ReadClientHello? || s.state.SelectCertificate?)
    ensures ServerOk(ServerOpens(s, env), o) && ServerOpens(s, env).conn.wait != Failed
  {
    hide At, Said, Sent, Hashed, ServerReads;
    SaidHellos(o.x);
    if s.conn.inbox != [] { Hear(o, true, 0, s.conn); }
    AnyWait(o, true, 0, s.conn, ReadMessage);
    AnyWait(o, true, 0, s.conn, Suspended);
  }

  lemma ServerSelectParametersOk(s: Server, env: Env, o: Around)
    requires ServerOk(s, o) && s.conn.wait == Ready && s.state.SelectParameters?
    ensures ServerOk(ServerOpens(s, env), o) && ServerOpens(s, env).conn.wait != Failed
  {
    hide At, Said, Sent, Hashed, ServerReads;
    SaidHellos(o.x);
    ServerReadsOk(s, o, 0, ClientHello, Nothing, SendServerHello);
    AnyWait(o, true, 0, s.conn, Suspended);
  }

  lemma ServerSendServerHelloOk(s: Server, env: Env, o: Around)
    requires ServerOk(s, o) && s.conn.wait == Ready && s.state.SendServerHello?
    ensures ServerOk(ServerOpens(s, env), o) && ServerOpens(s, env).conn.wait != Failed
  {
    hide At, Said, Sent, Hashed, ServerReads;
    SaidHellos(o.x);
    Say(o, true, 1, s.conn);
  }

  lemma ServerSendServerCertificateOk(s: Server, env: Env, o: Around)
    requires ServerOk(s, o) && s.conn.wait == Ready && s.state.SendServerCertificate?
    ensures ServerOk(ServerOpens(s, env), o) && ServerOpens(s, env).conn.wait != Failed
  {
    hide At, Said, Sent, Hashed, Says;
    SaidByServer(o.x);
    Say(o, true, 2, s.conn);
    Say(o, true, 3, Says(s.conn, Said(o.x, 2)));
  }

  lemma ServerSendServerKeyExchangeOk(s: Server, env: Env, o: Around)
    requires ServerOk(s, o) && s.conn.wait == Ready && s.state.SendServerKeyExchange?
    ensures ServerOk(ServerOpens(s, env), o) && ServerOpens(s, env).conn.wait != Failed
  {
    hide At, Said, Sent, Hashed, ServerReads;
    SaidByServer(o.x);
    Say(o, true, 4, s.conn);
    AnyWait(o, true, 4, s.conn, Suspended);
  }

  lemma ServerSendServerHelloDoneOk(s: Server, env: Env, o: Around)
    requires ServerOk(s, o) && s.conn.wait == Ready && s.state.SendServerHelloDone?
    ensures ServerOk(ServerOpens(s, env), o) && ServerOpens(s, env).conn.wait != Failed
  {
    hide At, Said, Sent, Hashed, Says;
    SaidByServer(o.x);
    Say(o, true, 5, s.conn);
    var c1 := Says(s.conn, Said(o.x, 5));
    Say(o, true, 6, c1);
    AnyWait(o, true, 7, Says(c1, Said(o.x, 6)), Flush);
  }

  lemma ServerReadClientCertificateOk(s: Server, env: Env, o: Around)
    requires ServerOk(s, o) && s.conn.wait == Ready && s.state.ReadClientCertificate?
    ensures ServerOk(ServerListens(s, env), o) && ServerListens(s, env).conn.wait != Failed
  {
    hide At, Said, Sent, Hashed, ServerReads, Hears;
    HearsKeeps(s.conn);
    SaidByClient(o.x);
    if s.p.certRequest {
      ServerReadsOk(s, o, 7, Certificate, Chain(!o.x.hasCert), VerifyClientCertificate);
    } else {
      Over(o, true, 7, s.conn);
    }
  }

  lemma ServerVerifyClientCertificateOk(s: Server, env: Env, o: Around)
    requires ServerOk(s, o) && s.conn.wait == Ready && s.state.VerifyClientCertificate?
    ensures ServerOk(ServerListens(s, env), o) && ServerListens(s, env).conn.wait != Failed
  {
    hide At, Said, Sent, Hashed, ServerReads;
    AnyWait(o, true, 8, s.conn, Suspended);
  }

  lemma ServerReadClientKeyExchangeOk(s: Server, env: Env, o: Around)
    requires ServerOk(s, o) && s.conn.wait == Ready && s.state.ReadClientKeyExchange?
    ensures ServerOk(ServerListens(s, env), o) && ServerListens(s, env).conn.wait != Failed
  {
    hide At, Said, Sent, Hashed, ServerReads, Hears;
    HearsKeeps(s.conn);
    SaidByClient(o.x);
    ServerReadsOk(s, o, 8, ClientKeyExchange, Nothing, ReadClientCertificateVerify);
    AnyWait(o, true, 8, s.conn, Suspended);
  }

  lemma ServerReadClientCertificateVerifyOk(s: Server, env: Env, o: Around)
    requires ServerOk(s, o) && s.conn.wait == Ready && s.state.ReadClientCertificateVerify?
    ensures ServerOk(ServerListens(s, env), o) && ServerListens(s, env).conn.wait != Failed
  {
    hide At, Said, Sent, Hashed, ServerReads, Hears;
    HearsKeeps(s.conn);
    SaidByClient(o.x);
    if s.peerCert {
      ServerReadsOk(s, o, 9, CertificateVerify, Nothing, ReadCcs);
    } else {
      Over(o, true, 9, s.conn);
    }
  }

  lemma ServerReadCcsOk(s: Server, env: Env, o: Around)
    requires ServerOk(s, o) && s.conn.wait == Ready && s.state.ReadCcs?
    ensures ServerOk(ServerListens(s, env), o) && ServerListens(s, env).conn.wait != Failed
  {
    hide At, Said, Sent, Hashed, ServerReads;
    AnyWait(o, true, ServerPlace(s), s.conn, ReadChangeCipherSpec);
  }

  lemma ServerReadNextProtoOk(s: Server, env: Env, o: Around)
    requires ServerOk(s, o) && s.conn.wait == Ready && s.state.ReadNextProto?
    ensures ServerOk(ServerCloses(s, env), o) && ServerCloses(s, env).conn.wait != Failed
  {
    hide At, Said, Sent, Hashed, ServerReads;
    SaidAtEnd(o.x);
    var k := ClientEnd(o.x) + 1;
    if s.p.npn { ServerReadsOk(s, o, k, NextProto, Nothing, ReadChannelId); } else { Over(o, true, k, s.conn); }
  }

  lemma ServerReadChannelIdOk(s: Server, env: Env, o: Around)
    requires ServerOk(s, o) && s.conn.wait == Ready && s.state.ReadChannelId?
    ensures ServerOk(ServerCloses(s, env), o) && ServerCloses(s, env).conn.wait != Failed
  {
    hide At, Said, Sent, Hashed, ServerReads;
    SaidAtEnd(o.x);
    var k := ClientEnd(o.x) + 2;
    if s.p.channelId { ServerReadsOk(s, o, k, ChannelId, Nothing, ReadClientFinished); } else { Over(o, true, k, s.conn); }
  }

  lemma ServerReadClientFinishedOk(s: Server, env: Env, o: Around)
    requires ServerOk(s, o) && s.conn.wait == Ready && s.state.ReadClientFinished?
    ensures ServerOk(ServerCloses(s, env), o) && ServerCloses(s, env).conn.wait != Failed
  {
    hide At, Said, Sent, Hashed, ServerReads, Hears, ServerCloses, Only;
    SaidAtEnd(o.x);
    var k := ClientEnd(o.x) + 3;
    ServerReadsOk(s, o, k, Finished, Mac(false, Sent(o.x, k)), if s.p.resumed then FinishServerHandshake else SendServerFinished);
    ClientFinishedRead(s, env);
    HearsKeeps(s.conn);
  }

  lemma ClientFinishedRead(s: Server, env: Env)
    requires s.conn.wait == Ready && s.state.ReadClientFinished?
    requires s.conn.inbox != [] ==> s.conn.inbox[0] == Msg(Finished, Mac(false, s.conn.transcript))
    ensures ServerCloses(s, env)
         == ServerReads(s, Finished, if s.p.resumed then FinishServerHandshake else SendServerFinished)
  {
  }

  lemma ServerSendServerFinishedOk(s: Server, env: Env, o: Around)
    requires ServerOk(s, o) && s.conn.wait == Ready && s.state.SendServerFinished?
    ensures ServerOk(ServerCloses(s, env), o) && ServerCloses(s, env).conn.wait != Failed
  {
    hide At, Said, Sent, Hashed, Says;
    SaidAtEnd(o.x);
    var k := ServerEnd(o.x);
    Say(o, true, k, s.conn);
    var c1 := Says(s.conn, Said(o.x, k));
    Say(o, true, k + 1, c1);
    var c2 := Says(c1, Said(o.x, k + 1));
    Say(o, true, k + 2, c2);
    AnyWait(o, true, k + 3, Says(c2, Said(o.x, k + 2)), Flush);
  }

  lemma ServerProcessClientCcsOk(s: Server, env: Env, o: Around)
    requires ServerOk(s, o) && s.conn.wait == Ready && (s.state.ProcessClientCcs? || s.state.FinishServerHandshake? || s.state.ServerDone?)
    ensures ServerOk(ServerCloses(s, env), o) && ServerCloses(s, env).conn.wait != Failed
  {
    hide At, Said, Sent, Hashed, ServerReads;
  }

  /** No do_ function of the server breaks step, and none fails unless a callback does. */
  lemma ServerDoOk(s: Server, env: Env, o: Around)
    requires ServerOk(s, o) && s.conn.wait == Ready
    ensures ServerOk(ServerDo(s, env), o) && (env != Fail ==> ServerDo(s, env).conn.wait != Failed)
  {
    hide ServerOk, ServerOpens, ServerListens, ServerCloses;
    if env == Fail {
      ServerFailsOk(s, o);
    } else {
      match s.state
      case StartAccept => ServerStartAcceptOk(s, env, o);
      case ReadClientHello => ServerReadClientHelloOk(s, env, o);
      case SelectCertificate => ServerReadClientHelloOk(s, env, o);
      case SelectParameters => ServerSelectParametersOk(s, env, o);
      case SendServerHello => ServerSendServerHelloOk(s, env, o);
      case SendServerCertificate => ServerSendServerCertificateOk(s, env, o);
      case SendServerKeyExchange => ServerSendServerKeyExchangeOk(s, env, o);
      case SendServerHelloDone => ServerSendServerHelloDoneOk(s, env, o);
      case ReadClientCertificate => ServerReadClientCertificateOk(s, env, o);
      case VerifyClientCertificate => ServerVerifyClientCertificateOk(s, env, o);
      case ReadClientKeyExchange => ServerReadClientKeyExchangeOk(s, env, o);
      case ReadClientCertificateVerify => ServerReadClientCertificateVerifyOk(s, env, o);
      case ReadCcs => ServerReadCcsOk(s, env, o);
      case ReadNextProto => ServerReadNextProtoOk(s, env, o);
      case ReadChannelId => ServerReadChannelIdOk(s, env, o);
      case ReadClientFinished => ServerReadClientFinishedOk(s, env, o);
      case SendServerFinished => ServerSendServerFinishedOk(s, env, o);
      case _ => ServerProcessClientCcsOk(s, env, o);
    }
  }

  lemma ServerFailsOk(s: Server, o: Around)
    requires ServerOk(s, o) && s.conn.wait == Ready
    ensures ServerOk(ServerFails(s), o)
  {
    hide At;
    AnyWait(o, true, ServerPlace(s), s.conn, Failed);
  }
}
