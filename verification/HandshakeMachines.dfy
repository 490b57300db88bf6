/** The client and server state machines of handshake_client.cc and handshake_server.cc for
    TLS 1.2, one do_ function at a time. */
module HandshakeMachines {
  import opened HandshakeScript

  /** hs->wait. Ready is ssl_hs_ok before the next do_ function; Suspended stands for every wait
      a callback can ask for. */
  datatype Wait = Ready | Flush | ReadMessage | ReadServerHello | ReadChangeCipherSpec | Suspended | Failed

  /** What a callback inside a do_ function comes to: it goes on, asks to be called again, or fails. */
  datatype Env = Proceed | Suspend | Fail

  /** What both machines have: the transcript, the messages opened but not consumed, and the
      flight not written yet. */
  datatype Conn = Conn(wait: Wait, transcript: seq<Msg>, inbox: seq<Msg>, pending: seq<Item>)

  function Waits(c: Conn, wait: Wait): Conn {
    c.(wait := wait)
  }

  /** add_message, which also hashes; or add_change_cipher_spec. */
  function Says(c: Conn, items: seq<Item>): Conn {
    c.(transcript := c.transcript + Hashed(items), pending := c.pending + items)
  }

  /** ssl_hash_message and next_message. */
  function Hears(c: Conn): Conn
    requires c.inbox != []
  {
    c.(transcript := c.transcript + [c.inbox[0]], inbox := c.inbox[1..])
  }

  // -------------------------------------------------------------------- client

  datatype ClientState =
    | StartConnect | EnterEarlyData | AwaitServerHello | ReadServerCertificate | ReadCertificateStatus
    | VerifyServerCertificate | ReadServerKeyExchange | ReadCertificateRequest | ReadServerHelloDone
    | SendClientCertificate | SendClientKeyExchange | SendClientCertificateVerify | SendClientFinished
    | FinishFlight | ReadSessionTicket | ProcessServerCcs | ReadServerFinished | FinishClientHandshake | ClientDone

  /** p is what the ServerHello said; hasCert what the application configured. */
  datatype Client = Client(state: ClientState, conn: Conn, p: Params, hasCert: bool, certRequest: bool)

  function ClientTo(c: Client, state: ClientState, conn: Conn): Client {
    c.(state := state, conn := conn)
  }

  function ClientFails(c: Client): Client {
    c.(conn := Waits(c.conn, Failed))
  }

  /** A do_ function that reads one message of a fixed kind. */
  function ClientReads(c: Client, kind: Kind, next: ClientState): Client {
    if c.conn.inbox == [] then c.(conn := Waits(c.conn, ReadMessage))
    else if c.conn.inbox[0].kind != kind then ClientFails(c)
    else ClientTo(c, next, Hears(c.conn))
  }

  predicate ClientListening(state: ClientState) {
    || state.StartConnect? || state.EnterEarlyData? || state.AwaitServerHello? || state.ReadServerCertificate?
    || state.ReadCertificateStatus? || state.VerifyServerCertificate? || state.ReadServerKeyExchange? || state.ReadCertificateRequest?
    || state.ReadServerHelloDone?
  }

  /** Up to the ServerHelloDone, or to the end of the ServerHello of a resumed handshake. */
  function ClientListens(c: Client, env: Env): Client
    requires c.conn.wait == Ready && ClientListening(c.state)
  {
    match c.state
    case StartConnect => ClientTo(c, EnterEarlyData, Waits(Says(c.conn, Only(true, ClientHello, Nothing)), Flush))
    case EnterEarlyData => ClientTo(c, AwaitServerHello, c.conn)
    case AwaitServerHello =>
      if c.conn.inbox == [] then c.(conn := Waits(c.conn, ReadServerHello))
      else
        var m := c.conn.inbox[0];
        if m.kind != ServerHello || !m.info.Negotiated? then ClientFails(c)
        else ClientTo(c, if m.info.p.resumed then ReadSessionTicket else ReadServerCertificate, Hears(c.conn)).(p := m.info.p)
    case ReadServerCertificate =>
      if !c.p.certAuth then ClientTo(c, ReadCertificateStatus, c.conn)
      else ClientReads(c, Certificate, ReadCertificateStatus)
    case ReadCertificateStatus =>
      if !c.p.status then ClientTo(c, VerifyServerCertificate, c.conn)
      else if c.conn.inbox != [] && c.conn.inbox[0].kind != CertificateStatus then
        ClientTo(c, VerifyServerCertificate, c.conn)
      else ClientReads(c, CertificateStatus, VerifyServerCertificate)
    case VerifyServerCertificate =>
      if c.p.certAuth && env == Suspend then c.(conn := Waits(c.conn, Suspended))
      else ClientTo(c, ReadServerKeyExchange, c.conn)
    case ReadServerKeyExchange =>
      if c.conn.inbox != [] && c.conn.inbox[0].kind != ServerKeyExchange then
        if c.p.requiresSke then ClientFails(c) else ClientTo(c, ReadCertificateRequest, c.conn)
      else ClientReads(c, ServerKeyExchange, ReadCertificateRequest)
    case ReadCertificateRequest =>
      if !c.p.certAuth then ClientTo(c, ReadServerHelloDone, c.conn)
      else if c.conn.inbox != [] && c.conn.inbox[0].kind == ServerHelloDone then
        ClientTo(c, ReadServerHelloDone, c.conn)
      else
        var c' := ClientReads(c, CertificateRequest, ReadServerHelloDone);
        if c'.state == ReadServerHelloDone then c'.(certRequest := true) else c'
    case ReadServerHelloDone => ClientReads(c, ServerHelloDone, SendClientCertificate)
  }

  predicate ClientAnswering(state: ClientState) {
    state.SendClientCertificate? || state.SendClientKeyExchange? || state.SendClientCertificateVerify? || state.SendClientFinished?
  }

  /** The client's own flight. */
  function ClientAnswers(c: Client, env: Env): Client
    requires c.conn.wait == Ready && ClientAnswering(c.state)
  {
    match c.state
    case SendClientCertificate =>
      if !c.certRequest then ClientTo(c, SendClientKeyExchange, c.conn)
      else if env == Suspend then c.(conn := Waits(c.conn, Suspended))
      else ClientTo(c, SendClientKeyExchange, Says(c.conn, Only(true, Certificate, Chain(!c.hasCert))))
    case SendClientKeyExchange =>
      ClientTo(c, SendClientCertificateVerify, Says(c.conn, Only(true, ClientKeyExchange, Nothing)))
    case SendClientCertificateVerify =>
      if !c.certRequest || !c.hasCert then ClientTo(c, SendClientFinished, c.conn)
      else if env == Suspend then c.(conn := Waits(c.conn, Suspended))
      else ClientTo(c, SendClientFinished, Says(c.conn, Only(true, CertificateVerify, Nothing)))
    case SendClientFinished =>
      if c.p.channelId && env == Suspend then c.(conn := Waits(c.conn, Suspended))
      else
        var c1 := Says(c.conn, [Ccs]);
        var c2 := Says(c1, Only(c.p.npn, NextProto, Nothing));
        var c3 := Says(c2, Only(c.p.channelId, ChannelId, Nothing));
        ClientTo(c, FinishFlight, Waits(Says(c3, Only(true, Finished, Mac(false, c3.transcript))), Flush))
  }

  predicate ClientClosing(state: ClientState) {
    || state.FinishFlight? || state.ReadSessionTicket? || state.ProcessServerCcs? || state.ReadServerFinished?
    || state.FinishClientHandshake? || state.ClientDone?
  }

  /** The end of the client's flight, and the server's last one. */
  function ClientCloses(c: Client, env: Env): Client
    requires c.conn.wait == Ready && ClientClosing(c.state)
  {
    match c.state
    case FinishFlight =>
      ClientTo(c, if c.p.resumed then FinishClientHandshake else ReadSessionTicket, c.conn)
    case ReadSessionTicket =>
      if !c.p.ticket then ClientTo(c, ProcessServerCcs, Waits(c.conn, ReadChangeCipherSpec))
      else
        var c' := ClientReads(c, NewSessionTicket, ProcessServerCcs);
        if c'.state == ProcessServerCcs then c'.(conn := Waits(c'.conn, ReadChangeCipherSpec)) else c'
    case ProcessServerCcs => ClientTo(c, ReadServerFinished, c.conn)
    case ReadServerFinished =>
      if c.conn.inbox != [] && c.conn.inbox[0].kind == Finished && c.conn.inbox[0].info != Mac(true, c.conn.transcript) then
        ClientFails(c)
      else ClientReads(c, Finished, if c.p.resumed then SendClientFinished else FinishClientHandshake)
    case FinishClientHandshake => ClientTo(c, ClientDone, c.conn)
    case ClientDone => c
  }

  function ClientDo(c: Client, env: Env): Client
    requires c.conn.wait == Ready
  {
    if env == Fail then ClientFails(c)
    else if ClientListening(c.state) then ClientListens(c, env)
    else if ClientAnswering(c.state) then ClientAnswers(c, env)
    else ClientCloses(c, env)
  }

  /** What holds in a state: the place of the handshake, full and resumed; whether the ServerHello
      has been read; whether only a full handshake gets here; whether the server has said if it
      asks for a certificate; whether something said may not have been flushed. */
  datatype Stage = Stage(full: nat, short: nat, settled: bool, fullOnly: bool, asked: bool, sending: bool)

  function ClientStage(state: ClientState): Stage {
    match state
    case StartConnect => Stage(0, 0, false, false, false, false)
    case EnterEarlyData => Stage(1, 1, false, false, false, false)
    case AwaitServerHello => Stage(1, 1, false, false, false, false)
    case ReadServerCertificate => Stage(2, 2, true, true, false, false)
    case ReadCertificateStatus => Stage(3, 3, true, true, false, false)
    case VerifyServerCertificate => Stage(4, 4, true, true, false, false)
    case ReadServerKeyExchange => Stage(4, 4, true, true, false, false)
    case ReadCertificateRequest => Stage(5, 5, true, true, false, false)
    case ReadServerHelloDone => Stage(6, 6, true, true, true, false)
    case SendClientCertificate => Stage(7, 7, true, true, true, false)
    case SendClientKeyExchange => Stage(8, 8, true, true, true, true)
    case SendClientCertificateVerify => Stage(9, 9, true, true, true, true)
    case SendClientFinished => Stage(10, 5, true, false, true, true)
    case FinishFlight => Stage(14, 9, true, false, true, false)
    case ReadSessionTicket => Stage(14, 2, true, false, true, false)
    case ProcessServerCcs => Stage(15, 3, true, false, true, false)
    case ReadServerFinished => Stage(16, 4, true, false, true, false)
    case FinishClientHandshake => Stage(17, 9, true, false, true, false)
    case ClientDone => Stage(17, 9, true, false, true, false)
  }

  /** The place of the handshake the client is at. */
  function ClientPlace(c: Client): nat {
    var stage := ClientStage(c.state);
    (if c.p.resumed then stage.short else stage.full)
    + (if c.state == ProcessServerCcs && c.conn.wait != ReadChangeCipherSpec then 1 else 0)
  }

  /** How many do_ functions are at most to come; a resumed handshake takes them in another order. */
  function ClientRank(c: Client): nat {
    match c.state
    case StartConnect => 18
    case EnterEarlyData => 17
    case AwaitServerHello => 16
    case ReadServerCertificate => 15
    case ReadCertificateStatus => 14
    case VerifyServerCertificate => 13
    case ReadServerKeyExchange => 12
    case ReadCertificateRequest => 11
    case ReadServerHelloDone => 10
    case SendClientCertificate => 9
    case SendClientKeyExchange => 8
    case SendClientCertificateVerify => 7
    case SendClientFinished => if c.p.resumed then 3 else 6
    case FinishFlight => if c.p.resumed then 2 else 5
    case ReadSessionTicket => if c.p.resumed then 6 else 4
    case ProcessServerCcs => if c.p.resumed then 5 else 3
    case ReadServerFinished => if c.p.resumed then 4 else 2
    case FinishClientHandshake => 1
    case ClientDone => 0
  }

  // -------------------------------------------------------------------- server

  datatype ServerState =
    | StartAccept | ReadClientHello | SelectCertificate | SelectParameters | SendServerHello | SendServerCertificate
    | SendServerKeyExchange | SendServerHelloDone | ReadClientCertificate | VerifyClientCertificate
    | ReadClientKeyExchange | ReadClientCertificateVerify | ReadCcs | ProcessClientCcs | ReadNextProto
    | ReadChannelId | ReadClientFinished | SendServerFinished | FinishServerHandshake | ServerDone

  /** p is what the server settles on; peerCert whether the client sent a certificate. */
  datatype Server = Server(state: ServerState, conn: Conn, p: Params, peerCert: bool)

  function ServerTo(s: Server, state: ServerState, conn: Conn): Server {
    s.(state := state, conn := conn)
  }

  function ServerFails(s: Server): Server {
    s.(conn := Waits(s.conn, Failed))
  }

  function ServerReads(s: Server, kind: Kind, next: ServerState): Server {
    if s.conn.inbox == [] then s.(conn := Waits(s.conn, ReadMessage))
    else if s.conn.inbox[0].kind != kind then ServerFails(s)
    else ServerTo(s, next, Hears(s.conn))
  }

  /** A state that looks at the ClientHello without consuming it, around a callback. */
  function ServerLooks(s: Server, env: Env, next: ServerState): Server {
    if s.conn.inbox == [] then s.(conn := Waits(s.conn, ReadMessage))
    else if s.conn.inbox[0].kind != ClientHello then ServerFails(s)
    else if env == Suspend then s.(conn := Waits(s.conn, Suspended))
    else ServerTo(s, next, s.conn)
  }

  predicate ServerOpening(state: ServerState) {
    || state.StartAccept? || state.ReadClientHello? || state.SelectCertificate? || state.SelectParameters?
    || state.SendServerHello? || state.SendServerCertificate? || state.SendServerKeyExchange? || state.SendServerHelloDone?
  }

  /** The ClientHello and the server's first flight. */
  function ServerOpens(s: Server, env: Env): Server
    requires s.conn.wait == Ready && ServerOpening(s.state)
  {
    match s.state
    case StartAccept => ServerTo(s, ReadClientHello, s.conn)
    case ReadClientHello => ServerLooks(s, env, SelectCertificate)
    case SelectCertificate => ServerLooks(s, env, SelectParameters)
    case SelectParameters =>
      if s.conn.inbox != [] && env == Suspend then s.(conn := Waits(s.conn, Suspended))
      else ServerReads(s, ClientHello, SendServerHello)
    case SendServerHello =>
      ServerTo(s, if s.p.resumed then SendServerFinished else SendServerCertificate,
               Says(s.conn, Only(true, ServerHello, Negotiated(s.p))))
    case SendServerCertificate =>
      var c1 := Says(s.conn, Only(s.p.certAuth, Certificate, Chain(false)));
      ServerTo(s, SendServerKeyExchange, Says(c1, Only(s.p.certAuth && s.p.status, CertificateStatus, Nothing)))
    case SendServerKeyExchange =>
      if !s.p.sendsSke then ServerTo(s, SendServerHelloDone, s.conn)
      else if s.p.certAuth && env == Suspend then s.(conn := Waits(s.conn, Suspended))
      else ServerTo(s, SendServerHelloDone, Says(s.conn, Only(true, ServerKeyExchange, Nothing)))
    case SendServerHelloDone =>
      var c1 := Says(s.conn, Only(s.p.certRequest, CertificateRequest, Nothing));
      ServerTo(s, ReadClientCertificate, Waits(Says(c1, Only(true, ServerHelloDone, Nothing)), Flush))
  }

  predicate ServerListening(state: ServerState) {
    || state.ReadClientCertificate? || state.VerifyClientCertificate? || state.ReadClientKeyExchange? || state.ReadClientCertificateVerify?
    || state.ReadCcs?
  }

  /** The client's flight up to the ChangeCipherSpec. */
  function ServerListens(s: Server, env: Env): Server
    requires s.conn.wait == Ready && ServerListening(s.state)
  {
    match s.state
    case ReadClientCertificate =>
      if !s.p.certRequest then ServerTo(s, VerifyClientCertificate, s.conn)
      else
        var s' := ServerReads(s, Certificate, VerifyClientCertificate);
        if s'.state == VerifyClientCertificate then s'.(peerCert := s.conn.inbox[0].info == Chain(false)) else s'
    case VerifyClientCertificate =>
      if s.peerCert && env == Suspend then s.(conn := Waits(s.conn, Suspended))
      else ServerTo(s, ReadClientKeyExchange, s.conn)
    case ReadClientKeyExchange =>
      if s.conn.inbox != [] && s.conn.inbox[0].kind == ClientKeyExchange && env == Suspend then
        s.(conn := Waits(s.conn, Suspended))
      else ServerReads(s, ClientKeyExchange, ReadClientCertificateVerify)
    case ReadClientCertificateVerify =>
      if !s.peerCert then ServerTo(s, ReadCcs, s.conn) else ServerReads(s, CertificateVerify, ReadCcs)
    case ReadCcs => ServerTo(s, ProcessClientCcs, Waits(s.conn, ReadChangeCipherSpec))
  }

  predicate ServerClosing(state: ServerState) {
    || state.ProcessClientCcs? || state.ReadNextProto? || state.ReadChannelId? || state.ReadClientFinished?
    || state.SendServerFinished? || state.FinishServerHandshake? || state.ServerDone?
  }

  /** What the client sends encrypted, and the server's last flight. */
  function ServerCloses(s: Server, env: Env): Server
    requires s.conn.wait == Ready && ServerClosing(s.state)
  {
    match s.state
    case ProcessClientCcs => ServerTo(s, ReadNextProto, s.conn)
    case ReadNextProto =>
      if !s.p.npn then ServerTo(s, ReadChannelId, s.conn) else ServerReads(s, NextProto, ReadChannelId)
    case ReadChannelId =>
      if !s.p.channelId then ServerTo(s, ReadClientFinished, s.conn) else ServerReads(s, ChannelId, ReadClientFinished)
    case ReadClientFinished =>
      if s.conn.inbox != [] && s.conn.inbox[0].kind == Finished && s.conn.inbox[0].info != Mac(false, s.conn.transcript) then
        ServerFails(s)
      else ServerReads(s, Finished, if s.p.resumed then FinishServerHandshake else SendServerFinished)
    case SendServerFinished =>
      var c1 := Says(s.conn, Only(s.p.ticket, NewSessionTicket, Nothing));
      var c2 := Says(c1, [Ccs]);
      ServerTo(s, if s.p.resumed then ReadCcs else FinishServerHandshake,
               Waits(Says(c2, Only(true, Finished, Mac(true, c2.transcript))), Flush))
    case FinishServerHandshake => ServerTo(s, ServerDone, s.conn)
    case ServerDone => s
  }

  function ServerDo(s: Server, env: Env): Server
    requires s.conn.wait == Ready
  {
    if env == Fail then ServerFails(s)
    else if ServerOpening(s.state) then ServerOpens(s, env)
    else if ServerListening(s.state) then ServerListens(s, env)
    else ServerCloses(s, env)
  }

  function ServerStage(state: ServerState): Stage {
    match state
    case StartAccept => Stage(0, 0, true, false, false, false)
    case ReadClientHello => Stage(0, 0, true, false, false, false)
    case SelectCertificate => Stage(0, 0, true, false, false, false)
    case SelectParameters => Stage(0, 0, true, false, false, false)
    case SendServerHello => Stage(1, 1, true, false, false, true)
    case SendServerCertificate => Stage(2, 2, true, true, false, true)
    case SendServerKeyExchange => Stage(4, 4, true, true, false, true)
    case SendServerHelloDone => Stage(5, 5, true, true, false, true)
    case ReadClientCertificate => Stage(7, 7, true, true, false, false)
    case VerifyClientCertificate => Stage(8, 8, true, true, true, false)
    case ReadClientKeyExchange => Stage(8, 8, true, true, true, false)
    case ReadClientCertificateVerify => Stage(9, 9, true, true, true, false)
    case ReadCcs => Stage(10, 5, true, false, true, false)
    case ProcessClientCcs => Stage(10, 5, true, false, true, false)
    case ReadNextProto => Stage(11, 6, true, false, true, false)
    case ReadChannelId => Stage(12, 7, true, false, true, false)
    case ReadClientFinished => Stage(13, 8, true, false, true, false)
    case SendServerFinished => Stage(14, 2, true, false, true, true)
    case FinishServerHandshake => Stage(17, 9, true, false, true, false)
    case ServerDone => Stage(17, 9, true, false, true, false)
  }

  /** The place of the handshake the server is at. */
  function ServerPlace(s: Server): nat {
    var stage := ServerStage(s.state);
    (if s.p.resumed then stage.short else stage.full)
    + (if s.state == ProcessClientCcs && s.conn.wait != ReadChangeCipherSpec then 1 else 0)
  }

  function ServerRank(s: Server): nat {
    match s.state
    case StartAccept => 19
    case ReadClientHello => 18
    case SelectCertificate => 17
    case SelectParameters => 16
    case SendServerHello => 15
    case SendServerCertificate => 14
    case SendServerKeyExchange => 13
    case SendServerHelloDone => 12
    case ReadClientCertificate => 11
    case VerifyClientCertificate => 10
    case ReadClientKeyExchange => 9
    case ReadClientCertificateVerify => 8
    case SendServerFinished => if s.p.resumed then 8 else 2
    case ReadCcs => 7
    case ProcessClientCcs => 6
    case ReadNextProto => 5
    case ReadChannelId => 4
    case ReadClientFinished => 3
    case FinishServerHandshake => 1
    case ServerDone => 0
  }

  // ----------------------------------------------------------------------- rank

  /** A do_ function that is suspended, short of a message, or failing changes nothing but the
      wait; any other lowers the rank. */
  predicate ClientFell(c: Client, c': Client) {
    if c'.conn.wait == Suspended || c'.conn.wait == ReadMessage || c'.conn.wait == ReadServerHello || c'.conn.wait == Failed
    then c' == c.(conn := Waits(c.conn, c'.conn.wait))
    else ClientRank(c') < ClientRank(c)
  }

  lemma ClientListensLowers(c: Client, env: Env)
    requires c.conn.wait == Ready && ClientListening(c.state)
    ensures ClientFell(c, ClientListens(c, env))
  {
    hide Hashed, Only;
  }

  lemma ClientAnswersLowers(c: Client, env: Env)
    requires c.conn.wait == Ready && ClientAnswering(c.state)
    ensures ClientFell(c, ClientAnswers(c, env))
  {
    hide Hashed, Only;
  }

  lemma ClientClosesLowers(c: Client, env: Env)
    requires c.conn.wait == Ready && ClientClosing(c.state) && c.state != ClientDone
    ensures ClientFell(c, ClientCloses(c, env))
  {
    hide Hashed, Only;
  }

  lemma ClientRankFalls(c: Client, env: Env)
    requires c.conn.wait == Ready && c.state != ClientDone
    ensures ClientFell(c, ClientDo(c, env))
  {
    if env == Fail {
    } else if ClientListening(c.state) {
      ClientListensLowers(c, env);
    } else if ClientAnswering(c.state) {
      ClientAnswersLowers(c, env);
    } else {
      ClientClosesLowers(c, env);
    }
    hide ClientListens, ClientAnswers, ClientCloses, ClientRank;
  }

  /** A do_ function that is suspended, short of a message, or failing changes nothing but the
      wait; any other lowers the rank. */
  predicate ServerFell(s: Server, s': Server) {
    if s'.conn.wait == Suspended || s'.conn.wait == ReadMessage || s'.conn.wait == ReadServerHello || s'.conn.wait == Failed
    then s' == s.(conn := Waits(s.conn, s'.conn.wait))
    else ServerRank(s') < ServerRank(s)
  }

  lemma ServerOpensLowers(s: Server, env: Env)
    requires s.conn.wait == Ready && ServerOpening(s.state)
    ensures ServerFell(s, ServerOpens(s, env))
  {
    hide Hashed, Only;
  }

  lemma ServerListensLowers(s: Server, env: Env)
    requires s.conn.wait == Ready && ServerListening(s.state)
    ensures ServerFell(s, ServerListens(s, env))
  {
    hide Hashed, Only;
  }

  lemma ServerClosesLowers(s: Server, env: Env)
    requires s.conn.wait == Ready && ServerClosing(s.state) && s.state != ServerDone
    ensures ServerFell(s, ServerCloses(s, env))
  {
    hide Hashed, Only;
  }

  lemma ServerRankFalls(s: Server, env: Env)
    requires s.conn.wait == Ready && s.state != ServerDone
    ensures ServerFell(s, ServerDo(s, env))
  {
    if env == Fail {
    } else if ServerOpening(s.state) {
      ServerOpensLowers(s, env);
    } else if ServerListening(s.state) {
      ServerListensLowers(s, env);
    } else {
      ServerClosesLowers(s, env);
    }
    hide ServerOpens, ServerListens, ServerCloses, ServerRank;
  }
}
