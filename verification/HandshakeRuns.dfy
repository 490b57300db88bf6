/** Every run of a client and a server against each other: their do_ functions, the waits the
    driver ssl_run_handshake resolves, and the octets that have got through so far. */
module HandshakeRuns {
  import opened HandshakeScript
  import opened HandshakeMachines
  import opened HandshakePair

  /** c2s and s2c are what was flushed and not opened. */
  datatype World = World(client: Client, server: Server, c2s: seq<Item>, s2c: seq<Item>)

  /** A do_ function of either side, or a wait resolved; n is how much of a flight gets written. */
  datatype Move = ClientRuns(env: Env) | ServerRuns(env: Env) | ClientResolves(n: nat) | ServerResolves(n: nat)

  /** The driver can go on: a read has something to open. */
  predicate Resolvable(c: Conn, wire: seq<Item>, n: nat) {
    match c.wait
    case Flush => n <= |c.pending|
    case Suspended => true
    case ReadMessage => wire != []
    case ReadServerHello => wire != []
    case ReadChangeCipherSpec => wire != []
    case _ => false
  }

  /** A read opens one record; one of the wrong kind is an error. */
  function Open(c: Conn, wire: seq<Item>): Conn
    requires wire != []
  {
    if c.wait == ReadChangeCipherSpec then Waits(c, if wire[0].Ccs? then Ready else Failed)
    else if wire[0].Ccs? then Waits(c, Failed)
    else Waits(c.(inbox := c.inbox + [wire[0].m]), Ready)
  }

  /** flush_flight writes some of what is pending. The result is the side, what is left on the
      wire to it, and what goes on the wire from it. */
  function Resolve(c: Conn, wire: seq<Item>, n: nat): (Conn, seq<Item>, seq<Item>)
    requires Resolvable(c, wire, n)
  {
    if c.wait == Flush then
      (Waits(c.(pending := c.pending[n..]), if n == |c.pending| then Ready else Flush), wire, c.pending[..n])
    else if c.wait == Suspended then (Waits(c, Ready), wire, [])
    else (Open(c, wire), wire[1..], [])
  }

  predicate Enabled(w: World, move: Move) {
    match move
    case ClientRuns(_) => w.client.conn.wait == Ready && w.client.state != ClientDone
    case ServerRuns(_) => w.server.conn.wait == Ready && w.server.state != ServerDone
    case ClientResolves(n) => Resolvable(w.client.conn, w.s2c, n)
    case ServerResolves(n) => Resolvable(w.server.conn, w.c2s, n)
  }

  function Next(w: World, move: Move): World
    requires Enabled(w, move)
  {
    match move
    case ClientRuns(env) => w.(client := ClientDo(w.client, env))
    case ServerRuns(env) => w.(server := ServerDo(w.server, env))
    case ClientResolves(n) =>
      var (conn, wire, flushed) := Resolve(w.client.conn, w.s2c, n);
      World(w.client.(conn := conn), w.server, w.c2s + flushed, wire)
    case ServerResolves(n) =>
      var (conn, wire, flushed) := Resolve(w.server.conn, w.c2s, n);
      World(w.client, w.server.(conn := conn), wire, w.s2c + flushed)
  }

  function Fresh(): Conn {
    Conn(Ready, [], [], [])
  }

  /** At the start the client knows nothing of the parameters. */
  function Start(x: Plan, guess: Params): World {
    World(Client(StartConnect, Fresh(), guess, x.hasCert, false), Server(StartAccept, Fresh(), x.p, false), [], [])
  }

  // -------------------------------------------------------------------- invariant

  function ClientAround(x: Plan, w: World): Around {
    Around(x, ServerPlace(w.server), w.server.conn.transcript,
           Wrapped(w.server.conn.inbox) + w.c2s, w.s2c + w.server.conn.pending)
  }

  function ServerAround(x: Plan, w: World): Around {
    Around(x, ClientPlace(w.client), w.client.conn.transcript,
           Wrapped(w.client.conn.inbox) + w.s2c, w.c2s + w.client.conn.pending)
  }

  ghost predicate Inv(x: Plan, w: World) {
    ClientOk(w.client, ClientAround(x, w)) && ServerKnows(x, w.server)
  }

  /** Seen from the server it is the same. */
  lemma OtherSide(x: Plan, w: World)
    ensures At(ClientAround(x, w), false, ClientPlace(w.client), w.client.conn)
        <==> At(ServerAround(x, w), true, ServerPlace(w.server), w.server.conn)
  {
    hide Said, Sent, Speaks, ClientPlace, ServerPlace, Wrapped;
    var i, j, c, s := ClientPlace(w.client), ServerPlace(w.server), w.client.conn, w.server.conn;
    var out, back := Wrapped(s.inbox) + w.c2s + c.pending, Wrapped(c.inbox) + w.s2c + s.pending;
    assert Wrapped(c.inbox) + (w.s2c + s.pending) == back;
    assert Wrapped(s.inbox) + (w.c2s + c.pending) == out;
  }

  lemma StartInv(x: Plan, guess: Params)
    requires ParamsOk(x.p)
    ensures Inv(x, Start(x, guess))
  {
    hide At, ClientKnows, ServerKnows, ClientPlace, ClientAround, Start, Fresh;
    StartSides(x, guess);
    StartAround(x, guess);
    Silence(ClientAround(x, Start(x, guess)));
  }

  lemma StartSides(x: Plan, guess: Params)
    requires ParamsOk(x.p)
    ensures var w := Start(x, guess);
            && w.client.conn == Fresh() && ClientPlace(w.client) == 0
            && ClientKnows(x, w.client) && ServerKnows(x, w.server)
  {
  }

  lemma StartAround(x: Plan, guess: Params)
    ensures ClientAround(x, Start(x, guess)) == Around(x, 0, [], [], [])
  {
  }

  lemma Silence(o: Around)
    requires o.place == 0 && o.transcript == [] && o.before == [] && o.behind == []
    ensures At(o, false, 0, Fresh())
  {
    hide Said;
  }

  lemma ClientRunsInv(x: Plan, w: World, env: Env)
    requires Inv(x, w) && Enabled(w, ClientRuns(env))
    ensures Inv(x, Next(w, ClientRuns(env)))
    ensures env != Fail ==> Next(w, ClientRuns(env)).client.conn.wait != Failed
  {
    hide ClientOk, ServerKnows, ClientDo, Wrapped, ServerPlace;
    ClientDoOk(w.client, env, ClientAround(x, w));
  }

  lemma ServerRunsInv(x: Plan, w: World, env: Env)
    requires Inv(x, w) && Enabled(w, ServerRuns(env))
    ensures Inv(x, Next(w, ServerRuns(env)))
    ensures env != Fail ==> Next(w, ServerRuns(env)).server.conn.wait != Failed
  {
    hide At, ClientKnows, ServerKnows, ServerDo, ServerPlace, ClientPlace, Wrapped;
    OtherSide(x, w);
    ServerDoOk(w.server, env, ServerAround(x, w));
    OtherSide(x, Next(w, ServerRuns(env)));
  }

  // ------------------------------------------------------------ resolving a wait

  /** Where the item a waiting client needs comes in the plan. */
  lemma ClientNext(x: Plan, c: Client) returns (k: nat)
    requires ClientKnows(x, c)
    requires c.conn.wait == ReadMessage || c.conn.wait == ReadServerHello || c.conn.wait == ReadChangeCipherSpec
    ensures ClientPlace(c) <= k < Length(x) && FromServer(x, k) && Said(x, k) != []
    ensures forall l: nat :: ClientPlace(c) <= l < k ==> Said(x, l) == []
    ensures Said(x, k)[0].Ccs? <==> c.conn.wait == ReadChangeCipherSpec
    ensures c.conn.wait == ReadChangeCipherSpec ==> k == ClientPlace(c)
  {
    hide Said, Sent;
    k := ClientPlace(c);
    if c.state.AwaitServerHello? {
      SaidHellos(x);
    } else if ClientStage(c.state).fullOnly {
      k := FirstFlight(x, k);
    } else {
      SaidAtEnd(x);
    }
  }

  /** The server's first flight has something from anywhere in it to its end. */
  lemma FirstFlight(x: Plan, i: nat) returns (k: nat)
    requires !x.p.resumed && 2 <= i <= 6
    ensures i <= k <= 6 && Said(x, k) != [] && Said(x, k)[0].Hs? && forall l: nat :: i <= l < k ==> Said(x, l) == []
  {
    hide Said, Sent;
    SaidByServer(x);
    k := i;
    while k < 6 && Said(x, k) == []
      invariant i <= k <= 6 && forall l: nat :: i <= l < k ==> Said(x, l) == []
    {
      k := k + 1;
    }
  }

  lemma ServerNext(x: Plan, s: Server) returns (k: nat)
    requires ServerKnows(x, s)
    requires s.conn.wait == ReadMessage || s.conn.wait == ReadChangeCipherSpec
    ensures k == ServerPlace(s) < Length(x) && !FromServer(x, k) && Said(x, k) != []
    ensures Said(x, k)[0].Ccs? <==> s.conn.wait == ReadChangeCipherSpec
  {
    hide Said, Sent;
    SaidHellos(x);
    SaidAtEnd(x);
    if !x.p.resumed { SaidByClient(x); }
    k := ServerPlace(s);
  }

  lemma FlushAt(o: Around, server: bool, i: nat, c: Conn, n: nat, wait: Wait)
    requires At(o, server, i, c) && n <= |c.pending|
    ensures At(o.(before := o.before + c.pending[..n]), server, i, Waits(c.(pending := c.pending[n..]), wait))
  {
    hide InStep, Said;
    assert o.before + c.pending[..n] + c.pending[n..] == o.before + c.pending;
  }

  /** The item on its way that a waiting side opens is the one the plan has next. */
  lemma OpensNext(o: Around, server: bool, i: nat, c: Conn, k: nat)
    requires At(o, server, i, c) && o.behind != [] && i <= k && Said(o.x, k) != []
    requires forall l: nat :: i <= l < k ==> Said(o.x, l) == []
    requires c.inbox == [] || Said(o.x, k)[0].Ccs?
    ensures c.inbox == [] && o.behind[0] == Said(o.x, k)[0]
  {
    hide InStep, Said;
    var back := Wrapped(c.inbox) + o.behind;
    var l := ComesNext(o.x, server, i, o.place, c.transcript, o.transcript, o.before + c.pending, back);
    assert l == k;
  }

  lemma OpenMessageAt(o: Around, server: bool, i: nat, c: Conn, wait: Wait)
    requires At(o, server, i, c) && c.inbox == [] && o.behind != [] && o.behind[0].Hs?
    ensures At(o.(behind := o.behind[1..]), server, i, Waits(c.(inbox := c.inbox + [o.behind[0].m]), wait))
  {
    hide InStep, Said;
    var m := o.behind[0].m;
    assert [] + [m] == [m] && Wrapped([m]) == [Hs(m)] + Wrapped([]);
    assert Wrapped([m]) + o.behind[1..] == Wrapped([]) + o.behind;
  }

  lemma OpenCcsAt(o: Around, server: bool, i: nat, c: Conn, wait: Wait)
    requires At(o, server, i, c) && c.inbox == [] && o.behind != [] && Said(o.x, i) == [Ccs]
    ensures At(o.(behind := o.behind[1..]), server, i + 1, Waits(c, wait))
  {
    hide InStep, Said;
    var back := Wrapped(c.inbox) + o.behind;
    assert back == o.behind;
    StepHear(o.x, server, i, o.place, c.transcript, o.transcript, o.before + c.pending, back);
    HashedOne(Msg(ClientHello, Nothing));
    assert c.transcript + [] == c.transcript && Wrapped(c.inbox) + o.behind[1..] == back[1..];
  }

  /** Resolving a wait moves octets along without changing what there is between the sides; and
      what is opened is of the kind the wait is for. */
  lemma ClientResolvesOk(c: Client, o: Around, wire: seq<Item>, queue: seq<Item>, n: nat)
    requires ClientOk(c, o) && Resolvable(c.conn, wire, n) && o.behind == wire + queue
    ensures var (conn, wire', flushed) := Resolve(c.conn, wire, n);
            && conn.wait != Failed
            && ClientOk(c.(conn := conn), o.(before := o.before + flushed, behind := wire' + queue))
  {
    hide At, Said, Sent, ClientStage, ClientWants;
    var i := ClientPlace(c);
    if c.conn.wait == Flush {
      FlushAt(o, false, i, c.conn, n, if n == |c.conn.pending| then Ready else Flush);
    } else if c.conn.wait == Suspended {
      AnyWait(o, false, i, c.conn, Ready);
      assert o.before + [] == o.before;
    } else {
      assert o.behind[0] == wire[0] && o.behind[1..] == wire[1..] + queue && o.before + [] == o.before;
      var k := ClientNext(o.x, c);
      OpensNext(o, false, i, c.conn, k);
      if c.conn.wait == ReadChangeCipherSpec {
        OpenCcsAt(o, false, i, c.conn, Ready);
      } else {
        OpenMessageAt(o, false, i, c.conn, Ready);
      }
    }
  }

  lemma ServerResolvesOk(s: Server, o: Around, wire: seq<Item>, queue: seq<Item>, n: nat)
    requires ServerOk(s, o) && Resolvable(s.conn, wire, n) && o.behind == wire + queue
    ensures var (conn, wire', flushed) := Resolve(s.conn, wire, n);
            && conn.wait != Failed
            && ServerOk(s.(conn := conn), o.(before := o.before + flushed, behind := wire' + queue))
  {
    hide At, Said, Sent, ServerStage, ServerWants;
    var i := ServerPlace(s);
    if s.conn.wait == Flush {
      FlushAt(o, true, i, s.conn, n, if n == |s.conn.pending| then Ready else Flush);
    } else if s.conn.wait == Suspended {
      AnyWait(o, true, i, s.conn, Ready);
      assert o.before + [] == o.before;
    } else {
      assert o.behind[0] == wire[0] && o.behind[1..] == wire[1..] + queue && o.before + [] == o.before;
      var k := ServerNext(o.x, s);
      OpensNext(o, true, i, s.conn, k);
      if s.conn.wait == ReadChangeCipherSpec {
        OpenCcsAt(o, true, i, s.conn, Ready);
      } else {
        OpenMessageAt(o, true, i, s.conn, Ready);
      }
    }
  }

  lemma ClientResolvesInv(x: Plan, w: World, n: nat)
    requires Inv(x, w) && Enabled(w, ClientResolves(n))
    ensures Inv(x, Next(w, ClientResolves(n))) && Next(w, ClientResolves(n)).client.conn.wait != Failed
  {
    hide ClientOk, ServerKnows, Resolve, Resolvable, Wrapped, ServerPlace;
    var o := ClientAround(x, w);
    ClientResolvesOk(w.client, o, w.s2c, w.server.conn.pending, n);
    var (conn, wire, flushed) := Resolve(w.client.conn, w.s2c, n);
    assert Wrapped(w.server.conn.inbox) + w.c2s + flushed == Wrapped(w.server.conn.inbox) + (w.c2s + flushed);
  }

  lemma ServerResolvesInv(x: Plan, w: World, n: nat)
    requires Inv(x, w) && Enabled(w, ServerResolves(n))
    ensures Inv(x, Next(w, ServerResolves(n))) && Next(w, ServerResolves(n)).server.conn.wait != Failed
  {
    hide At, ClientKnows, ServerKnows, Resolve, Resolvable, Wrapped, ServerPlace, ClientPlace;
    OtherSide(x, w);
    var o := ServerAround(x, w);
    ServerResolvesOk(w.server, o, w.c2s, w.client.conn.pending, n);
    var (conn, wire, flushed) := Resolve(w.server.conn, w.c2s, n);
    assert Wrapped(w.client.conn.inbox) + w.s2c + flushed == Wrapped(w.client.conn.inbox) + (w.s2c + flushed);
    OtherSide(x, Next(w, ServerResolves(n)));
  }

  // -------------------------------------------------------------------- all runs

  predicate Fails(move: Move) {
    (move.ClientRuns? || move.ServerRuns?) && move.env == Fail
  }

  predicate Broken(w: World) {
    w.client.conn.wait == Failed || w.server.conn.wait == Failed
  }

  /** No move breaks the two out of step, and none fails, no message is unexpected and no Finished
      mismatches, unless a callback fails. */
  lemma MoveKeepsInv(x: Plan, w: World, move: Move)
    requires Inv(x, w) && Enabled(w, move)
    ensures Inv(x, Next(w, move))
    ensures !Broken(w) && !Fails(move) ==> !Broken(Next(w, move))
  {
    hide Inv, ClientDo, ServerDo, Resolve, Resolvable;
    match move
    case ClientRuns(env) => ClientRunsInv(x, w, env);
    case ServerRuns(env) => ServerRunsInv(x, w, env);
    case ClientResolves(n) => ClientResolvesInv(x, w, n);
    case ServerResolves(n) => ServerResolvesInv(x, w, n);
  }

  /** What there is after some moves; those not enabled when their turn comes do nothing. */
  function Run(w: World, moves: seq<Move>): World
    decreases |moves|
  {
    if moves == [] then w
    else
      var v := Run(w, moves[..|moves| - 1]);
      var last := moves[|moves| - 1];
      if Enabled(v, last) then Next(v, last) else v
  }

  lemma {:induction false} RunKeepsInv(x: Plan, guess: Params, moves: seq<Move>)
    requires ParamsOk(x.p)
    ensures Inv(x, Run(Start(x, guess), moves))
    ensures (forall k :: 0 <= k < |moves| ==> !Fails(moves[k])) ==> !Broken(Run(Start(x, guess), moves))
    decreases |moves|
  {
    hide Inv, Next, Enabled;
    if moves == [] {
      StartInv(x, guess);
    } else {
      var shorter := moves[..|moves| - 1];
      RunKeepsInv(x, guess, shorter);
      var v := Run(Start(x, guess), shorter);
      if Enabled(v, moves[|moves| - 1]) { MoveKeepsInv(x, v, moves[|moves| - 1]); }
    }
  }

  // ------------------------------------------------------------- what runs ensure

  /** On its way to the server, and to the client. */
  function ToServer(w: World): seq<Item> {
    Wrapped(w.server.conn.inbox) + w.c2s + w.client.conn.pending
  }

  function ToClient(w: World): seq<Item> {
    Wrapped(w.client.conn.inbox) + (w.s2c + w.server.conn.pending)
  }

  predicate BothDone(w: World) {
    w.client.state == ClientDone && w.server.state == ServerDone
  }

  /** In every reachable state each side has hashed exactly the messages it has said or consumed, once
      and in the order of the handshake; what one has hashed and the other not is on its way. */
  lemma TranscriptsMatch(x: Plan, guess: Params, moves: seq<Move>)
    requires ParamsOk(x.p)
    ensures var w := Run(Start(x, guess), moves);
            && w.client.conn.transcript == Sent(x, ClientPlace(w.client))
            && w.server.conn.transcript == Sent(x, ServerPlace(w.server))
            && w.client.conn.transcript + Hashed(ToClient(w)) == w.server.conn.transcript + Hashed(ToServer(w))
  {
    RunKeepsInv(x, guess, moves);
    hide Run, Start, Said, Speaks, ClientKnows, ServerKnows, ClientPlace, ServerPlace, Wrapped, Hashed;
    var w := Run(Start(x, guess), moves);
    TranscriptsAgree(x, false, ClientPlace(w.client), ServerPlace(w.server), w.client.conn.transcript,
                     w.server.conn.transcript, ToServer(w), ToClient(w));
  }

  lemma ClientEnds(x: Plan, c: Client)
    requires ClientKnows(x, c)
    ensures ClientPlace(c) <= Length(x) && (c.state == ClientDone ==> ClientPlace(c) == Length(x))
  {
  }

  lemma ServerEnds(x: Plan, s: Server)
    requires ServerKnows(x, s)
    ensures ServerPlace(s) <= Length(x) && (s.state == ServerDone ==> ServerPlace(s) == Length(x))
  {
  }

  /** When both are done they have the same transcript, the whole handshake. */
  lemma DoneAgree(x: Plan, guess: Params, moves: seq<Move>)
    requires ParamsOk(x.p) && BothDone(Run(Start(x, guess), moves))
    ensures var w := Run(Start(x, guess), moves);
            w.client.conn.transcript == Sent(x, Length(x)) == w.server.conn.transcript
  {
    RunKeepsInv(x, guess, moves);
    TranscriptsMatch(x, guess, moves);
    hide Run, Start, At, Sent, ClientKnows, ServerKnows, ClientPlace, ServerPlace;
    ClientEnds(x, Run(Start(x, guess), moves).client);
    ServerEnds(x, Run(Start(x, guess), moves).server);
  }

  /** The Finished a side is about to check was computed by the other over the very transcript it
      is checked against. */
  lemma FinishedMatches(x: Plan, guess: Params, moves: seq<Move>)
    requires ParamsOk(x.p)
    ensures var c := Run(Start(x, guess), moves).client;
            c.state == ReadServerFinished && c.conn.wait == Ready && c.conn.inbox != [] ==>
              c.conn.inbox[0] == Msg(Finished, Mac(true, c.conn.transcript))
    ensures var s := Run(Start(x, guess), moves).server;
            s.state == ReadClientFinished && s.conn.wait == Ready && s.conn.inbox != [] ==>
              s.conn.inbox[0] == Msg(Finished, Mac(false, s.conn.transcript))
  {
    RunKeepsInv(x, guess, moves);
    hide Run, Start, At, Sent, Said, ClientStage, ServerStage;
    var w := Run(Start(x, guess), moves);
    var c, s := w.client, w.server;
    if c.state == ReadServerFinished && c.conn.wait == Ready && c.conn.inbox != [] {
      ServerFinishedAt(x, c);
      Hear(ClientAround(x, w), false, ClientPlace(c), c.conn);
    }
    if s.state == ReadClientFinished && s.conn.wait == Ready && s.conn.inbox != [] {
      OtherSide(x, w);
      ClientFinishedAt(x, s);
      Hear(ServerAround(x, w), true, ServerPlace(s), s.conn);
    }
  }

  lemma ServerFinishedAt(x: Plan, c: Client)
    requires ClientKnows(x, c) && c.state == ReadServerFinished
    ensures Said(x, ClientPlace(c)) == [Hs(Msg(Finished, Mac(true, Sent(x, ClientPlace(c)))))]
  {
    hide Said, Sent;
    SaidAtEnd(x);
  }

  lemma ClientFinishedAt(x: Plan, s: Server)
    requires ServerKnows(x, s) && s.state == ReadClientFinished
    ensures Said(x, ServerPlace(s)) == [Hs(Msg(Finished, Mac(false, Sent(x, ServerPlace(s)))))]
  {
    hide Said, Sent;
    SaidAtEnd(x);
  }

  // ---------------------------------------------------------------------- progress

  function Weight(c: Conn): nat {
    12 * |c.pending| + 2 * |c.inbox|
    + (match c.wait
       case Ready => 2
       case Suspended => 3
       case Flush => 4
       case Failed => 0
       case _ => 1)
  }

  /** How far the two are from the end. */
  function Measure(w: World): nat {
    100 * (ClientRank(w.client) + ServerRank(w.server)) + Weight(w.client.conn) + Weight(w.server.conn)
    + 8 * (|w.c2s| + |w.s2c|)
  }

  predicate Suspends(move: Move) {
    (move.ClientRuns? || move.ServerRuns?) && move.env == Suspend
  }

  /** A write that got nowhere. */
  predicate Idle(w: World, move: Move) {
    match move
    case ClientResolves(n) => w.client.conn.wait == Flush && n == 0 && w.client.conn.pending != []
    case ServerResolves(n) => w.server.conn.wait == Flush && n == 0 && w.server.conn.pending != []
    case _ => false
  }

  lemma ClientListensLittle(c: Client, env: Env)
    requires c.conn.wait == Ready && ClientListening(c.state)
    ensures |ClientListens(c, env).conn.pending| <= |c.conn.pending| + 4 && |ClientListens(c, env).conn.inbox| <= |c.conn.inbox|
  {
    hide Hashed;
  }

  lemma ClientAnswersLittle(c: Client, env: Env)
    requires c.conn.wait == Ready && ClientAnswering(c.state)
    ensures |ClientAnswers(c, env).conn.pending| <= |c.conn.pending| + 4 && |ClientAnswers(c, env).conn.inbox| <= |c.conn.inbox|
  {
    hide Hashed;
  }

  lemma ClientClosesLittle(c: Client, env: Env)
    requires c.conn.wait == Ready && ClientClosing(c.state)
    ensures |ClientCloses(c, env).conn.pending| <= |c.conn.pending| + 4 && |ClientCloses(c, env).conn.inbox| <= |c.conn.inbox|
  {
    hide Hashed;
  }

  lemma ClientSaysLittle(c: Client, env: Env)
    requires c.conn.wait == Ready
    ensures |ClientDo(c, env).conn.pending| <= |c.conn.pending| + 4 && |ClientDo(c, env).conn.inbox| <= |c.conn.inbox|
  {
    if env != Fail {
      if ClientListening(c.state) {
        ClientListensLittle(c, env);
      } else if ClientAnswering(c.state) {
        ClientAnswersLittle(c, env);
      } else {
        ClientClosesLittle(c, env);
      }
    }
    hide ClientListens, ClientAnswers, ClientCloses;
  }

  lemma ServerSaysLittle(s: Server, env: Env)
    requires s.conn.wait == Ready
    ensures |ServerDo(s, env).conn.pending| <= |s.conn.pending| + 4 && |ServerDo(s, env).conn.inbox| <= |s.conn.inbox|
  {
    hide Hashed, ServerRank;
  }

  lemma ClientWeighs(c: Client, env: Env)
    requires c.conn.wait == Ready && c.state != ClientDone
    ensures var c' := ClientDo(c, env);
            var before, after := 100 * ClientRank(c) + Weight(c.conn), 100 * ClientRank(c') + Weight(c'.conn);
            after < before || (env == Suspend && c'.conn.wait == Suspended && after == before + 1)
  {
    ClientRankFalls(c, env);
    ClientSaysLittle(c, env);
    ClientSuspends(c, env);
    hide ClientDo, ClientStage;
  }

  lemma ClientSuspends(c: Client, env: Env)
    requires c.conn.wait == Ready
    ensures ClientDo(c, env).conn.wait == Suspended ==> env == Suspend
  {
    hide Hashed, Only;
  }

  lemma ServerWeighs(s: Server, env: Env)
    requires s.conn.wait == Ready && s.state != ServerDone
    ensures var s' := ServerDo(s, env);
            var before, after := 100 * ServerRank(s) + Weight(s.conn), 100 * ServerRank(s') + Weight(s'.conn);
            after < before || (env == Suspend && s'.conn.wait == Suspended && after == before + 1)
  {
    ServerRankFalls(s, env);
    ServerSaysLittle(s, env);
    ServerSuspends(s, env);
    hide ServerDo, ServerStage;
  }

  lemma ServerSuspends(s: Server, env: Env)
    requires s.conn.wait == Ready
    ensures ServerDo(s, env).conn.wait == Suspended ==> env == Suspend
  {
    hide Hashed, Only;
  }

  /** Every move brings the end nearer, but for a callback that asks to be called again, which
      costs one, and a write that got nowhere. */
  lemma MoveLowers(w: World, move: Move)
    requires Enabled(w, move) && !Idle(w, move)
    ensures Measure(Next(w, move)) < Measure(w) || (Suspends(move) && Measure(Next(w, move)) == Measure(w) + 1)
    ensures move.ClientRuns? && Next(w, move).client.conn.wait != Suspended ==> Measure(Next(w, move)) < Measure(w)
    ensures move.ServerRuns? && Next(w, move).server.conn.wait != Suspended ==> Measure(Next(w, move)) < Measure(w)
  {
    hide ClientDo, ServerDo, ClientRank, ServerRank;
    match move
    case ClientRuns(env) => ClientWeighs(w.client, env);
    case ServerRuns(env) => ServerWeighs(w.server, env);
    case ClientResolves(n) => ResolveWeighs(w.client.conn, w.s2c, n); SameRanks(w, move);
    case ServerResolves(n) => ResolveWeighs(w.server.conn, w.c2s, n); SameRanks(w, move);
  }

  lemma SameRanks(w: World, move: Move)
    requires Enabled(w, move) && (move.ClientResolves? || move.ServerResolves?)
    ensures ClientRank(Next(w, move).client) == ClientRank(w.client) && ServerRank(Next(w, move).server) == ServerRank(w.server)
  {
  }

  lemma ResolveWeighs(c: Conn, wire: seq<Item>, n: nat)
    requires Resolvable(c, wire, n) && !(c.wait == Flush && n == 0 && c.pending != [])
    ensures var (c', wire', flushed) := Resolve(c, wire, n);
            Weight(c') + 8 * |wire'| + 8 * |flushed| < Weight(c) + 8 * |wire|
  {
  }

  predicate Reading(c: Conn) {
    c.wait == ReadMessage || c.wait == ReadServerHello || c.wait == ReadChangeCipherSpec
  }

  lemma {:induction false} NothingInBetween(x: Plan, i: nat, j: nat, k: nat)
    requires Items(x, i, j) == [] && i <= k < j
    ensures Said(x, k) == []
    decreases j
  {
    hide Said;
    if k < j - 1 { NothingInBetween(x, i, j - 1, k); }
  }

  /** A side that is reading while nothing is on the wire and its peer has flushed everything is
      waiting for something its peer has yet to say. */
  lemma StillToCome(o: Around, server: bool, i: nat, c: Conn, k: nat)
    requires At(o, server, i, c) && o.behind == [] && i <= k && Said(o.x, k) != []
    requires forall l: nat :: i <= l < k ==> Said(o.x, l) == []
    requires c.inbox == [] || Said(o.x, k)[0].Ccs?
    ensures o.place <= k
  {
    hide Said, Speaks, Sent;
    var back := Wrapped(c.inbox) + o.behind;
    assert c.inbox != [] ==> back != [] && back[0] == Hs(c.inbox[0]);
    if back == [] {
      if k < o.place { NothingInBetween(o.x, i, o.place, k); }
    } else {
      var l := ComesNext(o.x, server, i, o.place, c.transcript, o.transcript, o.before + c.pending, back);
    }
  }

  lemma ClientFlushed(x: Plan, c: Client)
    requires ClientKnows(x, c) && (Reading(c.conn) || (c.state == ClientDone && c.conn.wait == Ready))
    ensures c.conn.pending == [] && (c.conn.wait != ReadChangeCipherSpec && Reading(c.conn) ==> c.conn.inbox == [])
  {
  }

  lemma ServerFlushed(x: Plan, s: Server)
    requires ServerKnows(x, s) && (Reading(s.conn) || (s.state == ServerDone && s.conn.wait == Ready))
    ensures s.conn.pending == [] && s.conn.wait != ReadServerHello
    ensures s.conn.wait != ReadChangeCipherSpec && Reading(s.conn) ==> s.conn.inbox == []
  {
  }

  /** Where the other side is at most when this one reads in vain. */
  lemma ClientInVain(x: Plan, w: World) returns (k: nat)
    requires Inv(x, w) && Reading(w.client.conn) && w.s2c == [] && w.server.conn.pending == []
    ensures ServerPlace(w.server) <= k < Length(x) && FromServer(x, k) && Said(x, k) != []
    ensures forall l: nat :: ClientPlace(w.client) <= l < k ==> Said(x, l) == []
  {
    hide At, Said, Sent, ClientKnows, ServerKnows, ClientPlace, ServerPlace, Wrapped;
    k := ClientNext(x, w.client);
    ClientFlushed(x, w.client);
    StillToCome(ClientAround(x, w), false, ClientPlace(w.client), w.client.conn, k);
  }

  lemma ServerInVain(x: Plan, w: World) returns (k: nat)
    requires Inv(x, w) && Reading(w.server.conn) && w.c2s == [] && w.client.conn.pending == []
    ensures ClientPlace(w.client) <= k == ServerPlace(w.server) < Length(x) && !FromServer(x, k) && Said(x, k) != []
  {
    hide At, Said, Sent, ClientKnows, ServerKnows, ClientPlace, ServerPlace, Wrapped;
    ServerFlushed(x, w.server);
    OtherSide(x, w);
    k := ServerNext(x, w.server);
    StillToCome(ServerAround(x, w), true, ServerPlace(w.server), w.server.conn, k);
  }

  /** The two never wait for each other, nor for one that is done. */
  lemma NoDeadlock(x: Plan, w: World)
    requires Inv(x, w)
    requires (Reading(w.client.conn) && w.s2c == []) || (w.client.state == ClientDone && w.client.conn.wait == Ready)
    requires (Reading(w.server.conn) && w.c2s == []) || (w.server.state == ServerDone && w.server.conn.wait == Ready)
    ensures BothDone(w)
  {
    hide At, Said, Sent, FromServer, Length, ClientKnows, ServerKnows, ClientPlace, ServerPlace, Wrapped;
    ClientEnds(x, w.client);
    ServerEnds(x, w.server);
    ClientFlushed(x, w.client);
    ServerFlushed(x, w.server);
    if Reading(w.client.conn) {
      var k := ClientInVain(x, w);
      if Reading(w.server.conn) {
        var l := ServerInVain(x, w);
      }
    } else if Reading(w.server.conn) {
      var l := ServerInVain(x, w);
    }
  }

  /** A move that brings the end nearer: any wait can be resolved, any callback can answer, and a
      side that reads in vain leaves the other something to do. */
  lemma CanMove(x: Plan, w: World) returns (move: Move)
    requires Inv(x, w) && !Broken(w) && !BothDone(w)
    ensures Enabled(w, move) && !Fails(move) && !Suspends(move) && !Idle(w, move)
  {
    hide Inv, BothDone;
    var c, s := w.client.conn, w.server.conn;
    if c.wait == Ready && w.client.state != ClientDone {
      move := ClientRuns(Proceed);
    } else if s.wait == Ready && w.server.state != ServerDone {
      move := ServerRuns(Proceed);
    } else if c.wait == Flush || c.wait == Suspended || (Reading(c) && w.s2c != []) {
      move := ClientResolves(|c.pending|);
    } else if s.wait == Flush || s.wait == Suspended || (Reading(s) && w.c2s != []) {
      move := ServerResolves(|s.pending|);
    } else {
      NoDeadlock(x, w);
      assert false;
    }
  }

  lemma {:induction false} RunFirst(w: World, move: Move, rest: seq<Move>)
    requires Enabled(w, move)
    ensures Run(w, [move] + rest) == Run(Next(w, move), rest)
    decreases |rest|
  {
    hide Enabled, Next;
    var all := [move] + rest;
    if rest == [] {
      assert all == [move] && all[..0] == [];
    } else {
      assert all[..|all| - 1] == [move] + rest[..|rest| - 1];
      RunFirst(w, move, rest[..|rest| - 1]);
    }
  }

  /** From every state without a failure the handshake can be brought to its end on both sides. */
  lemma {:induction false} CanFinish(x: Plan, w: World) returns (moves: seq<Move>)
    requires Inv(x, w) && !Broken(w)
    ensures BothDone(Run(w, moves)) && |moves| <= Measure(w)
    decreases Measure(w)
  {
    hide Inv, Broken, BothDone, Enabled, Next, Measure, Fails, Suspends, Idle;
    if BothDone(w) {
      moves := [];
    } else {
      var move := CanMove(x, w);
      MoveKeepsInv(x, w, move);
      MoveLowers(w, move);
      var rest := CanFinish(x, Next(w, move));
      moves := [move] + rest;
      RunFirst(w, move, rest);
    }
  }

  /** Every move of a run is one that does something: enabled, and no write that got nowhere. */
  predicate Busy(w: World, moves: seq<Move>)
    decreases |moves|
  {
    moves == [] || (Busy(w, moves[..|moves| - 1])
                    && (var v := Run(w, moves[..|moves| - 1]);
                        Enabled(v, moves[|moves| - 1]) && !Idle(v, moves[|moves| - 1])))
  }

  function Suspensions(moves: seq<Move>): nat
    decreases |moves|
  {
    if moves == [] then 0
    else Suspensions(moves[..|moves| - 1]) + (if Suspends(moves[|moves| - 1]) then 1 else 0)
  }

  /** However the two are interleaved, a run is no longer than the measure of its start allows:
      it reaches the end, or a failure, unless callbacks suspend it for ever. */
  lemma {:induction false} RunsAreShort(w: World, moves: seq<Move>)
    requires Busy(w, moves)
    ensures |moves| + Measure(Run(w, moves)) <= Measure(w) + 2 * Suspensions(moves)
    decreases |moves|
  {
    hide Enabled, Next, Measure, Suspends, Idle;
    if moves != [] {
      var shorter, last := moves[..|moves| - 1], moves[|moves| - 1];
      RunsAreShort(w, shorter);
      MoveLowers(Run(w, shorter), last);
    }
  }
}
