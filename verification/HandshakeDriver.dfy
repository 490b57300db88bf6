/** The loops that drive the machines: ssl_run_handshake of handshake.cc around whichever of
    ssl_client_handshake and ssl_server_handshake the connection has. What callbacks answer and
    how much of a flight gets written at a time is scripted, so that any behaviour of theirs is
    some script. */
module HandshakeDriver {
  import opened HandshakeScript
  import opened HandshakeMachines
  import opened HandshakePair
  import opened HandshakeRuns

  /** One end of the handshake, with the machine that belongs to it. */
  datatype Side = ClientSide(client: Client) | ServerSide(server: Server)

  function ConnOf(side: Side): Conn {
    if side.ClientSide? then side.client.conn else side.server.conn
  }

  function WithConn(side: Side, conn: Conn): Side {
    if side.ClientSide? then ClientSide(side.client.(conn := conn)) else ServerSide(side.server.(conn := conn))
  }

  predicate Done(side: Side) {
    if side.ClientSide? then side.client.state == ClientDone else side.server.state == ServerDone
  }

  /** The do_ function of the state the side is in. */
  function Do(side: Side, env: Env): Side
    requires ConnOf(side).wait == Ready
  {
    if side.ClientSide? then ClientSide(ClientDo(side.client, env)) else ServerSide(ServerDo(side.server, env))
  }

  /** The end in question of a pair, what is on the wire to it and what from it. */
  function SideOf(w: World, server: bool): Side {
    if server then ServerSide(w.server) else ClientSide(w.client)
  }

  function Incoming(w: World, server: bool): seq<Item> {
    if server then w.c2s else w.s2c
  }

  function Outgoing(w: World, server: bool): seq<Item> {
    if server then w.s2c else w.c2s
  }

  function Runs(server: bool, env: Env): Move {
    if server then ServerRuns(env) else ClientRuns(env)
  }

  function Resolves(server: bool, n: nat): Move {
    if server then ServerResolves(n) else ClientResolves(n)
  }

  lemma RunLast(w: World, moves: seq<Move>, move: Move)
    ensures Run(w, moves + [move]) == (var v := Run(w, moves); if Enabled(v, move) then Next(v, move) else v)
  {
    hide Enabled, Next;
    assert (moves + [move])[..|moves|] == moves;
  }

  /** A do_ function of one end is a move of the pair, which brings its end nearer unless it waits
      for a callback. */
  lemma RunsMove(w: World, server: bool, env: Env)
    requires ConnOf(SideOf(w, server)).wait == Ready && !Done(SideOf(w, server))
    ensures Enabled(w, Runs(server, env))
    ensures var v := Next(w, Runs(server, env));
            && SideOf(v, server) == Do(SideOf(w, server), env)
            && Incoming(v, server) == Incoming(w, server) && Outgoing(v, server) == Outgoing(w, server)
            && (ConnOf(SideOf(v, server)).wait != Suspended ==> Measure(v) < Measure(w))
  {
    hide ClientDo, ServerDo, Measure;
    MoveLowers(w, Runs(server, env));
  }

  /** So is resolving what it waits for. */
  lemma ResolvesMove(w: World, server: bool, n: nat)
    requires Resolvable(ConnOf(SideOf(w, server)), Incoming(w, server), n)
    ensures Enabled(w, Resolves(server, n))
    ensures var (conn, wire, flushed) := Resolve(ConnOf(SideOf(w, server)), Incoming(w, server), n);
            var v := Next(w, Resolves(server, n));
            && SideOf(v, server) == WithConn(SideOf(w, server), conn)
            && Incoming(v, server) == wire && Outgoing(v, server) == Outgoing(w, server) + flushed
            && (!Idle(w, Resolves(server, n)) ==> Measure(v) < Measure(w))
  {
    hide ClientDo, ServerDo, Measure, Resolve, Resolvable;
    if !Idle(w, Resolves(server, n)) { MoveLowers(w, Resolves(server, n)); }
  }

  /** One end of a connection. world is the pair it is part of, and moves how the pair has come
      there from start: all this end does is moves of a run. */
  class Driver {
    const server: bool
    var hs: Side
    var wire: seq<Item>
    var written: seq<Item>
    var answers: seq<Env>
    var writes: seq<nat>
    ghost const start: World
    ghost var world: World
    ghost var moves: seq<Move>

    ghost predicate Valid()
      reads this
    {
      && world == Run(start, moves) && SideOf(world, server) == hs && Incoming(world, server) == wire
      && Outgoing(world, server) == Outgoing(start, server) + written
    }

    constructor (w: World, server: bool, answers: seq<Env>, writes: seq<nat>)
      ensures Valid() && start == w && moves == [] && hs == SideOf(w, server) && this.server == server
    {
      this.server, hs, wire, written := server, SideOf(w, server), Incoming(w, server), [];
      this.answers, this.writes := answers, writes;
      start, world, moves := w, w, [];
      new;
      assert Outgoing(w, server) == Outgoing(w, server) + [];
    }

    ghost method Moved(move: Move)
      requires world == Run(start, moves) && Enabled(world, move)
      modifies this`world, this`moves
      ensures world == Next(old(world), move) == Run(start, moves) && moves == old(moves) + [move]
    {
      RunLast(start, moves, move);
      world, moves := Next(world, move), moves + [move];
    }

    method Answer() returns (env: Env)
      modifies this`answers
    {
      if answers == [] { return Proceed; }
      env := answers[0];
      answers := answers[1..];
    }

    /** ssl_client_handshake or ssl_server_handshake: do_ functions until one has to wait. */
    method DoHandshake()
      requires Valid() && ConnOf(hs).wait == Ready
      modifies this`hs, this`answers, this`world, this`moves
      ensures Valid() && old(moves) <= moves && (ConnOf(hs).wait == Ready ==> Done(hs))
      ensures ConnOf(hs).wait == Suspended || Measure(world) < Measure(old(world)) || hs == old(hs)
      ensures hs == old(hs) ==> Done(hs)
    {
      hide Do, Measure, Run, Done, ConnOf, SideOf, Incoming, Outgoing, Next, Enabled;
      while !Done(hs)
        invariant Valid() && old(moves) <= moves && ConnOf(hs).wait == Ready
        invariant Measure(world) < Measure(old(world)) || (hs == old(hs) && world == old(world))
        decreases Measure(world)
      {
        var env := Answer();
        RunsMove(world, server, env);
        hs := Do(hs, env);
        Moved(Runs(server, env));
        if ConnOf(hs).wait != Ready { return; }
      }
    }

    /** ssl_run_handshake: 1 when the handshake is complete, otherwise what it is blocked on is in
        wait, or a callback was waited for and may now be called again. */
    method RunHandshake() returns (ret: int)
      requires Valid()
      modifies this
      ensures Valid() && old(moves) <= moves
      ensures ret == 1 ==> Done(hs) && ConnOf(hs).wait == Ready
      ensures Reading(ConnOf(hs)) ==> wire == []
      ensures ret != 1 ==> || ConnOf(hs).wait != Ready
                           || exists k :: |old(moves)| <= k < |moves| && moves[k] == Resolves(server, 0)
    {
      hide Do, Measure, Run, Done, SideOf, Incoming, Outgoing, Next, Enabled, Idle, Resolves;
      while true
        invariant Valid() && old(moves) <= moves
        decreases ConnOf(hs).wait != Suspended, Measure(world)
      {
        if ConnOf(hs).wait == Failed {
          return -1;
        } else if ConnOf(hs).wait == Flush {
          var n := FlushSome();
          if ConnOf(hs).wait == Flush { return -1; }
        } else if ConnOf(hs).wait == Suspended {
          ResolvesMove(world, server, 0);
          hs := WithConn(hs, Waits(ConnOf(hs), Ready));
          assert written == written + [];
          Moved(Resolves(server, 0));
          assert Outgoing(start, server) + written + [] == Outgoing(start, server) + written;
          assert moves[|moves| - 1] == Resolves(server, 0);
          return -1;
        } else if ConnOf(hs).wait != Ready {
          if wire == [] { return -1; }
          ReadOne();
          if ConnOf(hs).wait == Failed { return -1; }
        }
        DoHandshake();
        if ConnOf(hs).wait == Failed { return -1; }
        if ConnOf(hs).wait == Ready { return 1; }
      }
    }

    /** One record opened, for a handshake message or a ChangeCipherSpec. */
    method ReadOne()
      requires Valid() && wire != [] && Reading(ConnOf(hs))
      modifies this`hs, this`wire, this`world, this`moves
      ensures Valid() && old(moves) <= moves && Done(hs) == old(Done(hs))
      ensures Measure(world) < Measure(old(world)) && (ConnOf(hs).wait == Ready || ConnOf(hs).wait == Failed)
    {
      hide Measure, Run, SideOf, Incoming, Outgoing, Next, Enabled;
      ResolvesMove(world, server, 0);
      assert !Idle(world, Resolves(server, 0)) by { NotIdle(world, server, 0); }
      hs := WithConn(hs, Open(ConnOf(hs), wire));
      wire := wire[1..];
      assert Outgoing(start, server) + written + [] == Outgoing(start, server) + written;
      Moved(Resolves(server, 0));
    }

    /** ssl3_flush_flight, as far as the transport goes along. */
    method FlushSome() returns (n: nat)
      requires Valid() && ConnOf(hs).wait == Flush
      modifies this`hs, this`written, this`writes, this`world, this`moves
      ensures Valid() && old(moves) <= moves && Done(hs) == old(Done(hs))
      ensures ConnOf(hs).wait == Flush || (ConnOf(hs).wait == Ready && Measure(world) < Measure(old(world)))
    {
      hide Measure, Run, SideOf, Incoming, Outgoing, Next, Enabled;
      var c := ConnOf(hs);
      n := |c.pending|;
      if writes != [] {
        if writes[0] < n { n := writes[0]; }
        writes := writes[1..];
      }
      ResolvesMove(world, server, n);
      if !(n == 0 && c.pending != []) { NotIdle(world, server, n); }
      assert Outgoing(start, server) + written + c.pending[..n] == Outgoing(start, server) + (written + c.pending[..n]);
      written := written + c.pending[..n];
      hs := WithConn(hs, Waits(c.(pending := c.pending[n..]), if n == |c.pending| then Ready else Flush));
      Moved(Resolves(server, n));
    }
  }

  lemma NotIdle(w: World, server: bool, n: nat)
    ensures Idle(w, Resolves(server, n))
       <==> ConnOf(SideOf(w, server)).wait == Flush && n == 0 && ConnOf(SideOf(w, server)).pending != []
  {
  }
}
