/** Who says what in a TLS 1.2 handshake, full or resumed: section 7.3 of RFC 5246, with the
    extensions this implementation negotiates. */
module HandshakeScript {

  datatype Kind =
    | ClientHello | ServerHello | Certificate | CertificateStatus | ServerKeyExchange | CertificateRequest
    | ServerHelloDone | ClientKeyExchange | CertificateVerify | NextProto | ChannelId | NewSessionTicket | Finished

  /** What the server settles in its ServerHello and the cipher behind it. */
  datatype Params = Params(
    resumed: bool, certAuth: bool, status: bool, requiresSke: bool, sendsSke: bool, certRequest: bool,
    npn: bool, channelId: bool, ticket: bool)

  /** Ciphers that need a ServerKeyExchange get one, and only a full handshake with certificates
      asks the client for one. */
  predicate ParamsOk(p: Params) {
    (p.requiresSke ==> p.sendsSke) && (p.certRequest ==> p.certAuth && !p.resumed)
  }

  /** The part of a message the machines look at. A Finished carries, for the MAC, what it was
      computed over. */
  datatype Info = Nothing | Negotiated(p: Params) | Chain(empty: bool) | Mac(byServer: bool, over: seq<Msg>)

  datatype Msg = Msg(kind: Kind, info: Info)

  /** ChangeCipherSpec is no handshake message and is not hashed. */
  datatype Item = Hs(m: Msg) | Ccs

  /** A handshake: the parameters, and whether the client has a certificate. */
  datatype Plan = Plan(p: Params, hasCert: bool)

  function Length(x: Plan): nat {
    if x.p.resumed then 9 else 17
  }

  /** The places of a handshake in order; each is taken by one side. */
  predicate FromServer(x: Plan, k: nat) {
    if x.p.resumed then 1 <= k <= 4 else 1 <= k <= 6 || 14 <= k
  }

  function Only(present: bool, kind: Kind, info: Info): seq<Item> {
    if present then [Hs(Msg(kind, info))] else []
  }

  /** What is said at place k, after everything before: one item, or none if it is not called for. */
  function Said(x: Plan, k: nat): (items: seq<Item>)
    ensures |items| <= 1
    decreases k, 1
  {
    if x.p.resumed then
      match k
      case 0 => Only(true, ClientHello, Nothing)
      case 1 => Only(true, ServerHello, Negotiated(x.p))
      case 2 => Only(x.p.ticket, NewSessionTicket, Nothing)
      case 3 => [Ccs]
      case 4 => Only(true, Finished, Mac(true, Sent(x, k)))
      case 5 => [Ccs]
      case 6 => Only(x.p.npn, NextProto, Nothing)
      case 7 => Only(x.p.channelId, ChannelId, Nothing)
      case 8 => Only(true, Finished, Mac(false, Sent(x, k)))
      case _ => []
    else
      match k
      case 0 => Only(true, ClientHello, Nothing)
      case 1 => Only(true, ServerHello, Negotiated(x.p))
      case 2 => Only(x.p.certAuth, Certificate, Chain(false))
      case 3 => Only(x.p.certAuth && x.p.status, CertificateStatus, Nothing)
      case 4 => Only(x.p.sendsSke, ServerKeyExchange, Nothing)
      case 5 => Only(x.p.certRequest, CertificateRequest, Nothing)
      case 6 => Only(true, ServerHelloDone, Nothing)
      case 7 => Only(x.p.certRequest, Certificate, Chain(!x.hasCert))
      case 8 => Only(true, ClientKeyExchange, Nothing)
      case 9 => Only(x.p.certRequest && x.hasCert, CertificateVerify, Nothing)
      case 10 => [Ccs]
      case 11 => Only(x.p.npn, NextProto, Nothing)
      case 12 => Only(x.p.channelId, ChannelId, Nothing)
      case 13 => Only(true, Finished, Mac(false, Sent(x, k)))
      case 14 => Only(x.p.ticket, NewSessionTicket, Nothing)
      case 15 => [Ccs]
      case 16 => Only(true, Finished, Mac(true, Sent(x, k)))
      case _ => []
  }

  function Hashed(items: seq<Item>): seq<Msg> {
    if items == [] then []
    else (if items[0].Hs? then [items[0].m] else []) + Hashed(items[1..])
  }

  /** The handshake messages of the first k places. */
  function Sent(x: Plan, k: nat): seq<Msg>
    decreases k, 0
  {
    if k == 0 then [] else Sent(x, k - 1) + Hashed(Said(x, k - 1))
  }

  /** What is said from place a up to place b. */
  function Items(x: Plan, a: nat, b: nat): seq<Item>
    decreases b
  {
    if a >= b then [] else Items(x, a, b - 1) + Said(x, b - 1)
  }

  lemma {:induction false} ItemsFirst(x: Plan, a: nat, b: nat)
    requires a < b
    ensures Items(x, a, b) == Said(x, a) + Items(x, a + 1, b)
    decreases b
  {
    hide Said;
    if a + 1 < b {
      ItemsFirst(x, a, b - 1);
      assert Said(x, a) + Items(x, a + 1, b - 1) + Said(x, b - 1) == Said(x, a) + (Items(x, a + 1, b - 1) + Said(x, b - 1));
    } else {
      assert Items(x, a, a) + Said(x, a) == Said(x, a) + Items(x, a + 1, b);
    }
  }

  lemma {:induction false} HashedAppend(a: seq<Item>, b: seq<Item>)
    ensures Hashed(a + b) == Hashed(a) + Hashed(b)
  {
    if a == [] {
      assert a + b == b;
    } else {
      assert (a + b)[0] == a[0] && (a + b)[1..] == a[1..] + b;
      HashedAppend(a[1..], b);
      var first := if a[0].Hs? then [a[0].m] else [];
      assert Hashed(a + b) == first + (Hashed(a[1..]) + Hashed(b)) == first + Hashed(a[1..]) + Hashed(b);
    }
  }

  lemma {:induction false} SentItems(x: Plan, a: nat, b: nat)
    requires a <= b
    ensures Sent(x, b) == Sent(x, a) + Hashed(Items(x, a, b))
    decreases b
  {
    hide Said;
    if a < b {
      SentItems(x, a, b - 1);
      HashedAppend(Items(x, a, b - 1), Said(x, b - 1));
    }
  }

  // -------------------------------------------------------------- staying in step

  /** From place a to place b only one side has anything to say. */
  predicate Speaks(x: Plan, server: bool, a: nat, b: nat) {
    forall k: nat :: a <= k < b ==> Said(x, k) == [] || FromServer(x, k) == server
  }

  /** One side is at place i with this transcript, the other at place j with that one; out is
      what the first has said and the second not heard, and back the other way round. Whoever is
      ahead has said all there is in between, and the other has nothing on its way. */
  predicate InStep(x: Plan, server: bool, i: nat, j: nat, tr: seq<Msg>, peer: seq<Msg>, out: seq<Item>, back: seq<Item>) {
    && tr == Sent(x, i) && peer == Sent(x, j)
    && (j <= i ==> Speaks(x, server, j, i) && out == Items(x, j, i) && back == [])
    && (i <= j ==> Speaks(x, !server, i, j) && back == Items(x, i, j) && out == [])
  }

  /** Passing over a place with nothing to say. */
  lemma StepOver(x: Plan, server: bool, i: nat, j: nat, tr: seq<Msg>, peer: seq<Msg>, out: seq<Item>, back: seq<Item>)
    requires InStep(x, server, i, j, tr, peer, out, back) && Said(x, i) == []
    ensures InStep(x, server, i + 1, j, tr, peer, out, back)
  {
    hide Said, FromServer;
    if i < j { ItemsFirst(x, i, j); }
  }

  /** Saying what is one's own to say. */
  lemma StepSay(x: Plan, server: bool, i: nat, j: nat, tr: seq<Msg>, peer: seq<Msg>, out: seq<Item>, back: seq<Item>)
    requires InStep(x, server, i, j, tr, peer, out, back) && FromServer(x, i) == server
    ensures Said(x, i) != [] ==> j <= i
    ensures InStep(x, server, i + 1, j, tr + Hashed(Said(x, i)), peer, out + Said(x, i), back)
  {
    hide Said, FromServer;
    assert i < j ==> Said(x, i) == [] || FromServer(x, i) == !server;
    if Said(x, i) == [] {
      StepOver(x, server, i, j, tr, peer, out, back);
      assert tr + [] == tr && out + [] == out;
    }
  }

  /** Hearing what the other side said. */
  lemma StepHear(x: Plan, server: bool, i: nat, j: nat, tr: seq<Msg>, peer: seq<Msg>, out: seq<Item>, back: seq<Item>)
    requires InStep(x, server, i, j, tr, peer, out, back) && Said(x, i) != [] && back != []
    ensures back[0] == Said(x, i)[0]
    ensures InStep(x, server, i + 1, j, tr + Hashed(Said(x, i)), peer, out, back[1..])
  {
    hide Said, FromServer;
    ItemsFirst(x, i, j);
    assert back == Said(x, i) + Items(x, i + 1, j);
  }

  /** What comes next is what is said at the first place, from here on, where anything is. */
  lemma {:induction false} ComesNext(x: Plan, server: bool, i: nat, j: nat, tr: seq<Msg>, peer: seq<Msg>,
                                     out: seq<Item>, back: seq<Item>) returns (k: nat)
    requires InStep(x, server, i, j, tr, peer, out, back) && back != []
    ensures i <= k < j && Said(x, k) != [] && back[0] == Said(x, k)[0]
    ensures forall l: nat :: i <= l < k ==> Said(x, l) == []
    decreases j - i
  {
    hide Said, FromServer;
    ItemsFirst(x, i, j);
    if Said(x, i) != [] {
      k := i;
    } else {
      assert [] + Items(x, i + 1, j) == Items(x, i + 1, j);
      StepOver(x, server, i, j, tr, peer, out, back);
      k := ComesNext(x, server, i + 1, j, tr, peer, out, back);
    }
  }

  /** Neither side can have heard or hashed anything the other has not, or in another order. */
  lemma TranscriptsAgree(x: Plan, server: bool, i: nat, j: nat, tr: seq<Msg>, peer: seq<Msg>, out: seq<Item>, back: seq<Item>)
    requires InStep(x, server, i, j, tr, peer, out, back)
    ensures tr + Hashed(back) == peer + Hashed(out)
  {
    if i <= j { SentItems(x, i, j); } else { SentItems(x, j, i); }
  }
}
