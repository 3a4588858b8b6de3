/**
 The start handshake of any number of senders and receivers through the control server. Messages may be lost, delayed,
 repeated and reordered, and connections may break and be replaced at any moment.
 */
module Handshake {
  import opened Common
  import opened ControlSpec
  import opened HandshakeClients
  import opened HandshakeServer

  // ----- the whole system -----

  /**
   The server, the processes, and every message ever sent; `closed` holds the connections that have ended. History,
   which no process reads: the server's, and the handshake whose acknowledgement started each sender.
   */
  datatype World = World(
    server: Server, closed: set<Conn>, clients: seq<Client>, toServer: set<Sent>, toClient: set<Out>, history: History,
    startedBy: map<Conn, Key>)

  function Initial(cfg: seq<Config>): World {
    World(Server(map[], map[]), {}, seq(|cfg|, i requires 0 <= i < |cfg| => NewClient(cfg[i])), {}, {},
        History(map[], {}), map[])
  }

  /** A process registers; the server handles a message; a process handles a message; a connection ends. */
  datatype Action = Connect(c: Conn) | Serve(msg: Sent) | Deliver(out: Out) | Break(c: Conn)

  function ServeStep(w: World, msg: Sent): World {
    var r := w.server.Handle(msg.from, msg.request);
    w.(server := r.server,
       closed := if r.closes then w.closed + {msg.from} else w.closed,
       toClient := w.toClient + r.outs,
       history := Record(w.server, w.history, msg.from, msg.request))
  }

  /** The grid of a sender starts. */
  predicate Starts(before: Client, after: Client) {
    before.Sender? && after.Sender? && !before.started && after.started
  }

  function DeliverStep(cfg: seq<Config>, w: World, out: Out): World
    requires out.to < |cfg| == |w.clients| && (cfg[out.to].Camera? <==> w.clients[out.to].Sender?)
  {
    var c := out.to;
    var st := w.clients[c];
    var r := if cfg[c].Camera? then SenderReacts(cfg[c], st, out.reply) else ReceiverReacts(st, out.reply);
    w.(clients := w.clients[c := r.client],
       toServer := w.toServer + (if r.send.Some? then {Sent(c, r.send.value)} else {}),
       startedBy := if Starts(st, r.client) && out.reply.Ack? then
                      w.startedBy[c := Key(cfg[c].session, out.reply.generation)]
                    else w.startedBy)
  }

  ghost predicate Shaped(cfg: seq<Config>, w: World) {
    |w.clients| == |cfg| && forall c | 0 <= c < |cfg| :: cfg[c].Camera? <==> w.clients[c].Sender?
  }

  /** One action; an action that cannot happen now changes nothing. */
  ghost function Step(cfg: seq<Config>, w: World, a: Action): (r: World)
    requires Shaped(cfg, w)
    ensures Shaped(cfg, r)
  {
    match a
    case Connect(c) => if c < |cfg| then w.(toServer := w.toServer + {Sent(c, cfg[c].Registration())}) else w
    case Serve(msg) => if msg in w.toServer && msg.from !in w.closed then ServeStep(w, msg) else w
    case Deliver(out) => if out in w.toClient && out.to < |cfg| then DeliverStep(cfg, w, out) else w
    case Break(c) => w.(server := w.server.Disconnect(c), closed := w.closed + {c})
  }

  ghost function Run(cfg: seq<Config>, acts: seq<Action>): (r: World)
    ensures Shaped(cfg, r)
  {
    if acts == [] then Initial(cfg) else Step(cfg, Run(cfg, acts[..|acts| - 1]), acts[|acts| - 1])
  }

  // ----- the invariant -----

  /** The receiver processes that a sender may be connected to. */
  predicate Answers(cfg: seq<Config>, c: Conn, r: Conn)
    requires c < |cfg|
  {
    r < |cfg| && cfg[c].Camera? && cfg[r].Edge? && cfg[r].session == cfg[c].session && cfg[r].receiver == cfg[c].to
  }

  /** Where sender `c` sends when it hears of receiver `r`. */
  function AddressOf(cfg: seq<Config>, c: Conn, r: Conn): Address
    requires c < |cfg| && Answers(cfg, c, r)
  {
    cfg[c].Resolve(cfg[r].info.Announced())
  }

  /**
   The stream of the sender has a name; or it has none, and every sender that may share a receiver with it offers the
   same stream and SSRC.
   */
  ghost predicate Settled(cfg: seq<Config>, c: Conn)
    requires c < |cfg|
  {
    cfg[c].Camera? && cfg[c].stream == "" ==>
      forall d, r | 0 <= d < |cfg| && 0 <= r < |cfg| && Answers(cfg, c, r) && Answers(cfg, d, r) ::
        cfg[d].stream == "" && cfg[d].ssrc == cfg[c].ssrc
  }

  /** The receiver of this handshake serves its stream with its SSRC. */
  ghost predicate TakenUp(w: World, k: Key) {
    && k in w.history.issued
    && var i := w.history.issued[k];
    && i.receiver < |w.clients| && w.clients[i.receiver] == Receiver(i.stream, i.ssrc)
  }

  /** Receiver `r` has accepted this handshake, and serves its stream since, if no other sender can disturb that. */
  ghost predicate Accepted(cfg: seq<Config>, w: World, r: Conn, stream: string, gen: int) {
    && r < |cfg|
    && var k := Key(cfg[r].session, gen);
    && k in w.history.issued
    && var i := w.history.issued[k];
    && i.receiver == r && i.stream == stream && i.sender < |cfg|
    && (Settled(cfg, i.sender) ==> TakenUp(w, k))
  }

  ghost predicate SentOk(cfg: seq<Config>, w: World, msg: Sent) {
    && RequestOk(cfg, msg.from, msg.request)
    && (msg.request.StreamAck? && msg.request.ok ==>
       Accepted(cfg, w, msg.from, msg.request.stream, msg.request.generation))
  }

  /** Some receiver process has this id and announces these ports. */
  ghost predicate Advertised(cfg: seq<Config>, name: string, rid: string, info: Info) {
    exists r | 0 <= r < |cfg| :: IsEdge(cfg[r], name, rid) && cfg[r].info.Announced() == info
  }

  predicate IsEdge(cfg: Config, name: string, rid: string) {
    cfg.Edge? && cfg.session == name && cfg.receiver == rid
  }

  ghost predicate ReplyOk(cfg: seq<Config>, w: World, out: Out) {
    && out.to < |cfg|
    && var name := cfg[out.to].session;
    match out.reply
    case Ready(rid, info) => Advertised(cfg, name, rid, info)
    case Start(stream, ssrc, gen) =>
      var k := Key(name, gen);
      k in w.history.issued && w.history.issued[k] == Issue(stream, w.history.issued[k].sender, out.to, ssrc)
    case Ack(stream, gen, ok) =>
      var k := Key(name, gen);
      && k in w.history.issued && w.history.issued[k].sender == out.to && w.history.issued[k].stream == stream
      && k in w.history.acked
      && (ok ==> Accepted(cfg, w, w.history.issued[k].receiver, stream, gen))
  }

  /** Sender `c` was started by the acknowledgement of a handshake that it began and that its receiver accepted. */
  ghost predicate StartedOk(cfg: seq<Config>, w: World, c: Conn)
    requires c < |cfg|
  {
    && c in w.startedBy
    && var k := w.startedBy[c];
    && k in w.history.acked && k in w.history.issued && w.history.issued[k].sender == c
    && Answers(cfg, c, w.history.issued[k].receiver)
    && (Settled(cfg, c) ==> TakenUp(w, k))
  }

  /** The sender has an address that a receiver with the id it names announced. */
  ghost predicate DestOk(cfg: seq<Config>, c: Conn, dest: Option<Address>)
    requires c < |cfg|
  {
    exists r | 0 <= r < |cfg| :: Answers(cfg, c, r) && dest == Some(AddressOf(cfg, c, r))
  }

  ghost predicate ClientOk(cfg: seq<Config>, w: World, c: Conn)
    requires c < |cfg| == |w.clients|
  {
    cfg[c].Camera? && w.clients[c].Sender? ==>
      && (w.clients[c].awaiting || w.clients[c].started ==> DestOk(cfg, c, w.clients[c].dest))
      && (w.clients[c].started ==> StartedOk(cfg, w, c))
  }

  ghost predicate Inv(cfg: seq<Config>, w: World) {
    && Shaped(cfg, w) && ServerOk(cfg, w.server, w.history)
    && (forall c | c in w.closed :: c !in w.server.peers)
    && (forall msg | msg in w.toServer :: SentOk(cfg, w, msg))
    && (forall out | out in w.toClient :: ReplyOk(cfg, w, out))
    && (forall c | 0 <= c < |cfg| :: ClientOk(cfg, w, c))
  }

  /** What never goes back: handshakes begun and acknowledged, and streams taken up. */
  ghost predicate Later(cfg: seq<Config>, w: World, v: World) {
    && (forall k | k in w.history.issued :: k in v.history.issued && v.history.issued[k] == w.history.issued[k])
    && w.history.acked <= v.history.acked
    && |w.clients| == |v.clients|
    && (forall k | k in w.history.issued && w.history.issued[k].sender < |cfg| ::
          Settled(cfg, w.history.issued[k].sender) && TakenUp(w, k) ==> TakenUp(v, k))
  }

  lemma MessagesLater(cfg: seq<Config>, w: World, v: World)
    requires Later(cfg, w, v)
    ensures forall msg | SentOk(cfg, w, msg) :: SentOk(cfg, v, msg)
    ensures forall out | ReplyOk(cfg, w, out) :: ReplyOk(cfg, v, out)
  {
    hide Settled, TakenUp, RequestOk, Advertised;
  }

  // ----- the server handles a message -----

  /** A new registration advertises ports that some receiver process has. */
  lemma ReadyReplies(cfg: seq<Config>, w: World, c: Conn, m: Request, out: Out)
    requires Inv(cfg, w) && RequestOk(cfg, c, m) && (m.RegisterSender? || m.RegisterReceiver?)
    requires out in w.server.Handle(c, m).outs
    ensures ReplyOk(cfg, w, out)
  {
    hide SessionOk;
    var name := m.session;
    var s := w.server.Session(name);
    SessionIsOk(cfg, w.server, w.history, name);
    if m.RegisterSender? {
      var t := s.RegisterSender(c, m.stream);
      assert t.receivers == s.receivers;
      HolderOk(cfg, name, s, w.server.peers, w.history, out.reply.receiver);
      assert IsEdge(cfg[s.receivers[out.reply.receiver].conn], name, out.reply.receiver);
    } else {
      assert IsEdge(cfg[c], name, m.receiver) && cfg[c].info.Announced() == out.reply.info;
      RegisteredSender(cfg, name, s, w.server.peers, w.history, out.to);
    }
  }

  lemma StartReply(cfg: seq<Config>, w: World, msg: Sent, out: Out)
    requires Inv(cfg, w) && RequestOk(cfg, msg.from, msg.request) && msg.request.StreamStart? &&
             out in w.server.Handle(msg.from, msg.request).outs
    ensures ReplyOk(cfg, ServeStep(w, msg), out)
  {
    hide SessionOk;
    var name := w.server.peers[msg.from].session;
    SessionIsOk(cfg, w.server, w.history, name);
    HolderOk(cfg, name, w.server.Session(name), w.server.peers, w.history, msg.request.to);
  }

  /** An acknowledgement is passed on only for a handshake of this receiver connection and of the sender it goes to. */
  lemma AckReply(cfg: seq<Config>, w: World, msg: Sent, out: Out)
    requires Inv(cfg, w) && SentOk(cfg, w, msg) && msg.request.StreamAck? &&
             out in w.server.Handle(msg.from, msg.request).outs
    ensures ReplyOk(cfg, ServeStep(w, msg), out)
  {
    hide SessionOk, Settled;
    var name := w.server.peers[msg.from].session;
    var s := w.server.Session(name);
    SessionIsOk(cfg, w.server, w.history, name);
    AckKeeps(cfg, name, s, w.server.peers, w.history, msg.from, msg.request.stream, msg.request.generation);
    var k := Key(name, msg.request.generation);
    assert IssueOk(cfg, k, w.history.issued[k]);
  }

  lemma RecordLater(cfg: seq<Config>, w: World, msg: Sent)
    requires Inv(cfg, w) && RequestOk(cfg, msg.from, msg.request)
    ensures Later(cfg, w, ServeStep(w, msg))
  {
    hide ServerOk, Settled;
    if msg.request.StreamStart? && msg.from in w.server.peers {
      KeyIsNew(cfg, w.server, w.history, w.server.peers[msg.from].session);
    }
  }

  lemma ServeKeepsInv(cfg: seq<Config>, w: World, msg: Sent)
    requires Inv(cfg, w) && msg in w.toServer && msg.from !in w.closed
    ensures Inv(cfg, ServeStep(w, msg))
  {
    hide ServerOk, SentOk, ReplyOk, ClientOk, Record, Later;
    RequestOfSent(cfg, w, msg);
    var v := ServeStep(w, msg);
    HandleKeepsServer(cfg, w.server, w.history, msg.from, msg.request);
    RecordLater(cfg, w, msg);
    MessagesLater(cfg, w, v);
    forall out | out in w.server.Handle(msg.from, msg.request).outs
      ensures ReplyOk(cfg, v, out)
    {
      match msg.request
      case StreamStart(_, _, _) => StartReply(cfg, w, msg, out);
      case StreamAck(_, _, _) => AckReply(cfg, w, msg, out);
      case _ => ReadyReplies(cfg, w, msg.from, msg.request, out);
    }
    PeersOfHandle(w.server, msg.from, msg.request);
    forall c | 0 <= c < |cfg|
      ensures ClientOk(cfg, v, c)
    {
      ClientLater(cfg, w, v, c);
    }
  }

  lemma RequestOfSent(cfg: seq<Config>, w: World, msg: Sent)
    requires SentOk(cfg, w, msg)
    ensures RequestOk(cfg, msg.from, msg.request)
  {
  }

  /** A process that this step does not concern. */
  lemma ClientLater(cfg: seq<Config>, w: World, v: World, c: Conn)
    requires c < |cfg| == |w.clients| && ClientOk(cfg, w, c) && Later(cfg, w, v) && v.clients[c] == w.clients[c]
    requires c in w.startedBy ==> c in v.startedBy && v.startedBy[c] == w.startedBy[c]
    ensures ClientOk(cfg, v, c)
  {
    hide Settled, TakenUp, DestOk;
  }

  // ----- a process handles a message -----

  /** What a receiver serves changes only as long as it serves no named stream. */
  lemma TakenUpStays(cfg: seq<Config>, w: World, out: Out, k: Key)
    requires Inv(cfg, w) && ReplyOk(cfg, w, out) && cfg[out.to].Edge?
    requires TakenUp(w, k) && w.history.issued[k].sender < |cfg| && Settled(cfg, w.history.issued[k].sender)
    ensures TakenUp(DeliverStep(cfg, w, out), k)
  {
    hide AllSessionsOk;
    var i := w.history.issued[k];
    assert IssueOk(cfg, k, i);
    if out.reply.Start? && out.to == i.receiver && i.stream == "" {
      var k2 := Key(cfg[out.to].session, out.reply.generation);
      assert IssueOk(cfg, k2, w.history.issued[k2]);
      assert Answers(cfg, i.sender, out.to) && Answers(cfg, w.history.issued[k2].sender, out.to);
    }
  }

  /** A receiver takes up its first stream, and the acknowledgement it sends is true. */
  lemma ReceiverDelivered(cfg: seq<Config>, w: World, out: Out)
    requires Inv(cfg, w) && ReplyOk(cfg, w, out) && cfg[out.to].Edge?
    ensures var v := DeliverStep(cfg, w, out);
            && Later(cfg, w, v)
            && (forall msg | msg in v.toServer && msg !in w.toServer :: SentOk(cfg, v, msg))
  {
    forall k | k in w.history.issued && w.history.issued[k].sender < |cfg| &&
        Settled(cfg, w.history.issued[k].sender) && TakenUp(w, k)
      ensures TakenUp(DeliverStep(cfg, w, out), k)
    {
      TakenUpStays(cfg, w, out, k);
    }
    hide AllSessionsOk, Settled;
    if out.reply.Start? {
      var k := Key(cfg[out.to].session, out.reply.generation);
      assert IssueOk(cfg, k, w.history.issued[k]);
    }
  }

  lemma SenderLater(cfg: seq<Config>, w: World, out: Out)
    requires Inv(cfg, w) && out.to < |cfg| && cfg[out.to].Camera?
    ensures Later(cfg, w, DeliverStep(cfg, w, out))
  {
    hide ServerOk, SentOk, ReplyOk, ClientOk, Settled;
  }

  /** A sender keeps what it knows, or learns it from this message. */
  lemma SenderDelivered(cfg: seq<Config>, w: World, out: Out)
    requires Inv(cfg, w) && ReplyOk(cfg, w, out) && cfg[out.to].Camera?
    ensures var v := DeliverStep(cfg, w, out);
            && (forall msg | msg in v.toServer && msg !in w.toServer :: SentOk(cfg, v, msg))
            && ClientOk(cfg, v, out.to)
  {
    hide AllSessionsOk, Settled, DestOk;
    var c, st := out.to, w.clients[out.to];
    var v := DeliverStep(cfg, w, out);
    assert ClientOk(cfg, w, c);
    SenderLater(cfg, w, out);
    if Starts(st, v.clients[c]) {
      var k := Key(cfg[c].session, out.reply.generation);
      assert IssueOk(cfg, k, w.history.issued[k]);
    } else if out.reply.Ready? && out.reply.receiver == cfg[c].to {
      HeardOk(cfg, w, out);
    }
  }

  lemma HeardOk(cfg: seq<Config>, w: World, out: Out)
    requires ReplyOk(cfg, w, out) && cfg[out.to].Camera? && out.reply.Ready? && out.reply.receiver == cfg[out.to].to
    ensures DestOk(cfg, out.to, Some(cfg[out.to].Resolve(out.reply.info)))
  {
    var c := out.to;
    var r :| 0 <= r < |cfg| && IsEdge(cfg[r], cfg[c].session, cfg[c].to) && cfg[r].info.Announced() == out.reply.info;
    assert Answers(cfg, c, r);
  }

  lemma DeliverKeepsInv(cfg: seq<Config>, w: World, out: Out)
    requires Inv(cfg, w) && out in w.toClient && out.to < |cfg|
    ensures Inv(cfg, DeliverStep(cfg, w, out))
  {
    hide ServerOk, SentOk, ReplyOk, ClientOk, Later;
    var v := DeliverStep(cfg, w, out);
    if cfg[out.to].Camera? {
      SenderDelivered(cfg, w, out);
      SenderLater(cfg, w, out);
    } else {
      ReceiverDelivered(cfg, w, out);
      EdgeOk(cfg, v, out.to);
    }
    MessagesLater(cfg, w, v);
    forall c | 0 <= c < |cfg| && c != out.to
      ensures ClientOk(cfg, v, c)
    {
      ClientLater(cfg, w, v, c);
    }
  }

  lemma EdgeOk(cfg: seq<Config>, w: World, c: Conn)
    requires c < |cfg| == |w.clients| && cfg[c].Edge?
    ensures ClientOk(cfg, w, c)
  {
  }

  lemma QuietKeepsInv(cfg: seq<Config>, w: World, a: Action)
    requires Inv(cfg, w) && (a.Connect? || a.Break?)
    ensures Inv(cfg, Step(cfg, w, a))
  {
    hide ServerOk, SentOk, ReplyOk, ClientOk, Settled;
    var v := Step(cfg, w, a);
    if a.Break? {
      DisconnectKeepsServer(cfg, w.server, w.history, a.c);
    } else if a.c < |cfg| {
      ConnectOk(cfg, v, a.c);
    }
    MessagesLater(cfg, w, v);
    forall c | 0 <= c < |cfg|
      ensures ClientOk(cfg, v, c)
    {
      ClientLater(cfg, w, v, c);
    }
  }

  lemma ConnectOk(cfg: seq<Config>, w: World, c: Conn)
    requires c < |cfg|
    ensures SentOk(cfg, w, Sent(c, cfg[c].Registration()))
  {
  }

  lemma StepKeepsInv(cfg: seq<Config>, w: World, a: Action)
    requires Inv(cfg, w)
    ensures Inv(cfg, Step(cfg, w, a))
  {
    hide ServeStep, DeliverStep, ServerOk, SentOk, ReplyOk, ClientOk;
    match a
    case Serve(msg) =>
      if msg in w.toServer && msg.from !in w.closed {
        ServeKeepsInv(cfg, w, msg);
      }
    case Deliver(out) =>
      if out in w.toClient && out.to < |cfg| {
        DeliverKeepsInv(cfg, w, out);
      }
    case _ => QuietKeepsInv(cfg, w, a);
  }

  lemma InitialInv(cfg: seq<Config>)
    ensures Inv(cfg, Initial(cfg))
  {
  }

  lemma {:induction false} RunInv(cfg: seq<Config>, acts: seq<Action>)
    ensures Inv(cfg, Run(cfg, acts))
  {
    hide Inv, Step;
    if acts == [] {
      InitialInv(cfg);
    } else {
      RunInv(cfg, acts[..|acts| - 1]);
      StepKeepsInv(cfg, Run(cfg, acts[..|acts| - 1]), acts[|acts| - 1]);
    }
  }
}
