/**
 What the control server delivers, in every run of the system: introductions, stream-starts and acknowledgements that
 are due are sent, and a pending handshake stays until one of the events that end it.
 */
module HandshakeRouting {
  import opened Common
  import opened ControlSpec
  import opened HandshakeClients
  import opened HandshakeServer
  import opened Handshake

  // ----- acknowledgements -----

  /**
   An acknowledgement is passed on, whatever it says: when the receiver connection of a pending handshake answers it,
   with its generation, and the sender connection that began it still holds the stream, exactly one message goes out,
   the same answer to that sender, and the handshake is over.
   */
  lemma {:induction false} AckIsPassedOn(cfg: seq<Config>, acts: seq<Action>, name: string, stream: string, ok: bool)
    requires var w := Run(cfg, acts);
             var s := w.server.Session(name);
             && stream in s.pending && stream in s.senders && s.senders[stream] == s.pending[stream].sender
             && Sent(s.pending[stream].receiver, StreamAck(stream, s.pending[stream].generation, ok)) in w.toServer
    ensures var w := Run(cfg, acts);
            var p := w.server.Session(name).pending[stream];
            var msg := Sent(p.receiver, StreamAck(stream, p.generation, ok));
            var v := Step(cfg, w, Serve(msg));
            && w.server.Handle(msg.from, msg.request).outs == {Out(p.sender, Ack(stream, p.generation, ok))}
            && Out(p.sender, Ack(stream, p.generation, ok)) in v.toClient
            && stream !in v.server.Session(name).pending && Key(name, p.generation) in v.history.acked
            && p.sender !in w.closed && p.receiver !in w.closed
  {
    hide SessionOk, SentOk, ReplyOk, ClientOk;
    var w := Run(cfg, acts);
    RunInv(cfg, acts);
    SessionIsOk(cfg, w.server, w.history, name);
    PendingInSession(cfg, name, w.server.Session(name), w.server.peers, w.history, stream);
  }

  // ----- pending handshakes -----

  /** This message ends the pending handshake of a stream, or replaces it. */
  predicate EndsIt(sv: Server, name: string, stream: string, c: Conn, m: Request)
    requires stream in sv.Session(name).pending
  {
    var s := sv.Session(name);
    var p := s.pending[stream];
    match m
    case RegisterSender(n, st) => n == name && st == stream && st in s.senders && s.senders[st] == p.sender
    case RegisterReceiver(n, rid, _) => n == name && rid in s.receivers && s.receivers[rid].conn == p.receiver
    case StreamStart(to, _, _) => c in sv.peers && sv.peers[c] == Peer(name, true, stream) && to in s.receivers
    case StreamAck(st, gen, _) => c == p.receiver && st == stream && gen == p.generation
  }

  /** What the tables say of a pending handshake and of the connections that hold something. */
  lemma PendingFacts(cfg: seq<Config>, sv: Server, h: History, name: string, stream: string)
    requires ServerOk(cfg, sv, h) && stream in sv.Session(name).pending
    ensures var s := sv.Session(name);
            var p := s.pending[stream];
            && p.sender in sv.peers && sv.peers[p.sender] == Peer(name, true, stream)
            && p.receiver in sv.peers && sv.peers[p.receiver].session == name && !sv.peers[p.receiver].isSender
            && p.generation <= s.generation
            && (forall st | st in s.senders ::
                  s.senders[st] in sv.peers && sv.peers[s.senders[st]] == Peer(name, true, st))
            && (forall rid | rid in s.receivers ::
                  s.receivers[rid].conn in sv.peers && sv.peers[s.receivers[rid].conn] == Peer(name, false, rid))
  {
    hide SessionOk;
    var s := sv.Session(name);
    SessionIsOk(cfg, sv, h, name);
    PendingInSession(cfg, name, s, sv.peers, h, stream);
    GenerationBound(cfg, name, s, sv.peers, h, Key(name, s.pending[stream].generation));
    forall st | st in s.senders
      ensures SenderOk(name, s, sv.peers, st)
    {
      HolderOfStream(cfg, name, s, sv.peers, h, st);
    }
    forall rid | rid in s.receivers
      ensures ReceiverOk(cfg, name, s, sv.peers, rid)
    {
      HolderOk(cfg, name, s, sv.peers, h, rid);
    }
  }

  lemma GenerationBound(cfg: seq<Config>, name: string, s: SessionState, peers: map<Conn, Peer>, h: History, k: Key)
    requires SessionOk(cfg, name, s, peers, h) && k in h.issued && k.session == name
    ensures k.generation <= s.generation
  {
  }

  lemma HolderOfStream(cfg: seq<Config>, name: string, s: SessionState, peers: map<Conn, Peer>, h: History, st: string)
    requires SessionOk(cfg, name, s, peers, h) && st in s.senders
    ensures SenderOk(name, s, peers, st)
  {
  }

  predicate Kept(sv: Server, t: Server, name: string, stream: string)
    requires stream in sv.Session(name).pending
  {
    stream in t.Session(name).pending && t.Session(name).pending[stream] == sv.Session(name).pending[stream]
  }

  lemma RegistrationEndsIff(cfg: seq<Config>, sv: Server, h: History, name: string, stream: string, c: Conn, m: Request)
    requires ServerOk(cfg, sv, h) && stream in sv.Session(name).pending && (m.RegisterSender? || m.RegisterReceiver?)
    ensures EndsIt(sv, name, stream, c, m) <==> !Kept(sv, sv.Handle(c, m).server, name, stream)
  {
    PendingFacts(cfg, sv, h, name, stream);
    hide ServerOk;
  }

  lemma AckEndsIff(cfg: seq<Config>, sv: Server, h: History, name: string, stream: string, c: Conn, m: Request)
    requires ServerOk(cfg, sv, h) && stream in sv.Session(name).pending && m.StreamAck?
    ensures EndsIt(sv, name, stream, c, m) <==> !Kept(sv, sv.Handle(c, m).server, name, stream)
  {
    PendingFacts(cfg, sv, h, name, stream);
    hide ServerOk;
  }

  lemma HandleEndsIff(cfg: seq<Config>, sv: Server, h: History, name: string, stream: string, c: Conn, m: Request)
    requires ServerOk(cfg, sv, h) && RequestOk(cfg, c, m) && stream in sv.Session(name).pending
    ensures EndsIt(sv, name, stream, c, m) <==> !Kept(sv, sv.Handle(c, m).server, name, stream)
  {
    if m.StreamStart? {
      PendingFacts(cfg, sv, h, name, stream);
      assert PeersOk(cfg, sv.peers);
      hide ServerOk;
    } else if m.StreamAck? {
      AckEndsIff(cfg, sv, h, name, stream, c, m);
    } else {
      RegistrationEndsIff(cfg, sv, h, name, stream, c, m);
    }
  }

  /** This action ends the pending handshake of a stream, or replaces it. */
  predicate Ends(w: World, name: string, stream: string, a: Action)
    requires stream in w.server.Session(name).pending
  {
    match a
    case Break(c) => w.server.Session(name).pending[stream].Of(c)
    case Serve(msg) =>
      msg in w.toServer && msg.from !in w.closed && EndsIt(w.server, name, stream, msg.from, msg.request)
    case _ => false
  }

  /**
   A pending handshake stays as it is, in every run, until its receiver connection answers it, the sender or the
   receiver registers anew, a new stream-start of the stream reaches a receiver, or one of its connections ends; and
   no longer.
   */
  lemma {:induction false} PendingEndsIff(cfg: seq<Config>, acts: seq<Action>, name: string, stream: string, a: Action)
    requires stream in Run(cfg, acts).server.Session(name).pending
    ensures var w := Run(cfg, acts);
            Ends(w, name, stream, a) <==> !Kept(w.server, Step(cfg, w, a).server, name, stream)
  {
    hide ServerOk, ReplyOk, ClientOk, EndsIt, Server.Handle, Server.Disconnect;
    var w := Run(cfg, acts);
    RunInv(cfg, acts);
    match a
    case Serve(msg) =>
      if msg in w.toServer && msg.from !in w.closed {
        assert SentOk(cfg, w, msg);
        HandleEndsIff(cfg, w.server, w.history, name, stream, msg.from, msg.request);
      }
    case Break(c) => DisconnectSparesOthers(cfg, w.server, w.history, c, name);
    case _ =>
  }

  // ----- introductions and stream-starts -----

  /** Every sender of a session has been sent the address of every receiver of it. */
  ghost predicate Introduced(sv: Server, toClient: set<Out>, name: string) {
    var s := sv.Session(name);
    forall st, rid | st in s.senders && rid in s.receivers ::
      Out(s.senders[st], Ready(rid, s.receivers[rid].info.Announced())) in toClient
  }

  lemma HandleIntroduces(sv: Server, toClient: set<Out>, name: string, c: Conn, m: Request)
    requires Introduced(sv, toClient, name)
    ensures var r := sv.Handle(c, m); Introduced(r.server, toClient + r.outs, name)
  {
    var s, r := sv.Session(name), sv.Handle(c, m);
    var t := r.server.Session(name);
    forall st, rid | st in t.senders && rid in t.receivers
      ensures Out(t.senders[st], Ready(rid, t.receivers[rid].info.Announced())) in toClient + r.outs
    {
      assert st in s.senders && rid in s.receivers ==>
          Out(s.senders[st], Ready(rid, s.receivers[rid].info.Announced())) in toClient;
    }
  }

  lemma DisconnectIntroduces(sv: Server, toClient: set<Out>, name: string, c: Conn)
    requires Introduced(sv, toClient, name)
    ensures Introduced(sv.Disconnect(c), toClient, name)
  {
    var s, t := sv.Session(name), sv.Disconnect(c).Session(name);
    forall st, rid | st in t.senders && rid in t.receivers
      ensures Out(t.senders[st], Ready(rid, t.receivers[rid].info.Announced())) in toClient
    {
      assert st in s.senders && rid in s.receivers;
    }
  }

  lemma StepIntroduces(cfg: seq<Config>, w: World, a: Action, name: string)
    requires Shaped(cfg, w) && Introduced(w.server, w.toClient, name)
    ensures var v := Step(cfg, w, a); Introduced(v.server, v.toClient, name)
  {
    hide Server.Handle, Server.Disconnect, Introduced;
    match a
    case Serve(msg) =>
      if msg in w.toServer && msg.from !in w.closed {
        HandleIntroduces(w.server, w.toClient, name, msg.from, msg.request);
      }
    case Break(c) => DisconnectIntroduces(w.server, w.toClient, name, c);
    case _ =>
  }

  /**
   In every run, every sender connection that is registered has been sent the address of every receiver that is
   registered in its session, whichever of the two came first and whatever they replaced.
   */
  lemma {:induction false} EveryoneIsIntroduced(cfg: seq<Config>, acts: seq<Action>, name: string)
    ensures var w := Run(cfg, acts); Introduced(w.server, w.toClient, name)
  {
    if acts != [] {
      hide Introduced, Step;
      EveryoneIsIntroduced(cfg, acts[..|acts| - 1], name);
      StepIntroduces(cfg, Run(cfg, acts[..|acts| - 1]), acts[|acts| - 1], name);
    }
  }

  /**
   The stream-start of a registered sender goes, in every run, to the connection that holds the receiver id at that
   moment, and to no other, with the sender's stream and SSRC and a generation that no handshake of the session had; the
   handshake is then pending between the two.
   */
  lemma {:induction false} StartIsPassedOn(cfg: seq<Config>, acts: seq<Action>, msg: Sent)
    requires var w := Run(cfg, acts);
             msg in w.toServer && msg.from in w.server.peers && msg.request.StreamStart?
    ensures var w := Run(cfg, acts);
            && msg.from < |cfg| && cfg[msg.from].Camera?
            && var Camera(name, stream, to, ssrc, _) := cfg[msg.from];
            var s, t := w.server.Session(name), Step(cfg, w, Serve(msg)).server.Session(name);
            && (to !in s.receivers ==> w.server.Handle(msg.from, msg.request).outs == {} && t == s)
            && (to in s.receivers ==>
                  var r := s.receivers[to].conn;
                  exists gen: nat ::
                    && w.server.Handle(msg.from, msg.request).outs == {Out(r, Start(stream, ssrc, gen))}
                    && (forall k | k in w.history.issued && k.session == name :: k.generation < gen)
                    && t.pending == s.pending[stream := Pending(r, msg.from, gen)]
                    && r !in w.closed && HoldsReceiver(name, t, w.server.peers, r))
  {
    hide SessionOk, ReplyOk, ClientOk;
    var w := Run(cfg, acts);
    RunInv(cfg, acts);
    assert SentOk(cfg, w, msg);
    var name := cfg[msg.from].session;
    var s := w.server.Session(name);
    SessionIsOk(cfg, w.server, w.history, name);
    forall k | k in w.history.issued && k.session == name
      ensures k.generation <= s.generation
    {
      GenerationBound(cfg, name, s, w.server.peers, w.history, k);
    }
    if msg.request.to in s.receivers {
      HolderOk(cfg, name, s, w.server.peers, w.history, msg.request.to);
    }
  }
}
