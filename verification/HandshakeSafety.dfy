/** What the start handshake is for: theorems over every run of the system, and the exact limits of what it promises. */
module HandshakeSafety {
  import opened Common
  import opened ControlSpec
  import opened HandshakeClients
  import opened HandshakeServer
  import opened Handshake

  /**
   A started sender: the receiver process whose acknowledgement it got, on a handshake that it began itself, is serving
   its stream with its SSRC.
   */
  ghost predicate ServedByAcker(cfg: seq<Config>, w: World, c: Conn)
    requires Shaped(cfg, w) && c < |cfg| && cfg[c].Camera?
  {
    w.clients[c].started ==>
      && c in w.startedBy
      && var k := w.startedBy[c];
      && k in w.history.acked && k in w.history.issued && w.history.issued[k].sender == c
      && var r := w.history.issued[k].receiver;
      && Answers(cfg, c, r) && w.clients[r] == Receiver(cfg[c].stream, cfg[c].ssrc)
  }

  lemma {:induction false} SettledIsServed(cfg: seq<Config>, acts: seq<Action>, c: Conn)
    requires c < |cfg| && cfg[c].Camera? && Settled(cfg, c)
    ensures ServedByAcker(cfg, Run(cfg, acts), c)
  {
    hide AllSessionsOk, SentOk, ReplyOk, Settled;
    var w := Run(cfg, acts);
    RunInv(cfg, acts);
    assert ClientOk(cfg, w, c);
    if w.clients[c].started {
      assert IssueOk(cfg, w.startedBy[c], w.history.issued[w.startedBy[c]]);
    }
  }

  /**
   Handshake safety: in every run, whatever re-registrations, disconnects and stale messages there were, a started
   sender of a named stream is served by the very receiver process whose acknowledgement it got.
   */
  lemma {:induction false} StartedIsServed(cfg: seq<Config>, acts: seq<Action>, c: Conn)
    requires c < |cfg| && cfg[c].Camera? && cfg[c].stream != ""
    ensures ServedByAcker(cfg, Run(cfg, acts), c)
  {
    SettledIsServed(cfg, acts, c);
  }

  /** The addresses of the receivers that a sender may be connected to are one and the same. */
  ghost predicate OneAddress(cfg: seq<Config>, c: Conn)
    requires c < |cfg|
  {
    forall q, r | 0 <= q < |cfg| && 0 <= r < |cfg| && Answers(cfg, c, q) && Answers(cfg, c, r) ::
      AddressOf(cfg, c, q) == AddressOf(cfg, c, r)
  }

  /** A started sender sends to the address of the receiver process whose acknowledgement it got. */
  ghost predicate SendsToAcker(cfg: seq<Config>, w: World, c: Conn)
    requires Shaped(cfg, w) && c < |cfg| && cfg[c].Camera?
  {
    w.clients[c].started ==>
      && c in w.startedBy
      && var k := w.startedBy[c];
      && k in w.history.acked && k in w.history.issued && w.history.issued[k].sender == c
      && var r := w.history.issued[k].receiver;
      && Answers(cfg, c, r) && w.clients[c].dest == Some(AddressOf(cfg, c, r))
  }

  lemma {:induction false} DestinationAgrees(cfg: seq<Config>, acts: seq<Action>, c: Conn)
    requires c < |cfg| && cfg[c].Camera? && OneAddress(cfg, c)
    ensures SendsToAcker(cfg, Run(cfg, acts), c)
  {
    hide ServerOk, SentOk, ReplyOk, Settled, AddressOf;
    var w := Run(cfg, acts);
    RunInv(cfg, acts);
    assert ClientOk(cfg, w, c);
  }

  // ----- acknowledgements -----

  /**
   A delivered acknowledgement: it belongs to a handshake that this sender connection began and that was handed to this
   receiver connection, no acknowledgement of the generation was delivered before, and neither connection has been
   replaced or has ended.
   */
  lemma {:induction false} AcksAreDelivered(cfg: seq<Config>, acts: seq<Action>, msg: Sent, out: Out)
    requires var w := Run(cfg, acts);
             && msg in w.toServer && msg.from !in w.closed
             && out in w.server.Handle(msg.from, msg.request).outs && out.reply.Ack?
    ensures var w := Run(cfg, acts);
            && msg.request == StreamAck(out.reply.stream, out.reply.generation, out.reply.ok)
            && msg.from in w.server.peers
            && var name := w.server.peers[msg.from].session;
            && var k, s := Key(name, out.reply.generation), w.server.Session(name);
            && k in w.history.issued && w.history.issued[k].sender == out.to && w.history.issued[k].receiver == msg.from
            && w.history.issued[k].stream == out.reply.stream
            && k !in w.history.acked && k in ServeStep(w, msg).history.acked
            && out.reply.stream in s.senders && s.senders[out.reply.stream] == out.to && out.to !in w.closed
            && HoldsReceiver(name, s, w.server.peers, msg.from)
  {
    hide SessionOk, SentOk, ReplyOk, ClientOk;
    RunInv(cfg, acts);
    var w := Run(cfg, acts);
    var name := w.server.peers[msg.from].session;
    var s := w.server.Session(name);
    SessionIsOk(cfg, w.server, w.history, name);
    AckKeeps(cfg, name, s, w.server.peers, w.history, msg.from, out.reply.stream, out.reply.generation);
    Held(cfg, name, s, w.server.peers, w.history, out.reply.stream);
  }

  lemma {:induction false} AckedForever(cfg: seq<Config>, acts: seq<Action>, i: nat, j: nat)
    requires i <= j <= |acts|
    ensures Run(cfg, acts[..i]).history.acked <= Run(cfg, acts[..j]).history.acked
  {
    hide Step, Run;
    if i < j {
      AckedForever(cfg, acts, i, j - 1);
      RunNext(cfg, acts, j - 1);
      StepAcked(cfg, Run(cfg, acts[..j - 1]), acts[j - 1]);
    }
  }

  lemma StepAcked(cfg: seq<Config>, w: World, a: Action)
    requires Shaped(cfg, w)
    ensures w.history.acked <= Step(cfg, w, a).history.acked
  {
  }

  lemma {:induction false} RunNext(cfg: seq<Config>, acts: seq<Action>, i: nat)
    requires i < |acts|
    ensures Run(cfg, acts[..i + 1]) == Step(cfg, Run(cfg, acts[..i]), acts[i])
  {
    hide Step;
    assert acts[..i + 1][..i] == acts[..i];
  }

  /** In this run, action `i` lets the server pass on an acknowledgement of handshake `k`. */
  ghost predicate PassesOn(cfg: seq<Config>, acts: seq<Action>, i: nat, k: Key)
    requires i < |acts|
  {
    && acts[i].Serve?
    && var w, msg := Run(cfg, acts[..i]), acts[i].msg;
    && msg in w.toServer && msg.from !in w.closed
    && msg.from in w.server.peers && w.server.peers[msg.from].session == k.session
    && exists out | out in w.server.Handle(msg.from, msg.request).outs ::
         out.reply.Ack? && out.reply.generation == k.generation
  }

  /** At most one acknowledgement of a handshake is passed on in any run. */
  lemma {:induction false} AcksOnce(cfg: seq<Config>, acts: seq<Action>, i: nat, j: nat, k: Key)
    requires i < j < |acts| && PassesOn(cfg, acts, i, k)
    ensures !PassesOn(cfg, acts, j, k)
  {
    PassedOnIsAcked(cfg, acts, i, k);
    RunNext(cfg, acts, i);
    AckedForever(cfg, acts, i + 1, j);
    if PassesOn(cfg, acts, j, k) {
      PassedOnIsAcked(cfg, acts, j, k);
    }
  }

  lemma {:induction false} PassedOnIsAcked(cfg: seq<Config>, acts: seq<Action>, i: nat, k: Key)
    requires i < |acts| && PassesOn(cfg, acts, i, k)
    ensures var w := Run(cfg, acts[..i]); k !in w.history.acked && k in Step(cfg, w, acts[i]).history.acked
  {
    hide HoldsReceiver;
    var w, msg := Run(cfg, acts[..i]), acts[i].msg;
    var out :| out in w.server.Handle(msg.from, msg.request).outs && out.reply.Ack? &&
        out.reply.generation == k.generation;
    AcksAreDelivered(cfg, acts[..i], msg, out);
  }

  /** In every run, both connections of a pending handshake are registered and open. */
  lemma {:induction false} PendingIsLive(cfg: seq<Config>, acts: seq<Action>, name: string, stream: string)
    requires stream in Run(cfg, acts).server.Session(name).pending
    ensures var w := Run(cfg, acts);
            var p := w.server.Session(name).pending[stream];
            && p.sender !in w.closed && p.receiver !in w.closed
            && Offers(name, w.server.peers, p.sender, stream)
            && HoldsReceiver(name, w.server.Session(name), w.server.peers, p.receiver)
  {
    hide SessionOk, SentOk, ReplyOk, ClientOk;
    var w := Run(cfg, acts);
    RunInv(cfg, acts);
    SessionIsOk(cfg, w.server, w.history, name);
    PendingInSession(cfg, name, w.server.Session(name), w.server.peers, w.history, stream);
  }

  // ----- what the handshake does not promise -----

  ghost predicate Reachable(cfg: seq<Config>, w: World) {
    exists acts :: Run(cfg, acts) == w
  }

  lemma ReachInitial(cfg: seq<Config>)
    ensures Reachable(cfg, Initial(cfg))
  {
    assert Run(cfg, []) == Initial(cfg);
  }

  lemma ReachStep(cfg: seq<Config>, w: World, a: Action) returns (v: World)
    requires Reachable(cfg, w)
    ensures Shaped(cfg, w) && v == Step(cfg, w, a) && Reachable(cfg, v)
  {
    hide Step;
    var acts :| Run(cfg, acts) == w;
    assert (acts + [a])[..|acts|] == acts;
    assert Run(cfg, acts + [a]) == Step(cfg, w, a);
    v := Step(cfg, w, a);
  }

  /** A process connects, and its registration is handled. */
  lemma Registers(cfg: seq<Config>, w: World, c: Conn) returns (v: World)
    requires Reachable(cfg, w) && c < |cfg| && w.closed == {}
    ensures Shaped(cfg, v) && Reachable(cfg, v) && v.closed == {} && v.clients == w.clients
    ensures var h := w.server.Handle(c, cfg[c].Registration());
            v.server == h.server && v.toClient == w.toClient + h.outs
    ensures v.history == w.history && v.startedBy == w.startedBy
  {
    hide Reachable;
    var u := ReachStep(cfg, w, Connect(c));
    v := ReachStep(cfg, u, Serve(Sent(c, cfg[c].Registration())));
  }

  /** A sender that has heard of its receiver offers its stream, and receiver `r` reacts to the offer. */
  lemma Offer(cfg: seq<Config>, w: World, c: Conn, r: Conn, info: Info) returns (v: World)
    requires Reachable(cfg, w) && Shaped(cfg, w) && w.closed == {} && c < |cfg| && Answers(cfg, c, r)
    requires c in w.server.peers && w.server.peers[c] == cfg[c].Peer() && w.clients[c] == NewClient(cfg[c])
    requires Out(c, Ready(cfg[c].to, info)) in w.toClient
    requires var s := w.server.Session(cfg[c].session); cfg[c].to in s.receivers && s.receivers[cfg[c].to].conn == r
    ensures Shaped(cfg, v) && Reachable(cfg, v) && v.closed == {} && v.startedBy == w.startedBy
    ensures var Camera(name, stream, to, ssrc, _) := cfg[c];
            var s := w.server.Session(name);
            var reaction := ReceiverReacts(w.clients[r], Start(stream, ssrc, s.generation + 1));
            && v.server == w.server.SetSession(name, s.StreamStart(c, stream, to))
            && v.clients == w.clients[c := Sender(true, false, false, Some(cfg[c].Resolve(info)))][r := reaction.client]
            && v.history.issued == w.history.issued[Key(name, s.generation + 1) := Issue(stream, c, r, ssrc)]
            && v.history.acked == w.history.acked
            && (reaction.send.Some? ==> Sent(r, reaction.send.value) in v.toServer)
  {
    hide Reachable, SessionState.StreamStart;
    var Camera(name, stream, to, ssrc, _) := cfg[c];
    v := ReachStep(cfg, w, Deliver(Out(c, Ready(to, info))));
    v := ReachStep(cfg, v, Serve(Sent(c, StreamStart(to, stream, ssrc))));
    v := ReachStep(cfg, v, Deliver(Out(r, Start(stream, ssrc, w.server.Session(name).generation + 1))));
  }

  /** The acknowledgement of receiver `r` reaches the sender, which starts. */
  lemma Acknowledge(cfg: seq<Config>, w: World, c: Conn, r: Conn, gen: int) returns (v: World)
    requires Reachable(cfg, w) && Shaped(cfg, w) && w.closed == {} && c < |cfg| && Answers(cfg, c, r)
    requires r in w.server.peers && w.server.peers[r] == cfg[r].Peer()
    requires w.clients[c].Sender? && w.clients[c].awaiting && !w.clients[c].started && !w.clients[c].failed
    requires Sent(r, StreamAck(cfg[c].stream, gen, true)) in w.toServer
    requires var s := w.server.Session(cfg[c].session);
             s.AckDelivered(r, cfg[c].stream, gen) && s.senders[cfg[c].stream] == c
    ensures Shaped(cfg, v) && Reachable(cfg, v) && v.closed == {}
    ensures var name, k := cfg[c].session, Key(cfg[c].session, gen);
            && v.server == w.server.SetSession(name, w.server.Session(name).StreamAck(r, cfg[c].stream, gen))
            && v.clients == w.clients[c := w.clients[c].(awaiting := false, started := true)]
            && v.history == w.history.(acked := w.history.acked + {k}) && v.startedBy == w.startedBy[c := k]
  {
    hide Reachable, SessionState.StreamAck, SessionState.AckDelivered;
    v := ReachStep(cfg, w, Serve(Sent(r, StreamAck(cfg[c].stream, gen, true))));
    v := ReachStep(cfg, v, Deliver(Out(c, Ack(cfg[c].stream, gen, true))));
  }

  /** Receiver `q` registers, then sender `c`, and then receiver `r` takes the id of `q`. */
  lemma TwinsRegister(cfg: seq<Config>, c: Conn, q: Conn, r: Conn) returns (w: World)
    requires c < |cfg| && Answers(cfg, c, q) && Answers(cfg, c, r) && q != r
    ensures Reachable(cfg, w) && Shaped(cfg, w) && w.closed == {} && w.clients == Initial(cfg).clients &&
            w.startedBy == map[]
    ensures w.history == History(map[], {})
    ensures Out(c, Ready(cfg[c].to, cfg[q].info.Announced())) in w.toClient
    ensures c in w.server.peers && w.server.peers[c] == cfg[c].Peer() && r in w.server.peers &&
            w.server.peers[r] == cfg[r].Peer()
    ensures w.server.Session(cfg[c].session)
         == SessionState(map[cfg[c].stream := c], map[cfg[c].to := Endpoint(r, cfg[r].info)], map[], 0)
  {
    hide Reachable;
    ReachInitial(cfg);
    w := Registers(cfg, Initial(cfg), q);
    assert w.server.Session(cfg[c].session)
        == SessionState(map[], map[cfg[c].to := Endpoint(q, cfg[q].info)], map[], 0);
    w := Registers(cfg, w, c);
    assert w.server.Session(cfg[c].session)
        == SessionState(map[cfg[c].stream := c], map[cfg[c].to := Endpoint(q, cfg[q].info)], map[], 0);
    w := Registers(cfg, w, r);
  }

  /**
   With two receivers of the same id, a started sender can send to the one that was replaced: receiver `r` acknowledges
   and serves, and the destination is that of receiver `q`.
   */
  lemma TwinsDisagree(cfg: seq<Config>, c: Conn, q: Conn, r: Conn) returns (w: World)
    requires c < |cfg| && Answers(cfg, c, q) && Answers(cfg, c, r) && q != r
    ensures Reachable(cfg, w) && Shaped(cfg, w)
    ensures w.clients[c] == Sender(false, true, false, Some(AddressOf(cfg, c, q)))
    ensures w.clients[r] == Receiver(cfg[c].stream, cfg[c].ssrc)
    ensures w.startedBy == map[c := Key(cfg[c].session, 1)]
    ensures w.history.issued == map[Key(cfg[c].session, 1) := Issue(cfg[c].stream, c, r, cfg[c].ssrc)]
  {
    hide Reachable;
    w := TwinsRegister(cfg, c, q, r);
    w := Offer(cfg, w, c, r, cfg[q].info.Announced());
    w := Acknowledge(cfg, w, c, r, 1);
  }

  /**
   A started sender sends, in every run, to the receiver that acknowledged it exactly when its receivers have one
   address.
   */
  lemma {:induction false} DestinationAgreesIff(cfg: seq<Config>, c: Conn)
    requires c < |cfg| && cfg[c].Camera?
    ensures OneAddress(cfg, c) <==> forall acts :: SendsToAcker(cfg, Run(cfg, acts), c)
  {
    hide Run, AddressOf;
    if OneAddress(cfg, c) {
      forall acts
        ensures SendsToAcker(cfg, Run(cfg, acts), c)
      {
        DestinationAgrees(cfg, acts, c);
      }
    } else {
      var q, r :| 0 <= q < |cfg| && 0 <= r < |cfg| && Answers(cfg, c, q) && Answers(cfg, c, r)
                  && AddressOf(cfg, c, q) != AddressOf(cfg, c, r);
      var w := TwinsDisagree(cfg, c, q, r);
      var acts :| Run(cfg, acts) == w;
      assert !SendsToAcker(cfg, Run(cfg, acts), c);
    }
  }

  /**
   A sender of the stream with the empty name starts, and then its receiver takes up the stream of another sender: it
   had not noted that it serves one.
   */
  lemma Usurped(cfg: seq<Config>, c: Conn, d: Conn, r: Conn) returns (w: World)
    requires c < |cfg| && d < |cfg| && Answers(cfg, c, r) && Answers(cfg, d, r) && c != d && cfg[c].stream == ""
    ensures Reachable(cfg, w) && Shaped(cfg, w)
    ensures w.clients[c].Sender? && w.clients[c].started && w.clients[r] == Receiver(cfg[d].stream, cfg[d].ssrc)
    ensures c in w.startedBy && w.startedBy[c] in w.history.issued && w.history.issued[w.startedBy[c]].receiver == r
  {
    hide Reachable;
    var name, to, info := cfg[c].session, cfg[c].to, cfg[r].info;
    ReachInitial(cfg);
    w := Registers(cfg, Initial(cfg), r);
    assert w.server.Session(name) == SessionState(map[], map[to := Endpoint(r, info)], map[], 0);
    w := Registers(cfg, w, c);
    assert w.server.Session(name) == SessionState(map["" := c], map[to := Endpoint(r, info)], map[], 0);
    w := Offer(cfg, w, c, r, info.Announced());
    w := Acknowledge(cfg, w, c, r, 1);
    assert w.server.Session(name) == SessionState(map["" := c], map[to := Endpoint(r, info)], map[], 1);
    w := Registers(cfg, w, d);
    w := Offer(cfg, w, d, r, info.Announced());
  }

  /**
   A started sender is served by the receiver that acknowledged it, in every run, exactly when its stream has a name, or
   no sender that may share a receiver with it offers another stream or SSRC.
   */
  lemma {:induction false} ServedIff(cfg: seq<Config>, c: Conn)
    requires c < |cfg| && cfg[c].Camera?
    ensures Settled(cfg, c) <==> forall acts :: ServedByAcker(cfg, Run(cfg, acts), c)
  {
    hide Run;
    if Settled(cfg, c) {
      forall acts
        ensures ServedByAcker(cfg, Run(cfg, acts), c)
      {
        SettledIsServed(cfg, acts, c);
      }
    } else {
      var d, r :| 0 <= d < |cfg| && 0 <= r < |cfg| && Answers(cfg, c, r) && Answers(cfg, d, r)
                  && !(cfg[d].stream == "" && cfg[d].ssrc == cfg[c].ssrc);
      var w := Usurped(cfg, c, d, r);
      var acts :| Run(cfg, acts) == w;
      assert !ServedByAcker(cfg, Run(cfg, acts), c);
    }
  }
}
