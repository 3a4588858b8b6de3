/** What every message keeps in the control server's tables, against a history of the handshakes begun. */
module HandshakeServer {
  import opened Common
  import opened ControlSpec
  import opened HandshakeClients

  datatype Sent = Sent(from: Conn, request: Request)

  /** A handshake is named by its session and its generation. */
  datatype Key = Key(session: string, generation: int)

  datatype Issue = Issue(stream: string, sender: Conn, receiver: Conn, ssrc: int)

  /** History, which no process reads: the handshakes begun so far, and those whose acknowledgement was passed on. */
  datatype History = History(issued: map<Key, Issue>, acked: set<Key>)

  // ----- the tables of one session -----

  ghost predicate PeersOk(cfg: seq<Config>, peers: map<Conn, Peer>) {
    forall c | c in peers :: c < |cfg| && peers[c] == cfg[c].Peer()
  }

  /** The sender connection that holds a stream. */
  ghost predicate SenderOk(name: string, s: SessionState, peers: map<Conn, Peer>, st: string)
    requires st in s.senders
  {
    s.senders[st] in peers && peers[s.senders[st]] == Peer(name, true, st)
  }

  ghost predicate ReceiverOk(cfg: seq<Config>, name: string, s: SessionState, peers: map<Conn, Peer>, rid: string)
    requires rid in s.receivers
  {
    var e := s.receivers[rid];
    e.conn in peers && e.conn < |cfg| && cfg[e.conn] == Edge(name, rid, e.info) &&
        peers[e.conn] == Peer(name, false, rid)
  }

  /** Connection `c` holds a receiver id. */
  ghost predicate HoldsReceiver(name: string, s: SessionState, peers: map<Conn, Peer>, c: Conn) {
    && c in peers && peers[c].session == name && !peers[c].isSender
    && peers[c].id in s.receivers && s.receivers[peers[c].id].conn == c
  }

  /** Connection `c` is registered for a stream; another connection may hold that stream since. */
  ghost predicate Offers(name: string, peers: map<Conn, Peer>, c: Conn, st: string) {
    c in peers && peers[c] == Peer(name, true, st)
  }

  /**
   A pending handshake was begun and not acknowledged, its receiver connection is still the one that holds its id, and
   its sender connection is still registered.
   */
  ghost predicate PendingOk(name: string, s: SessionState, peers: map<Conn, Peer>, h: History, st: string)
    requires st in s.pending
  {
    var p, k := s.pending[st], Key(name, s.pending[st].generation);
    && k in h.issued && h.issued[k] == Issue(st, p.sender, p.receiver, h.issued[k].ssrc) && k !in h.acked
    && HoldsReceiver(name, s, peers, p.receiver) && Offers(name, peers, p.sender, st)
  }

  ghost predicate SessionOk(cfg: seq<Config>, name: string, s: SessionState, peers: map<Conn, Peer>, h: History) {
    && (forall st | st in s.senders :: SenderOk(name, s, peers, st))
    && (forall rid | rid in s.receivers :: ReceiverOk(cfg, name, s, peers, rid))
    && (forall st | st in s.pending :: PendingOk(name, s, peers, h, st))
    && (forall k | k in h.issued && k.session == name :: k.generation <= s.generation)
  }

  lemma DropKeeps(cfg: seq<Config>, name: string, s: SessionState, peers: map<Conn, Peer>, h: History, c: Conn)
    requires SessionOk(cfg, name, s, peers, h)
    ensures SessionOk(cfg, name, s.DropPendingOf(c), peers, h)
  {
    var t := s.DropPendingOf(c);
    forall st | st in t.pending
      ensures PendingOk(name, t, peers, h, st)
    {
      assert PendingOk(name, s, peers, h, st);
    }
    forall rid | rid in t.receivers
      ensures ReceiverOk(cfg, name, t, peers, rid)
    {
      assert ReceiverOk(cfg, name, s, peers, rid);
    }
    forall st | st in t.senders
      ensures SenderOk(name, t, peers, st)
    {
      assert SenderOk(name, s, peers, st);
    }
  }

  /** A new registration does not disturb the tables. */
  lemma PeersGrow(cfg: seq<Config>, name: string, s: SessionState, peers: map<Conn, Peer>, h: History, c: Conn)
    requires SessionOk(cfg, name, s, peers, h) && PeersOk(cfg, peers) && c < |cfg|
    ensures SessionOk(cfg, name, s, peers[c := cfg[c].Peer()], h)
  {
    var peers' := peers[c := cfg[c].Peer()];
    forall st | st in s.pending
      ensures PendingOk(name, s, peers', h, st)
    {
      assert PendingOk(name, s, peers, h, st);
    }
    forall rid | rid in s.receivers
      ensures ReceiverOk(cfg, name, s, peers', rid)
    {
      assert ReceiverOk(cfg, name, s, peers, rid);
    }
    forall st | st in s.senders
      ensures SenderOk(name, s, peers', st)
    {
      assert SenderOk(name, s, peers, st);
    }
  }

  lemma RegisterSenderKeeps(cfg: seq<Config>, name: string, s: SessionState, peers: map<Conn, Peer>, h: History,
                            c: Conn)
    requires SessionOk(cfg, name, s, peers, h) && c in peers && peers[c].isSender && peers[c].session == name
    ensures SessionOk(cfg, name, s.RegisterSender(c, peers[c].id), peers, h)
  {
    var stream := peers[c].id;
    var d := if stream in s.senders then s.DropPendingOf(s.senders[stream]) else s;
    if stream in s.senders {
      DropKeeps(cfg, name, s, peers, h, s.senders[stream]);
    }
    var t := s.RegisterSender(c, stream);
    forall st | st in t.pending
      ensures PendingOk(name, t, peers, h, st)
    {
      assert PendingOk(name, d, peers, h, st);
    }
    forall rid | rid in t.receivers
      ensures ReceiverOk(cfg, name, t, peers, rid)
    {
      assert ReceiverOk(cfg, name, d, peers, rid);
    }
    forall st | st in t.senders
      ensures SenderOk(name, t, peers, st)
    {
      assert st in d.senders ==> SenderOk(name, d, peers, st);
    }
  }

  lemma RegisterReceiverKeeps(cfg: seq<Config>, name: string, s: SessionState, peers: map<Conn, Peer>, h: History,
                              c: Conn)
    requires SessionOk(cfg, name, s, peers, h) && c in peers && c < |cfg| && cfg[c].Edge? && cfg[c].session == name
    requires peers[c] == cfg[c].Peer()
    ensures SessionOk(cfg, name, s.RegisterReceiver(c, cfg[c].receiver, cfg[c].info), peers, h)
  {
    var id := cfg[c].receiver;
    var d := if id in s.receivers then s.DropPendingOf(s.receivers[id].conn) else s;
    if id in s.receivers {
      DropKeeps(cfg, name, s, peers, h, s.receivers[id].conn);
    }
    var t := s.RegisterReceiver(c, id, cfg[c].info);
    forall st | st in t.pending
      ensures PendingOk(name, t, peers, h, st)
    {
      assert PendingOk(name, d, peers, h, st);
    }
    forall rid | rid in t.receivers
      ensures ReceiverOk(cfg, name, t, peers, rid)
    {
      assert rid in d.receivers ==> ReceiverOk(cfg, name, d, peers, rid);
    }
    forall st | st in t.senders
      ensures SenderOk(name, t, peers, st)
    {
      assert SenderOk(name, d, peers, st);
    }
  }

  lemma BeginKeeps(cfg: seq<Config>, name: string, s: SessionState, peers: map<Conn, Peer>, h: History,
                   c: Conn, stream: string, rid: string, ssrc: int)
    requires SessionOk(cfg, name, s, peers, h) && rid in s.receivers && h.acked <= h.issued.Keys &&
             Offers(name, peers, c, stream)
    ensures var k, r := Key(name, s.generation + 1), s.receivers[rid].conn;
            var h' := h.(issued := h.issued[k := Issue(stream, c, r, ssrc)]);
            k !in h.issued && SessionOk(cfg, name, s.StreamStart(c, stream, rid), peers, h')
  {
    var k, r := Key(name, s.generation + 1), s.receivers[rid].conn;
    var t, h' := s.StreamStart(c, stream, rid), h.(issued := h.issued[k := Issue(stream, c, r, ssrc)]);
    assert ReceiverOk(cfg, name, s, peers, rid);
    forall st | st in t.pending
      ensures PendingOk(name, t, peers, h', st)
    {
      assert st != stream ==> PendingOk(name, s, peers, h, st);
    }
    forall id | id in t.receivers
      ensures ReceiverOk(cfg, name, t, peers, id)
    {
      assert ReceiverOk(cfg, name, s, peers, id);
    }
    forall st | st in t.senders
      ensures SenderOk(name, t, peers, st)
    {
      assert SenderOk(name, s, peers, st);
    }
  }

  /** A handshake in another session, or an acknowledgement of one, does not matter here. */
  lemma HistoryGrows(cfg: seq<Config>, name: string, s: SessionState, peers: map<Conn, Peer>, h: History, h': History)
    requires SessionOk(cfg, name, s, peers, h)
    requires forall k: Key | k.session == name ::
               (k in h'.issued <==> k in h.issued) && (k in h'.acked <==> k in h.acked)
    requires forall k | k in h.issued && k in h'.issued :: h'.issued[k] == h.issued[k]
    ensures SessionOk(cfg, name, s, peers, h')
  {
    forall st | st in s.pending
      ensures PendingOk(name, s, peers, h', st)
    {
      assert PendingOk(name, s, peers, h, st);
    }
  }

  lemma AckKeeps(cfg: seq<Config>, name: string, s: SessionState, peers: map<Conn, Peer>, h: History, c: Conn,
                 stream: string, gen: int)
    requires SessionOk(cfg, name, s, peers, h) && s.Acknowledges(c, stream, gen)
    ensures var k := Key(name, gen);
            && k in h.issued && h.issued[k].stream == stream && h.issued[k].receiver == c && k !in h.acked
            && h.issued[k].sender == s.pending[stream].sender
            && SessionOk(cfg, name, s.StreamAck(c, stream, gen), peers, h)
            && SessionOk(cfg, name, s.StreamAck(c, stream, gen), peers, h.(acked := h.acked + {k}))
  {
    var k := Key(name, gen);
    var t, h' := s.StreamAck(c, stream, gen), h.(acked := h.acked + {k});
    assert PendingOk(name, s, peers, h, stream);
    forall st | st in t.pending
      ensures PendingOk(name, t, peers, h, st) && PendingOk(name, t, peers, h', st)
    {
      assert PendingOk(name, s, peers, h, st);
    }
    forall id | id in t.receivers
      ensures ReceiverOk(cfg, name, t, peers, id)
    {
      assert ReceiverOk(cfg, name, s, peers, id);
    }
    forall st | st in t.senders
      ensures SenderOk(name, t, peers, st)
    {
      assert SenderOk(name, s, peers, st);
    }
  }

  /** The session without what connection `c` holds, and without the handshakes it takes part in. */
  ghost predicate Evicted(s: SessionState, t: SessionState, c: Conn) {
    && t.senders == (map st | st in s.senders && s.senders[st] != c :: s.senders[st])
    && t.receivers == (map rid | rid in s.receivers && s.receivers[rid].conn != c :: s.receivers[rid])
    && t.pending == (map st | st in s.pending && !s.pending[st].Of(c) :: s.pending[st])
  }

  lemma OwnSenders(cfg: seq<Config>, name: string, s: SessionState, peers: map<Conn, Peer>, h: History, c: Conn)
    requires SessionOk(cfg, name, s, peers, h) && c in peers && peers[c].session == name
    ensures s.Unregister(c, peers[c].isSender, peers[c].id).senders
         == (map st | st in s.senders && s.senders[st] != c :: s.senders[st])
  {
    hide ReceiverOk, PendingOk;
    assert forall st | st in s.senders :: SenderOk(name, s, peers, st);
  }

  lemma OwnReceivers(cfg: seq<Config>, name: string, s: SessionState, peers: map<Conn, Peer>, h: History, c: Conn)
    requires SessionOk(cfg, name, s, peers, h) && c in peers && peers[c].session == name
    ensures s.Unregister(c, peers[c].isSender, peers[c].id).receivers
         == (map rid | rid in s.receivers && s.receivers[rid].conn != c :: s.receivers[rid])
  {
    hide SenderOk, PendingOk;
    assert forall rid | rid in s.receivers :: ReceiverOk(cfg, name, s, peers, rid);
  }

  lemma OwnSessionEvicts(cfg: seq<Config>, name: string, s: SessionState, peers: map<Conn, Peer>, h: History, c: Conn)
    requires SessionOk(cfg, name, s, peers, h) && c in peers && peers[c].session == name
    ensures Evicted(s, s.Unregister(c, peers[c].isSender, peers[c].id), c)
    ensures s.Unregister(c, peers[c].isSender, peers[c].id).generation == s.generation
  {
    OwnSenders(cfg, name, s, peers, h, c);
    OwnReceivers(cfg, name, s, peers, h, c);
    hide SessionOk;
  }

  /** The session of a connection that is gone. */
  lemma UnregisterKeeps(cfg: seq<Config>, name: string, s: SessionState, peers: map<Conn, Peer>, h: History, c: Conn)
    requires SessionOk(cfg, name, s, peers, h) && c in peers && peers[c].session == name
    ensures SessionOk(cfg, name, s.Unregister(c, peers[c].isSender, peers[c].id), peers - {c}, h)
  {
    OwnSessionEvicts(cfg, name, s, peers, h, c);
    hide SessionState.Unregister;
    EvictedKeeps(cfg, name, s, s.Unregister(c, peers[c].isSender, peers[c].id), peers, h, c);
  }

  lemma EvictedKeeps(cfg: seq<Config>, name: string, s: SessionState, t: SessionState, peers: map<Conn, Peer>,
                     h: History, c: Conn)
    requires SessionOk(cfg, name, s, peers, h) && Evicted(s, t, c) && t.generation == s.generation
    ensures SessionOk(cfg, name, t, peers - {c}, h)
  {
    forall st | st in t.pending
      ensures PendingOk(name, t, peers - {c}, h, st)
    {
      assert PendingOk(name, s, peers, h, st);
    }
    forall id | id in t.receivers
      ensures ReceiverOk(cfg, name, t, peers - {c}, id)
    {
      assert ReceiverOk(cfg, name, s, peers, id);
    }
    forall st | st in t.senders
      ensures SenderOk(name, t, peers - {c}, st)
    {
      assert SenderOk(name, s, peers, st);
    }
  }

  /** Any other session has nothing of the connection. */
  lemma OtherSessionEvicts(cfg: seq<Config>, name: string, s: SessionState, peers: map<Conn, Peer>, h: History, c: Conn)
    requires SessionOk(cfg, name, s, peers, h) && (c in peers ==> peers[c].session != name)
    ensures Evicted(s, s, c)
  {
    assert forall st | st in s.senders :: SenderOk(name, s, peers, st);
    assert forall rid | rid in s.receivers :: ReceiverOk(cfg, name, s, peers, rid);
    assert forall st | st in s.pending :: PendingOk(name, s, peers, h, st);
  }

  lemma PeersShrink(cfg: seq<Config>, name: string, s: SessionState, peers: map<Conn, Peer>, h: History, c: Conn)
    requires SessionOk(cfg, name, s, peers, h) && (c in peers ==> peers[c].session != name)
    ensures SessionOk(cfg, name, s, peers - {c}, h)
  {
    OtherSessionEvicts(cfg, name, s, peers, h, c);
    EvictedKeeps(cfg, name, s, s, peers, h, c);
  }

  // ----- the server -----

  ghost predicate AllSessionsOk(cfg: seq<Config>, sv: Server, h: History) {
    forall name: string :: SessionOk(cfg, name, sv.Session(name), sv.peers, h)
  }

  /** A handshake was begun by a sender with its own stream and SSRC, towards the receiver that it names. */
  ghost predicate IssueOk(cfg: seq<Config>, k: Key, i: Issue) {
    && i.sender < |cfg| && i.receiver < |cfg|
    && cfg[i.receiver].Edge? && cfg[i.receiver].session == k.session
    && cfg[i.sender].Camera?
    && cfg[i.sender] == Camera(k.session, i.stream, cfg[i.receiver].receiver, i.ssrc, cfg[i.sender].controlHost)
  }

  ghost predicate ServerOk(cfg: seq<Config>, sv: Server, h: History) {
    && PeersOk(cfg, sv.peers) && AllSessionsOk(cfg, sv, h)
    && h.acked <= h.issued.Keys
    && (forall k | k in h.issued :: IssueOk(cfg, k, h.issued[k]))
  }

  /** The messages that a process with this configuration sends. */
  ghost predicate RequestOk(cfg: seq<Config>, c: Conn, m: Request) {
    && c < |cfg|
    && match m
       case StreamStart(to, stream, ssrc) =>
         cfg[c].Camera? && cfg[c] == Camera(cfg[c].session, stream, to, ssrc, cfg[c].controlHost)
       case StreamAck(_, _, _) => true
       case _ => m == cfg[c].Registration()
  }

  /** What the server's handling of a message adds to the history. */
  function Record(sv: Server, h: History, c: Conn, m: Request): History {
    if c !in sv.peers then h
    else
      var name := sv.peers[c].session;
      var s := sv.Session(name);
      match m
      case StreamStart(to, _, ssrc) =>
        if to in s.receivers then
          h.(issued := h.issued[Key(name, s.generation + 1) := Issue(sv.peers[c].id, c, s.receivers[to].conn, ssrc)])
        else h
      case StreamAck(stream, gen, _) =>
        if !sv.peers[c].isSender && s.AckDelivered(c, stream, gen) then h.(acked := h.acked + {Key(name, gen)}) else h
      case _ => h
  }

  lemma RegisterKeepsServer(cfg: seq<Config>, sv: Server, h: History, c: Conn, m: Request)
    requires ServerOk(cfg, sv, h) && RequestOk(cfg, c, m) && (m.RegisterSender? || m.RegisterReceiver?)
    ensures ServerOk(cfg, sv.Handle(c, m).server, h)
  {
    hide SessionOk;
    var name, peers := cfg[c].session, sv.peers[c := cfg[c].Peer()];
    forall n: string
      ensures SessionOk(cfg, n, sv.Session(n), peers, h)
    {
      PeersGrow(cfg, n, sv.Session(n), sv.peers, h, c);
    }
    if m.RegisterSender? {
      RegisterSenderKeeps(cfg, name, sv.Session(name), peers, h, c);
    } else {
      RegisterReceiverKeeps(cfg, name, sv.Session(name), peers, h, c);
    }
    var t := sv.Handle(c, m).server;
    assert forall n: string | n != name :: t.Session(n) == sv.Session(n);
  }

  /** The handshake that a stream-start begins. */
  lemma BegunOk(cfg: seq<Config>, sv: Server, h: History, c: Conn, m: Request)
    requires ServerOk(cfg, sv, h) && RequestOk(cfg, c, m) && m.StreamStart? && c in sv.peers
    requires m.to in sv.Session(sv.peers[c].session).receivers
    ensures var name := sv.peers[c].session;
            var s := sv.Session(name);
            && Offers(name, sv.peers, c, sv.peers[c].id)
            && IssueOk(cfg, Key(name, s.generation + 1), Issue(sv.peers[c].id, c, s.receivers[m.to].conn, m.ssrc))
  {
    hide SessionOk;
    HolderOk(cfg, sv.peers[c].session, sv.Session(sv.peers[c].session), sv.peers, h, m.to);
  }

  lemma StartKeepsServer(cfg: seq<Config>, sv: Server, h: History, c: Conn, m: Request)
    requires ServerOk(cfg, sv, h) && RequestOk(cfg, c, m) && m.StreamStart?
    ensures ServerOk(cfg, sv.Handle(c, m).server, Record(sv, h, c, m))
  {
    hide SessionOk, IssueOk, Offers, RequestOk;
    if c in sv.peers {
      var name := sv.peers[c].session;
      var s := sv.Session(name);
      var t, h' := sv.Handle(c, m).server, Record(sv, h, c, m);
      assert forall n: string | n != name :: t.Session(n) == sv.Session(n);
      if m.to in s.receivers {
        BegunOk(cfg, sv, h, c, m);
        BeginKeeps(cfg, name, s, sv.peers, h, c, sv.peers[c].id, m.to, m.ssrc);
        forall n: string | n != name
          ensures SessionOk(cfg, n, t.Session(n), t.peers, h')
        {
          HistoryGrows(cfg, n, sv.Session(n), sv.peers, h, h');
        }
      }
    }
  }

  lemma HolderOk(cfg: seq<Config>, name: string, s: SessionState, peers: map<Conn, Peer>, h: History, rid: string)
    requires SessionOk(cfg, name, s, peers, h) && rid in s.receivers
    ensures ReceiverOk(cfg, name, s, peers, rid)
  {
  }

  lemma AckKeepsServer(cfg: seq<Config>, sv: Server, h: History, c: Conn, m: Request)
    requires ServerOk(cfg, sv, h) && RequestOk(cfg, c, m) && m.StreamAck?
    ensures ServerOk(cfg, sv.Handle(c, m).server, Record(sv, h, c, m))
  {
    hide SessionOk;
    if c in sv.peers {
      var name := sv.peers[c].session;
      var s := sv.Session(name);
      var t, h' := sv.Handle(c, m).server, Record(sv, h, c, m);
      assert forall n: string | n != name :: t.Session(n) == sv.Session(n);
      if !sv.peers[c].isSender && s.Acknowledges(c, m.stream, m.generation) {
        AckKeeps(cfg, name, s, sv.peers, h, c, m.stream, m.generation);
        forall n: string | n != name
          ensures SessionOk(cfg, n, t.Session(n), t.peers, h')
        {
          HistoryGrows(cfg, n, sv.Session(n), sv.peers, h, h');
        }
      }
    }
  }

  lemma DisconnectKeepsServer(cfg: seq<Config>, sv: Server, h: History, c: Conn)
    requires ServerOk(cfg, sv, h)
    ensures ServerOk(cfg, sv.Disconnect(c), h)
  {
    hide SessionOk;
    if c in sv.peers {
      var name := sv.peers[c].session;
      UnregisterKeeps(cfg, name, sv.Session(name), sv.peers, h, c);
      var t := sv.Disconnect(c);
      forall n: string | n != name
        ensures SessionOk(cfg, n, t.Session(n), t.peers, h)
      {
        PeersShrink(cfg, n, sv.Session(n), sv.peers, h, c);
      }
    }
  }

  /** Every message keeps the server's tables consistent with the history. */
  lemma HandleKeepsServer(cfg: seq<Config>, sv: Server, h: History, c: Conn, m: Request)
    requires ServerOk(cfg, sv, h) && RequestOk(cfg, c, m)
    ensures ServerOk(cfg, sv.Handle(c, m).server, Record(sv, h, c, m))
  {
    hide ServerOk;
    match m
    case StreamStart(_, _, _) => StartKeepsServer(cfg, sv, h, c, m);
    case StreamAck(_, _, _) => AckKeepsServer(cfg, sv, h, c, m);
    case _ => RegisterKeepsServer(cfg, sv, h, c, m);
  }

  lemma SessionIsOk(cfg: seq<Config>, sv: Server, h: History, name: string)
    requires ServerOk(cfg, sv, h)
    ensures SessionOk(cfg, name, sv.Session(name), sv.peers, h)
  {
  }

  /** A connection that holds a stream belongs to a process of the session. */
  lemma RegisteredSender(cfg: seq<Config>, name: string, s: SessionState, peers: map<Conn, Peer>, h: History, c: Conn)
    requires SessionOk(cfg, name, s, peers, h) && PeersOk(cfg, peers) && c in s.senders.Values
    ensures c < |cfg| && cfg[c].session == name
  {
    var st :| st in s.senders && s.senders[st] == c;
    assert SenderOk(name, s, peers, st);
  }

  lemma PeersOfHandle(sv: Server, c: Conn, m: Request)
    ensures var r := sv.Handle(c, m);
            && r.server.peers.Keys <= sv.peers.Keys + {c}
            && (r.closes ==> c !in r.server.peers)
  {
  }

  lemma Held(cfg: seq<Config>, name: string, s: SessionState, peers: map<Conn, Peer>, h: History, stream: string)
    requires SessionOk(cfg, name, s, peers, h) && stream in s.pending && stream in s.senders
    ensures PendingOk(name, s, peers, h, stream) && SenderOk(name, s, peers, stream)
  {
  }

  lemma PendingInSession(cfg: seq<Config>, name: string, s: SessionState, peers: map<Conn, Peer>, h: History,
                         stream: string)
    requires SessionOk(cfg, name, s, peers, h) && stream in s.pending
    ensures PendingOk(name, s, peers, h, stream)
  {
  }

  lemma KeyIsNew(cfg: seq<Config>, sv: Server, h: History, name: string)
    requires ServerOk(cfg, sv, h)
    ensures Key(name, sv.Session(name).generation + 1) !in h.issued
  {
    SessionIsOk(cfg, sv, h, name);
  }

  // ----- the end of a connection -----

  /**
   The end of a connection removes what it holds, and evicts no other connection from any table: a stale connection's
   end leaves its replacement in place.
   */
  lemma DisconnectSparesOthers(cfg: seq<Config>, sv: Server, h: History, c: Conn, name: string)
    requires ServerOk(cfg, sv, h)
    ensures Evicted(sv.Session(name), sv.Disconnect(c).Session(name), c)
  {
    hide SessionOk, Evicted, SessionState.Unregister;
    var s := sv.Session(name);
    SessionIsOk(cfg, sv, h, name);
    if c in sv.peers && sv.peers[c].session == name {
      OwnSessionEvicts(cfg, name, s, sv.peers, h, c);
    } else {
      OtherSessionEvicts(cfg, name, s, sv.peers, h, c);
    }
  }
}
