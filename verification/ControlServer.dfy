/** The control server's classes: dictionaries that the handlers change in place. */
module ControlServer {
  import opened Common
  import opened ControlSpec

  class Session {
    var senders: map<string, Conn>
    var receivers: map<string, Endpoint>
    var pendingAck: map<string, Pending>
    var generation: nat

    ghost function Value(): SessionState
      reads this
    {
      SessionState(senders, receivers, pendingAck, generation)
    }

    constructor ()
      ensures Value() == NEW_SESSION
    {
      senders, receivers, pendingAck, generation := map[], map[], map[], 0;
    }

    /** Ends every handshake that `c` takes part in, as its sender or as its receiver. */
    method DropPendingOf(c: Conn)
      modifies this
      ensures Value() == old(Value()).DropPendingOf(c)
    {
      var dead := set st | st in pendingAck && pendingAck[st].Of(c);
      ghost var all := dead;
      while dead != {}
        invariant dead <= all
        invariant Value() == old(Value()).(pending := pendingAck)
        invariant pendingAck == map st | st in old(pendingAck) && (st in all ==> st in dead) :: old(pendingAck)[st]
      {
        var st :| st in dead;
        dead := dead - {st};
        pendingAck := pendingAck - {st};
      }
    }

    /** A sender takes the stream, perhaps from another connection, and is told about every receiver. */
    method AddSender(c: Conn, stream: string) returns (outs: set<Out>)
      modifies this
      ensures Value() == old(Value()).RegisterSender(c, stream) && outs == Value().ReadyFor(c)
    {
      if stream in senders {
        DropPendingOf(senders[stream]);
      }
      senders := senders[stream := c];
      outs := {};
      var todo := receivers.Keys;
      while todo != {}
        invariant todo <= receivers.Keys
        invariant outs == set rid | rid in receivers && rid !in todo ::
                  Out(c, Ready(rid, receivers[rid].info.Announced()))
      {
        var rid :| rid in todo;
        todo := todo - {rid};
        outs := outs + {Out(c, Ready(rid, receivers[rid].info.Announced()))};
      }
    }

    /** A receiver takes its id, perhaps from another connection, and every sender is told. */
    method AddReceiver(c: Conn, rid: string, info: Info) returns (outs: set<Out>)
      modifies this
      ensures Value() == old(Value()).RegisterReceiver(c, rid, info) && outs == Value().ReadyFrom(rid, info)
    {
      if rid in receivers {
        DropPendingOf(receivers[rid].conn);
      }
      receivers := receivers[rid := Endpoint(c, info)];
      outs := {};
      var todo := senders.Keys;
      while todo != {}
        invariant todo <= senders.Keys
        invariant outs == set st | st in senders && st !in todo :: Out(senders[st], Ready(rid, info.Announced()))
      {
        var st :| st in todo;
        todo := todo - {st};
        outs := outs + {Out(senders[st], Ready(rid, info.Announced()))};
      }
    }

    /** A handshake begins: it is bound to both connections and to a new generation. */
    method BeginHandshake(c: Conn, stream: string, rid: string, ssrc: int) returns (outs: set<Out>)
      modifies this
      ensures Value() == old(Value()).StreamStart(c, stream, rid)
      ensures var was := old(Value());
              outs == if rid in was.receivers then
                        {Out(was.receivers[rid].conn, Start(stream, ssrc, was.generation + 1))}
                      else {}
    {
      outs := {};
      if rid in receivers {
        generation := generation + 1;
        pendingAck := pendingAck[stream := Pending(receivers[rid].conn, c, generation)];
        outs := {Out(receivers[rid].conn, Start(stream, ssrc, generation))};
      }
    }

    /** A receiver acknowledges: only on the connection that was handed the stream-start, and for this generation. */
    method EndHandshake(c: Conn, stream: string, gen: int, ok: bool) returns (outs: set<Out>)
      modifies this
      ensures Value() == old(Value()).StreamAck(c, stream, gen)
      ensures var was := old(Value());
              outs == if was.AckDelivered(c, stream, gen) then {Out(was.senders[stream], Ack(stream, gen, ok))} else {}
    {
      outs := {};
      if stream !in pendingAck || pendingAck[stream].receiver != c || gen != pendingAck[stream].generation {
        return;
      }
      var pend := pendingAck[stream];
      pendingAck := pendingAck - {stream};
      if stream in senders && senders[stream] == pend.sender {
        outs := {Out(pend.sender, Ack(stream, gen, ok))};
      }
    }

    method Remove(c: Conn, isSender: bool, id: string)
      modifies this
      ensures Value() == old(Value()).Unregister(c, isSender, id)
    {
      if isSender {
        if id in senders && senders[id] == c {
          senders := senders - {id};
        }
      } else if id in receivers && receivers[id].conn == c {
        receivers := receivers - {id};
      }
      DropPendingOf(c);
    }
  }

  class ControlServer {
    var sessions: map<string, Session>
    var peers: map<Conn, Peer>

    /** No two names share a session object. */
    ghost predicate Valid()
      reads this
    {
      forall a, b | a in sessions && b in sessions && a != b :: sessions[a] != sessions[b]
    }

    ghost function Value(): Server
      reads this, sessions.Values
    {
      Server(map name | name in sessions :: sessions[name].Value(), peers)
    }

    constructor ()
      ensures Valid() && Value() == Server(map[], map[]) && fresh(this)
    {
      sessions, peers := map[], map[];
    }

    /** The session with this name, made on first use. */
    method GetSession(name: string) returns (s: Session)
      requires Valid()
      modifies this
      ensures Valid() && name in sessions && s == sessions[name] && peers == old(peers)
      ensures sessions.Values <= old(sessions.Values) + {s} && (s in old(sessions.Values) || fresh(s))
      ensures s.Value() == old(Value()).Session(name)
      ensures Value() == old(Value()).SetSession(name, s.Value())
    {
      if name !in sessions {
        s := new Session();
        sessions := sessions[name := s];
      }
      s := sessions[name];
    }

    /** When only the session `name` has changed, the rest of the server is as it was. */
    twostate lemma OnlyChanged(name: string)
      requires old(Valid()) && sessions == old(sessions) && name in sessions
      requires forall n | n in sessions && n != name :: sessions[n].Value() == old(sessions[n].Value())
      ensures Value() == Server(old(Value()).sessions[name := sessions[name].Value()], peers)
    {
    }

    method RegisterSender(c: Conn, m: Request) returns (outs: set<Out>)
      requires Valid() && m.RegisterSender?
      modifies this, sessions.Values
      ensures Valid()
      ensures Handled(Value(), outs, false) == old(Value()).Handle(c, m)
    {
      hide SessionState.RegisterSender, SessionState.ReadyFor, Session.Value;
      var s := GetSession(m.session);
      label Got:
      outs := s.AddSender(c, m.stream);
      peers := peers[c := Peer(m.session, true, m.stream)];
      OnlyChanged@Got(m.session);
    }

    method RegisterReceiver(c: Conn, m: Request) returns (outs: set<Out>)
      requires Valid() && m.RegisterReceiver?
      modifies this, sessions.Values
      ensures Valid()
      ensures Handled(Value(), outs, false) == old(Value()).Handle(c, m)
    {
      hide SessionState.RegisterReceiver, SessionState.ReadyFrom, Session.Value;
      var s := GetSession(m.session);
      label Got:
      outs := s.AddReceiver(c, m.receiver, m.info);
      peers := peers[c := Peer(m.session, false, m.receiver)];
      OnlyChanged@Got(m.session);
    }

    /** The stream-start of a registered connection goes to the receiver it names; any other connection is closed. */
    method RouteStreamStart(c: Conn, m: Request) returns (outs: set<Out>, closes: bool)
      requires Valid() && m.StreamStart?
      modifies this, sessions.Values
      ensures Valid()
      ensures Handled(Value(), outs, closes) == old(Value()).Handle(c, m)
    {
      hide SessionState.StreamStart;
      outs, closes := {}, c !in peers;
      if !closes {
        var name, stream := peers[c].session, peers[c].id;
        var s := GetSession(name);
        label Got:
        outs := s.BeginHandshake(c, stream, m.to, m.ssrc);
        OnlyChanged@Got(name);
      }
    }

    /** A stream-ack of a registered receiver may end a handshake; any other is dropped. */
    method RouteStreamAck(c: Conn, m: Request) returns (outs: set<Out>)
      requires Valid() && m.StreamAck?
      modifies this, sessions.Values
      ensures Valid()
      ensures Handled(Value(), outs, false) == old(Value()).Handle(c, m)
    {
      hide SessionState.StreamAck, SessionState.AckDelivered, Session.Value;
      outs := {};
      if c in peers {
        var name, isSender := peers[c].session, peers[c].isSender;
        var s := GetSession(name);
        label Got:
        if !isSender {
          outs := s.EndHandshake(c, m.stream, m.generation, m.ok);
          OnlyChanged@Got(name);
        }
      }
    }

    method PopPeer(c: Conn) returns (p: Peer)
      requires Valid() && c in peers
      modifies this`peers
      ensures Valid() && p == old(peers)[c] && Value() == old(Value()).(peers := old(peers) - {c})
    {
      p := peers[c];
      peers := peers - {c};
    }

    /** The connection is gone. */
    method Unregister(c: Conn)
      requires Valid()
      modifies this, sessions.Values
      ensures Valid()
      ensures Value() == old(Value()).Disconnect(c)
    {
      hide SessionState.Unregister, Session.Value;
      if c in peers {
        var p := PopPeer(c);
        var s := GetSession(p.session);
        label Got:
        s.Remove(c, p.isSender, p.id);
        OnlyChanged@Got(p.session);
      }
    }

    method Dispatch(c: Conn, m: Request) returns (outs: set<Out>, closes: bool)
      requires Valid()
      modifies this, sessions.Values
      ensures Valid()
      ensures Handled(Value(), outs, closes) == old(Value()).Handle(c, m)
    {
      closes := false;
      if m.RegisterSender? {
        outs := RegisterSender(c, m);
      } else if m.RegisterReceiver? {
        outs := RegisterReceiver(c, m);
      } else if m.StreamStart? {
        outs, closes := RouteStreamStart(c, m);
      } else {
        outs := RouteStreamAck(c, m);
      }
    }
  }
}
