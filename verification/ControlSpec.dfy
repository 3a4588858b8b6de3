/**
 The control server as functions on values: what one message of a connection does to the tables, and which messages it
 sends. `ControlServer.dfy` proves the classes against these functions; `Handshake.dfy` proves what they are for.
 */
module ControlSpec {
  import opened Common

  type Conn = nat

  datatype Info = Info(rtpPort: int, rtcpPort: int, host: Option<string>) {
    /** What a `receiver-ready` message tells of it: an empty host is left out. */
    function Announced(): Info {
      if host == Some("") then this.(host := None) else this
    }
  }

  datatype Request =
    | RegisterSender(session: string, stream: string)
    | RegisterReceiver(session: string, receiver: string, info: Info)
    | StreamStart(to: string, stream: string, ssrc: int)
    | StreamAck(stream: string, generation: int, ok: bool)

  datatype Reply =
    | Ready(receiver: string, info: Info)
    | Start(stream: string, ssrc: int, generation: int)
    | Ack(stream: string, generation: int, ok: bool)

  /** A message that the server sends to a connection. */
  datatype Out = Out(to: Conn, reply: Reply)

  datatype Endpoint = Endpoint(conn: Conn, info: Info)

  /** The two connections of a handshake, and its generation. */
  datatype Pending = Pending(receiver: Conn, sender: Conn, generation: nat) {
    predicate Of(c: Conn) {
      receiver == c || sender == c
    }
  }

  datatype Peer = Peer(session: string, isSender: bool, id: string)

  datatype SessionState = SessionState(
    senders: map<string, Conn>, receivers: map<string, Endpoint>, pending: map<string, Pending>, generation: nat)
  {
    function DropPendingOf(c: Conn): SessionState {
      this.(pending := map st | st in pending && !pending[st].Of(c) :: pending[st])
    }

    function RegisterSender(c: Conn, stream: string): SessionState {
      (if stream in senders then DropPendingOf(senders[stream]) else this).(senders := senders[stream := c])
    }

    function RegisterReceiver(c: Conn, rid: string, info: Info): SessionState {
      var s := if rid in receivers then DropPendingOf(receivers[rid].conn) else this;
      s.(receivers := receivers[rid := Endpoint(c, info)])
    }

    /** The receivers that a new sender is told about. */
    function ReadyFor(c: Conn): set<Out> {
      set rid | rid in receivers :: Out(c, Ready(rid, receivers[rid].info.Announced()))
    }

    /** The senders that are told about a new receiver. */
    function ReadyFrom(rid: string, info: Info): set<Out> {
      set st | st in senders :: Out(senders[st], Ready(rid, info.Announced()))
    }

    function StreamStart(c: Conn, stream: string, rid: string): SessionState {
      if rid !in receivers then this
      else
        this.(generation := generation + 1,
              pending := pending[stream := Pending(receivers[rid].conn, c, generation + 1)])
    }

    /** The connection and the generation are those of the pending handshake. */
    predicate Acknowledges(c: Conn, stream: string, gen: int) {
      stream in pending && pending[stream].receiver == c && pending[stream].generation == gen
    }

    /** ... and the sender that began it still holds the stream. */
    predicate AckDelivered(c: Conn, stream: string, gen: int) {
      Acknowledges(c, stream, gen) && stream in senders && senders[stream] == pending[stream].sender
    }

    function StreamAck(c: Conn, stream: string, gen: int): SessionState {
      if Acknowledges(c, stream, gen) then this.(pending := pending - {stream}) else this
    }

    function Unregister(c: Conn, isSender: bool, id: string): SessionState {
      var s :=
        if isSender && id in senders && senders[id] == c then this.(senders := senders - {id})
        else if !isSender && id in receivers && receivers[id].conn == c then this.(receivers := receivers - {id})
        else this;
      s.DropPendingOf(c)
    }
  }

  const NEW_SESSION := SessionState(map[], map[], map[], 0)

  datatype Server = Server(sessions: map<string, SessionState>, peers: map<Conn, Peer>) {
    function Session(name: string): SessionState {
      if name in sessions then sessions[name] else NEW_SESSION
    }

    function SetSession(name: string, s: SessionState): Server {
      this.(sessions := sessions[name := s])
    }

    /** `closes`: the handler fails, and the connection is closed. */
    function Handle(c: Conn, m: Request): Handled {
      match m
      case RegisterSender(name, stream) =>
        var s := Session(name).RegisterSender(c, stream);
        Handled(Server(sessions[name := s], peers[c := Peer(name, true, stream)]), s.ReadyFor(c), false)
      case RegisterReceiver(name, rid, info) =>
        var s := Session(name).RegisterReceiver(c, rid, info);
        Handled(Server(sessions[name := s], peers[c := Peer(name, false, rid)]), s.ReadyFrom(rid, info), false)
      case StreamStart(to, _, ssrc) =>
        if c !in peers then Handled(this, {}, true)
        else
          var name, stream := peers[c].session, peers[c].id;
          var s := Session(name);
          Handled(SetSession(name, s.StreamStart(c, stream, to)),
                  if to in s.receivers then {Out(s.receivers[to].conn, Start(stream, ssrc, s.generation + 1))} else {},
                  false)
      case StreamAck(stream, gen, ok) =>
        if c !in peers then Handled(this, {}, false)
        else
          var name := peers[c].session;
          var s := Session(name);
          if peers[c].isSender then Handled(SetSession(name, s), {}, false)
          else
            Handled(SetSession(name, s.StreamAck(c, stream, gen)),
                    if s.AckDelivered(c, stream, gen) then {Out(s.senders[stream], Ack(stream, gen, ok))} else {},
                    false)
    }

    function Disconnect(c: Conn): Server {
      if c !in peers then this
      else
        var p := peers[c];
        Server(sessions[p.session := Session(p.session).Unregister(c, p.isSender, p.id)], peers - {c})
    }
  }

  datatype Handled = Handled(server: Server, outs: set<Out>, closes: bool)
}
