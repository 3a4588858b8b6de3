/** The two clients' ends of the stream-start / stream-ack handshake. */
module HandshakeClients {
  import opened Common
  import opened ControlSpec

  /** Where a sender sends: a host, and the two ports as 16-bit numbers. */
  datatype Address = Address(host: string, rtpPort: uint16, rtcpPort: uint16)

  /** A process with one connection to the control server: a sender or a receiver. */
  datatype Config =
    | Camera(session: string, stream: string, to: string, ssrc: int, controlHost: string)
    | Edge(session: string, receiver: string, info: Info)
  {
    /** The one message with which the process registers. */
    function Registration(): Request {
      match this
      case Camera(name, stream, _, _, _) => RegisterSender(name, stream)
      case Edge(name, rid, info) => RegisterReceiver(name, rid, info)
    }

    /** The address behind a `receiver-ready` message: without a host it is that of the control server. */
    function Resolve(info: Info): Address
      requires Camera?
    {
      var host := if info.host.Some? then info.host.value else controlHost;
      Address(host, info.rtpPort % 0x1_0000, info.rtcpPort % 0x1_0000)
    }

    function Peer(): Peer {
      match this
      case Camera(name, stream, _, _, _) => ControlSpec.Peer(name, true, stream)
      case Edge(name, rid, _) => ControlSpec.Peer(name, false, rid)
    }
  }

  /** What the control thread of a process has set. A receiver without a stream has the empty name. */
  datatype Client =
    | Sender(awaiting: bool, started: bool, failed: bool, dest: Option<Address>)
    | Receiver(stream: string, ssrc: int)

  function NewClient(cfg: Config): Client {
    if cfg.Camera? then Sender(false, false, false, None) else Receiver("", 0)
  }

  datatype Reaction = Reaction(client: Client, send: Option<Request>)

  /** The reaction of a sender: it offers its stream once, and starts its grid only after the acknowledgement. */
  function SenderReacts(cfg: Config, st: Client, m: Reply): Reaction
    requires cfg.Camera? && st.Sender?
  {
    match m
    case Ready(rid, info) =>
      if st.failed || rid != cfg.to || st.started || st.awaiting then Reaction(st, None)
      else
        Reaction(st.(dest := Some(cfg.Resolve(info)), awaiting := true),
                 Some(StreamStart(cfg.to, cfg.stream, cfg.ssrc)))
    case Ack(stream, _, ok) =>
      if st.failed || stream != cfg.stream || st.started || !st.awaiting then Reaction(st, None)
      else Reaction(st.(awaiting := false, started := ok, failed := !ok), None)
    case Start(_, _, _) => Reaction(st, None)
  }

  /** The reaction of a receiver: it serves the first stream it is offered and refuses any other. */
  function ReceiverReacts(st: Client, m: Reply): Reaction
    requires st.Receiver?
  {
    match m
    case Start(stream, ssrc, gen) =>
      if st.stream != "" then Reaction(st, if stream != st.stream then Some(StreamAck(stream, gen, false)) else None)
      else Reaction(Receiver(stream, ssrc), Some(StreamAck(stream, gen, true)))
    case _ => Reaction(st, None)
  }

  // ----- what a client does over a whole run, whatever it is sent -----

  function SenderAfter(cfg: Config, ms: seq<Reply>): (st: Client)
    requires cfg.Camera?
    ensures st.Sender?
  {
    if ms == [] then NewClient(cfg) else SenderReacts(cfg, SenderAfter(cfg, ms[..|ms| - 1]), ms[|ms| - 1]).client
  }

  /** The messages it has sent. */
  function SentAfter(cfg: Config, ms: seq<Reply>): seq<Request>
    requires cfg.Camera?
  {
    if ms == [] then []
    else
      var r := SenderReacts(cfg, SenderAfter(cfg, ms[..|ms| - 1]), ms[|ms| - 1]);
      SentAfter(cfg, ms[..|ms| - 1]) + if r.send.Some? then [r.send.value] else []
  }

  /** The message announces the receiver that the sender names. */
  predicate Announces(cfg: Config, m: Reply)
    requires cfg.Camera?
  {
    m.Ready? && m.receiver == cfg.to
  }

  /** The message answers an offer of the sender's stream. */
  predicate Decides(cfg: Config, m: Reply)
    requires cfg.Camera?
  {
    m.Ack? && m.stream == cfg.stream
  }

  /** The address is the announced one: its host, or that of the control server, and the low 16 bits of its ports. */
  predicate Reaches(cfg: Config, info: Info, dest: Address)
    requires cfg.Camera?
  {
    && (info.host == Some(dest.host) || (info.host == None && dest.host == cfg.controlHost))
    && (info.rtpPort - dest.rtpPort) % 0x1_0000 == 0 && (info.rtcpPort - dest.rtcpPort) % 0x1_0000 == 0
  }

  lemma ResolveReaches(cfg: Config, info: Info)
    requires cfg.Camera?
    ensures Reaches(cfg, info, cfg.Resolve(info))
  {
  }

  /** An idle sender reacts to the announcement, one that awaits an answer to the answer, and none to the rest. */
  lemma SenderCases(cfg: Config, st: Client, m: Reply)
    requires cfg.Camera? && st.Sender?
    ensures SenderReacts(cfg, st, m) ==
            if Announces(cfg, m) && !st.awaiting && !st.started && !st.failed then
              Reaction(Sender(true, false, false, Some(cfg.Resolve(m.info))),
                       Some(StreamStart(cfg.to, cfg.stream, cfg.ssrc)))
            else if Decides(cfg, m) && st.awaiting && !st.started && !st.failed then
              Reaction(Sender(false, m.ok, !m.ok, st.dest), None)
            else Reaction(st, None)
  {
  }

  /**
   The whole life of a sender, whatever messages come. Message `i` is the first that announces its receiver, and `j` the
   first after it that answers for its stream, or the number of messages if there is none. The sender has offered its
   stream if and only if there was such a message `i`, and once, and its destination is the address announced then;
   it has started if and only if answer `j` accepted, failed if and only if it refused, and awaits an answer if and only
   if there was none.
   */
  lemma {:induction false} SenderRun(cfg: Config, ms: seq<Reply>) returns (i: nat, j: nat)
    requires cfg.Camera?
    ensures i <= |ms| && (i < |ms| ==> Announces(cfg, ms[i])) && forall k | 0 <= k < i :: !Announces(cfg, ms[k])
    ensures i <= j <= |ms| && (i < |ms| ==> i < j) && (j < |ms| ==> Decides(cfg, ms[j]))
    ensures forall k | i < k < j :: !Decides(cfg, ms[k])
    ensures SentAfter(cfg, ms) == if i < |ms| then [StreamStart(cfg.to, cfg.stream, cfg.ssrc)] else []
    ensures var st := SenderAfter(cfg, ms);
            && (st.awaiting <==> i < |ms| && j == |ms|)
            && (st.started <==> i < |ms| && j < |ms| && ms[j].ok)
            && (st.failed <==> i < |ms| && j < |ms| && !ms[j].ok)
            && (st.dest.Some? <==> i < |ms|)
            && (i < |ms| ==> Reaches(cfg, ms[i].info, st.dest.value))
  {
    hide Reaches, Config.Resolve, SenderReacts, Decides;
    if ms == [] {
      i, j := 0, 0;
    } else {
      var n := |ms| - 1;
      i, j := SenderRun(cfg, ms[..n]);
      SenderCases(cfg, SenderAfter(cfg, ms[..n]), ms[n]);
      if Announces(cfg, ms[n]) {
        ResolveReaches(cfg, ms[n].info);
      }
      if i < n {
        j := if j < n || Decides(cfg, ms[n]) then j else n + 1;
      } else {
        i, j := if Announces(cfg, ms[n]) then n else n + 1, n + 1;
      }
    }
  }

  function ReceiverAfter(ms: seq<Reply>): (st: Client)
    ensures st.Receiver?
  {
    if ms == [] then Receiver("", 0) else ReceiverReacts(ReceiverAfter(ms[..|ms| - 1]), ms[|ms| - 1]).client
  }

  /**
   A receiver serves the first named stream it is offered, with the SSRC of that offer, and no other named one. It
   accepts every offer until then, does not answer a repeated offer of its stream, and refuses any other.
   */
  lemma {:induction false} ReceiverRun(ms: seq<Reply>, m: Reply)
    ensures var st := ReceiverAfter(ms);
            && (st.stream == "" <==> forall i | 0 <= i < |ms| && ms[i].Start? :: ms[i].stream == "")
            && (st.stream != "" ==>
                  exists i | 0 <= i < |ms| ::
                    && ms[i].Start? && ms[i].stream == st.stream && ms[i].ssrc == st.ssrc
                    && forall j | 0 <= j < i && ms[j].Start? :: ms[j].stream == "")
            && ReceiverReacts(st, m).send ==
                  if !m.Start? || (st.stream != "" && m.stream == st.stream) then None
                  else Some(StreamAck(m.stream, m.generation, st.stream == ""))
  {
    if ms != [] {
      var n := |ms| - 1;
      ReceiverRun(ms[..n], m);
      assert forall i | 0 <= i < n :: ms[..n][i] == ms[i];
    }
  }

  class SenderControl {
    const cfg: Config
    var started: bool
    var awaitingAck: bool
    var failed: bool
    var dest: Option<Address>

    ghost function Value(): Client
      reads this
    {
      Sender(awaitingAck, started, failed, dest)
    }

    constructor (cfg: Config)
      ensures this.cfg == cfg && Value() == Sender(false, false, false, None)
    {
      this.cfg := cfg;
      started, awaitingAck, failed, dest := false, false, false, None;
    }

    /** `failed` stands for the fatal error that ends the process. */
    method OnMessage(m: Reply) returns (send: Option<Request>)
      requires cfg.Camera?
      modifies this
      ensures Reaction(Value(), send) == SenderReacts(cfg, old(Value()), m)
    {
      send := None;
      if failed {
        return;
      }
      if m.Ready? {
        if m.receiver != cfg.to || started || awaitingAck {
          return;
        }
        var host := if m.info.host.Some? then m.info.host.value else cfg.controlHost;
        dest := Some(Address(host, m.info.rtpPort % 0x1_0000, m.info.rtcpPort % 0x1_0000));
        send := Some(StreamStart(cfg.to, cfg.stream, cfg.ssrc));
        awaitingAck := true;
      } else if m.Ack? {
        if m.stream != cfg.stream || started || !awaitingAck {
          return;
        }
        awaitingAck := false;
        if !m.ok {
          failed := true;
          return;
        }
        started := true;
      }
    }
  }

  class ReceiverControl {
    var stream: string
    var ssrc: int

    ghost function Value(): Client
      reads this
    {
      Receiver(stream, ssrc)
    }

    constructor ()
      ensures Value() == Receiver("", 0)
    {
      stream, ssrc := "", 0;
    }

    method OnMessage(m: Reply) returns (send: Option<Request>)
      modifies this
      ensures Reaction(Value(), send) == ReceiverReacts(old(Value()), m)
    {
      send := None;
      if !m.Start? {
        return;
      }
      if stream != "" {
        if m.stream != stream {
          send := Some(StreamAck(m.stream, m.generation, false));
        }
        return;
      }
      stream, ssrc := m.stream, m.ssrc;
      send := Some(StreamAck(stream, m.generation, true));
    }
  }
}
