/** The rendezvous server as interleaved steps. Every lock region and every channel operation of
    StartConnection and SendSignal is one step; any number of streams and calls are in progress. */
module Signaling {
  import opened Wrappers
  import opened Bytes

  const CHANNEL_CAPACITY := 32

  type NodeId = string

  /** A node's registration data, and equally what a PeerFound message says of it. */
  datatype Peer = Peer(nodeId: NodeId, publicIp: string, publicPort: u32, localIp: string)

  /** None is the nil sentinel. */
  type Message = Option<Peer>

  /** Where a stream's handler is: waiting for an event, sending one, or about to delete its
      registration, about to close its channel, done. */
  datatype Phase = Receiving | Sending(peer: Peer) | Deregistering | Closing | Finished

  /** A stream's session. `taken` and `delivered` are history: what the handler took off the
      channel, and what it got through to the client. */
  datatype NodeSession = NodeSession(
    node: Peer, events: seq<Message>, closed: bool, phase: Phase, taken: seq<Message>, delivered: seq<Peer>)

  datatype Request = Disconnect(nodeId: NodeId) | Dial(targetNodeId: NodeId, myNodeId: NodeId) | Unsupported

  /** Where a SendSignal call is: about to send a channel message, or answered. */
  datatype Pc =
    | SendNil(session: nat)
    | TellInitiator(mine: nat, target: nat)
    | TellTarget(mine: nat, target: nat)
    | Answered(success: bool)

  /** `snapshot` is history: the registry that the call's lookup saw. */
  datatype Call = Call(request: Request, pc: Pc, snapshot: map<NodeId, nat>)

  datatype Event =
    | Registered(id: NodeId, session: nat)
    | Deregistered(id: NodeId, session: nat)
    | Disconnected(id: NodeId, call: nat)
    | Queued(call: nat, session: nat, message: Message)
    | ChannelClosed(session: nat)

  /** `log` is the history of the run. */
  datatype State = State(
    nodes: map<NodeId, nat>, sessions: seq<NodeSession>, calls: seq<Call>, crashed: bool, log: seq<Event>)

  const INIT := State(map[], [], [], false, [])

  datatype Action =
    | Connect(register: Option<Peer>)
    | TakeEvent(i: nat)
    | StreamSend(i: nat, ok: bool)
    | Deregister(i: nat)
    | CloseChannel(i: nat)
    | Invoke(request: Request)
    | ChannelSend(c: nat)

  // ----- The steps -----

  function Opened(node: Peer): NodeSession {
    NodeSession(node, [], false, Receiving, [], [])
  }

  /** A new stream: registered under its ID, over whatever was there. */
  function DoConnect(s: State, node: Peer): State {
    s.(nodes := s.nodes[node.nodeId := |s.sessions|], sessions := s.sessions + [Opened(node)],
       log := s.log + [Registered(node.nodeId, |s.sessions|)])
  }

  /** The loop takes an event; the sentinel, and a closed and empty channel, end it. */
  function Taken(n: NodeSession): NodeSession {
    if n.events == [] then
      if n.closed then n.(phase := Deregistering) else n
    else
      var n' := n.(events := n.events[1..], taken := n.taken + [n.events[0]]);
      match n.events[0]
      case None => n'.(phase := Deregistering)
      case Some(peer) => n'.(phase := Sending(peer))
  }

  function StreamSent(n: NodeSession, ok: bool): NodeSession
    requires n.phase.Sending?
  {
    if ok then n.(phase := Receiving, delivered := n.delivered + [n.phase.peer]) else n.(phase := Deregistering)
  }

  /** The deferred delete removes whatever is registered under the stream's ID. */
  function DoDeregister(s: State, i: nat): State
    requires i < |s.sessions|
  {
    var n := s.sessions[i];
    s.(nodes := s.nodes - {n.node.nodeId}, sessions := s.sessions[i := n.(phase := Closing)],
       log := s.log + [Deregistered(n.node.nodeId, i)])
  }

  function DoClose(s: State, i: nat): State
    requires i < |s.sessions|
  {
    if s.sessions[i].closed then s.(crashed := true)
    else s.(sessions := s.sessions[i := s.sessions[i].(closed := true, phase := Finished)],
            log := s.log + [ChannelClosed(i)])
  }

  /** A call up to the end of its lock region. */
  function DoInvoke(s: State, request: Request): State {
    var c := |s.calls|;
    match request
    case Disconnect(id) =>
      if id !in s.nodes then s.(calls := s.calls + [Call(request, Answered(false), s.nodes)])
      else s.(calls := s.calls + [Call(request, SendNil(s.nodes[id]), s.nodes)], nodes := s.nodes - {id},
              log := s.log + [Disconnected(id, c)])
    case Dial(target, mine) =>
      if target !in s.nodes || mine !in s.nodes then s.(calls := s.calls + [Call(request, Answered(false), s.nodes)])
      else s.(calls := s.calls + [Call(request, TellInitiator(s.nodes[mine], s.nodes[target]), s.nodes)])
    case Unsupported => s.(calls := s.calls + [Call(request, Answered(false), s.nodes)])
  }

  /** A message put on session i's channel by call c, which goes on at `pc`. */
  function Put(s: State, c: nat, i: nat, message: Message, pc: Pc): State
    requires c < |s.calls| && i < |s.sessions|
  {
    s.(sessions := s.sessions[i := s.sessions[i].(events := s.sessions[i].events + [message])],
       calls := s.calls[c := s.calls[c].(pc := pc)],
       log := s.log + [Queued(c, i, message)])
  }

  /** A send on a closed channel panics; on a full one it waits. */
  function BlockingSend(s: State, c: nat, i: nat, message: Message, pc: Pc): State
    requires c < |s.calls| && i < |s.sessions|
  {
    if s.sessions[i].closed then s.(crashed := true)
    else if |s.sessions[i].events| >= CHANNEL_CAPACITY then s
    else Put(s, c, i, message, pc)
  }

  /** The sentinel's send panics on a closed channel too, but is given up on a full one. */
  function SentinelSend(s: State, c: nat, i: nat): State
    requires c < |s.calls| && i < |s.sessions|
  {
    if s.sessions[i].closed then s.(crashed := true)
    else if |s.sessions[i].events| >= CHANNEL_CAPACITY then s.(calls := s.calls[c := s.calls[c].(pc := Answered(true))])
    else Put(s, c, i, None, Answered(true))
  }

  predicate InRange(s: State, pc: Pc) {
    match pc
    case SendNil(i) => i < |s.sessions|
    case TellInitiator(m, t) => m < |s.sessions| && t < |s.sessions|
    case TellTarget(m, t) => m < |s.sessions| && t < |s.sessions|
    case Answered(_) => true
  }

  function DoChannelSend(s: State, c: nat): State
    requires c < |s.calls| && InRange(s, s.calls[c].pc)
  {
    match s.calls[c].pc
    case SendNil(i) => SentinelSend(s, c, i)
    case TellInitiator(m, t) => BlockingSend(s, c, m, Some(s.sessions[t].node), TellTarget(m, t))
    case TellTarget(m, t) => BlockingSend(s, c, t, Some(s.sessions[m].node), Answered(true))
    case Answered(_) => s
  }

  predicate Enabled(s: State, a: Action) {
    !s.crashed &&
    match a
    case Connect(_) => true
    case TakeEvent(i) => i < |s.sessions| && s.sessions[i].phase.Receiving?
    case StreamSend(i, _) => i < |s.sessions| && s.sessions[i].phase.Sending?
    case Deregister(i) => i < |s.sessions| && s.sessions[i].phase.Deregistering?
    case CloseChannel(i) => i < |s.sessions| && s.sessions[i].phase.Closing?
    case Invoke(_) => true
    case ChannelSend(c) => c < |s.calls| && InRange(s, s.calls[c].pc)
  }

  /** An action that is not enabled does nothing; after a crash none is. */
  function Next(s: State, a: Action): State {
    if !Enabled(s, a) then s
    else
      match a
      case Connect(register) => if register.None? then s else DoConnect(s, register.value)
      case TakeEvent(i) => s.(sessions := s.sessions[i := Taken(s.sessions[i])])
      case StreamSend(i, ok) => s.(sessions := s.sessions[i := StreamSent(s.sessions[i], ok)])
      case Deregister(i) => DoDeregister(s, i)
      case CloseChannel(i) => DoClose(s, i)
      case Invoke(request) => DoInvoke(s, request)
      case ChannelSend(c) => DoChannelSend(s, c)
  }

  function Run(s: State, actions: seq<Action>): State
    decreases |actions|
  {
    if actions == [] then s else Run(Next(s, actions[0]), actions[1..])
  }
}
