/** What every run of the rendezvous server keeps, for any interleaving of its steps. */
module SignalingSafety {
  import opened Signaling

  // ----- Registry safety -----

  /** A session that can still be registered: its deferred delete has not run. */
  predicate Live(n: NodeSession) {
    !n.closed && (n.phase.Receiving? || n.phase.Sending? || n.phase.Deregistering?)
  }

  predicate Consistent(n: NodeSession) {
    (n.closed <==> n.phase.Finished?) && |n.events| <= CHANNEL_CAPACITY
  }

  /** Every session in the registry is stored under its own ID and has an open channel. */
  predicate RegistrySafe(nodes: map<NodeId, nat>, sessions: seq<NodeSession>) {
    && (forall id :: id in nodes ==>
          nodes[id] < |sessions| && sessions[nodes[id]].node.nodeId == id && Live(sessions[nodes[id]]))
    && (forall i :: 0 <= i < |sessions| ==> Consistent(sessions[i]))
  }

  /** A session may change if it stays consistent and keeps its data, and stays live unless it is
      not registered. */
  lemma SessionChange(nodes: map<NodeId, nat>, sessions: seq<NodeSession>, i: nat, n: NodeSession)
    requires RegistrySafe(nodes, sessions) && i < |sessions|
    requires n.node == sessions[i].node && Consistent(n)
    requires Live(n) || n.node.nodeId !in nodes || nodes[n.node.nodeId] != i
    ensures RegistrySafe(nodes, sessions[i := n])
  {
  }

  lemma SendKeepsRegistry(s: State, c: nat)
    requires RegistrySafe(s.nodes, s.sessions) && c < |s.calls| && InRange(s, s.calls[c].pc)
    ensures var s' := DoChannelSend(s, c);
            RegistrySafe(s'.nodes, s'.sessions)
  {
    var s' := DoChannelSend(s, c);
    if s'.sessions != s.sessions {
      var i := match s.calls[c].pc
        case SendNil(i) => i
        case TellInitiator(m, _) => m
        case TellTarget(_, t) => t
        case Answered(_) => 0;
      SessionChange(s.nodes, s.sessions, i, s'.sessions[i]);
    }
  }

  lemma RegistryStep(s: State, a: Action)
    requires RegistrySafe(s.nodes, s.sessions)
    ensures RegistrySafe(Next(s, a).nodes, Next(s, a).sessions)
  {
    if Enabled(s, a) {
      match a
      case Connect(_) =>
      case TakeEvent(i) => SessionChange(s.nodes, s.sessions, i, Taken(s.sessions[i]));
      case StreamSend(i, ok) => SessionChange(s.nodes, s.sessions, i, StreamSent(s.sessions[i], ok));
      case Deregister(i) =>
        var n := s.sessions[i];
        SessionChange(s.nodes - {n.node.nodeId}, s.sessions, i, n.(phase := Closing));
      case CloseChannel(i) =>
        if !s.sessions[i].closed {
          SessionChange(s.nodes, s.sessions, i, s.sessions[i].(closed := true, phase := Finished));
        }
      case Invoke(_) =>
      case ChannelSend(c) => SendKeepsRegistry(s, c);
    }
  }

  /** In every run, every registered session is stored under its own ID and its channel is open,
      and no queue holds more than 32 messages. */
  lemma {:induction false} RegistryAlwaysSafe(s: State, actions: seq<Action>)
    requires RegistrySafe(s.nodes, s.sessions)
    ensures RegistrySafe(Run(s, actions).nodes, Run(s, actions).sessions)
    decreases |actions|
  {
    if actions != [] {
      RegistryStep(s, actions[0]);
      RegistryAlwaysSafe(Next(s, actions[0]), actions[1..]);
    }
  }
}
