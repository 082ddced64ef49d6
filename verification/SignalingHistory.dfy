/** What the history of a run of the rendezvous server says of its registry, its streams, its
    channels and its calls. */
module SignalingHistory {
  import opened Wrappers
  import opened Signaling
  import opened SignalingSafety

  // ----- Reading the log -----

  /** An event's effect on the registry. */
  function ApplyEvent(nodes: map<NodeId, nat>, e: Event): map<NodeId, nat> {
    if e.Registered? then nodes[e.id := e.session]
    else if e.Deregistered? || e.Disconnected? then nodes - {e.id}
    else nodes
  }

  /** The registry as the log's events make it. */
  function RegistryOf(log: seq<Event>): map<NodeId, nat> {
    if log == [] then map[] else ApplyEvent(RegistryOf(log[..|log| - 1]), log[|log| - 1])
  }

  function Registrations(log: seq<Event>, id: NodeId): nat {
    if log == [] then 0
    else Registrations(log[..|log| - 1], id)
         + if log[|log| - 1].Registered? && log[|log| - 1].id == id then 1 else 0
  }

  function Disconnections(log: seq<Event>, id: NodeId): nat {
    if log == [] then 0
    else Disconnections(log[..|log| - 1], id)
         + if log[|log| - 1].Disconnected? && log[|log| - 1].id == id then 1 else 0
  }

  /** The messages put on session i's channel, in order. */
  function QueuedOn(log: seq<Event>, i: nat): seq<Message> {
    if log == [] then []
    else QueuedOn(log[..|log| - 1], i)
         + if log[|log| - 1].Queued? && log[|log| - 1].session == i then [log[|log| - 1].message] else []
  }

  /** The messages call c put on channels, in order, with the sessions they went to. */
  function QueuedBy(log: seq<Event>, c: nat): seq<(nat, Message)> {
    if log == [] then []
    else QueuedBy(log[..|log| - 1], c)
         + if log[|log| - 1].Queued? && log[|log| - 1].call == c
           then [(log[|log| - 1].session, log[|log| - 1].message)] else []
  }

  /** The IDs that call c disconnected. */
  function DisconnectedBy(log: seq<Event>, c: nat): seq<NodeId> {
    if log == [] then []
    else DisconnectedBy(log[..|log| - 1], c)
         + if log[|log| - 1].Disconnected? && log[|log| - 1].call == c then [log[|log| - 1].id] else []
  }

  function Closings(log: seq<Event>, i: nat): nat {
    if log == [] then 0
    else Closings(log[..|log| - 1], i)
         + if log[|log| - 1].ChannelClosed? && log[|log| - 1].session == i then 1 else 0
  }

  /** Everything that is read off the log, one event later. */
  lemma OneMoreEvent(log: seq<Event>, e: Event)
    ensures RegistryOf(log + [e]) == ApplyEvent(RegistryOf(log), e)
    ensures forall id :: Registrations(log + [e], id)
                      == Registrations(log, id) + if e.Registered? && e.id == id then 1 else 0
    ensures forall id :: Disconnections(log + [e], id)
                      == Disconnections(log, id) + if e.Disconnected? && e.id == id then 1 else 0
    ensures forall i :: QueuedOn(log + [e], i)
                     == QueuedOn(log, i) + if e.Queued? && e.session == i then [e.message] else []
    ensures forall c :: QueuedBy(log + [e], c)
                     == QueuedBy(log, c) + if e.Queued? && e.call == c then [(e.session, e.message)] else []
    ensures forall c :: DisconnectedBy(log + [e], c)
                     == DisconnectedBy(log, c) + if e.Disconnected? && e.call == c then [e.id] else []
    ensures forall i :: Closings(log + [e], i)
                     == Closings(log, i) + if e.ChannelClosed? && e.session == i then 1 else 0
  {
    assert (log + [e])[..|log|] == log;
  }

  // ----- The registry -----

  /** The registry is what registrations, deferred deletes and disconnects made it, and successful
      disconnects never outnumber registrations. */
  predicate RegistryMatchesLog(nodes: map<NodeId, nat>, log: seq<Event>) {
    nodes == RegistryOf(log)
  }

  ghost predicate DisconnectsCovered(nodes: map<NodeId, nat>, log: seq<Event>) {
    forall id :: Disconnections(log, id) + (if id in nodes then 1 else 0) <= Registrations(log, id)
  }

  lemma SendLog(s: State, c: nat) returns (e: Option<Event>)
    requires c < |s.calls| && InRange(s, s.calls[c].pc)
    ensures DoChannelSend(s, c).nodes == s.nodes && (e.Some? ==> e.value.Queued?)
    ensures DoChannelSend(s, c).log == if e.None? then s.log else s.log + [e.value]
  {
    var s' := DoChannelSend(s, c);
    e := if s'.log == s.log then None else Some(s'.log[|s.log|]);
  }

  /** The action registers the ID. */
  predicate Registers(s: State, a: Action, id: NodeId) {
    !s.crashed && a.Connect? && a.register.Some? && a.register.value.nodeId == id
  }

  /** The action disconnects the ID, which is registered. */
  predicate Disconnects(s: State, a: Action, id: NodeId) {
    !s.crashed && a == Invoke(Disconnect(id)) && id in s.nodes
  }

  /** A step adds at most one event, and the event accounts for what the step does to the registry. */
  lemma LogStep(s: State, a: Action) returns (e: Option<Event>)
    ensures var s' := Next(s, a);
            if e.None? then s'.log == s.log && s'.nodes == s.nodes
            else s'.log == s.log + [e.value] && s'.nodes == ApplyEvent(s.nodes, e.value)
    ensures forall id :: e.Some? && e.value.Registered? && e.value.id == id <==> Registers(s, a, id)
    ensures forall id :: e.Some? && e.value.Disconnected? && e.value.id == id <==> Disconnects(s, a, id)
    ensures e.Some? && e.value.Queued? ==> a.ChannelSend?
  {
    if Enabled(s, a) && a.ChannelSend? {
      e := SendLog(s, a.c);
    } else {
      var s' := Next(s, a);
      e := if s'.log == s.log then None else Some(s'.log[|s.log|]);
    }
  }

  lemma RegistryHistoryStep(s: State, a: Action)
    requires RegistryMatchesLog(s.nodes, s.log) && DisconnectsCovered(s.nodes, s.log)
    ensures RegistryMatchesLog(Next(s, a).nodes, Next(s, a).log)
    ensures DisconnectsCovered(Next(s, a).nodes, Next(s, a).log)
  {
    var e := LogStep(s, a);
    if e.Some? {
      assert e.value.Disconnected? ==> Disconnects(s, a, e.value.id);
      EventKeepsRegistry(s.nodes, s.log, e.value);
    }
  }

  lemma EventKeepsRegistry(nodes: map<NodeId, nat>, log: seq<Event>, e: Event)
    requires RegistryMatchesLog(nodes, log) && DisconnectsCovered(nodes, log)
    requires e.Disconnected? ==> e.id in nodes
    ensures RegistryMatchesLog(ApplyEvent(nodes, e), log + [e])
    ensures DisconnectsCovered(ApplyEvent(nodes, e), log + [e])
  {
    OneMoreEvent(log, e);
  }

  // ----- Streams and channels -----

  function Somes(peers: seq<Peer>): (ms: seq<Message>)
    ensures |ms| == |peers|
    ensures forall k :: 0 <= k < |ms| ==> ms[k] == Some(peers[k])
  {
    seq(|peers|, k requires 0 <= k < |peers| => Some(peers[k]))
  }

  /** How far the handler has got with what it took: everything is delivered, except that once it
      is past receiving the last thing it took is not. */
  predicate HandlerMatches(n: NodeSession) {
    match n.phase
    case Receiving => n.taken == Somes(n.delivered)
    case Sending(peer) => n.taken == Somes(n.delivered) + [Some(peer)]
    case _ => |n.taken| == |n.delivered| + 1 && n.taken[..|n.delivered|] == Somes(n.delivered)
  }

  /** Nothing is lost, added or reordered on the channel; it is closed as often as the log says. */
  predicate ChannelMatches(n: NodeSession, queued: seq<Message>, closings: nat) {
    queued == n.taken + n.events && closings == if n.closed then 1 else 0
  }

  ghost predicate StreamsMatchLog(sessions: seq<NodeSession>, log: seq<Event>) {
    && (forall i: nat :: i < |sessions| ==>
          HandlerMatches(sessions[i]) && ChannelMatches(sessions[i], QueuedOn(log, i), Closings(log, i)))
    && (forall i: nat :: i >= |sessions| ==> QueuedOn(log, i) == [] && Closings(log, i) == 0)
  }

  lemma TakenMatches(n: NodeSession, queued: seq<Message>, closings: nat)
    requires Consistent(n) && HandlerMatches(n) && ChannelMatches(n, queued, closings) && n.phase.Receiving?
    ensures HandlerMatches(Taken(n)) && ChannelMatches(Taken(n), queued, closings)
  {
    if n.events != [] {
      assert n.events == [n.events[0]] + n.events[1..];
    }
  }

  lemma StreamSentMatches(n: NodeSession, ok: bool)
    requires HandlerMatches(n) && n.phase.Sending?
    ensures HandlerMatches(StreamSent(n, ok))
  {
    assert Somes(n.delivered + [n.phase.peer]) == Somes(n.delivered) + [Some(n.phase.peer)];
  }

  lemma PutMatches(s: State, c: nat, i: nat, message: Message, pc: Pc)
    requires StreamsMatchLog(s.sessions, s.log) && c < |s.calls| && i < |s.sessions|
    ensures StreamsMatchLog(Put(s, c, i, message, pc).sessions, Put(s, c, i, message, pc).log)
  {
    OneMoreEvent(s.log, Queued(c, i, message));
    var n := s.sessions[i];
    assert (n.taken + n.events) + [message] == n.taken + (n.events + [message]);
  }

  lemma SendKeepsStreams(s: State, c: nat)
    requires StreamsMatchLog(s.sessions, s.log) && c < |s.calls| && InRange(s, s.calls[c].pc)
    ensures StreamsMatchLog(DoChannelSend(s, c).sessions, DoChannelSend(s, c).log)
  {
    match s.calls[c].pc
    case SendNil(i) => PutMatches(s, c, i, None, Answered(true));
    case TellInitiator(m, t) => PutMatches(s, c, m, Some(s.sessions[t].node), TellTarget(m, t));
    case TellTarget(m, t) => PutMatches(s, c, t, Some(s.sessions[m].node), Answered(true));
    case Answered(_) =>
  }

  /** A session may change if it still matches what the log says of it. */
  lemma SessionKeepsStreams(sessions: seq<NodeSession>, log: seq<Event>, i: nat, n: NodeSession)
    requires StreamsMatchLog(sessions, log) && i < |sessions|
    requires HandlerMatches(n) && ChannelMatches(n, QueuedOn(log, i), Closings(log, i))
    ensures StreamsMatchLog(sessions[i := n], log)
  {
  }

  lemma DeregisterKeepsStreams(s: State, i: nat)
    requires StreamsMatchLog(s.sessions, s.log) && i < |s.sessions| && s.sessions[i].phase.Deregistering?
    ensures StreamsMatchLog(DoDeregister(s, i).sessions, DoDeregister(s, i).log)
  {
    OneMoreEvent(s.log, Deregistered(s.sessions[i].node.nodeId, i));
  }

  lemma CloseKeepsStreams(s: State, i: nat)
    requires StreamsMatchLog(s.sessions, s.log) && i < |s.sessions| && s.sessions[i].phase.Closing?
    ensures StreamsMatchLog(DoClose(s, i).sessions, DoClose(s, i).log)
  {
    OneMoreEvent(s.log, ChannelClosed(i));
  }

  lemma ConnectKeepsStreams(s: State, node: Peer)
    requires StreamsMatchLog(s.sessions, s.log)
    ensures StreamsMatchLog(DoConnect(s, node).sessions, DoConnect(s, node).log)
  {
    OneMoreEvent(s.log, Registered(node.nodeId, |s.sessions|));
  }

  lemma InvokeKeepsStreams(s: State, request: Request)
    requires StreamsMatchLog(s.sessions, s.log)
    ensures StreamsMatchLog(DoInvoke(s, request).sessions, DoInvoke(s, request).log)
  {
    if request.Disconnect? {
      OneMoreEvent(s.log, Disconnected(request.nodeId, |s.calls|));
    }
  }

  lemma StreamHistoryStep(s: State, a: Action)
    requires RegistrySafe(s.nodes, s.sessions) && StreamsMatchLog(s.sessions, s.log)
    ensures StreamsMatchLog(Next(s, a).sessions, Next(s, a).log)
  {
    if Enabled(s, a) {
      match a
      case Connect(register) =>
        if register.Some? {
          ConnectKeepsStreams(s, register.value);
        }
      case TakeEvent(i) =>
        TakenMatches(s.sessions[i], QueuedOn(s.log, i), Closings(s.log, i));
        SessionKeepsStreams(s.sessions, s.log, i, Taken(s.sessions[i]));
      case StreamSend(i, ok) =>
        StreamSentMatches(s.sessions[i], ok);
        SessionKeepsStreams(s.sessions, s.log, i, StreamSent(s.sessions[i], ok));
      case Deregister(i) => DeregisterKeepsStreams(s, i);
      case CloseChannel(i) => CloseKeepsStreams(s, i);
      case Invoke(request) => InvokeKeepsStreams(s, request);
      case ChannelSend(c) => SendKeepsStreams(s, c);
    }
  }

  // ----- Calls -----

  predicate WellKeyed(nodes: map<NodeId, nat>, sessions: seq<NodeSession>) {
    forall id :: id in nodes ==> nodes[id] < |sessions| && sessions[nodes[id]].node.nodeId == id
  }

  /** How far a call has got, and exactly what it has put on channels so far. */
  predicate CallMatches(call: Call, sessions: seq<NodeSession>, queued: seq<(nat, Message)>) {
    WellKeyed(call.snapshot, sessions) &&
    match call.request
    case Unsupported => call.pc == Answered(false) && queued == []
    case Disconnect(id) =>
      if id !in call.snapshot then call.pc == Answered(false) && queued == []
      else
        var i := call.snapshot[id];
        || (call.pc == SendNil(i) && queued == [])
        || (call.pc == Answered(true) && (queued == [] || queued == [(i, None)]))
    case Dial(target, mine) =>
      if target !in call.snapshot || mine !in call.snapshot then call.pc == Answered(false) && queued == []
      else
        var m, t := call.snapshot[mine], call.snapshot[target];
        var toInitiator, toTarget := (m, Some(sessions[t].node)), (t, Some(sessions[m].node));
        || (call.pc == TellInitiator(m, t) && queued == [])
        || (call.pc == TellTarget(m, t) && queued == [toInitiator])
        || (call.pc == Answered(true) && queued == [toInitiator, toTarget])
  }

  ghost predicate CallsMatchLog(s: State) {
    && (forall c: nat :: c < |s.calls| ==> CallMatches(s.calls[c], s.sessions, QueuedBy(s.log, c)))
    && (forall c: nat :: c >= |s.calls| ==> QueuedBy(s.log, c) == [])
  }

  /** A disconnect that was not refused has one event, and no other call has any. */
  ghost predicate DisconnectsMatchLog(s: State) {
    && (forall c: nat :: c < |s.calls| ==> DisconnectedBy(s.log, c) == DisconnectedOf(s.calls[c]))
    && (forall c: nat :: c >= |s.calls| ==> DisconnectedBy(s.log, c) == [])
  }

  function DisconnectedOf(call: Call): seq<NodeId> {
    if call.request.Disconnect? && call.pc != Answered(false) then [call.request.nodeId] else []
  }

  lemma PutKeepsDisconnects(s: State, c: nat, i: nat, message: Message, pc: Pc)
    requires DisconnectsMatchLog(s) && c < |s.calls| && i < |s.sessions|
    requires s.calls[c].pc != Answered(false) && pc != Answered(false)
    ensures DisconnectsMatchLog(Put(s, c, i, message, pc))
  {
    OneMoreEvent(s.log, Queued(c, i, message));
  }

  lemma SendKeepsDisconnects(s: State, c: nat)
    requires DisconnectsMatchLog(s) && c < |s.calls| && InRange(s, s.calls[c].pc)
    ensures DisconnectsMatchLog(DoChannelSend(s, c))
  {
    hide DisconnectedBy;
    match s.calls[c].pc
    case SendNil(i) => PutKeepsDisconnects(s, c, i, None, Answered(true));
    case TellInitiator(m, t) => PutKeepsDisconnects(s, c, m, Some(s.sessions[t].node), TellTarget(m, t));
    case TellTarget(m, t) => PutKeepsDisconnects(s, c, t, Some(s.sessions[m].node), Answered(true));
    case Answered(_) =>
  }

  lemma NewCallDisconnects(s: State, s': State, call: Call)
    requires DisconnectsMatchLog(s) && s'.calls == s.calls + [call]
    requires if DisconnectedOf(call) == [] then s'.log == s.log
             else s'.log == s.log + [Disconnected(call.request.nodeId, |s.calls|)]
    ensures DisconnectsMatchLog(s')
  {
    hide DisconnectedBy;
    if DisconnectedOf(call) != [] {
      OneMoreEvent(s.log, Disconnected(call.request.nodeId, |s.calls|));
    }
  }

  lemma InvokeKeepsDisconnects(s: State, request: Request)
    requires DisconnectsMatchLog(s)
    ensures DisconnectsMatchLog(DoInvoke(s, request))
  {
    hide DisconnectsMatchLog;
    var s' := DoInvoke(s, request);
    NewCallDisconnects(s, s', s'.calls[|s.calls|]);
  }

  lemma OthersKeepDisconnects(s: State, s': State, e: Option<Event>)
    requires DisconnectsMatchLog(s) && s'.calls == s.calls
    requires if e.None? then s'.log == s.log else s'.log == s.log + [e.value] && !e.value.Disconnected?
    ensures DisconnectsMatchLog(s')
  {
    if e.Some? {
      OneMoreEvent(s.log, e.value);
    }
  }

  lemma DisconnectHistoryStep(s: State, a: Action)
    requires DisconnectsMatchLog(s)
    ensures DisconnectsMatchLog(Next(s, a))
  {
    if Enabled(s, a) {
      if a.Invoke? {
        InvokeKeepsDisconnects(s, a.request);
      } else if a.ChannelSend? {
        SendKeepsDisconnects(s, a.c);
      } else {
        var e := LogStep(s, a);
        assert e.Some? && e.value.Disconnected? ==> Disconnects(s, a, e.value.id);
        OthersKeepDisconnects(s, Next(s, a), e);
      }
    }
  }

  /** Sessions may be added and may change, but not in their registration data. */
  predicate SameNodes(sessions: seq<NodeSession>, sessions': seq<NodeSession>) {
    |sessions| <= |sessions'| && forall i :: 0 <= i < |sessions| ==> sessions'[i].node == sessions[i].node
  }

  lemma CallSurvives(call: Call, sessions: seq<NodeSession>, sessions': seq<NodeSession>, queued: seq<(nat, Message)>)
    requires CallMatches(call, sessions, queued) && SameNodes(sessions, sessions')
    ensures CallMatches(call, sessions', queued)
  {
  }

  lemma CallsSurvive(s: State, s': State, e: Option<Event>)
    requires CallsMatchLog(s) && SameNodes(s.sessions, s'.sessions) && s'.calls == s.calls
    requires if e.None? then s'.log == s.log else s'.log == s.log + [e.value] && !e.value.Queued?
    ensures CallsMatchLog(s')
  {
    if e.Some? {
      OneMoreEvent(s.log, e.value);
    }
    forall c: nat | c < |s.calls|
      ensures CallMatches(s'.calls[c], s'.sessions, QueuedBy(s'.log, c))
    {
      CallSurvives(s.calls[c], s.sessions, s'.sessions, QueuedBy(s.log, c));
    }
  }

  lemma NewCall(s: State, s': State, call: Call, e: Option<Event>)
    requires CallsMatchLog(s) && s'.sessions == s.sessions && s'.calls == s.calls + [call]
    requires CallMatches(call, s.sessions, [])
    requires if e.None? then s'.log == s.log else s'.log == s.log + [e.value] && !e.value.Queued?
    ensures CallsMatchLog(s')
  {
    if e.Some? {
      OneMoreEvent(s.log, e.value);
    }
  }

  lemma InvokeMatches(s: State, request: Request)
    requires CallsMatchLog(s) && WellKeyed(s.nodes, s.sessions)
    ensures CallsMatchLog(DoInvoke(s, request))
  {
    var s' := DoInvoke(s, request);
    var e := if s'.log == s.log then None else Some(Disconnected(request.nodeId, |s.calls|));
    NewCall(s, s', s'.calls[|s.calls|], e);
  }

  lemma PutKeepsCalls(s: State, c: nat, i: nat, message: Message, pc: Pc)
    requires CallsMatchLog(s) && c < |s.calls| && i < |s.sessions|
    requires CallMatches(s.calls[c].(pc := pc), s.sessions, QueuedBy(s.log, c) + [(i, message)])
    ensures CallsMatchLog(Put(s, c, i, message, pc))
  {
    var s' := Put(s, c, i, message, pc);
    OneMoreEvent(s.log, Queued(c, i, message));
    forall d: nat | d < |s'.calls|
      ensures CallMatches(s'.calls[d], s'.sessions, QueuedBy(s'.log, d))
    {
      CallSurvives(s'.calls[d], s.sessions, s'.sessions, QueuedBy(s'.log, d));
    }
  }

  lemma SendMatches(s: State, c: nat)
    requires CallsMatchLog(s) && c < |s.calls| && InRange(s, s.calls[c].pc)
    ensures CallsMatchLog(DoChannelSend(s, c))
  {
    hide QueuedBy;
    assert CallMatches(s.calls[c], s.sessions, QueuedBy(s.log, c));
    match s.calls[c].pc
    case SendNil(i) => PutKeepsCalls(s, c, i, None, Answered(true));
    case TellInitiator(m, t) => PutKeepsCalls(s, c, m, Some(s.sessions[t].node), TellTarget(m, t));
    case TellTarget(m, t) => PutKeepsCalls(s, c, t, Some(s.sessions[m].node), Answered(true));
    case Answered(_) =>
  }

  lemma CallHistoryStep(s: State, a: Action)
    requires RegistrySafe(s.nodes, s.sessions) && CallsMatchLog(s)
    ensures CallsMatchLog(Next(s, a))
  {
    hide QueuedBy, CallMatches;
    if Enabled(s, a) {
      if a.Invoke? {
        InvokeMatches(s, a.request);
      } else if a.ChannelSend? {
        SendMatches(s, a.c);
      } else {
        var e := LogStep(s, a);
        CallsSurvive(s, Next(s, a), e);
      }
    }
  }
}
