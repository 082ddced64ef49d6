/** The guarantees of the rendezvous server, and the two that it does not give. */
module SignalingRuns {
  import opened Wrappers
  import opened Signaling
  import opened SignalingSafety
  import opened SignalingHistory

  ghost predicate Inv(s: State) {
    && RegistrySafe(s.nodes, s.sessions)
    && RegistryMatchesLog(s.nodes, s.log)
    && DisconnectsCovered(s.nodes, s.log)
    && StreamsMatchLog(s.sessions, s.log)
    && CallsMatchLog(s)
    && DisconnectsMatchLog(s)
  }

  lemma {:induction false} InvFrom(s: State, actions: seq<Action>)
    requires Inv(s)
    ensures Inv(Run(s, actions))
    decreases |actions|
  {
    if actions != [] {
      RegistryStep(s, actions[0]);
      RegistryHistoryStep(s, actions[0]);
      StreamHistoryStep(s, actions[0]);
      CallHistoryStep(s, actions[0]);
      DisconnectHistoryStep(s, actions[0]);
      InvFrom(Next(s, actions[0]), actions[1..]);
    }
  }

  /** Every step of every run keeps the registry, the streams and the calls in line with the
      history. */
  lemma InvAlways(actions: seq<Action>)
    ensures Inv(Run(INIT, actions))
  {
    InvFrom(INIT, actions);
  }

  lemma {:induction false} RunSnoc(s: State, actions: seq<Action>, a: Action)
    ensures Run(s, actions + [a]) == Next(Run(s, actions), a)
    decreases |actions|
  {
    if actions == [] {
      assert Run(s, [a]) == Run(Next(s, a), []);
    } else {
      assert (actions + [a])[1..] == actions[1..] + [a];
      RunSnoc(Next(s, actions[0]), actions[1..], a);
    }
  }

  // ----- The lookup of a call -----

  /** The state after the first n actions of a run. */
  function StateAt(actions: seq<Action>, n: nat): State
    requires n <= |actions|
  {
    Run(INIT, actions[..n])
  }

  /** Action n of the run is the lookup of its call c. */
  predicate IsLookup(actions: seq<Action>, n: nat, c: nat) {
    n < |actions| && actions[n].Invoke? && !StateAt(actions, n).crashed && |StateAt(actions, n).calls| == c
  }

  /** A call keeps its request and what it recorded. */
  predicate SameCalls(calls: seq<Call>, calls': seq<Call>) {
    |calls| <= |calls'| && forall c :: 0 <= c < |calls| ==>
      calls'[c].request == calls[c].request && calls'[c].snapshot == calls[c].snapshot
  }

  lemma SendKeepsCalls(s: State, c: nat)
    requires c < |s.calls| && InRange(s, s.calls[c].pc)
    ensures var s' := DoChannelSend(s, c);
            SameNodes(s.sessions, s'.sessions) && SameCalls(s.calls, s'.calls) && |s'.calls| == |s.calls|
  {
    match s.calls[c].pc
    case SendNil(i) => PutKeepsRequests(s, c, i, None, Answered(true));
    case TellInitiator(m, t) => PutKeepsRequests(s, c, m, Some(s.sessions[t].node), TellTarget(m, t));
    case TellTarget(m, t) => PutKeepsRequests(s, c, t, Some(s.sessions[m].node), Answered(true));
    case Answered(_) =>
  }

  lemma PutKeepsRequests(s: State, c: nat, i: nat, message: Message, pc: Pc)
    requires c < |s.calls| && i < |s.sessions|
    ensures var s' := Put(s, c, i, message, pc);
            SameNodes(s.sessions, s'.sessions) && SameCalls(s.calls, s'.calls) && |s'.calls| == |s.calls|
  {
  }

  /** Calls are only ever added, by their lookup, which records the registry. */
  lemma StepKeepsCalls(s: State, a: Action)
    ensures var s' := Next(s, a);
            && SameNodes(s.sessions, s'.sessions) && SameCalls(s.calls, s'.calls)
            && (|s'.calls| > |s.calls| ==>
                  a.Invoke? && !s.crashed && |s'.calls| == |s.calls| + 1
                  && s'.calls[|s.calls|].request == a.request && s'.calls[|s.calls|].snapshot == s.nodes)
  {
    if a.ChannelSend? && Enabled(s, a) {
      SendKeepsCalls(s, a.c);
    }
  }

  /** Every call has a lookup in the run: the step at which it was made. What the call recorded is
      the registry of that state, and the sessions of that state keep their data. */
  lemma {:induction false} LookupOf(actions: seq<Action>, c: nat) returns (n: nat)
    requires c < |Run(INIT, actions).calls|
    ensures IsLookup(actions, n, c)
    ensures var call := Run(INIT, actions).calls[c];
            actions[n].request == call.request && call.snapshot == StateAt(actions, n).nodes
    ensures SameNodes(StateAt(actions, n).sessions, Run(INIT, actions).sessions)
    decreases |actions|
  {
    var last := |actions| - 1;
    var front, a := actions[..last], actions[last];
    assert actions == front + [a];
    RunSnoc(INIT, front, a);
    StepKeepsCalls(Run(INIT, front), a);
    if c < |Run(INIT, front).calls| {
      n := LookupOf(front, c);
      assert front[..n] == actions[..n];
    } else {
      n := last;
    }
  }

  // ----- The registration of a session -----

  /** Action k of the run registers session i. */
  predicate Opens(actions: seq<Action>, k: nat, i: nat) {
    && k < |actions| && actions[k].Connect? && actions[k].register.Some?
    && !StateAt(actions, k).crashed && |StateAt(actions, k).sessions| == i
  }

  lemma StepKeepsSessions(s: State, a: Action)
    ensures var s' := Next(s, a);
            && SameNodes(s.sessions, s'.sessions)
            && (|s'.sessions| > |s.sessions| ==>
                  a.Connect? && a.register.Some? && !s.crashed && |s'.sessions| == |s.sessions| + 1
                  && s'.sessions[|s.sessions|].node == a.register.value)
  {
    StepKeepsCalls(s, a);
    if a.ChannelSend? && Enabled(s, a) {
      SendKeepsCalls(s, a.c);
    }
  }

  /** Every session has a registration in the run, and its data is what was registered, field by
      field, for as long as the run goes on. */
  lemma {:induction false} RegistrationOf(actions: seq<Action>, i: nat) returns (k: nat)
    requires i < |Run(INIT, actions).sessions|
    ensures Opens(actions, k, i) && Run(INIT, actions).sessions[i].node == actions[k].register.value
    decreases |actions|
  {
    var last := |actions| - 1;
    var front, a := actions[..last], actions[last];
    assert actions == front + [a];
    RunSnoc(INIT, front, a);
    StepKeepsSessions(Run(INIT, front), a);
    if i < |Run(INIT, front).sessions| {
      k := RegistrationOf(front, i);
      assert front[..k] == actions[..k];
    } else {
      k := last;
    }
  }

  // ----- The registry and the channels -----

  /** Every registered session is under its own ID and its channel is open, however often IDs
      repeat; and every channel is closed at most once. */
  lemma RegistrySafety(actions: seq<Action>)
    ensures var s := Run(INIT, actions);
            && (forall id :: id in s.nodes ==>
                  s.nodes[id] < |s.sessions| && s.sessions[s.nodes[id]].node.nodeId == id
                  && !s.sessions[s.nodes[id]].closed)
            && (forall i: nat :: Closings(s.log, i) <= 1)
  {
    InvAlways(actions);
  }

  /** In state s the action registers the ID, disconnects it, or is the deferred delete of a
      stream of that ID. */
  predicate Touches(s: State, a: Action, id: NodeId) {
    !s.crashed &&
    match a
    case Connect(register) => register.Some? && register.value.nodeId == id
    case Invoke(request) => request == Disconnect(id)
    case Deregister(i) => i < |s.sessions| && s.sessions[i].phase.Deregistering? && s.sessions[i].node.nodeId == id
    case _ => false
  }

  predicate TouchedAt(actions: seq<Action>, j: nat, id: NodeId)
    requires j < |actions|
  {
    Touches(StateAt(actions, j), actions[j], id)
  }

  /** Action k registers session i under the ID, and nothing touches the ID after it. */
  ghost predicate LastTouchOpens(actions: seq<Action>, k: nat, id: NodeId, i: nat) {
    && Opens(actions, k, i) && actions[k].register.value.nodeId == id
    && forall j: nat :: k < j < |actions| ==> !TouchedAt(actions, j, id)
  }

  lemma TouchStep(s: State, a: Action, id: NodeId)
    ensures var s' := Next(s, a);
            if !Touches(s, a, id) then id in s'.nodes <==> id in s.nodes
            else id in s'.nodes <==> a.Connect?
    ensures var s' := Next(s, a);
            id in s'.nodes ==> s'.nodes[id] == if Touches(s, a, id) then |s.sessions| else s.nodes[id]
  {
    if a.ChannelSend? && Enabled(s, a) {
      assert DoChannelSend(s, a.c).nodes == s.nodes;
    }
  }

  lemma LastTouchSnoc(front: seq<Action>, a: Action, k: nat, id: NodeId, i: nat)
    ensures LastTouchOpens(front + [a], k, id, i) <==>
              if Touches(Run(INIT, front), a, id)
              then a.Connect? && k == |front| && |Run(INIT, front).sessions| == i
              else LastTouchOpens(front, k, id, i)
  {
    var actions := front + [a];
    assert actions[..|front|] == front[..|front|] == front;
    assert forall j: nat {:trigger actions[..j]} | j < |front| :: actions[..j] == front[..j];
    if k < |front| {
      assert actions[..k] == front[..k];
      assert TouchedAt(actions, |front|, id) == Touches(Run(INIT, front), a, id);
      forall j: nat | j < |front|
        ensures TouchedAt(actions, j, id) == TouchedAt(front, j, id)
      {
        assert actions[..j] == front[..j];
      }
    }
  }

  /** Exactly when a session is registered: the last action of the run that registers its ID,
      disconnects it or deletes it at the end of a stream is the session's own registration. */
  lemma {:induction false} RegisteredIff(actions: seq<Action>, id: NodeId, i: nat)
    ensures var s := Run(INIT, actions);
            (id in s.nodes && s.nodes[id] == i) <==> exists k :: LastTouchOpens(actions, k, id, i)
    decreases |actions|
  {
    if actions != [] {
      var front, a := actions[..|actions| - 1], actions[|actions| - 1];
      assert actions == front + [a];
      var s := Run(INIT, front);
      RunSnoc(INIT, front, a);
      RegisteredIff(front, id, i);
      TouchStep(s, a, id);
      forall k
        ensures LastTouchOpens(actions, k, id, i) <==>
                  if Touches(s, a, id) then a.Connect? && k == |front| && |s.sessions| == i
                  else LastTouchOpens(front, k, id, i)
      {
        LastTouchSnoc(front, a, k, id, i);
      }
      if Touches(s, a, id) {
        assert a.Connect? && |s.sessions| == i ==> LastTouchOpens(actions, |front|, id, i);
      }
    }
  }

  /** One action after a run: the longer run and the state it leads to. */
  lemma Then(actions: seq<Action>, s: State, a: Action) returns (actions': seq<Action>, s': State)
    requires Run(INIT, actions) == s
    ensures s' == Next(s, a) && Run(INIT, actions') == s'
  {
    actions', s' := actions + [a], Next(s, a);
    RunSnoc(INIT, actions, a);
  }

  /** It need not be registered while its loop runs: an older stream of the same ID that ends
      deletes the newer one's entry. */
  lemma LoopsUnregistered(x: Peer) returns (actions: seq<Action>)
    ensures var s := Run(INIT, actions);
            !s.crashed && |s.sessions| == 2 && s.sessions[1].phase == Receiving && s.nodes == map[]
  {
    var s := INIT;
    actions := [];
    actions, s := Then(actions, s, Connect(Some(x)));
    actions, s := Then(actions, s, Invoke(Dial(x.nodeId, x.nodeId)));
    actions, s := Then(actions, s, ChannelSend(0));
    assert s.sessions[0].events == [Some(x)];
    actions, s := Then(actions, s, Connect(Some(x)));
    actions, s := Then(actions, s, TakeEvent(0));
    actions, s := Then(actions, s, StreamSend(0, false));
    actions, s := Then(actions, s, Deregister(0));
    assert s.nodes == map[];
  }

  // ----- Crashes -----

  /** The session whose channel a call sends to next. */
  function SendsTo(pc: Pc): Option<nat> {
    match pc
    case SendNil(i) => Some(i)
    case TellInitiator(m, _) => Some(m)
    case TellTarget(_, t) => Some(t)
    case Answered(_) => None
  }

  lemma CallInRange(s: State, c: nat)
    requires Inv(s) && c < |s.calls|
    ensures InRange(s, s.calls[c].pc)
  {
    assert CallMatches(s.calls[c], s.sessions, QueuedBy(s.log, c));
  }

  lemma SendCrashIff(s: State, c: nat)
    requires c < |s.calls| && InRange(s, s.calls[c].pc) && !s.crashed
    ensures DoChannelSend(s, c).crashed <==>
              SendsTo(s.calls[c].pc).Some? && s.sessions[SendsTo(s.calls[c].pc).value].closed
  {
  }

  lemma OthersDoNotCrash(s: State, a: Action)
    requires RegistrySafe(s.nodes, s.sessions) && !s.crashed && !a.ChannelSend?
    ensures !Next(s, a).crashed
  {
    if a.CloseChannel? && Enabled(s, a) {
      assert Consistent(s.sessions[a.i]);
    }
  }

  /** Session i was registered, with an open channel, when call c looked up. */
  ghost predicate OpenAtLookup(actions: seq<Action>, c: nat, i: nat) {
    exists n :: 0 <= n < |actions| && IsLookup(actions, n, c) && IsOpenEntry(StateAt(actions, n), i)
  }

  predicate IsOpenEntry(s: State, i: nat) {
    i in s.nodes.Values && i < |s.sessions| && !s.sessions[i].closed
  }

  lemma TargetOpenAtLookup(actions: seq<Action>, c: nat)
    requires c < |Run(INIT, actions).calls| && SendsTo(Run(INIT, actions).calls[c].pc).Some?
    ensures OpenAtLookup(actions, c, SendsTo(Run(INIT, actions).calls[c].pc).value)
  {
    var s := Run(INIT, actions);
    InvAlways(actions);
    assert CallMatches(s.calls[c], s.sessions, QueuedBy(s.log, c));
    var n := LookupOf(actions, c);
    InvAlways(actions[..n]);
    var request, nodes := s.calls[c].request, StateAt(actions, n).nodes;
    var id := if request.Disconnect? then request.nodeId
              else if s.calls[c].pc.TellInitiator? then request.myNodeId
              else request.targetNodeId;
    assert id in nodes && nodes[id] == SendsTo(s.calls[c].pc).value;
    assert IsOpenEntry(StateAt(actions, n), nodes[id]);
  }

  /** Exactly when a step crashes the server: a call sends to a channel that was open, and its
      session registered, at the call's lookup, and has been closed since. Closing a channel never
      does. */
  lemma CrashIff(actions: seq<Action>, a: Action)
    requires !Run(INIT, actions).crashed
    ensures var s := Run(INIT, actions);
            Next(s, a).crashed <==>
              a.ChannelSend? && a.c < |s.calls| && SendsTo(s.calls[a.c].pc).Some?
              && var i := SendsTo(s.calls[a.c].pc).value;
              i < |s.sessions| && s.sessions[i].closed && OpenAtLookup(actions, a.c, i)
  {
    InvAlways(actions);
    var s := Run(INIT, actions);
    if a.ChannelSend? {
      if a.c < |s.calls| {
        CallInRange(s, a.c);
        SendCrashIff(s, a.c);
        if SendsTo(s.calls[a.c].pc).Some? {
          TargetOpenAtLookup(actions, a.c);
        }
      }
    } else {
      OthersDoNotCrash(s, a);
    }
  }

  /** And it can happen: a dial looks a node up, the node disconnects and its stream closes the
      channel, the dial sends. */
  lemma SendsToClosed(x: Peer) returns (actions: seq<Action>)
    ensures Run(INIT, actions).crashed
  {
    var s: State;
    actions, s := DialThenDisconnect(x);
    actions, s := Then(actions, s, TakeEvent(0));
    actions, s := Then(actions, s, Deregister(0));
    actions, s := Then(actions, s, CloseChannel(0));
    assert s.sessions[0].closed;
    actions, s := Then(actions, s, ChannelSend(0));
  }

  lemma DialThenDisconnect(x: Peer) returns (actions: seq<Action>, s: State)
    ensures Run(INIT, actions) == s && !s.crashed
    ensures |s.sessions| == 1 && s.sessions[0] == Opened(x).(events := [None])
    ensures |s.calls| == 2 && s.calls[0].pc == TellInitiator(0, 0)
  {
    actions, s := [], INIT;
    actions, s := Then(actions, s, Connect(Some(x)));
    actions, s := Then(actions, s, Invoke(Dial(x.nodeId, x.nodeId)));
    actions, s := Then(actions, s, Invoke(Disconnect(x.nodeId)));
    assert s.calls[1].pc == SendNil(0);
    actions, s := Then(actions, s, ChannelSend(1));
    assert s.sessions[0].events == [None];
  }

  // ----- Dials -----

  /** Action k registered session i as p, before action n. */
  predicate RegisteredAs(actions: seq<Action>, k: nat, n: nat, i: nat, p: Peer) {
    k < n && Opens(actions, k, i) && actions[k].register.value == p
  }

  lemma RegisteredBefore(actions: seq<Action>, n: nat, i: nat) returns (k: nat)
    requires n <= |actions| && i < |StateAt(actions, n).sessions|
    ensures RegisteredAs(actions, k, n, i, StateAt(actions, n).sessions[i].node)
  {
    k := RegistrationOf(actions[..n], i);
    assert actions[..n][..k] == actions[..k];
  }

  /** A dial answered with success has put exactly one PeerFound on each side's channel, the
      initiator's first, each with what the other side registered, field by field: kt and km are
      the actions that registered the two sessions that the registry held under the two IDs in one
      state of the run, that of the dial's lookup. A dial answered without success has put nothing
      anywhere, and one of the IDs was not registered in that state. */
  lemma DialAccounting(actions: seq<Action>, c: nat) returns (n: nat, kt: nat, km: nat)
    requires c < |Run(INIT, actions).calls| && Run(INIT, actions).calls[c].request.Dial?
    requires Run(INIT, actions).calls[c].pc.Answered?
    ensures IsLookup(actions, n, c) && actions[n].request == Run(INIT, actions).calls[c].request
    ensures var call, queued := Run(INIT, actions).calls[c], QueuedBy(Run(INIT, actions).log, c);
            var nodes := StateAt(actions, n).nodes;
            var target, mine := call.request.targetNodeId, call.request.myNodeId;
            if call.pc.success then
              && target in nodes && mine in nodes
              && kt < |actions| && actions[kt].Connect? && actions[kt].register.Some?
              && km < |actions| && actions[km].Connect? && actions[km].register.Some?
              && var t, m := actions[kt].register.value, actions[km].register.value;
              && RegisteredAs(actions, kt, n, nodes[target], t) && t.nodeId == target
              && RegisteredAs(actions, km, n, nodes[mine], m) && m.nodeId == mine
              && queued == [(nodes[mine], Some(t)), (nodes[target], Some(m))]
            else queued == [] && (target !in nodes || mine !in nodes)
  {
    kt, km := 0, 0;
    n := LookupOf(actions, c);
    InvAlways(actions);
    InvAlways(actions[..n]);
    var s := Run(INIT, actions);
    var call, nodes := s.calls[c], StateAt(actions, n).nodes;
    assert CallMatches(call, s.sessions, QueuedBy(s.log, c));
    if call.pc.success {
      kt := RegisteredBefore(actions, n, nodes[call.request.targetNodeId]);
      km := RegisteredBefore(actions, n, nodes[call.request.myNodeId]);
    }
  }

  /** A dial between registered nodes whose queues have room, and nothing in between: it succeeds,
      and each side has one more message, what the other side registered. */
  lemma DialSucceeds(actions: seq<Action>, target: NodeId, mine: NodeId)
    requires var s := Run(INIT, actions);
             !s.crashed && target in s.nodes && mine in s.nodes
    requires var s := Run(INIT, actions);
             var t, m := s.nodes[target], s.nodes[mine];
             t < |s.sessions| && m < |s.sessions|
             && |s.sessions[t].events| < (if t == m then 31 else 32) && |s.sessions[m].events| < 32
    ensures var s := Run(INIT, actions);
            var t, m, c := s.nodes[target], s.nodes[mine], |s.calls|;
            var s' := Next(Next(Next(s, Invoke(Dial(target, mine))), ChannelSend(c)), ChannelSend(c));
            && !s'.crashed && |s'.calls| == c + 1 && s'.calls[c].pc == Answered(true)
            && |s'.sessions| == |s.sessions| && s'.nodes == s.nodes
            && (target != mine ==>
                  && s'.sessions[m].events == s.sessions[m].events + [Some(s.sessions[t].node)]
                  && s'.sessions[t].events == s.sessions[t].events + [Some(s.sessions[m].node)])
  {
    RegistrySafety(actions);
  }

  /** A request of any other kind is refused and does nothing. */
  lemma UnsupportedIsRefused(actions: seq<Action>, c: nat)
    requires c < |Run(INIT, actions).calls| && Run(INIT, actions).calls[c].request.Unsupported?
    ensures var s := Run(INIT, actions);
            s.calls[c].pc == Answered(false) && QueuedBy(s.log, c) == [] && DisconnectedBy(s.log, c) == []
  {
    InvAlways(actions);
    var s := Run(INIT, actions);
    assert CallMatches(s.calls[c], s.sessions, QueuedBy(s.log, c));
    assert DisconnectedBy(s.log, c) == DisconnectedOf(s.calls[c]);
  }

  function BeforeSentinel(queued: seq<Message>): seq<Peer> {
    if queued == [] || queued[0].None? then [] else [queued[0].value] + BeforeSentinel(queued[1..])
  }

  lemma {:induction false} PrefixBeforeSentinel(delivered: seq<Peer>, queued: seq<Message>)
    requires Somes(delivered) <= queued
    ensures delivered <= BeforeSentinel(queued)
    decreases |delivered|
  {
    if delivered != [] {
      assert queued[0] == Somes(delivered)[0];
      assert Somes(delivered[1..]) == Somes(delivered)[1..];
      PrefixBeforeSentinel(delivered[1..], queued[1..]);
    }
  }

  /** What a stream has delivered is a prefix of what was put on its channel before the first
      sentinel, and no queue exceeds its capacity. While its handler waits for an event, all that
      was put on the channel is delivered or still queued, in order. */
  lemma DeliveredInOrder(actions: seq<Action>, i: nat)
    requires i < |Run(INIT, actions).sessions|
    ensures var s := Run(INIT, actions);
            var n := s.sessions[i];
            && n.delivered <= BeforeSentinel(QueuedOn(s.log, i))
            && |n.events| <= 32
            && (n.phase.Receiving? ==> QueuedOn(s.log, i) == Somes(n.delivered) + n.events)
  {
    InvAlways(actions);
    var s := Run(INIT, actions);
    var n := s.sessions[i];
    assert HandlerMatches(n) && ChannelMatches(n, QueuedOn(s.log, i), Closings(s.log, i));
    assert Somes(n.delivered) <= n.taken;
    PrefixBeforeSentinel(n.delivered, QueuedOn(s.log, i));
  }

  // ----- Disconnects -----

  /** How often the ID has been registered, and how often disconnected while it was registered. */
  function Connections(actions: seq<Action>, id: NodeId): nat {
    if actions == [] then 0
    else
      var front, a := actions[..|actions| - 1], actions[|actions| - 1];
      Connections(front, id) + if Registers(Run(INIT, front), a, id) then 1 else 0
  }

  function SuccessfulDisconnects(actions: seq<Action>, id: NodeId): nat {
    if actions == [] then 0
    else
      var front, a := actions[..|actions| - 1], actions[|actions| - 1];
      SuccessfulDisconnects(front, id) + if Disconnects(Run(INIT, front), a, id) then 1 else 0
  }

  /** Successful disconnects of an ID never outnumber its registrations; and the history counts
      both as the actions do. */
  lemma {:induction false} DisconnectAccounting(actions: seq<Action>, id: NodeId)
    ensures var s := Run(INIT, actions);
            SuccessfulDisconnects(actions, id) + (if id in s.nodes then 1 else 0) <= Connections(actions, id)
    ensures Disconnections(Run(INIT, actions).log, id) == SuccessfulDisconnects(actions, id)
    ensures Registrations(Run(INIT, actions).log, id) == Connections(actions, id)
    decreases |actions|
  {
    if actions != [] {
      hide Next, Run, Registers, Disconnects, Registrations, Disconnections;
      var front, a := actions[..|actions| - 1], actions[|actions| - 1];
      assert actions == front + [a];
      RunSnoc(INIT, front, a);
      DisconnectAccounting(front, id);
      CountStep(Run(INIT, front), a, id);
      BalanceStep(Run(INIT, front), a, id);
    }
  }

  lemma CountStep(s: State, a: Action, id: NodeId)
    ensures Registrations(Next(s, a).log, id) == Registrations(s.log, id) + if Registers(s, a, id) then 1 else 0
    ensures Disconnections(Next(s, a).log, id) == Disconnections(s.log, id) + if Disconnects(s, a, id) then 1 else 0
  {
    hide *;
    var e := LogStep(s, a);
    if e.Some? {
      OneMoreEvent(s.log, e.value);
    }
  }

  lemma BalanceStep(s: State, a: Action, id: NodeId)
    ensures (if Disconnects(s, a, id) then 1 else 0) + (if id in Next(s, a).nodes then 1 else 0)
         <= (if Registers(s, a, id) then 1 else 0) + (if id in s.nodes then 1 else 0)
  {
    TouchStep(s, a, id);
    hide Next;
  }

  lemma DisconnectStep(s: State, id: NodeId)
    requires !s.crashed && id in s.nodes
    ensures Next(s, Invoke(Disconnect(id))).nodes == s.nodes - {id}
  {
  }

  lemma DisconnectCall(s: State, c: nat)
    requires Inv(s) && c < |s.calls| && s.calls[c].request.Disconnect?
    ensures var call, queued, gone := s.calls[c], QueuedBy(s.log, c), DisconnectedBy(s.log, c);
            var id, nodes := call.request.nodeId, call.snapshot;
            if id in nodes then
              && gone == [id]
              && (call.pc == Answered(true) || (call.pc == SendNil(nodes[id]) && queued == []))
              && (queued == [] || queued == [(nodes[id], None)])
            else call.pc == Answered(false) && queued == [] && gone == []
  {
    hide QueuedBy, DisconnectedBy;
    assert CallMatches(s.calls[c], s.sessions, QueuedBy(s.log, c));
    assert DisconnectedBy(s.log, c) == DisconnectedOf(s.calls[c]);
  }

  /** A disconnect whose ID was registered at its lookup removes it in that step, with one event
      to show for it, and puts at most the sentinel on the channel of the session it found; it is
      never refused. Any other is refused, and does nothing. */
  lemma DisconnectOutcome(actions: seq<Action>, c: nat) returns (n: nat)
    requires c < |Run(INIT, actions).calls| && Run(INIT, actions).calls[c].request.Disconnect?
    ensures IsLookup(actions, n, c) && actions[n].request == Run(INIT, actions).calls[c].request
    ensures var s := Run(INIT, actions);
            var call, queued, gone := s.calls[c], QueuedBy(s.log, c), DisconnectedBy(s.log, c);
            var id, nodes := call.request.nodeId, StateAt(actions, n).nodes;
            if id in nodes then
              && StateAt(actions, n + 1).nodes == nodes - {id} && gone == [id]
              && (call.pc == Answered(true) || (call.pc == SendNil(nodes[id]) && queued == []))
              && (queued == [] || queued == [(nodes[id], None)])
            else call.pc == Answered(false) && queued == [] && gone == []
  {
    hide Inv, Run, Next, QueuedBy, DisconnectedBy;
    n := LookupOf(actions, c);
    InvAlways(actions);
    DisconnectCall(Run(INIT, actions), c);
    var id := Run(INIT, actions).calls[c].request.nodeId;
    if id in StateAt(actions, n).nodes {
      DisconnectStep(StateAt(actions, n), id);
      assert actions[..n + 1] == actions[..n] + [actions[n]];
      RunSnoc(INIT, actions[..n], actions[n]);
    }
  }

  /** The call asks for the ID. */
  predicate LooksUp(request: Request, id: NodeId) {
    match request
    case Dial(target, mine) => target == id || mine == id
    case Disconnect(d) => d == id
    case Unsupported => false
  }

  /** From a disconnect until the ID registers again, the ID is not registered, and every call
      that looks it up is refused at once and puts nothing on any channel. */
  lemma RefusedAfterDisconnect(actions: seq<Action>, n: nat, id: NodeId, request: Request)
    requires n < |actions| && actions[n] == Invoke(Disconnect(id)) && !StateAt(actions, n).crashed
    requires forall k :: n < k < |actions| && actions[k].Connect? && actions[k].register.Some? ==>
      actions[k].register.value.nodeId != id
    requires LooksUp(request, id)
    ensures id !in Run(INIT, actions).nodes
    ensures var s := Run(INIT, actions);
            !s.crashed ==>
              var s' := Next(s, Invoke(request));
              s'.calls == s.calls + [Call(request, Answered(false), s.nodes)] && s'.log == s.log
              && s'.sessions == s.sessions && s'.nodes == s.nodes
  {
    var s := Run(INIT, actions);
    if id in s.nodes {
      RegisteredIff(actions, id, s.nodes[id]);
      var k :| LastTouchOpens(actions, k, id, s.nodes[id]);
      assert TouchedAt(actions, n, id);
      assert false;
    }
  }

  // ----- The steps of a call and of a stream -----

  lemma SendStep(s: State, c: nat)
    requires c < |s.calls| && InRange(s, s.calls[c].pc) && !s.crashed && SendsTo(s.calls[c].pc).Some?
    requires !s.sessions[SendsTo(s.calls[c].pc).value].closed
    ensures var s', i := DoChannelSend(s, c), SendsTo(s.calls[c].pc).value;
            && !s'.crashed && |s'.calls| == |s.calls|
            && (if s.calls[c].pc.SendNil? then s'.calls[c].pc == Answered(true)
                else s' == s <==> |s.sessions[i].events| >= 32)
            && (if |s.sessions[i].events| < 32 then OneMoreQueued(s, s', i) else s'.sessions == s.sessions)
  {
  }

  /** One more message is at the end of channel i. */
  predicate OneMoreQueued(s: State, s': State, i: nat)
    requires i < |s.sessions|
  {
    && i < |s'.sessions| && |s'.sessions[i].events| == |s.sessions[i].events| + 1
    && s'.sessions[i].events[..|s.sessions[i].events|] == s.sessions[i].events
  }

  /** A disconnect is answered by its next step, whatever the channel; a dial waits exactly while
      32 messages are queued. What is sent goes to the end of the queue. */
  lemma SendsOrWaits(actions: seq<Action>, c: nat)
    requires c < |Run(INIT, actions).calls| && !Run(INIT, actions).crashed
    requires SendsTo(Run(INIT, actions).calls[c].pc).Some?
    ensures var s := Run(INIT, actions);
            var s', i := Next(s, ChannelSend(c)), SendsTo(s.calls[c].pc).value;
            i < |s.sessions| && |s.sessions[i].events| <= 32 &&
            (!s.sessions[i].closed ==>
               && !s'.crashed && |s'.calls| == |s.calls|
               && (if s.calls[c].request.Disconnect? then s'.calls[c].pc == Answered(true)
                   else s' == s <==> |s.sessions[i].events| == 32)
               && (if |s.sessions[i].events| < 32 then OneMoreQueued(s, s', i) else s'.sessions == s.sessions))
  {
    var s := Run(INIT, actions);
    hide Inv, Run;
    InvAlways(actions);
    PendingCall(s, c);
    if !s.sessions[SendsTo(s.calls[c].pc).value].closed {
      SendStep(s, c);
    }
  }

  lemma PendingCall(s: State, c: nat)
    requires Inv(s) && c < |s.calls| && SendsTo(s.calls[c].pc).Some?
    ensures InRange(s, s.calls[c].pc) && (s.calls[c].pc.SendNil? <==> s.calls[c].request.Disconnect?)
    ensures |s.sessions[SendsTo(s.calls[c].pc).value].events| <= 32
  {
    CallInRange(s, c);
    assert CallMatches(s.calls[c], s.sessions, QueuedBy(s.log, c));
    assert Consistent(s.sessions[SendsTo(s.calls[c].pc).value]);
  }

  predicate InLoop(n: NodeSession) {
    n.phase.Receiving? || n.phase.Sending?
  }

  lemma SendKeepsPhases(s: State, c: nat, i: nat)
    requires c < |s.calls| && InRange(s, s.calls[c].pc) && i < |s.sessions|
    ensures var s' := DoChannelSend(s, c);
            |s'.sessions| == |s.sessions| && s'.sessions[i].phase == s.sessions[i].phase
  {
  }

  lemma LoopStep(s: State, a: Action, i: nat)
    requires i < |s.sessions| && InLoop(s.sessions[i]) && !s.sessions[i].closed && Enabled(s, a)
    ensures i < |Next(s, a).sessions|
    ensures !InLoop(Next(s, a).sessions[i]) <==>
              || (a == TakeEvent(i) && s.sessions[i].events != [] && s.sessions[i].events[0] == None)
              || a == StreamSend(i, false)
  {
    if a.ChannelSend? {
      SendKeepsPhases(s, a.c, i);
      hide DoChannelSend;
    } else if a.Invoke? {
      assert Next(s, a).sessions == s.sessions;
    } else {
      hide DoInvoke, DoChannelSend;
    }
  }

  /** Exactly when a stream leaves its loop: it takes the sentinel, or the client is gone. */
  lemma LeavesLoopIff(actions: seq<Action>, a: Action, i: nat)
    requires i < |Run(INIT, actions).sessions| && InLoop(Run(INIT, actions).sessions[i])
    requires Enabled(Run(INIT, actions), a)
    ensures var s := Run(INIT, actions);
            var n := s.sessions[i];
            i < |Next(s, a).sessions| &&
            (!InLoop(Next(s, a).sessions[i]) <==>
               || (a == TakeEvent(i) && n.events != [] && n.events[0] == None)
               || a == StreamSend(i, false))
  {
    hide Run, Next, Enabled;
    InvAlways(actions);
    assert Consistent(Run(INIT, actions).sessions[i]);
    LoopStep(Run(INIT, actions), a, i);
  }

  /** One round of a stream's loop: the oldest event reaches the client. */
  lemma RoundDelivers(s: State, i: nat)
    requires !s.crashed && i < |s.sessions| && s.sessions[i].phase == Receiving
    requires s.sessions[i].events != [] && s.sessions[i].events[0].Some?
    ensures var n, n' := s.sessions[i], Next(Next(s, TakeEvent(i)), StreamSend(i, true)).sessions[i];
            && n'.delivered == n.delivered + [n.events[0].value] && n'.events == n.events[1..]
            && n'.phase == Receiving && n'.node == n.node && n'.closed == n.closed
  {
  }

  /** A stream that has left its loop is torn down in two steps: its ID is no longer registered,
      its channel is closed, and that does not crash the server. */
  lemma TearsDown(actions: seq<Action>, i: nat)
    requires !Run(INIT, actions).crashed && i < |Run(INIT, actions).sessions|
    requires Run(INIT, actions).sessions[i].phase == Deregistering
    ensures var s := Run(INIT, actions);
            var s' := Next(Next(s, Deregister(i)), CloseChannel(i));
            && !s'.crashed && s'.nodes == s.nodes - {s.sessions[i].node.nodeId}
            && s'.sessions == s.sessions[i := s.sessions[i].(closed := true, phase := Finished)]
  {
    InvAlways(actions);
    assert Consistent(Run(INIT, actions).sessions[i]);
  }
}
