/** The rendezvous server's shared state and the code that runs between two points where it can be
    interrupted, each piece proved to be one step of the protocol. */
module Server {
  import opened Wrappers
  import opened Signaling

  class SignalingServer {
    var nodes: map<NodeId, nat>
    var sessions: seq<NodeSession>
    var calls: seq<Call>
    var crashed: bool
    ghost var log: seq<Event>

    ghost function View(): State
      reads this
    {
      State(nodes, sessions, calls, crashed, log)
    }

    constructor ()
      ensures View() == INIT
    {
      nodes := map[];
      sessions := [];
      calls := [];
      crashed := false;
      log := [];
    }

    // ----- StartConnection -----

    /** Up to the registration; None if the first message is not one. */
    method Register(register: Option<Peer>) returns (i: Option<nat>)
      requires !crashed
      modifies this
      ensures View() == Next(old(View()), Connect(register))
      ensures i == if register.Some? then Some(|old(sessions)|) else None
    {
      if register.None? {
        return None;
      }
      var nodeId := register.value.nodeId;
      var session := NodeSession(register.value, [], false, Receiving, [], []);
      i := Some(|sessions|);
      log := log + [Registered(nodeId, |sessions|)];
      nodes := nodes[nodeId := |sessions|];
      sessions := sessions + [session];
    }

    /** The head of the loop: waits on an empty channel, and leaves the loop at a sentinel. */
    method ReceiveEvent(i: nat)
      requires Enabled(View(), Action.TakeEvent(i))
      modifies this`sessions
      ensures View() == Next(old(View()), Action.TakeEvent(i))
    {
      var n := sessions[i];
      if n.events == [] {
        if n.closed {
          sessions := sessions[i := n.(phase := Deregistering)];
        }
        return;
      }
      var msg := n.events[0];
      n := n.(events := n.events[1..], taken := n.taken + [msg]);
      if msg == None {
        n := n.(phase := Deregistering);
      } else {
        n := n.(phase := Sending(msg.value));
      }
      sessions := sessions[i := n];
    }

    /** The body of the loop, with the stream's answer; an error leaves the loop. */
    method SendToStream(i: nat, ok: bool)
      requires Enabled(View(), Action.StreamSend(i, ok))
      modifies this`sessions
      ensures View() == Next(old(View()), Action.StreamSend(i, ok))
    {
      var n := sessions[i];
      if !ok {
        n := n.(phase := Deregistering);
      } else {
        n := n.(delivered := n.delivered + [n.phase.peer]).(phase := Receiving);
      }
      sessions := sessions[i := n];
    }

    /** The deferred function's lock region. */
    method DeferredDelete(i: nat)
      requires Enabled(View(), Action.Deregister(i))
      modifies this
      ensures View() == Next(old(View()), Action.Deregister(i))
    {
      var nodeId := sessions[i].node.nodeId;
      nodes := nodes - {nodeId};
      sessions := sessions[i := sessions[i].(phase := Closing)];
      log := log + [Deregistered(nodeId, i)];
    }

    /** The deferred function's close. */
    method DeferredClose(i: nat)
      requires Enabled(View(), Action.CloseChannel(i))
      modifies this
      ensures View() == Next(old(View()), Action.CloseChannel(i))
    {
      if sessions[i].closed {
        crashed := true;
        return;
      }
      sessions := sessions[i := sessions[i].(closed := true, phase := Finished)];
      log := log + [ChannelClosed(i)];
    }

    // ----- SendSignal -----

    /** Up to the end of the lock region; a request that fails there is answered. */
    method BeginSendSignal(request: Request) returns (c: nat)
      requires !crashed
      modifies this
      ensures View() == Next(old(View()), Invoke(request)) && c == |old(calls)|
    {
      c := |calls|;
      var pc := Answered(false);
      var seen := nodes;
      if request.Disconnect? {
        var nodeId := request.nodeId;
        if nodeId in nodes {
          pc := SendNil(nodes[nodeId]);
          nodes := nodes - {nodeId};
          log := log + [Disconnected(nodeId, c)];
        }
      } else if request.Dial? {
        var targetExists := request.targetNodeId in nodes;
        var myExists := request.myNodeId in nodes;
        if targetExists && myExists {
          pc := TellInitiator(nodes[request.myNodeId], nodes[request.targetNodeId]);
        }
      }
      calls := calls + [Call(request, pc, seen)];
    }

    /** One send on session i's channel. `blocking` tells a plain send from one with a default
        case; false if it has to wait. */
    method SendOn(i: nat, c: nat, message: Message, blocking: bool) returns (done: bool)
      requires i < |sessions|
      modifies this`sessions, this`crashed, this`log
      ensures crashed == (old(crashed) || old(sessions[i]).closed)
      ensures done <==> !old(sessions[i]).closed && (!blocking || |old(sessions[i]).events| < CHANNEL_CAPACITY)
      ensures if !old(sessions[i]).closed && |old(sessions[i]).events| < CHANNEL_CAPACITY
              then sessions == old(sessions)[i := old(sessions[i]).(events := old(sessions[i]).events + [message])]
                   && log == old(log) + [Queued(c, i, message)]
              else sessions == old(sessions) && log == old(log)
    {
      var n := sessions[i];
      if n.closed {
        crashed := true;
        return false;
      }
      if |n.events| >= CHANNEL_CAPACITY {
        return !blocking;
      }
      sessions := sessions[i := n.(events := n.events + [message])];
      log := log + [Queued(c, i, message)];
      done := true;
    }

    /** The call's next send: the sentinel, or what one side of a dial is to know of the other. */
    method ContinueSendSignal(c: nat)
      requires Enabled(View(), Action.ChannelSend(c))
      modifies this
      ensures View() == Next(old(View()), Action.ChannelSend(c))
    {
      var done := false;
      var pc := calls[c].pc;
      match pc {
        case SendNil(i) =>
          done := SendOn(i, c, None, false);
          pc := Answered(true);
        case TellInitiator(m, t) =>
          var n := sessions[t].node;
          done := SendOn(m, c, Some(n), true);
          pc := TellTarget(m, t);
        case TellTarget(m, t) =>
          var n := sessions[m].node;
          done := SendOn(t, c, Some(n), true);
          pc := Answered(true);
        case Answered(_) =>
      }
      if done {
        calls := calls[c := calls[c].(pc := pc)];
      }
    }
  }
}
