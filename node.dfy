/** One member of the group: the `MP1Node` object together with the fields
    of its `Member` record that the protocol reads and writes. Each method
    changes the fields in place as `MP1Node.cpp` does. The methods that loop
    or dispatch are proved against the functions of `Protocol` and
    `Reconcile`; the others state their effect directly. */
module NodeState {
  import opened Members
  import opened Reconcile
  import opened Eviction
  import opened Fanout
  import opened Protocol

  class MP1Node {
    var selfId: int
    var selfPort: int
    var heartbeat: int
    var inGroup: bool
    var bFailed: bool
    var memberList: seq<Entry>
    /** The inbound queue `mp1q`, filled by the network layer. */
    var queue: seq<Message>

    function Self(): Address
      reads this`selfId, this`selfPort
    {
      Address(selfId, selfPort)
    }

    function State(): View
      reads this`heartbeat, this`inGroup, this`memberList
    {
      View(heartbeat, inGroup, memberList)
    }

    constructor (id: int, port: int)
      ensures Self() == Address(id, port)
      ensures State() == View(0, false, []) && !bFailed && queue == []
    {
      selfId, selfPort := id, port;
      heartbeat := 0;
      inGroup, bFailed := false, false;
      memberList, queue := [], [];
    }

    /** `initThisNode`: a live node, out of the group, heartbeat 0, empty list. */
    method InitThisNode()
      modifies this`bFailed, this`inGroup, this`heartbeat, this`memberList
      ensures State() == View(0, false, []) && !bFailed
    {
      bFailed := false;
      inGroup := false;
      heartbeat := 0;
      memberList := [];
    }

    /** `introduceSelfToGroup`: the node whose address is the join address
        founds the group on its own; any other node sends a JOINREQ with its
        heartbeat to the join address and stays out of the group. */
    method IntroduceSelfToGroup(joinAddr: Address) returns (sent: seq<Send>)
      modifies this`inGroup
      ensures inGroup == (old(inGroup) || Self() == joinAddr)
      ensures sent == if Self() == joinAddr then [] else [Send(joinAddr, Message(JOINREQ, Self(), heartbeat, []))]
    {
      if Self() == joinAddr {
        inGroup := true;
        sent := [];
      } else {
        sent := [Send(joinAddr, Message(JOINREQ, Self(), heartbeat, []))];
      }
    }

    /** `updateMemberList`: the update pass over stored rows, then the append
        pass over incoming rows. */
    method UpdateMemberList(incoming: seq<Entry>, now: int)
      modifies this`memberList
      ensures memberList == Merge(old(memberList), incoming, Self(), now)
    {
      ghost var original := memberList;
      for i := 0 to |memberList|
        invariant |memberList| == |original|
        invariant forall k :: 0 <= k < i ==> memberList[k] == UpdateEntry(original[k], incoming, now)
        invariant forall k :: i <= k < |original| ==> memberList[k] == original[k]
      {
        for j := 0 to |incoming|
          invariant |memberList| == |original|
          invariant forall k :: 0 <= k < i ==> memberList[k] == UpdateEntry(original[k], incoming, now)
          invariant forall k :: i < k < |original| ==> memberList[k] == original[k]
          invariant memberList[i] == UpdateEntry(original[i], incoming[..j], now)
        {
          assert incoming[..j + 1][..j] == incoming[..j];
          if memberList[i].id == incoming[j].id
             && memberList[i].port == incoming[j].port
             && memberList[i].heartbeat < incoming[j].heartbeat
          {
            memberList := memberList[i := memberList[i].(timestamp := now, heartbeat := incoming[j].heartbeat)];
          }
        }
        assert incoming[..|incoming|] == incoming;
      }
      assert memberList == UpdatePass(original, incoming, now);

      ghost var updated := memberList;
      for i := 0 to |incoming|
        invariant memberList == AppendPass(updated, incoming[..i], Self(), now)
      {
        assert incoming[..i + 1][..i] == incoming[..i];
        if incoming[i].id == selfId && incoming[i].port == selfPort {
          continue;
        }
        var inList := false;
        for j := 0 to |memberList|
          invariant !inList
          invariant forall k :: 0 <= k < j ==> memberList[k].Key() != incoming[i].Key()
          invariant j > 0 ==> !Stale(incoming[i], now)
        {
          if memberList[j].id == incoming[i].id && memberList[j].port == incoming[i].port {
            inList := true;
            break;
          } else if now - incoming[i].timestamp >= TREMOVE {
            inList := true;
            break;
          }
        }
        if !inList {
          memberList := memberList + [incoming[i]];
        }
      }
      assert incoming[..|incoming|] == incoming;
    }

    /** `recvCallBack`: the message kind decides what happens; an unknown
        kind is refused and changes nothing. */
    method RecvCallBack(msg: Message, now: int) returns (handled: bool, sent: seq<Send>)
      modifies this`memberList, this`inGroup
      ensures Outcome(handled, State(), sent) == Receive(Self(), old(State()), msg, now)
    {
      match msg.kind
      case JOINREQ =>
        var entry := ParseRequest(msg, now);
        memberList := memberList + [entry];
        sent := [Send(msg.source, Message(JOINREP, Self(), heartbeat, memberList))];
        handled := true;
      case JOINREP =>
        var entry := ParseRequest(msg, now);
        memberList := memberList + [entry];
        inGroup := true;
        UpdateMemberList(msg.memberList, now);
        sent := [];
        handled := true;
      case HEARTBEAT =>
        var entry := ParseRequest(msg, now);
        UpdateMemberList([entry], now);
        UpdateMemberList(msg.memberList, now);
        sent := [];
        handled := true;
      case Other(_) =>
        sent := [];
        handled := false;
    }

    /** `checkMessages`: handles every queued message, oldest first, until
        the queue is empty. */
    method CheckMessages(now: int) returns (sent: seq<Send>)
      modifies this`queue, this`memberList, this`inGroup
      ensures queue == []
      ensures Effect(State(), sent) == ReceiveAll(Self(), old(State()), old(queue), now)
    {
      sent := [];
      ghost var me, start, pending := Self(), State(), queue;
      while queue != []
        invariant Self() == me
        invariant ReceiveAll(me, start, pending, now)
                  == Effect(ReceiveAll(me, State(), queue, now).view, sent + ReceiveAll(me, State(), queue, now).sent)
        decreases |queue|
      {
        ghost var before, left := State(), queue;
        var msg := queue[0];
        queue := queue[1..];
        var handled, out := RecvCallBack(msg, now);
        ghost var rest := ReceiveAll(me, State(), queue, now);
        ReceiveAllStep(me, before, left, now);
        assert sent + (out + rest.sent) == (sent + out) + rest.sent;
        sent := sent + out;
      }
    }

    /** The backward erase loop of `nodeLoopOps`: walks the list from the
        end and erases every row whose age has reached TREMOVE. */
    method EvictStale(now: int)
      modifies this`memberList
      ensures memberList == Live(old(memberList), now)
    {
      ghost var before := memberList;
      for i := |memberList| downto 0
        invariant memberList == before[..i] + Live(before[i..], now)
      {
        LiveStep(before, i, now);
        assert memberList[i] == before[i];
        if now - memberList[i].timestamp >= TREMOVE {
          memberList := memberList[..i] + memberList[i + 1..];
        }
      }
      assert before[0..] == before && before[..0] == [];
    }

    /** `nodeLoopOps`: one gossip round. The heartbeat goes up by one, the
        backward loop erases every stale row, and a HEARTBEAT carrying the
        list goes to FanoutCount(n) distinct rows of the remaining list. */
    method NodeLoopOps(now: int) returns (selected: seq<nat>, sent: seq<Send>)
      modifies this`heartbeat, this`memberList
      ensures State() == Round(old(State()), now)
      ensures |selected| == FanoutCount(|memberList|) && Distinct(selected)
      ensures forall k :: 0 <= k < |selected| ==> selected[k] < |memberList|
      ensures |sent| == |selected|
      ensures forall k :: 0 <= k < |sent| ==>
                sent[k] == Send(memberList[selected[k]].Key(), Message(HEARTBEAT, Self(), heartbeat, memberList))
    {
      heartbeat := heartbeat + 1;

      EvictStale(now);

      selected := SelectPeers(|memberList|);

      sent := [];
      for k := 0 to |selected|
        invariant |sent| == k
        invariant forall m :: 0 <= m < k ==>
                    sent[m] == Send(memberList[selected[m]].Key(), Message(HEARTBEAT, Self(), heartbeat, memberList))
      {
        var toEntry := memberList[selected[k]];
        sent := sent + [Send(toEntry.Key(), Message(HEARTBEAT, Self(), heartbeat, memberList))];
      }
    }

    /** `nodeLoop`: a failed node does nothing; a live one drains its queue
        and then, only when in the group, runs a gossip round. */
    method NodeLoop(now: int) returns (sent: seq<Send>)
      modifies this`queue, this`heartbeat, this`memberList, this`inGroup
      ensures State() == Tick(Self(), bFailed, old(State()), old(queue), now)
      ensures queue == if bFailed then old(queue) else []
      ensures bFailed ==> sent == []
      ensures !bFailed ==>
        var drained := ReceiveAll(Self(), old(State()), old(queue), now);
        && |sent| == |drained.sent| + (if drained.view.inGroup then FanoutCount(|memberList|) else 0)
        && sent[..|drained.sent|] == drained.sent
        && forall k :: |drained.sent| <= k < |sent| ==>
             sent[k].msg == Message(HEARTBEAT, Self(), heartbeat, memberList) && KeyIn(memberList, sent[k].to)
    {
      if bFailed {
        return [];
      }
      sent := CheckMessages(now);
      if !inGroup {
        return;
      }
      var drainedSent := sent;
      var selected, gossip := NodeLoopOps(now);
      sent := sent + gossip;
      forall k | |drainedSent| <= k < |sent|
        ensures sent[k].msg == Message(HEARTBEAT, Self(), heartbeat, memberList) && KeyIn(memberList, sent[k].to)
      {
        assert sent[k] == gossip[k - |drainedSent|];
        assert sent[k].to == memberList[selected[k - |drainedSent|]].Key();
      }
    }
  }
}
