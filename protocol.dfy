/** Messages, and the effect on a node's state of handling one message
    (`recvCallBack`), of draining the queue (`checkMessages`), of a gossip
    round (`nodeLoopOps`) and of a whole tick (`nodeLoop`), as functions of
    the state before. The methods of `NodeState.MP1Node` are proved against
    these functions. */
module Protocol {
  import opened Members
  import opened Reconcile
  import opened Eviction

  /** The message type tag; `Other` is any tag the handler does not know. */
  datatype MsgKind = JOINREQ | JOINREP | HEARTBEAT | Other(code: int)

  /** A message: its kind, the sender's address and heartbeat, and, for
      JOINREP and HEARTBEAT, the sender's member list. */
  datatype Message = Message(kind: MsgKind, source: Address, heartbeat: int, memberList: seq<Entry>)

  /** A message handed to the network for the peer at `to`. */
  datatype Send = Send(to: Address, msg: Message)

  /** The row `parseRequest` builds for a message's sender, stamped with
      the time of receipt; such a row is never stale on arrival. */
  function ParseRequest(msg: Message, now: int): (e: Entry)
    ensures e.Key() == msg.source && e.heartbeat == msg.heartbeat
    ensures !Stale(e, now)
  {
    Entry(msg.source.id, msg.source.port, msg.heartbeat, now)
  }

  /** The part of a node's state that messages and rounds change. */
  datatype View = View(heartbeat: int, inGroup: bool, memberList: seq<Entry>)

  /** Handling one message: whether it was accepted, the new state, and what was sent. */
  datatype Outcome = Outcome(handled: bool, view: View, sent: seq<Send>)

  /** Handling many messages: the final state and everything sent on the way. */
  datatype Effect = Effect(view: View, sent: seq<Send>)

  function Receive(self: Address, v: View, msg: Message, now: int): Outcome
  {
    match msg.kind
    case JOINREQ =>
      var list := v.memberList + [ParseRequest(msg, now)];
      Outcome(true, v.(memberList := list), [Send(msg.source, Message(JOINREP, self, v.heartbeat, list))])
    case JOINREP =>
      var list := v.memberList + [ParseRequest(msg, now)];
      Outcome(true, View(v.heartbeat, true, Merge(list, msg.memberList, self, now)), [])
    case HEARTBEAT =>
      var list := Merge(v.memberList, [ParseRequest(msg, now)], self, now);
      Outcome(true, v.(memberList := Merge(list, msg.memberList, self, now)), [])
    case Other(_) =>
      Outcome(false, v, [])
  }

  function ReceiveAll(self: Address, v: View, queue: seq<Message>, now: int): Effect
    decreases |queue|
  {
    if queue == [] then Effect(v, [])
    else
      var first := Receive(self, v, queue[0], now);
      var rest := ReceiveAll(self, first.view, queue[1..], now);
      Effect(rest.view, first.sent + rest.sent)
  }

  /** The state after a gossip round: own heartbeat one higher, stale rows gone. */
  function Round(v: View, now: int): View
  {
    View(v.heartbeat + 1, v.inGroup, Live(v.memberList, now))
  }

  /** The state after one tick: nothing when failed; otherwise the queue is
      drained, and a round follows when the node is then in the group. */
  function Tick(self: Address, failed: bool, v: View, queue: seq<Message>, now: int): View
  {
    if failed then v
    else
      var w := ReceiveAll(self, v, queue, now).view;
      if w.inGroup then Round(w, now) else w
  }

  // ---------------------------------------------------------------------
  // Handling one message

  /** Exactly the three known kinds are handled; any other leaves the state
      alone and sends nothing. */
  lemma ReceiveRejectsUnknownKind(self: Address, v: View, msg: Message, now: int)
    ensures Receive(self, v, msg, now).handled <==> !msg.kind.Other?
    ensures msg.kind.Other? ==> Receive(self, v, msg, now) == Outcome(false, v, [])
  {
  }

  /** JOINREQ appends the sender's row with the message's heartbeat and the
      receipt time, without looking for it first, leaves the group flag
      alone, and answers the sender with a JOINREP that carries the list,
      the new row included. */
  lemma JoinRequestAppendsSender(self: Address, v: View, msg: Message, now: int)
    requires msg.kind == JOINREQ
    ensures var o := Receive(self, v, msg, now);
      && o.view.memberList[..|v.memberList|] == v.memberList
      && |o.view.memberList| == |v.memberList| + 1
      && o.view.memberList[|v.memberList|] == Entry(msg.source.id, msg.source.port, msg.heartbeat, now)
      && o.view.inGroup == v.inGroup
      && o.sent == [Send(msg.source, Message(JOINREP, self, v.heartbeat, o.view.memberList))]
  {
  }

  /** Because JOINREQ does not look for the sender first, a second request
      from a known address leaves two rows with the same key: key-uniqueness
      is guaranteed by the merge, not by the dispatcher. */
  lemma JoinRequestMayDuplicateKey(self: Address, v: View, msg: Message, now: int)
    requires msg.kind == JOINREQ && KeyIn(v.memberList, msg.source)
    ensures !KeyUnique(Receive(self, v, msg, now).view.memberList)
  {
    var list := Receive(self, v, msg, now).view.memberList;
    var j :| 0 <= j < |v.memberList| && v.memberList[j].Key() == msg.source;
    assert list[j] == v.memberList[j];
    assert list[|v.memberList|].Key() == msg.source;
  }

  /** JOINREP puts the node in the group, and the sender's row, the rows
      that were there and every fresh non-self row it carries are then in
      the list. */
  lemma JoinReplyJoins(self: Address, v: View, msg: Message, now: int)
    requires msg.kind == JOINREP
    ensures var w := Receive(self, v, msg, now).view;
      && w.inGroup
      && KeyIn(w.memberList, msg.source)
      && (forall x :: x in msg.memberList && x.Key() != self && !Stale(x, now) ==> KeyIn(w.memberList, x.Key()))
  {
    var list := v.memberList + [ParseRequest(msg, now)];
    var w := Receive(self, v, msg, now).view;
    MergeRaisesStoredRows(list, msg.memberList, self, now);
    MergeCoversFreshRows(list, msg.memberList, self, now);
    assert w.memberList[|v.memberList|].Key() == list[|v.memberList|].Key();
  }

  /** Some row of `list` has key `k` and a heartbeat of at least `hb`. */
  ghost predicate KnownAtLeast(list: seq<Entry>, k: Address, hb: int)
  {
    exists j :: 0 <= j < |list| && list[j].Key() == k && list[j].heartbeat >= hb
  }

  /** Merging keeps what was known: a key known with some heartbeat is
      still known with at least that heartbeat. */
  lemma MergeKeepsKnown(list: seq<Entry>, incoming: seq<Entry>, self: Address, now: int, k: Address, hb: int)
    requires KnownAtLeast(list, k, hb)
    ensures KnownAtLeast(Merge(list, incoming, self, now), k, hb)
  {
    var j :| 0 <= j < |list| && list[j].Key() == k && list[j].heartbeat >= hb;
    MergeRaisesStoredRows(list, incoming, self, now);
    assert RaisedTo(list[j], incoming, now, Merge(list, incoming, self, now)[j]);
  }

  /** HEARTBEAT first merges a one-row list for the sender, so afterwards the
      sender is known with at least the heartbeat the message carries, even
      when the list it carries reports it as staler. */
  lemma HeartbeatRecordsSender(self: Address, v: View, msg: Message, now: int)
    requires msg.kind == HEARTBEAT && msg.source != self
    ensures KnownAtLeast(Receive(self, v, msg, now).view.memberList, msg.source, msg.heartbeat)
    ensures Receive(self, v, msg, now).view.inGroup == v.inGroup
  {
    var e := ParseRequest(msg, now);
    var first := Merge(v.memberList, [e], self, now);
    MergeRaisesStoredRows(v.memberList, [e], self, now);
    MergeAppendsUnseenKeys(v.memberList, [e], self, now);
    MergeCoversFreshRows(v.memberList, [e], self, now);
    assert KeyIn(first, msg.source);
    var j :| 0 <= j < |first| && first[j].Key() == msg.source;
    if j < |v.memberList| {
      assert RaisedTo(v.memberList[j], [e], now, first[j]);
      assert [e][0] == e;
    } else {
      assert AppendedRow(first, j, [e], self, now);
    }
    assert KnownAtLeast(first, msg.source, msg.heartbeat);
    MergeKeepsKnown(first, msg.memberList, self, now, msg.source, msg.heartbeat);
  }

  /** No message changes the node's own heartbeat; stored rows keep their
      positions and keys and their heartbeats never go down; the group flag
      is never cleared. */
  lemma ReceiveIsMonotone(self: Address, v: View, msg: Message, now: int)
    ensures var w := Receive(self, v, msg, now).view;
      && w.heartbeat == v.heartbeat
      && (v.inGroup ==> w.inGroup)
      && |w.memberList| >= |v.memberList|
      && forall k :: 0 <= k < |v.memberList| ==>
           w.memberList[k].Key() == v.memberList[k].Key() && w.memberList[k].heartbeat >= v.memberList[k].heartbeat
  {
    var w := Receive(self, v, msg, now).view;
    var e := ParseRequest(msg, now);
    match msg.kind
    case JOINREQ =>
    case JOINREP =>
      var list := v.memberList + [e];
      MergeRaisesStoredRows(list, msg.memberList, self, now);
      forall k | 0 <= k < |v.memberList|
        ensures w.memberList[k].Key() == v.memberList[k].Key() && w.memberList[k].heartbeat >= v.memberList[k].heartbeat
      {
        assert list[k] == v.memberList[k];
        assert RaisedTo(list[k], msg.memberList, now, w.memberList[k]);
      }
    case HEARTBEAT =>
      var first := Merge(v.memberList, [e], self, now);
      MergeRaisesStoredRows(v.memberList, [e], self, now);
      MergeRaisesStoredRows(first, msg.memberList, self, now);
      forall k | 0 <= k < |v.memberList|
        ensures w.memberList[k].Key() == v.memberList[k].Key() && w.memberList[k].heartbeat >= v.memberList[k].heartbeat
      {
        assert RaisedTo(v.memberList[k], [e], now, first[k]);
        assert RaisedTo(first[k], msg.memberList, now, w.memberList[k]);
      }
    case Other(_) =>
  }

  /** The node never enters its own list through a merge: a JOINREP or
      HEARTBEAT from another node keeps a self-free list self-free, and so
      does a JOINREQ from another node. */
  lemma ReceiveKeepsSelfOut(self: Address, v: View, msg: Message, now: int)
    requires !KeyIn(v.memberList, self) && msg.source != self
    ensures !KeyIn(Receive(self, v, msg, now).view.memberList, self)
  {
    var e := ParseRequest(msg, now);
    var list := v.memberList + [e];
    if msg.kind == JOINREQ || msg.kind == JOINREP {
      forall j | 0 <= j < |list|
        ensures list[j].Key() != self
      {
        if j < |v.memberList| {
          assert list[j] == v.memberList[j];
        }
      }
      MergeExcludesSelf(list, msg.memberList, self, now);
    } else if msg.kind == HEARTBEAT {
      MergeExcludesSelf(v.memberList, [e], self, now);
      MergeExcludesSelf(Merge(v.memberList, [e], self, now), msg.memberList, self, now);
    }
  }

  // ---------------------------------------------------------------------
  // Draining the queue and ticking

  /** Draining a non-empty queue handles its first message, then the rest. */
  lemma ReceiveAllStep(self: Address, v: View, queue: seq<Message>, now: int)
    requires queue != []
    ensures var first := Receive(self, v, queue[0], now);
      var rest := ReceiveAll(self, first.view, queue[1..], now);
      ReceiveAll(self, v, queue, now) == Effect(rest.view, first.sent + rest.sent)
  {
  }

  /** Draining the queue never changes the own heartbeat and never leaves
      the group; stored rows keep their positions and keys and their
      heartbeats never go down. */
  lemma {:induction false} ReceiveAllIsMonotone(self: Address, v: View, queue: seq<Message>, now: int)
    ensures ReceiveAll(self, v, queue, now).view.heartbeat == v.heartbeat
    ensures v.inGroup ==> ReceiveAll(self, v, queue, now).view.inGroup
    ensures var w := ReceiveAll(self, v, queue, now).view;
      && |w.memberList| >= |v.memberList|
      && forall k :: 0 <= k < |v.memberList| ==>
           w.memberList[k].Key() == v.memberList[k].Key() && w.memberList[k].heartbeat >= v.memberList[k].heartbeat
    decreases |queue|
  {
    if queue != [] {
      var mid := Receive(self, v, queue[0], now).view;
      ReceiveIsMonotone(self, v, queue[0], now);
      ReceiveAllIsMonotone(self, mid, queue[1..], now);
      var w := ReceiveAll(self, v, queue, now).view;
      forall k | 0 <= k < |v.memberList|
        ensures w.memberList[k].Key() == v.memberList[k].Key() && w.memberList[k].heartbeat >= v.memberList[k].heartbeat
      {
        assert mid.memberList[k].Key() == v.memberList[k].Key();
      }
    }
  }

  /** A queue of messages from other nodes never puts the node's own
      address into a self-free list. */
  lemma {:induction false} ReceiveAllKeepsSelfOut(self: Address, v: View, queue: seq<Message>, now: int)
    requires !KeyIn(v.memberList, self)
    requires forall i :: 0 <= i < |queue| ==> queue[i].source != self
    ensures !KeyIn(ReceiveAll(self, v, queue, now).view.memberList, self)
    decreases |queue|
  {
    if queue != [] {
      ReceiveKeepsSelfOut(self, v, queue[0], now);
      var mid := Receive(self, v, queue[0], now).view;
      assert forall i :: 0 <= i < |queue[1..]| ==> queue[1..][i] == queue[i + 1];
      ReceiveAllKeepsSelfOut(self, mid, queue[1..], now);
    }
  }

  /** A whole tick keeps a self-free list self-free when every queued
      message comes from another node: eviction only removes rows. */
  lemma TickKeepsSelfOut(self: Address, failed: bool, v: View, queue: seq<Message>, now: int)
    requires !KeyIn(v.memberList, self)
    requires forall i :: 0 <= i < |queue| ==> queue[i].source != self
    ensures !KeyIn(Tick(self, failed, v, queue, now).memberList, self)
  {
    if !failed {
      var w := ReceiveAll(self, v, queue, now).view;
      ReceiveAllKeepsSelfOut(self, v, queue, now);
      if w.inGroup {
        var live := Live(w.memberList, now);
        LiveExact(w.memberList, now);
        forall j | 0 <= j < |live|
          ensures live[j].Key() != self
        {
          assert live[j] in w.memberList;
        }
      }
    }
  }

  /** A failed node does nothing in a tick. A live node's heartbeat goes up
      by exactly one when it is in the group after draining its queue (so
      always, once it has joined), and stays put otherwise. */
  lemma TickAdvancesHeartbeat(self: Address, failed: bool, v: View, queue: seq<Message>, now: int)
    ensures failed ==> Tick(self, failed, v, queue, now) == v
    ensures !failed ==>
      Tick(self, failed, v, queue, now).heartbeat
        == v.heartbeat + (if ReceiveAll(self, v, queue, now).view.inGroup then 1 else 0)
    ensures !failed && v.inGroup ==>
      Tick(self, failed, v, queue, now).heartbeat == v.heartbeat + 1 && Tick(self, failed, v, queue, now).inGroup
  {
    ReceiveAllIsMonotone(self, v, queue, now);
  }

  /** A round keeps exactly the rows younger than TREMOVE, in order. */
  lemma RoundEvictsExactlyStale(v: View, now: int)
    ensures Round(v, now).heartbeat == v.heartbeat + 1
    ensures forall e :: e in Round(v, now).memberList <==> e in v.memberList && !Stale(e, now)
  {
    LiveExact(v.memberList, now);
  }

  // ---------------------------------------------------------------------
  // A join in three steps

  /** The merge B runs on A's reply: the only row carried is B's own, so B's
      list keeps just the row for A. */
  lemma OwnRowFilteredFromReply(rowA: Entry, rowB: Entry, b: Address, now: int)
    requires rowA.Key() != b && rowB.Key() == b
    ensures Merge([rowA], [rowB], b, now) == [rowA]
  {
    var u := UpdatePass([rowA], [rowB], now);
    assert [rowB][..0] == [];
    assert UpdateEntry(rowA, [rowB], now) == Raise(UpdateEntry(rowA, [], now), rowB, now) == rowA;
    assert u == [rowA];
    assert AppendPass(u, [rowB], b, now) == AdmitOne(AppendPass(u, [], b, now), rowB, b, now);
  }

  /** Node B joins through introducer A at time 1: A's reply carries its
      list with B in it, and B ends up knowing exactly A, because the copy of
      its own row that comes back is filtered out. */
  lemma JoinScenario(a: Address, b: Address)
    requires a != b
    ensures
      var joinReq := Message(JOINREQ, b, 0, []);
      var atA := Receive(a, View(0, true, []), joinReq, 1);
      var reply := atA.sent[0].msg;
      var atB := Receive(b, View(0, false, []), reply, 1);
      && atA.view.memberList == [Entry(b.id, b.port, 0, 1)]
      && atA.sent[0].to == b
      && atB.view == View(0, true, [Entry(a.id, a.port, 0, 1)])
  {
    var rowA := Entry(a.id, a.port, 0, 1);
    var rowB := Entry(b.id, b.port, 0, 1);
    OwnRowFilteredFromReply(rowA, rowB, b, 1);
    var atA := Receive(a, View(0, true, []), Message(JOINREQ, b, 0, []), 1);
    assert atA.view.memberList == [rowB];
    assert atA.sent == [Send(b, Message(JOINREP, a, 0, [rowB]))];
    assert [] + [rowA] == [rowA];
  }
}
