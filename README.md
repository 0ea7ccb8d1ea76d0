# Gossip membership node (MP1Node) in Dafny

A model of the membership logic that one node runs in a gossip-style
failure detector (`Course1-Project/MP1Node.cpp`). Each node keeps a member
list of `(id, port, heartbeat, timestamp)` rows. It joins the group
through an introducer with a JOINREQ/JOINREP handshake. Once per tick it
drains its inbound queue, then, when in the group, runs a gossip round:
its own heartbeat goes up by one, rows whose age has reached `TREMOVE` are
erased, and a HEARTBEAT carrying the whole list goes to `FanoutCount(n)`
distinct rows of the list (`log2(n)` truncated, 1 when `n == 1`). Two
distinct rows can name the same peer when the list holds a duplicate key. Incoming lists are reconciled by `updateMemberList`, an
anti-entropy merge in two passes. The first pass raises stored heartbeats
that an incoming row beats. The second appends unseen keys, skipping the
node itself and stale rows.

Files:

- `members.dfy` (module `Members`): addresses, rows, `TREMOVE`, key
  predicates.
- `reconcile.dfy` (module `Reconcile`): the merge as specification
  functions (`UpdatePass`, `AppendPass`, `Merge`) and what it guarantees.
- `eviction.dfy` (module `Eviction`): the rows a round keeps (`Live`).
- `fanout.dfy` (module `Fanout`): `FloorLog2`, the fanout count and the
  peer-selection loop.
- `protocol.dfy` (module `Protocol`): messages, and the effect of one
  message, of a drained queue, of a round and of a tick on the node's
  state, as functions, with lemmas about them.
- `node.dfy` (module `NodeState`): class `MP1Node`. It has the fields
  `selfId`, `selfPort`, `heartbeat`, `inGroup`, `bFailed`, `memberList` and
  the inbound `queue`. Its methods change them in place with the loops of
  `MP1Node.cpp`. The methods that loop or dispatch are proved against the
  functions above; the others state their effect directly.

The current time (`par->getcurrtime()`) is a parameter `now`. It is the
same for every step of one tick. Messages handed to the network are
returned as a sequence of `Send(to, msg)` values.

The model follows the code in these details:

- An appended row keeps the timestamp it arrived with
  (MP1Node.cpp:460). It is not stamped with the current time.
- The stale check runs only inside the scan of stored rows
  (MP1Node.cpp:447-457). So a stale row can enter an empty list.
  `StaleRowEntersEmptyList` shows this.
- JOINREQ and JOINREP append the sender without looking for it first
  (MP1Node.cpp:240, 271). So repeated JOINREQs leave duplicate keys
  (`JoinRequestMayDuplicateKey`). Key-uniqueness is a property of the
  merge only.
- The introducer appends the joiner before it replies
  (MP1Node.cpp:240, 261). So the JOINREP list contains the joiner itself.
  The joiner's self check then drops that row (`JoinScenario`).
- The fanout is `log2(n)` truncated, or 1 when `n == 1`
  (MP1Node.cpp:322). For every `n >= 1` this agrees with
  `max(1, floor(log2 n))`.
- When one incoming list carries two rows with the same key, the append
  pass keeps only the first, even if the second is newer
  (MP1Node.cpp:446-460). The newer heartbeat arrives only with a second
  merge, so merging is idempotent only for key-unique incoming rows
  (`FirstOfDuplicateKeysWins`, `MergeIdempotent`).

## Model

| member | source | states |
|---|---|---|
| `Reconcile.UpdateEntryIsMax` | Course1-Project/MP1Node.cpp:428-436 | After the inner update loop, a stored row keeps its key. Its heartbeat is the maximum of its old heartbeat and every incoming heartbeat for its key. Its timestamp becomes `now` exactly when the heartbeat rose, and is otherwise unchanged. |
| `Reconcile.MergeRaisesStoredRows` | Course1-Project/MP1Node.cpp:426-470 | Merge never shortens the list. Every pre-existing row stays at its position with its key, and its heartbeat is raised to that maximum (never lowered). Its timestamp is refreshed exactly when the heartbeat rose. |
| `Reconcile.AppendPassShape` | Course1-Project/MP1Node.cpp:441-469 | The append pass keeps the list it started from as a prefix. Each row it adds is an incoming row, unchanged, and not the node itself. Its key is absent from every row before it. It is not stale unless it went into an empty list. |
| `Reconcile.AppendPassSaturates` | Course1-Project/MP1Node.cpp:441-469 | After the append pass, no incoming row would be admitted any more. Each one is the node itself, already has its key in the list, or is stale against a non-empty list. |
| `Reconcile.MergeExcludesSelf` | Course1-Project/MP1Node.cpp:441-445 | No row appended by a merge has the node's own address. A list without the node's address still lacks it after the merge. |
| `Reconcile.MergeAppendsUnseenKeys` | Course1-Project/MP1Node.cpp:446-460 | Merge only appends incoming rows whose key is not yet in the list, including rows appended earlier in the same merge. Appended rows keep their incoming heartbeat and timestamp. No appended row after the first row of an empty list is stale. A key-unique list stays key-unique. |
| `Reconcile.MergeCoversFreshRows` | Course1-Project/MP1Node.cpp:441-469 | Every incoming row that is neither the node itself nor stale has its key in the merged list. |
| `Reconcile.MergeIdempotent` | Course1-Project/MP1Node.cpp:426-470 | For key-unique incoming rows, merging them twice at the same time gives the same list as merging them once. |
| `Reconcile.StaleRowEntersEmptyList` | Course1-Project/MP1Node.cpp:447-460 | A stale, non-self row merged into an empty list is appended, because the stale check runs only while stored rows are scanned. |
| `Reconcile.FirstOfDuplicateKeysWins` | Course1-Project/MP1Node.cpp:426-470 | Merging two same-key rows, the older first, into an empty list keeps only the older row. Merging them again raises that row to the newer heartbeat, stamped `now`. So merge is not idempotent when `incoming` repeats a key. |
| `Reconcile.StaleRowKeptOutOfNonEmptyList` | Course1-Project/MP1Node.cpp:453-456 | A stale row merged into a non-empty list adds no row. |
| `Eviction.LiveExact` | Course1-Project/MP1Node.cpp:311-318 | A row survives eviction exactly when it was in the list and its age is below `TREMOVE`. |
| `Eviction.LiveConcat` | Course1-Project/MP1Node.cpp:311-318 | Eviction decides row by row and keeps the original order. Evicting from a concatenation is the concatenation of the evicted parts. |
| `Eviction.LiveKeepsFreshList` | Course1-Project/MP1Node.cpp:311-318 | Eviction never adds rows. A list with no stale row is left unchanged. |
| `Eviction.EvictionBoundary` | Course1-Project/MP1Node.cpp:312 | A row last refreshed at `t0` is still present after a round at `t0 + TREMOVE - 1` and gone after a round at `t0 + TREMOVE`. |
| `Fanout.FloorLog2Bounds` | Course1-Project/MP1Node.cpp:322 | The integer logarithm used for the fanout is the floor of log2: `2^r <= n < 2^(r+1)`. |
| `Fanout.FanoutCountBounds` | Course1-Project/MP1Node.cpp:321-322 | A single row gives a fanout of 1. For `n >= 2` the fanout lies between 1 and `n - 1`. It never exceeds `n`. |
| `Fanout.UnpickedIndexExists` | Course1-Project/MP1Node.cpp:325-331 | While fewer than `n` distinct indices are selected, some index below `n` is still unselected. So the selection loop can always make progress. |
| `Fanout.SelectPeers` | Course1-Project/MP1Node.cpp:321-331 | The selection loop returns exactly `FanoutCount(n)` indices. They are pairwise distinct and all lie in `[0, n)`. |
| `Protocol.ParseRequest` | Course1-Project/MP1Node.cpp:410-419 | The row built for a sender has the sender's address and the message's heartbeat, and is not stale at the time of receipt. |
| `Protocol.ReceiveRejectsUnknownKind` | Course1-Project/MP1Node.cpp:234-297 | A message is handled exactly when its kind is JOINREQ, JOINREP or HEARTBEAT. Any other kind returns false, leaves the state alone and sends nothing. |
| `Protocol.JoinRequestAppendsSender` | Course1-Project/MP1Node.cpp:235-266 | JOINREQ appends `(sender id, port, message heartbeat, now)` to the list and leaves the group flag unchanged. It answers the sender with a JOINREP carrying the node's heartbeat and the list, which now includes the sender. |
| `Protocol.JoinRequestMayDuplicateKey` | Course1-Project/MP1Node.cpp:239-240 | A JOINREQ from an address already in the list leaves a list with a duplicate key. |
| `Protocol.JoinReplyJoins` | Course1-Project/MP1Node.cpp:268-282 | Any JOINREP puts this node in the group. Afterwards the sender's key, and the key of every fresh non-self row the reply carries, are in the list. |
| `Protocol.MergeKeepsKnown` | Course1-Project/MP1Node.cpp:428-436 | A key that a stored row held with at least a given heartbeat is still held with at least that heartbeat after a merge. |
| `Protocol.HeartbeatRecordsSender` | Course1-Project/MP1Node.cpp:284-290 | After a HEARTBEAT from another node, the sender is in the list with at least the message's heartbeat, even if the list the message carries reports the sender as older. The group flag is unchanged. |
| `Protocol.ReceiveIsMonotone` | Course1-Project/MP1Node.cpp:229-298 | Handling any message leaves the own heartbeat unchanged and never clears the group flag. Stored rows keep their positions and keys, and their heartbeats never go down. |
| `Protocol.ReceiveKeepsSelfOut` | Course1-Project/MP1Node.cpp:229-298 | A message from another node never puts the node's own address into a list that did not contain it. |
| `Protocol.ReceiveAllIsMonotone` | Course1-Project/MP1Node.cpp:210-222 | Draining the queue never changes the own heartbeat and never takes the node out of the group. The list never shortens, and every stored row keeps its position and key with a heartbeat that never goes down. |
| `Protocol.ReceiveAllKeepsSelfOut` | Course1-Project/MP1Node.cpp:210-222 | Draining a queue whose messages all come from other nodes never puts the node's own address into a list that did not contain it. |
| `Protocol.TickKeepsSelfOut` | Course1-Project/MP1Node.cpp:181-203 | A whole tick (drain, then a round when in the group) keeps a self-free list self-free when every queued message comes from another node. |
| `Protocol.TickAdvancesHeartbeat` | Course1-Project/MP1Node.cpp:181-203 | A failed node's tick changes nothing. A live node's heartbeat rises by exactly one when it is in the group after draining its queue, and otherwise stays the same. A node already in the group always advances by one. |
| `Protocol.RoundEvictsExactlyStale` | Course1-Project/MP1Node.cpp:308-318 | A round raises the heartbeat by exactly one and keeps exactly the rows younger than `TREMOVE`. |
| `Protocol.OwnRowFilteredFromReply` | Course1-Project/MP1Node.cpp:268-282 | When a joiner merges a reply that carries only its own row into a list holding the introducer's row, the list stays exactly the introducer's row. |
| `Protocol.JoinScenario` | Course1-Project/MP1Node.cpp:235-282 | In the handshake between introducer A and joiner B, A's list becomes `[B]` and its reply goes to B. B ends in the group knowing exactly A, since its own row in the reply is filtered out. |
| `NodeState.MP1Node.constructor` | Course1-Project/MP1Node.cpp:20-29 | The node gets the given address, as line 28 assigns it. The other fields start at the values that `initThisNode` gives them: outside the group, heartbeat 0, an empty list, not failed. |
| `NodeState.MP1Node.InitThisNode` | Course1-Project/MP1Node.cpp:96-114 | The node is live and outside the group, with heartbeat 0 and an empty list. |
| `NodeState.MP1Node.IntroduceSelfToGroup` | Course1-Project/MP1Node.cpp:121-156 | The node enters the group exactly when its own address equals the join address. Then it sends nothing. Otherwise it sends one JOINREQ with its heartbeat to the join address. |
| `NodeState.MP1Node.UpdateMemberList` | Course1-Project/MP1Node.cpp:426-470 | The nested update loops and the append loop with its early exits leave `memberList` equal to `Merge` of the old list. The `Reconcile` lemmas above hold of that value. |
| `NodeState.MP1Node.RecvCallBack` | Course1-Project/MP1Node.cpp:229-298 | The return value, the new list and group flag, and the messages sent are exactly `Receive` of the old state. The `Protocol` lemmas above hold of that value. |
| `NodeState.MP1Node.CheckMessages` | Course1-Project/MP1Node.cpp:210-222 | The queue is emptied. State and sends are those of handling every queued message, oldest first. |
| `NodeState.MP1Node.EvictStale` | Course1-Project/MP1Node.cpp:311-318 | The backward erase loop leaves exactly `Live` of the old list: the rows younger than `TREMOVE`, in their original order. |
| `NodeState.MP1Node.NodeLoopOps` | Course1-Project/MP1Node.cpp:307-356 | The heartbeat rises by one and the backward erase loop leaves exactly `Live` of the old list. It selects `FanoutCount(n)` distinct indices of the remaining list and sends each selected row a HEARTBEAT carrying the heartbeat and the list. |
| `NodeState.MP1Node.NodeLoop` | Course1-Project/MP1Node.cpp:181-203 | A failed node changes nothing and sends nothing. A live one drains its queue, then runs a round only if it is in the group. Its sends are the drained replies followed by `FanoutCount(n)` sends when a round ran. Each of those sends is a HEARTBEAT that carries the new heartbeat and list and goes to the address of a row in the list. |

## Left out

- Network and queue plumbing (`recvLoop`, `enqueueWrapper`, `ENsend`, `ENrecv`) is left out. Sends are returned as values, and the inbound queue is a field that the network layer fills.
- Logging (`LOG`, `logNodeAdd`, `logNodeRemove`, the `DEBUGLOG` blocks) is left out: it is observational only.
- Raw message buffers are left out. A message carries a copy of the sender's list at send time. `MP1Node.cpp` passes a pointer to the sender's live vector (MP1Node.cpp:261, 348), so in the emulator the receiver sees the list as it is when the message is read.
- Byte-level addresses are left out (`buildAddr`, `getJoinAddress`, `printAddress`, `isNullAddress`, `NULLADDR`). The self check at MP1Node.cpp:442-443 compares with the single bytes `addr[0]` and `addr[4]`; the model compares the full `(id, port)` pair. The founder test at MP1Node.cpp:127 compares whole addresses. The gossip target at MP1Node.cpp:336-338 is a new `Address` with only `addr[0]` and `addr[4]` set, to the low byte of the row's id and of its port; the model sends to the row's full `(id, port)` key.
- `Fanout.SelectPeers` does not model the `rand()` distribution, and neither does `NodeState.MP1Node.NodeLoopOps`, which calls it. Each modelled iteration picks some index that is not yet selected. Draws that repeat an index change nothing and are not modelled, so the model does not capture a run where the draws never cover enough indices and the loop does not end.
- The exclusion `pick != addr.addr[0] - 48` at MP1Node.cpp:328 is left out. It compares a list index with the first address byte minus 48, as if that byte were an ASCII digit. That byte is the low byte of the binary id (MP1Node.cpp:378, 415), so when that byte is below 48 the test excludes nothing. Where it does exclude an index (the byte minus 48), the model does not capture it, including the case of a one-row list whose only index is excluded, where the selection loop at MP1Node.cpp:325 never ends.
- The floating-point `log2` at MP1Node.cpp:322 is replaced by the integer `FloorLog2`. This assumes that truncating the double result gives the floor.
- When the list is empty after eviction, MP1Node.cpp:322 converts `log2(0)` to `int`, which is undefined. The model selects no peers in that case.
- Integer widths are not modelled: the 32-bit id, 16-bit port, and 64-bit heartbeat and timestamp are unbounded integers.
- `TREMOVE` is defined in MP1Node.h, which is not part of this model. It is set to 20 here, and no proof depends on its value beyond its being positive.
- Process lifecycle is left out: `nodeStart` and its `exit(1)` paths, `finishUpThisNode`, and the destructor.
- The `Member` fields `inited`, `nnb`, `pingCounter` and `timeOutCounter` are set by `initThisNode` but never read by this core, so they are not modelled.
- `NodeState.MP1Node.constructor`: the `MP1Node` constructor in `MP1Node.cpp` leaves the `Member` fields other than the address at whatever the `Member` object held before, which is not part of this model. The model starts them at the values that `initThisNode` (MP1Node.cpp:96-114) then assigns.
