/** The membership table of one node: the rows of `memberList` and the
    predicates over them that the reconciler, the eviction step and the
    dispatcher share. */
module Members {

  /** Eviction timeout, in ticks of the emulator clock. Its value comes from
      MP1Node.h; nothing proved here depends on it beyond being positive. */
  const TREMOVE: int := 20

  /** The logical address of a peer: the key of a membership row. */
  datatype Address = Address(id: int, port: int)

  /** One row of `memberList`: `MemberListEntry(id, port, heartbeat, timestamp)`. */
  datatype Entry = Entry(id: int, port: int, heartbeat: int, timestamp: int)
  {
    function Key(): Address { Address(id, port) }
  }

  /** A row is stale at `now` once its age reaches the eviction timeout. */
  predicate Stale(e: Entry, now: int)
  {
    now - e.timestamp >= TREMOVE
  }

  /** Some row of `list` has key `k`. */
  predicate KeyIn(list: seq<Entry>, k: Address)
  {
    exists j :: 0 <= j < |list| && list[j].Key() == k
  }

  /** No two rows of `list` share a key. */
  predicate KeyUnique(list: seq<Entry>)
  {
    forall i, j :: 0 <= i < j < |list| ==> list[i].Key() != list[j].Key()
  }

  /** Growing a list only adds keys. */
  lemma KeyInPrefix(list: seq<Entry>, more: seq<Entry>, k: Address)
    requires KeyIn(list, k)
    ensures KeyIn(list + more, k)
  {
    var j :| 0 <= j < |list| && list[j].Key() == k;
    assert (list + more)[j] == list[j];
  }
}
