/** The failure-detection step of a gossip round: every row whose age has
    reached TREMOVE is erased. */
module Eviction {
  import opened Members

  /** The rows a round keeps, in their original order: those younger than TREMOVE. */
  function Live(list: seq<Entry>, now: int): seq<Entry>
  {
    if list == [] then []
    else (if Stale(list[0], now) then [] else [list[0]]) + Live(list[1..], now)
  }

  /** Unfolding `Live` at position `i`, in the shape the backward erase loop needs. */
  lemma LiveStep(list: seq<Entry>, i: int, now: int)
    requires 0 <= i < |list|
    ensures list[..i + 1] == list[..i] + [list[i]]
    ensures Live(list[i..], now) == (if Stale(list[i], now) then [] else [list[i]]) + Live(list[i + 1..], now)
  {
    assert list[i..][1..] == list[i + 1..];
  }

  /** A row survives the round exactly when it was in the list and is not stale. */
  lemma {:induction false} LiveExact(list: seq<Entry>, now: int)
    ensures forall e :: e in Live(list, now) <==> e in list && !Stale(e, now)
  {
    if list != [] {
      LiveExact(list[1..], now);
      assert list == [list[0]] + list[1..];
    }
  }

  /** Eviction works row by row and keeps the order: filtering a
      concatenation filters each part. */
  lemma {:induction false} LiveConcat(a: seq<Entry>, b: seq<Entry>, now: int)
    ensures Live(a + b, now) == Live(a, now) + Live(b, now)
  {
    if a != [] {
      var head := if Stale(a[0], now) then [] else [a[0]];
      assert (a + b)[0] == a[0];
      assert (a + b)[1..] == a[1..] + b;
      LiveConcat(a[1..], b, now);
      assert Live(a + b, now) == head + Live(a[1..] + b, now);
      assert Live(a, now) == head + Live(a[1..], now);
    } else {
      assert a + b == b;
    }
  }

  /** A list with no stale row comes through eviction unchanged, and a
      list's surviving rows never outnumber it. */
  lemma {:induction false} LiveKeepsFreshList(list: seq<Entry>, now: int)
    ensures |Live(list, now)| <= |list|
    ensures (forall k :: 0 <= k < |list| ==> !Stale(list[k], now)) ==> Live(list, now) == list
  {
    if list != [] {
      LiveKeepsFreshList(list[1..], now);
      if forall k :: 0 <= k < |list| ==> !Stale(list[k], now) {
        assert forall k :: 0 <= k < |list[1..]| ==> list[1..][k] == list[k + 1];
        assert list == [list[0]] + list[1..];
      }
    }
  }

  /** A row last refreshed at `t0` is still present at `t0 + TREMOVE - 1`
      and is gone at `t0 + TREMOVE`. */
  lemma EvictionBoundary(list: seq<Entry>, e: Entry, t0: int)
    requires e in list && e.timestamp == t0
    ensures e in Live(list, t0 + TREMOVE - 1)
    ensures e !in Live(list, t0 + TREMOVE)
  {
    LiveExact(list, t0 + TREMOVE - 1);
    LiveExact(list, t0 + TREMOVE);
  }
}
