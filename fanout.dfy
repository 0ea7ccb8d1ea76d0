/** How many peers a gossip round contacts and which: `log2(n)` distinct
    indices of the member list, one when the list has a single row. */
module Fanout {

  function Pow2(k: nat): nat
  {
    if k == 0 then 1 else 2 * Pow2(k - 1)
  }

  /** `log2(n)` truncated to an integer, as the assignment to `int` does. */
  function FloorLog2(n: nat): nat
    requires n >= 1
  {
    if n < 2 then 0 else 1 + FloorLog2(n / 2)
  }

  /** FloorLog2 is the floor of the base-2 logarithm. */
  lemma {:induction false} FloorLog2Bounds(n: nat)
    requires n >= 1
    ensures Pow2(FloorLog2(n)) <= n < Pow2(FloorLog2(n) + 1)
  {
    if n >= 2 {
      FloorLog2Bounds(n / 2);
    }
  }

  /** The number of peers a round selects out of `n` rows. An empty list
      selects none. */
  function FanoutCount(n: nat): nat
  {
    if n == 0 then 0 else if n == 1 then 1 else FloorLog2(n)
  }

  lemma {:induction false} FloorLog2BelowN(n: nat)
    requires n >= 2
    ensures 1 <= FloorLog2(n) <= n - 1
  {
    if n / 2 >= 2 {
      FloorLog2BelowN(n / 2);
    }
  }

  /** One peer for a single row; otherwise between 1 and n - 1, so a round
      with at least one row always gossips and never needs every row. */
  lemma FanoutCountBounds(n: nat)
    ensures n == 1 ==> FanoutCount(n) == 1
    ensures n >= 2 ==> 1 <= FanoutCount(n) <= n - 1
    ensures FanoutCount(n) <= n
  {
    if n >= 2 {
      FloorLog2BelowN(n);
    }
  }

  predicate Distinct(s: seq<nat>)
  {
    forall a, b :: 0 <= a < b < |s| ==> s[a] != s[b]
  }

  /** Distinct indices below `n` that include every index below `n` number at least `n`. */
  lemma {:induction false} CoverNeedsAll(s: seq<nat>, n: nat)
    requires Distinct(s)
    requires forall k :: 0 <= k < |s| ==> s[k] < n
    requires forall p: nat :: p < n ==> p in s
    ensures |s| >= n
  {
    if n > 0 {
      assert n - 1 in s;
      var m :| 0 <= m < |s| && s[m] == n - 1;
      var rest := s[..m] + s[m + 1..];
      assert forall k :: 0 <= k < |rest| ==> rest[k] == (if k < m then s[k] else s[k + 1]);
      forall p: nat | p < n - 1
        ensures p in rest
      {
        assert p in s;
        var i :| 0 <= i < |s| && s[i] == p;
        assert rest[if i < m then i else i - 1] == p;
      }
      CoverNeedsAll(rest, n - 1);
    }
  }

  /** Fewer than `n` distinct indices below `n` leave some index unpicked. */
  lemma UnpickedIndexExists(selected: seq<nat>, n: nat)
    requires Distinct(selected) && |selected| < n
    requires forall k :: 0 <= k < |selected| ==> selected[k] < n
    ensures exists p: nat :: p < n && p !in selected
  {
    if forall p: nat :: p < n ==> p in selected {
      CoverNeedsAll(selected, n);
      assert false;
    }
  }

  /** The selection loop: keeps drawing indices below `n` until it holds
      FanoutCount(n) distinct ones. A draw that repeats an index already
      selected changes nothing, so each modelled iteration is a draw of an
      index not yet selected. */
  method SelectPeers(n: nat) returns (selected: seq<nat>)
    ensures |selected| == FanoutCount(n)
    ensures forall k :: 0 <= k < |selected| ==> selected[k] < n
    ensures Distinct(selected)
  {
    var numSelected := FanoutCount(n);
    FanoutCountBounds(n);
    selected := [];
    while |selected| < numSelected
      invariant |selected| <= numSelected
      invariant forall k :: 0 <= k < |selected| ==> selected[k] < n
      invariant Distinct(selected)
      decreases numSelected - |selected|
    {
      UnpickedIndexExists(selected, n);
      var pick: nat :| pick < n && pick !in selected;
      selected := selected + [pick];
    }
  }
}
