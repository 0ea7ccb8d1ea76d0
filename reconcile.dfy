/** The anti-entropy merge of `updateMemberList`: an update pass that raises
    stored heartbeats, then an append pass that adds unseen keys. These are
    the specification functions `NodeState.MP1Node.UpdateMemberList` is proved
    against, and the lemmas state what the merge guarantees. */
module Reconcile {
  import opened Members

  /** One step of the update pass's inner loop: `e` takes `x`'s heartbeat,
      and the time `now`, when the keys match and `x` is strictly newer. */
  function Raise(e: Entry, x: Entry, now: int): Entry
  {
    if e.Key() == x.Key() && e.heartbeat < x.heartbeat
    then e.(heartbeat := x.heartbeat, timestamp := now)
    else e
  }

  /** A stored row after the inner loop has run over all of `incoming`. */
  function UpdateEntry(e: Entry, incoming: seq<Entry>, now: int): Entry
    decreases |incoming|
  {
    if incoming == [] then e
    else Raise(UpdateEntry(e, incoming[..|incoming| - 1], now), incoming[|incoming| - 1], now)
  }

  /** The list after the update pass: every row is updated in place, on
      its own. */
  function UpdatePass(list: seq<Entry>, incoming: seq<Entry>, now: int): (r: seq<Entry>)
    ensures |r| == |list|
    ensures forall k :: 0 <= k < |list| ==> r[k] == UpdateEntry(list[k], incoming, now)
    decreases |list|
  {
    if list == [] then []
    else UpdatePass(list[..|list| - 1], incoming, now) + [UpdateEntry(list[|list| - 1], incoming, now)]
  }

  /** Whether the append pass adds `x` to `list`: `x` is not the node itself,
      its key is unseen, and it is not stale -- where staleness is only
      looked at while scanning a non-empty list. */
  predicate Admits(list: seq<Entry>, x: Entry, self: Address, now: int)
  {
    x.Key() != self && !KeyIn(list, x.Key()) && !(|list| > 0 && Stale(x, now))
  }

  function AdmitOne(list: seq<Entry>, x: Entry, self: Address, now: int): seq<Entry>
  {
    if Admits(list, x, self, now) then list + [x] else list
  }

  /** The list after the append pass has looked at every incoming row in order. */
  function AppendPass(list: seq<Entry>, incoming: seq<Entry>, self: Address, now: int): seq<Entry>
    decreases |incoming|
  {
    if incoming == [] then list
    else AdmitOne(AppendPass(list, incoming[..|incoming| - 1], self, now), incoming[|incoming| - 1], self, now)
  }

  /** The whole of `updateMemberList`. */
  function Merge(list: seq<Entry>, incoming: seq<Entry>, self: Address, now: int): seq<Entry>
  {
    AppendPass(UpdatePass(list, incoming, now), incoming, self, now)
  }

  /** `r` is `e` with its heartbeat raised to the largest heartbeat that
      `incoming` reports for `e`'s key (or kept, when none is larger), and its
      timestamp set to `now` exactly when the heartbeat rose. */
  ghost predicate RaisedTo(e: Entry, incoming: seq<Entry>, now: int, r: Entry)
  {
    && r.Key() == e.Key()
    && r.heartbeat >= e.heartbeat
    && (forall j :: 0 <= j < |incoming| && incoming[j].Key() == e.Key() ==> incoming[j].heartbeat <= r.heartbeat)
    && (r.heartbeat == e.heartbeat
        || exists j :: 0 <= j < |incoming| && incoming[j].Key() == e.Key() && incoming[j].heartbeat == r.heartbeat)
    && r.timestamp == (if r.heartbeat > e.heartbeat then now else e.timestamp)
  }

  lemma {:induction false} UpdateEntryIsMax(e: Entry, incoming: seq<Entry>, now: int)
    ensures RaisedTo(e, incoming, now, UpdateEntry(e, incoming, now))
    decreases |incoming|
  {
    if incoming != [] {
      var n := |incoming| - 1;
      var front := incoming[..n];
      UpdateEntryIsMax(e, front, now);
      var prev := UpdateEntry(e, front, now);
      var r := UpdateEntry(e, incoming, now);
      assert r == Raise(prev, incoming[n], now);
      forall j | 0 <= j < n
        ensures incoming[j] == front[j]
      {
      }
      if r != prev {
        assert incoming[n].Key() == e.Key() && incoming[n].heartbeat == r.heartbeat;
      } else if prev.heartbeat != e.heartbeat {
        var j :| 0 <= j < |front| && front[j].Key() == e.Key() && front[j].heartbeat == prev.heartbeat;
        assert incoming[j] == front[j];
      }
    }
  }

  /** A row already at least as new as every matching incoming row is left alone. */
  lemma UpdateEntryUnchanged(e: Entry, incoming: seq<Entry>, now: int)
    requires forall j :: 0 <= j < |incoming| && incoming[j].Key() == e.Key() ==> incoming[j].heartbeat <= e.heartbeat
    ensures UpdateEntry(e, incoming, now) == e
  {
    UpdateEntryIsMax(e, incoming, now);
  }

  /** Merge keeps every stored row in place, with its key, and raises its
      heartbeat to the maximum reported for that key, refreshing its
      timestamp exactly when the heartbeat rose. */
  lemma MergeRaisesStoredRows(list: seq<Entry>, incoming: seq<Entry>, self: Address, now: int)
    ensures |Merge(list, incoming, self, now)| >= |list|
    ensures forall k :: 0 <= k < |list| ==> RaisedTo(list[k], incoming, now, Merge(list, incoming, self, now)[k])
  {
    var u := UpdatePass(list, incoming, now);
    AppendPassShape(u, incoming, self, now);
    forall k | 0 <= k < |list|
      ensures RaisedTo(list[k], incoming, now, Merge(list, incoming, self, now)[k])
    {
      UpdateEntryIsMax(list[k], incoming, now);
    }
  }

  /** What the append pass adds: rows of `incoming`, unchanged, none of them
      the node itself, none with a key already in the list before it, and
      none stale unless it went into an empty list. */
  ghost predicate AppendedRow(r: seq<Entry>, k: int, incoming: seq<Entry>, self: Address, now: int)
    requires 0 <= k < |r|
  {
    && r[k] in incoming
    && r[k].Key() != self
    && !KeyIn(r[..k], r[k].Key())
    && (k > 0 ==> !Stale(r[k], now))
  }

  lemma {:induction false} AppendPassShape(list: seq<Entry>, incoming: seq<Entry>, self: Address, now: int)
    ensures |AppendPass(list, incoming, self, now)| >= |list|
    ensures AppendPass(list, incoming, self, now)[..|list|] == list
    ensures forall k :: |list| <= k < |AppendPass(list, incoming, self, now)| ==>
              AppendedRow(AppendPass(list, incoming, self, now), k, incoming, self, now)
    decreases |incoming|
  {
    if incoming != [] {
      var n := |incoming| - 1;
      var front := incoming[..n];
      AppendPassShape(list, front, self, now);
      var p := AppendPass(list, front, self, now);
      var r := AppendPass(list, incoming, self, now);
      assert r == AdmitOne(p, incoming[n], self, now);
      forall k | |list| <= k < |r|
        ensures AppendedRow(r, k, incoming, self, now)
      {
        if k < |p| {
          assert AppendedRow(p, k, front, self, now);
          assert r[..k] == p[..k];
          assert p[k] in front;
        } else {
          assert r[..k] == p;
        }
      }
    }
  }

  /** Once the append pass is done, no incoming row would be admitted any
      more: each is the node itself, already present, or stale against a
      non-empty list. */
  lemma {:induction false} AppendPassSaturates(list: seq<Entry>, incoming: seq<Entry>, self: Address, now: int)
    ensures forall x :: x in incoming ==> !Admits(AppendPass(list, incoming, self, now), x, self, now)
    decreases |incoming|
  {
    if incoming != [] {
      var n := |incoming| - 1;
      var front := incoming[..n];
      AppendPassSaturates(list, front, self, now);
      var p := AppendPass(list, front, self, now);
      var r := AppendPass(list, incoming, self, now);
      assert r == AdmitOne(p, incoming[n], self, now);
      var more := r[|p|..];
      assert r == p + more;
      forall x | x in incoming
        ensures !Admits(r, x, self, now)
      {
        if x == incoming[n] && Admits(p, x, self, now) {
          assert r[|p|] == x;
        } else {
          if x != incoming[n] {
            assert incoming == front + [incoming[n]];
            assert x in front;
          }
          if KeyIn(p, x.Key()) {
            KeyInPrefix(p, more, x.Key());
          }
        }
      }
    }
  }

  /** An append pass in which nothing is admitted leaves the list alone. */
  lemma {:induction false} AppendPassNothingAdmitted(list: seq<Entry>, incoming: seq<Entry>, self: Address, now: int)
    requires forall x :: x in incoming ==> !Admits(list, x, self, now)
    ensures AppendPass(list, incoming, self, now) == list
    decreases |incoming|
  {
    if incoming != [] {
      var n := |incoming| - 1;
      assert forall x :: x in incoming[..n] ==> x in incoming;
      AppendPassNothingAdmitted(list, incoming[..n], self, now);
    }
  }

  /** Merge never adds a row for the node's own address. */
  lemma MergeExcludesSelf(list: seq<Entry>, incoming: seq<Entry>, self: Address, now: int)
    ensures forall k :: |list| <= k < |Merge(list, incoming, self, now)| ==>
              Merge(list, incoming, self, now)[k].Key() != self
    ensures !KeyIn(list, self) ==> !KeyIn(Merge(list, incoming, self, now), self)
  {
    var u := UpdatePass(list, incoming, now);
    var r := Merge(list, incoming, self, now);
    AppendPassShape(u, incoming, self, now);
    assert |u| == |list|;
    forall k | |list| <= k < |r|
      ensures r[k].Key() != self
    {
      assert AppendedRow(r, k, incoming, self, now);
    }
    if !KeyIn(list, self) {
      forall j | 0 <= j < |list|
        ensures r[j].Key() != self
      {
        UpdateEntryIsMax(list[j], incoming, now);
      }
    }
  }

  /** Merge only appends: what it adds are incoming rows, unchanged, whose
      keys were not in the list before them; so a key-unique list stays
      key-unique. Appended rows are never stale, except a first row
      appended into an empty list. */
  lemma MergeAppendsUnseenKeys(list: seq<Entry>, incoming: seq<Entry>, self: Address, now: int)
    ensures forall k :: |list| <= k < |Merge(list, incoming, self, now)| ==>
              AppendedRow(Merge(list, incoming, self, now), k, incoming, self, now)
    ensures KeyUnique(list) ==> KeyUnique(Merge(list, incoming, self, now))
  {
    var u := UpdatePass(list, incoming, now);
    var r := Merge(list, incoming, self, now);
    AppendPassShape(u, incoming, self, now);
    if KeyUnique(list) {
      forall i, j | 0 <= i < j < |r|
        ensures r[i].Key() != r[j].Key()
      {
        if j < |list| {
          UpdateEntryIsMax(list[i], incoming, now);
          UpdateEntryIsMax(list[j], incoming, now);
        } else {
          assert AppendedRow(r, j, incoming, self, now);
          assert r[..j][i] == r[i];
        }
      }
    }
  }

  /** Every incoming row that is not the node itself and not stale has its
      key in the merged list. */
  lemma MergeCoversFreshRows(list: seq<Entry>, incoming: seq<Entry>, self: Address, now: int)
    ensures forall x :: x in incoming && x.Key() != self && !Stale(x, now) ==>
              KeyIn(Merge(list, incoming, self, now), x.Key())
  {
    AppendPassSaturates(UpdatePass(list, incoming, now), incoming, self, now);
  }

  /** Merging the same key-unique rows twice at the same time is the same
      as merging them once. */
  lemma MergeIdempotent(list: seq<Entry>, incoming: seq<Entry>, self: Address, now: int)
    requires KeyUnique(incoming)
    ensures Merge(Merge(list, incoming, self, now), incoming, self, now) == Merge(list, incoming, self, now)
  {
    var m := Merge(list, incoming, self, now);
    MergeRaisesStoredRows(list, incoming, self, now);
    MergeAppendsUnseenKeys(list, incoming, self, now);
    forall k | 0 <= k < |m|
      ensures UpdateEntry(m[k], incoming, now) == m[k]
    {
      if k >= |list| {
        assert AppendedRow(m, k, incoming, self, now);
        var i :| 0 <= i < |incoming| && incoming[i] == m[k];
        forall j | 0 <= j < |incoming| && incoming[j].Key() == m[k].Key()
          ensures incoming[j].heartbeat <= m[k].heartbeat
        {
          assert j == i;
        }
      } else {
        assert RaisedTo(list[k], incoming, now, m[k]);
      }
      UpdateEntryUnchanged(m[k], incoming, now);
    }
    assert UpdatePass(m, incoming, now) == m;
    AppendPassSaturates(UpdatePass(list, incoming, now), incoming, self, now);
    AppendPassNothingAdmitted(m, incoming, self, now);
  }

  /** The stale check runs only while scanning stored rows, so a stale row is
      let into an empty list. */
  lemma StaleRowEntersEmptyList(x: Entry, self: Address, now: int)
    requires x.Key() != self && Stale(x, now)
    ensures Merge([], [x], self, now) == [x]
  {
    assert [x][..0] == [];
    assert UpdatePass([], [x], now) == [];
    assert AppendPass([], [x], self, now) == AdmitOne(AppendPass([], [], self, now), x, self, now);
  }

  /** ...but never into a non-empty one. */
  lemma StaleRowKeptOutOfNonEmptyList(list: seq<Entry>, x: Entry, self: Address, now: int)
    requires |list| > 0 && Stale(x, now)
    ensures |Merge(list, [x], self, now)| == |list|
  {
    var u := UpdatePass(list, [x], now);
    assert [x][..0] == [];
    assert |u| == |list|;
    assert AppendPass(u, [x], self, now) == AdmitOne(AppendPass(u, [], self, now), x, self, now);
  }

  /** Of two incoming rows with the same key, an empty list takes only the
      first, even when the second is newer; the newer heartbeat lands only
      on a second merge. So merging twice can differ from merging once when
      `incoming` repeats a key. */
  lemma FirstOfDuplicateKeysWins(x: Entry, y: Entry, self: Address, now: int)
    requires x.Key() == y.Key() && x.Key() != self && x.heartbeat < y.heartbeat
    ensures Merge([], [x, y], self, now) == [x]
    ensures Merge([x], [x, y], self, now) == [x.(heartbeat := y.heartbeat, timestamp := now)]
  {
    assert [x, y][..1] == [x] && [x][..0] == [];
    assert AppendPass([], [x], self, now) == [x];
    assert UpdatePass([], [x, y], now) == [];
    var z := x.(heartbeat := y.heartbeat, timestamp := now);
    assert UpdateEntry(x, [x], now) == x;
    assert UpdateEntry(x, [x, y], now) == z;
    assert UpdatePass([x], [x, y], now) == [z];
    assert AppendPass([z], [x], self, now) == [z];
  }
}
