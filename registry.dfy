/**
 * The per-chat handle lists of `connected_clients` (app/main.py) and the
 * broadcast loop over them. A handle list is a Python list of WebSocket
 * objects: `append` on join, `remove` (first occurrence) on eviction and on
 * disconnect. The broadcast loop `for client in connected_clients[chat_id]`
 * iterates the live list by position while `remove` shortens it, so the
 * handle right after an evicted one is not visited in that pass.
 */
module Registry {
  import opened Wrappers

  /** A connection handle, standing for one WebSocket object. */
  type Handle = nat

  predicate NoDuplicates(s: seq<Handle>)
  {
    forall i, j :: 0 <= i < j < |s| ==> s[i] != s[j]
  }

  /** The position of the first `x` in `s`, the one `list.remove` and `list.index` find. */
  function FirstIndex(s: seq<Handle>, x: Handle): (r: Option<nat>)
    ensures r.None? <==> x !in s
    ensures r.Some? ==> r.value < |s| && s[r.value] == x && x !in s[..r.value]
  {
    if s == [] then None
    else if s[0] == x then Some(0)
    else match FirstIndex(s[1..], x)
      case None => None
      case Some(j) => assert s[1..][..j] == s[1..j + 1]; Some(j + 1)
  }

  /** Python's `list.remove(x)`: drops the first occurrence of `x` (the `ValueError` of a missing `x` is the caller's). */
  function RemoveFirst(s: seq<Handle>, x: Handle): (r: seq<Handle>)
    ensures x in s ==> |r| == |s| - 1
    ensures x !in s ==> r == s
    ensures forall y :: y in r ==> y in s
  {
    match FirstIndex(s, x)
    case None => s
    case Some(j) =>
      assert forall y :: y in s[..j] + s[j + 1..] ==> y in s[..j] || y in s[j + 1..];
      s[..j] + s[j + 1..]
  }

  /** In a list without duplicates, removing the element at `j` leaves the rest in order. */
  lemma RemoveFirstAt(s: seq<Handle>, j: nat)
    requires NoDuplicates(s) && j < |s|
    ensures RemoveFirst(s, s[j]) == s[..j] + s[j + 1..]
  {
    NotInSuffix(s, j, j + 1);
    RemoveFirstFresh(s, j);
  }

  lemma RemoveFirstFresh(s: seq<Handle>, j: nat)
    requires j < |s| && s[j] !in s[..j]
    ensures RemoveFirst(s, s[j]) == s[..j] + s[j + 1..]
  {
    var r := FirstIndex(s, s[j]);
    assert r.value <= j;
  }

  /** Removing `x` before which it does not occur cuts it out at that place. */
  lemma RemoveFirstSplit(pre: seq<Handle>, x: Handle, post: seq<Handle>)
    requires x !in pre
    ensures RemoveFirst(pre + [x] + post, x) == pre + post
  {
    var s := pre + [x] + post;
    assert s[|pre|] == x;
    assert s[..|pre|] == pre;
    RemoveFirstFresh(s, |pre|);
    assert s[|pre| + 1..] == post;
  }

  lemma RemoveFirstKeepsNoDuplicates(s: seq<Handle>, x: Handle)
    requires NoDuplicates(s)
    ensures NoDuplicates(RemoveFirst(s, x))
    ensures x !in RemoveFirst(s, x)
  {
    if x in s {
      var j :| 0 <= j < |s| && s[j] == x;
      RemoveFirstAt(s, j);
    }
  }

  /** The list with every element of `e` filtered out, order kept. */
  function Without(s: seq<Handle>, e: set<Handle>): (r: seq<Handle>)
    ensures forall y :: y in r <==> y in s && y !in e
  {
    if s == [] then []
    else (if s[0] in e then [] else [s[0]]) + Without(s[1..], e)
  }

  lemma {:induction false} WithoutKeepsNoDuplicates(s: seq<Handle>, e: set<Handle>)
    requires NoDuplicates(s)
    ensures NoDuplicates(Without(s, e))
  {
    if s != [] {
      WithoutKeepsNoDuplicates(s[1..], e);
      assert s[0] !in s[1..];
    }
  }

  lemma {:induction false} WithoutConcat(a: seq<Handle>, b: seq<Handle>, e: set<Handle>)
    ensures Without(a + b, e) == Without(a, e) + Without(b, e)
  {
    if a == [] {
      assert a + b == b;
    } else {
      assert (a + b)[0] == a[0];
      assert (a + b)[1..] == a[1..] + b;
      WithoutConcat(a[1..], b, e);
    }
  }

  lemma {:induction false} WithoutIgnoresAbsent(s: seq<Handle>, e: set<Handle>, x: Handle)
    requires x !in s
    ensures Without(s, e + {x}) == Without(s, e)
  {
    if s != [] {
      WithoutIgnoresAbsent(s[1..], e, x);
    }
  }

  /** The handles whose send raised among those the loop sent to. */
  function Evicted(attempted: seq<Handle>, failing: set<Handle>): set<Handle>
  {
    if attempted == [] then {}
    else (if attempted[0] in failing then {attempted[0]} else {}) + Evicted(attempted[1..], failing)
  }

  lemma {:induction false} EvictedMembers(attempted: seq<Handle>, failing: set<Handle>)
    ensures forall h :: h in Evicted(attempted, failing) <==> h in attempted && h in failing
  {
    if attempted != [] {
      EvictedMembers(attempted[1..], failing);
      assert attempted == [attempted[0]] + attempted[1..];
    }
  }

  /**
   * The broadcast loop as Python runs it, from position `i` of the live
   * list: send to `live[i]`; if that raises, `remove` it and move on to
   * position `i + 1` of the shortened list. Gives the final list and the
   * handles sent to, in order.
   */
  function BroadcastRun(live: seq<Handle>, i: nat, failing: set<Handle>): (seq<Handle>, seq<Handle>)
    decreases |live| + 1 - i
  {
    if i >= |live| then (live, [])
    else
      var c := live[i];
      var next := if c in failing then RemoveFirst(live, c) else live;
      var rest := BroadcastRun(next, i + 1, failing);
      (rest.0, [c] + rest.1)
  }

  /** The shape `BroadcastRunShape` establishes for the pass from position `i`. */
  ghost predicate RunShape(live: seq<Handle>, i: nat, failing: set<Handle>)
    requires i <= |live|
  {
    var run := BroadcastRun(live, i, failing);
    && run.0 == live[..i] + Without(live[i..], Evicted(run.1, failing))
    && (forall x :: x in run.1 ==> x in live[i..])
  }

  lemma NotInSuffix(live: seq<Handle>, i: nat, j: nat)
    requires NoDuplicates(live) && i < j <= |live|
    ensures live[i] !in live[j..]
    ensures live[i] !in live[..i]
  {
  }

  /** Filtering out a removed handle `c` and the earlier evictions `e`, where `d` survives. */
  lemma WithoutEvictStep(c: Handle, d: Handle, rest: seq<Handle>, e: set<Handle>)
    requires c != d && c !in rest && d !in e
    ensures Without([c, d] + rest, e + {c}) == [d] + Without(rest, e)
  {
    assert ([c, d] + rest)[1..] == [d] + rest;
    assert ([d] + rest)[1..] == rest;
    WithoutIgnoresAbsent(rest, e, c);
  }

  /**
   * What the loop leaves from position `i` on: the positions before `i` are
   * untouched, the rest loses exactly the handles that were sent to and
   * failed, and every handle sent to was in the list.
   */
  lemma {:induction false} BroadcastRunShape(live: seq<Handle>, i: nat, failing: set<Handle>)
    requires NoDuplicates(live) && i <= |live|
    ensures RunShape(live, i, failing)
    decreases |live| + 1 - i
  {
    if i == |live| {
      assert live[..i] == live && live[i..] == [];
    } else if live[i] !in failing {
      BroadcastRunShape(live, i + 1, failing);
      RunShapeKeep(live, i, failing);
    } else {
      var c := live[i];
      NotInSuffix(live, i, i + 1);
      assert live == live[..i] + [c] + live[i + 1..];
      RemoveFirstSplit(live[..i], c, live[i + 1..]);
      RemoveFirstKeepsNoDuplicates(live, c);
      var next := live[..i] + live[i + 1..];
      if i + 1 == |live| {
        assert live[i + 1..] == [] && next == live[..i];
        RunShapeEvictLast(live, i, failing);
      } else {
        BroadcastRunShape(next, i + 1, failing);
        NotInSuffix(live, i, i + 2);
        NotInSuffix(live, i + 1, i + 2);
        RunShapeEvict(live, i, failing);
      }
    }
  }

  /** The step of `BroadcastRunShape` where the send succeeds. */
  lemma RunShapeKeep(live: seq<Handle>, i: nat, failing: set<Handle>)
    requires i < |live| && live[i] !in failing
    requires RunShape(live, i + 1, failing)
    ensures RunShape(live, i, failing)
  {
    var c := live[i];
    var run' := BroadcastRun(live, i + 1, failing);
    assert BroadcastRun(live, i, failing) == (run'.0, [c] + run'.1);
    var e := Evicted(run'.1, failing);
    EvictedCons(c, run'.1, failing);
    EvictedMembers(run'.1, failing);
    assert Evicted([c] + run'.1, failing) == e;
    KeepAlgebra(live[..i], c, live[i + 1..], e, run'.0);
    assert live[i..] == [c] + live[i + 1..];
    assert live[..i + 1] == live[..i] + [c];
  }

  lemma KeepAlgebra(pre: seq<Handle>, c: Handle, rest: seq<Handle>, e: set<Handle>, fin': seq<Handle>)
    requires c !in e
    requires fin' == (pre + [c]) + Without(rest, e)
    ensures fin' == pre + Without([c] + rest, e)
  {
    assert ([c] + rest)[1..] == rest;
    assert Without([c] + rest, e) == [c] + Without(rest, e);
    Assoc(pre, [c], Without(rest, e));
  }

  /** The step of `BroadcastRunShape` where the last handle's send raises. */
  lemma RunShapeEvictLast(live: seq<Handle>, i: nat, failing: set<Handle>)
    requires i + 1 == |live| && live[i] in failing
    requires RemoveFirst(live, live[i]) == live[..i]
    ensures RunShape(live, i, failing)
  {
    var c := live[i];
    assert BroadcastRun(live[..i], i + 1, failing) == (live[..i], []);
    var none: seq<Handle> := [];
    assert [c] + none == [c];
    assert BroadcastRun(live, i, failing) == (live[..i], [c]);
    assert [c][1..] == none;
    assert Evicted([c], failing) == {c};
    assert live[i..] == [c];
    assert Without([c], {c}) == [];
  }

  /** The step of `BroadcastRunShape` where a handle other than the last raises. */
  lemma RunShapeEvict(live: seq<Handle>, i: nat, failing: set<Handle>)
    requires i + 1 < |live| && live[i] in failing
    requires live[i] != live[i + 1] && live[i] !in live[i + 2..] && live[i + 1] !in live[i + 2..]
    requires RemoveFirst(live, live[i]) == live[..i] + live[i + 1..]
    requires RunShape(live[..i] + live[i + 1..], i + 1, failing)
    ensures RunShape(live, i, failing)
  {
    var c := live[i];
    var next := live[..i] + live[i + 1..];
    var run' := BroadcastRun(next, i + 1, failing);
    var run := BroadcastRun(live, i, failing);
    assert run == (run'.0, [c] + run'.1);
    assert next[..i + 1] == live[..i] + [live[i + 1]];
    assert next[i + 1..] == live[i + 2..];
    EvictAlgebra(live[..i], c, live[i + 1], live[i + 2..], run'.1, failing, run'.0);
    assert live[i..] == [c, live[i + 1]] + live[i + 2..];
  }

  /** The sequence algebra behind `RunShapeEvict`, with the run's results as plain values. */
  lemma EvictAlgebra(pre: seq<Handle>, c: Handle, d: Handle, rest: seq<Handle>,
                     att': seq<Handle>, failing: set<Handle>, fin': seq<Handle>)
    requires c in failing && c != d && c !in rest && d !in rest
    requires fin' == (pre + [d]) + Without(rest, Evicted(att', failing))
    requires forall x :: x in att' ==> x in rest
    ensures fin' == pre + Without([c, d] + rest, Evicted([c] + att', failing))
    ensures forall x :: x in [c] + att' ==> x in [c, d] + rest
  {
    var e' := Evicted(att', failing);
    EvictedCons(c, att', failing);
    EvictedMembers(att', failing);
    assert d !in e';
    FilterAfterEvict(pre, c, d, rest, e', fin');
  }

  lemma EvictedCons(c: Handle, att: seq<Handle>, failing: set<Handle>)
    ensures Evicted([c] + att, failing) == (if c in failing then {c} else {}) + Evicted(att, failing)
  {
    assert ([c] + att)[1..] == att;
  }

  lemma FilterAfterEvict(pre: seq<Handle>, c: Handle, d: Handle, rest: seq<Handle>, e: set<Handle>, fin': seq<Handle>)
    requires c != d && c !in rest && d !in e
    requires fin' == (pre + [d]) + Without(rest, e)
    ensures fin' == pre + Without([c, d] + rest, {c} + e)
  {
    var w := Without(rest, e);
    WithoutEvictStep(c, d, rest, e);
    assert {c} + e == e + {c};
    assert Without([c, d] + rest, {c} + e) == [d] + w;
    Assoc(pre, [d], w);
  }

  lemma Assoc(a: seq<Handle>, b: seq<Handle>, c: seq<Handle>)
    ensures (a + b) + c == a + (b + c)
  {
  }

  /**
   * What the code guarantees for one pass over a list without duplicates:
   * the result is the list with some handles filtered out, order kept (no
   * handle is added); every handle whose send raised is gone; every handle
   * that is gone was sent to and raised; every handle sent to was registered.
   */
  lemma BroadcastGuarantees(live: seq<Handle>, failing: set<Handle>)
    requires NoDuplicates(live)
    ensures var (fin, att) := BroadcastRun(live, 0, failing);
      && fin == Without(live, Evicted(att, failing))
      && (forall h :: h in att && h in failing ==> h !in fin)
      && (forall h :: h in att ==> h in live)
      && (forall h :: h in live && h !in fin ==> h in att && h in failing)
  {
    BroadcastRunShape(live, 0, failing);
    assert live[..0] == [] && live[0..] == live;
    EvictedMembers(BroadcastRun(live, 0, failing).1, failing);
  }

  /**
   * The live-list iteration can miss a healthy client: with `[0, 1]`
   * registered and the send to 0 failing, 1 is never sent to, yet stays.
   */
  lemma BroadcastSkipsAfterEviction()
    ensures BroadcastRun([0, 1], 0, {0}) == ([1], [0])
  {
    assert RemoveFirst([0, 1], 0) == [1];
    assert BroadcastRun([1], 1, {0}) == ([1], []);
    var none: seq<Handle> := [];
    assert [0] + none == [0];
  }

  /** The intended broadcast over a point-in-time copy of the list. */
  function BroadcastSnapshotRun(live: seq<Handle>, snapshot: seq<Handle>, i: nat, failing: set<Handle>): (seq<Handle>, seq<Handle>)
    requires i <= |snapshot|
    decreases |snapshot| - i
  {
    if i == |snapshot| then (live, [])
    else
      var c := snapshot[i];
      var next := if c in failing then RemoveFirst(live, c) else live;
      var rest := BroadcastSnapshotRun(next, snapshot, i + 1, failing);
      (rest.0, [c] + rest.1)
  }

  /**
   * Iterating over a copy, every registered handle is sent to once, in
   * order, and the final list is the old one without the failing handles.
   */
  lemma {:induction false} BroadcastSnapshotDelivers(live: seq<Handle>, snapshot: seq<Handle>, i: nat, failing: set<Handle>)
    requires NoDuplicates(snapshot) && i <= |snapshot|
    requires live == Without(snapshot[..i], failing) + snapshot[i..]
    ensures BroadcastSnapshotRun(live, snapshot, i, failing).0 == Without(snapshot, failing)
    ensures BroadcastSnapshotRun(live, snapshot, i, failing).1 == snapshot[i..]
    decreases |snapshot| - i
  {
    if i == |snapshot| {
      SnapshotDone(live, snapshot, failing);
    } else {
      var c := snapshot[i];
      var next := if c in failing then RemoveFirst(live, c) else live;
      NotInSuffix(snapshot, i, i + 1);
      SnapshotStep(live, snapshot, i, failing);
      BroadcastSnapshotDelivers(next, snapshot, i + 1, failing);
      SnapshotRunCons(live, snapshot, i, failing);
    }
  }

  /** The end of the snapshot loop: the list is fully filtered and nothing is left to send. */
  lemma SnapshotDone(live: seq<Handle>, snapshot: seq<Handle>, failing: set<Handle>)
    requires live == Without(snapshot[..|snapshot|], failing) + snapshot[|snapshot|..]
    ensures BroadcastSnapshotRun(live, snapshot, |snapshot|, failing) == (Without(snapshot, failing), snapshot[|snapshot|..])
  {
    assert snapshot[..|snapshot|] == snapshot;
    var w := Without(snapshot, failing);
    var none: seq<Handle> := snapshot[|snapshot|..];
    assert none == [];
    assert live == w + none == w;
  }

  /** One unfolding of the snapshot loop at position `i`. */
  lemma SnapshotRunCons(live: seq<Handle>, snapshot: seq<Handle>, i: nat, failing: set<Handle>)
    requires i < |snapshot|
    ensures var c := snapshot[i];
      var next := if c in failing then RemoveFirst(live, c) else live;
      var run' := BroadcastSnapshotRun(next, snapshot, i + 1, failing);
      && BroadcastSnapshotRun(live, snapshot, i, failing) == (run'.0, [c] + run'.1)
      && snapshot[i..] == [c] + snapshot[i + 1..]
  {
  }

  /** One step of `BroadcastSnapshotDelivers`: the list stays "filtered prefix, untouched rest". */
  lemma SnapshotStep(live: seq<Handle>, snapshot: seq<Handle>, i: nat, failing: set<Handle>)
    requires i < |snapshot| && snapshot[i] !in snapshot[..i]
    requires live == Without(snapshot[..i], failing) + snapshot[i..]
    ensures var c := snapshot[i];
      var next := if c in failing then RemoveFirst(live, c) else live;
      next == Without(snapshot[..i + 1], failing) + snapshot[i + 1..]
    ensures snapshot[..i + 1] == snapshot[..i] + [snapshot[i]]
  {
    var c := snapshot[i];
    var pre := Without(snapshot[..i], failing);
    var post := snapshot[i + 1..];
    SnapshotSplit(snapshot, i, failing);
    assert live == pre + [c] + post;
    if c in failing {
      RemoveFirstSplit(pre, c, post);
    } else {
      Assoc(pre, [c], post);
    }
  }

  /** The list `Without(snapshot[..i]) + snapshot[i..]` cut around position `i`. */
  lemma SnapshotSplit(snapshot: seq<Handle>, i: nat, failing: set<Handle>)
    requires i < |snapshot| && snapshot[i] !in snapshot[..i]
    ensures var c, pre, post := snapshot[i], Without(snapshot[..i], failing), snapshot[i + 1..];
      && Without(snapshot[..i], failing) + snapshot[i..] == pre + [c] + post
      && c !in pre
      && Without(snapshot[..i + 1], failing) == if c in failing then pre else pre + [c]
  {
    var c := snapshot[i];
    assert snapshot[i..] == [c] + snapshot[i + 1..];
    assert snapshot[..i + 1] == snapshot[..i] + [c];
    WithoutConcat(snapshot[..i], [c], failing);
    assert [c][1..] == [];
  }
}
