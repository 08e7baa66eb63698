/** The behaviour `remove` and the watchdog evidently aim at, next to the
    behaviour the code has, with inputs that tell the two apart. */
module Corrected {
  import opened Values
  import opened Subsequences
  import opened Timers

  /** `remove` as intended: the entry named `n` is deleted, whatever its
      state; other entries stay. */
  function RemoveNamed(ts: seq<Entry>, n: string): (r: seq<Entry>)
    ensures n !in Names(ts) ==> r == ts
    ensures forall i :: Named(ts, n, i) ==> r == ts[..i] + ts[i+1..]
  {
    match Find(ts, n)
    case None => ts
    case Some(i) => ts[..i] + ts[i+1..]
  }

  /** Deleting position `i` keeps exactly the names held at other positions. */
  lemma DeleteAtNames(ts: seq<Entry>, i: nat, x: string)
    requires i < |ts|
    ensures x in Names(ts[..i] + ts[i+1..]) <==> exists j :: 0 <= j < |ts| && j != i && ts[j].name == x
  {
    var r := ts[..i] + ts[i+1..];
    if x in Names(r) {
      var j :| 0 <= j < |r| && r[j].name == x;
      if j < i {
        assert r[j] == ts[j];
      } else {
        assert r[j] == ts[j+1];
      }
    }
    if exists j :: 0 <= j < |ts| && j != i && ts[j].name == x {
      var j :| 0 <= j < |ts| && j != i && ts[j].name == x;
      if j < i {
        assert r[j] == ts[j];
      } else {
        assert r[j-1] == ts[j];
      }
    }
  }

  /** With unique names the named entry is gone afterwards and every other
      name is still there. */
  lemma RemoveNamedDeletesOnlyThatName(ts: seq<Entry>, n: string)
    requires UniqueNames(ts)
    ensures n !in Names(RemoveNamed(ts, n))
    ensures forall x :: x != n ==> (x in Names(RemoveNamed(ts, n)) <==> x in Names(ts))
  {
    match Find(ts, n)
    case None =>
    case Some(i) =>
      DeleteAtNames(ts, i, n);
      forall x | x != n
        ensures x in Names(RemoveNamed(ts, n)) <==> x in Names(ts)
      {
        DeleteAtNames(ts, i, x);
      }
  }

  /** The code as written: removing the stopped entry `b` deletes the running
      entry `x` instead, and `x`'s task is never cleared. The intended
      removal deletes `b`. */
  lemma RemoveOfPausedEntryDeletesFirst()
    ensures var x := Entry("x", 100, true, 0, [], true);
            var b := Entry("b", 100, true, 1, [], false);
            && Timers.Remove([x, b], "b") == [b] && Orphaned([x, b], "b") == [x]
            && RemoveNamed([x, b], "b") == [x]
  {
    var x := Entry("x", 100, true, 0, [], true);
    var b := Entry("b", 100, true, 1, [], false);
    assert Named([x, b], "b", 1);
  }

  /** The watchdog as intended: remove, by name, every entry present when it
      fires (the names are read before the list starts to shrink). */
  function RemoveAll(ts: seq<Entry>, names: seq<string>): seq<Entry>
    decreases |names|
  {
    if names == [] then ts else RemoveAll(RemoveNamed(ts, names[0]), names[1..])
  }

  function SweepAll(ts: seq<Entry>): (r: seq<Entry>)
    ensures r == []
  {
    RemoveAllNames(ts);
    RemoveAll(ts, Names(ts))
  }

  /** Removing the names of a list, in order, empties it. */
  lemma {:induction false} RemoveAllNames(ts: seq<Entry>)
    ensures RemoveAll(ts, Names(ts)) == []
    decreases |ts|
  {
    if ts != [] {
      assert Named(ts, ts[0].name, 0);
      assert RemoveNamed(ts, ts[0].name) == ts[1..];
      assert Names(ts)[1..] == Names(ts[1..]);
      RemoveAllNames(ts[1..]);
    }
  }

  /** Deleting position `i` of a list with unique names keeps exactly the
      entries whose name differs from the deleted one. */
  lemma DeleteAtMember(ts: seq<Entry>, i: nat, e: Entry)
    requires UniqueNames(ts) && i < |ts|
    ensures e in ts[..i] + ts[i+1..] <==> e in ts && e.name != ts[i].name
  {
    var r := ts[..i] + ts[i+1..];
    if e in r {
      var j :| 0 <= j < |r| && r[j] == e;
      if j < i {
        assert r[j] == ts[j];
      } else {
        assert r[j] == ts[j+1];
      }
    }
    if e in ts && e.name != ts[i].name {
      var j :| 0 <= j < |ts| && ts[j] == e;
      if j < i {
        assert r[j] == ts[j];
      } else {
        assert r[j-1] == ts[j];
      }
    }
  }

  /** With unique names, the intended remove keeps exactly the entries of the
      other names, in their order. */
  lemma RemoveNamedKeeps(ts: seq<Entry>, n: string)
    requires UniqueNames(ts)
    ensures Subseq(RemoveNamed(ts, n), ts) && UniqueNames(RemoveNamed(ts, n))
    ensures forall e :: e in RemoveNamed(ts, n) <==> e in ts && e.name != n
  {
    var r := RemoveNamed(ts, n);
    match Find(ts, n)
    case None =>
      SubseqRefl(ts);
      forall e | e in ts
        ensures e.name != n
      {
        var j :| 0 <= j < |ts| && ts[j] == e;
        assert Names(ts)[j] == e.name;
      }
    case Some(i) =>
      SubseqDelete(ts, i);
      SubseqKeepsNamesUnique(r, ts);
      forall e
        ensures e in r <==> e in ts && e.name != n
      {
        DeleteAtMember(ts, i, e);
      }
  }

  /** With unique names, removing a list of names keeps exactly the entries
      whose names are not in it, in their order. */
  lemma {:induction false} RemoveAllKeeps(ts: seq<Entry>, ns: seq<string>)
    requires UniqueNames(ts)
    ensures Subseq(RemoveAll(ts, ns), ts)
    ensures forall e :: e in RemoveAll(ts, ns) <==> e in ts && e.name !in ns
    decreases |ns|
  {
    if ns == [] {
      SubseqRefl(ts);
    } else {
      var next := RemoveNamed(ts, ns[0]);
      RemoveNamedKeeps(ts, ns[0]);
      RemoveAllKeeps(next, ns[1..]);
      SubseqTrans(RemoveAll(next, ns[1..]), next, ts);
      assert forall x :: x in ns <==> x == ns[0] || x in ns[1..];
    }
  }

  /** Two running timers: the watchdog as written leaves the second one running
      in the list, while the intended sweep leaves nothing. */
  lemma SweepLeavesSecondRunning()
    ensures var a := Entry("a", 100, true, 0, [], true);
            var b := Entry("b", 200, true, 1, [], true);
            Sweep([a, b]) == [b] && SweepAll([a, b]) == []
  {
  }
}
