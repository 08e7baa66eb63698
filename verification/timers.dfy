/** The ordered list of timer entries (`this.timers`) and the transitions the
    manager applies to it. The host scheduler is abstracted away: an entry's
    `task` handle is reduced to whether it is set (`active`). */
module Timers {
  import opened Values
  import opened Validation
  import opened Subsequences

  /** A stored timer. `job` is the identity of the job function; `active` says
      whether `task` holds a live setTimeout/setInterval handle. */
  datatype Entry = Entry(
    name: string,
    delay: int,
    interval: bool,
    job: nat,
    params: seq<Value>,
    active: bool)

  /** What `pause` and `resume` return: -1, null, or the entry's index. */
  datatype Lookup = NotFound | Unchanged | At(index: nat)

  /** Two entries describe the same timer, whatever their task state. */
  predicate SameTimer(a: Entry, b: Entry)
  {
    a.name == b.name && a.delay == b.delay && a.interval == b.interval &&
    a.job == b.job && a.params == b.params
  }

  function Names(ts: seq<Entry>): (ns: seq<string>)
    ensures |ns| == |ts|
    ensures forall i :: 0 <= i < |ts| ==> ns[i] == ts[i].name
  {
    seq(|ts|, i requires 0 <= i < |ts| => ts[i].name)
  }

  predicate UniqueNames(ts: seq<Entry>)
  {
    forall i, j :: 0 <= i < j < |ts| ==> ts[i].name != ts[j].name
  }

  /** `i` is the first position holding an entry named `n`: where the
      manager's linear searches stop. */
  predicate Named(ts: seq<Entry>, n: string, i: int)
  {
    0 <= i < |ts| && ts[i].name == n && forall j :: 0 <= j < i ==> ts[j].name != n
  }

  /** With unique names, the first entry named `n` is the only one. */
  lemma NamedWhenUnique(ts: seq<Entry>, i: int)
    requires UniqueNames(ts) && 0 <= i < |ts|
    ensures Named(ts, ts[i].name, i)
  {
  }

  // ---------------------------------------------------------------- add

  /** The truthiness of the definition's own `task` property: `add` stores the
      definition object itself, so a truthy `task` reads as a running task. */
  predicate TaskTruthy(fs: seq<Field>)
  {
    match Get(fs, "task")
    case Some(v) => Truthy(v)
    case None => false
  }

  /** The entry an accepted definition becomes. */
  predicate Describes(fs: seq<Field>, e: Entry)
  {
    && Field("name", Str(e.name)) in fs
    && Field("delay", Num(e.delay)) in fs
    && Field("interval", Bool(e.interval)) in fs
    && Field("job", Func(e.job)) in fs
  }

  function NewEntry(fs: seq<Field>, params: seq<Value>): (e: Entry)
    requires AllWellTyped(fs) && HasRequired(fs)
    ensures Describes(fs, e) && ValidDelay(e.delay)
    ensures e.params == params
    ensures e.active <==> TaskTruthy(fs)
  {
    var name := Get(fs, "name").value;
    var delay := Get(fs, "delay").value;
    var interval := Get(fs, "interval").value;
    var job := Get(fs, "job").value;
    WellTypedMember(fs, Field("name", name));
    WellTypedMember(fs, Field("delay", delay));
    WellTypedMember(fs, Field("interval", interval));
    WellTypedMember(fs, Field("job", job));
    Entry(name.s, delay.n, interval.b, job.fn, params, TaskTruthy(fs))
  }

  /** `add(timer, ...props)`: validate, then append; nothing changes on failure. */
  function Add(ts: seq<Entry>, d: Definition, params: seq<Value>): (r: Result<seq<Entry>, Error>)
    ensures r.Success? <==> Acceptable(Names(ts), d)
    ensures r.Failure? ==> CheckTimer(Names(ts), d) == Some(r.error)
    ensures r.Success? ==>
      && |r.value| == |ts| + 1
      && r.value[..|ts|] == ts
      && Describes(d.fields, r.value[|ts|])
      && ValidDelay(r.value[|ts|].delay)
      && r.value[|ts|].params == params
      && (r.value[|ts|].active <==> TaskTruthy(d.fields))
      && r.value[|ts|].name !in Names(ts)
  {
    match CheckTimer(Names(ts), d)
    case Some(e) => Failure(e)
    case None =>
      var e := NewEntry(d.fields, params);
      assert Get(d.fields, "name") == Some(Str(e.name)) by {
        var v := Get(d.fields, "name").value;
        assert Field("name", v) in d.fields;
        var i :| 0 <= i < |d.fields| && d.fields[i] == Field("name", v);
        var j :| 0 <= j < |d.fields| && d.fields[j] == Field("name", Str(e.name));
        assert i == j;
      }
      Success(ts + [e])
  }

  /** Adding keeps names pairwise distinct. */
  lemma AddKeepsNamesUnique(ts: seq<Entry>, d: Definition, params: seq<Value>)
    requires UniqueNames(ts)
    ensures Add(ts, d, params).Success? ==> UniqueNames(Add(ts, d, params).value)
  {
    if Add(ts, d, params).Success? {
      var r := Add(ts, d, params).value;
      forall i, j | 0 <= i < j < |r|
        ensures r[i].name != r[j].name
      {
        if j == |ts| {
          assert r[i] == ts[i];
          assert ts[i].name in Names(ts);
        } else {
          assert r[i] == ts[i] && r[j] == ts[j];
        }
      }
    }
  }

  /** The appended entry carries the name the definition gives. */
  lemma AddedEntryName(ts: seq<Entry>, d: Definition, params: seq<Value>, n: string)
    requires d.Record? && Field("name", Str(n)) in d.fields
    ensures Add(ts, d, params).Success? ==> Add(ts, d, params).value[|ts|].name == n
  {
    if Add(ts, d, params).Success? {
      var e := Add(ts, d, params).value[|ts|];
      var i :| 0 <= i < |d.fields| && d.fields[i] == Field("name", Str(n));
      var j :| 0 <= j < |d.fields| && d.fields[j] == Field("name", Str(e.name));
      assert i == j;
    }
  }

  // ------------------------------------------------------- task handles

  /** `_startTask`: a setInterval or setTimeout handle is stored in `task`. */
  function StartTask(e: Entry): (r: Entry)
    ensures r.active && SameTimer(r, e)
  {
    e.(active := true)
  }

  /** `_clearTask`: the handle is cancelled and `task` set to null. */
  function ClearTask(e: Entry): (r: Entry)
    ensures !r.active && SameTimer(r, e)
  {
    e.(active := false)
  }

  // ---------------------------------------------------- pause and resume

  /** The linear search `pause` and `resume` share: the first position whose
      entry carries the name. */
  function Find(ts: seq<Entry>, n: string): (r: Option<nat>)
    ensures r.None? <==> n !in Names(ts)
    ensures r.Some? ==> Named(ts, n, r.value)
    decreases |ts|
  {
    if ts == [] then None
    else if ts[0].name == n then Some(0)
    else
      assert Names(ts) == [ts[0].name] + Names(ts[1..]);
      match Find(ts[1..], n)
      case None => None
      case Some(j) => Some(j + 1)
  }

  /** `pause(timerName)` for a string name. */
  function Pause(ts: seq<Entry>, n: string): (r: (seq<Entry>, Lookup))
    ensures r.1 == NotFound <==> n !in Names(ts)
    ensures forall i :: Named(ts, n, i) ==>
      (r.1 == Unchanged <==> !ts[i].active) && (r.1 == At(i) <==> ts[i].active)
    ensures !r.1.At? ==> r.0 == ts
    ensures r.1.At? ==>
      && r.1.index < |ts|
      && |r.0| == |ts|
      && !r.0[r.1.index].active
      && SameTimer(r.0[r.1.index], ts[r.1.index])
      && forall j :: 0 <= j < |ts| && j != r.1.index ==> r.0[j] == ts[j]
  {
    match Find(ts, n)
    case None => (ts, NotFound)
    case Some(i) =>
      if !ts[i].active then (ts, Unchanged)
      else (ts[i := ClearTask(ts[i])], At(i))
  }

  /** `resume(timerName)` for a string name: the mirror image of `pause`. */
  function Resume(ts: seq<Entry>, n: string): (r: (seq<Entry>, Lookup))
    ensures r.1 == NotFound <==> n !in Names(ts)
    ensures forall i :: Named(ts, n, i) ==>
      (r.1 == Unchanged <==> ts[i].active) && (r.1 == At(i) <==> !ts[i].active)
    ensures !r.1.At? ==> r.0 == ts
    ensures r.1.At? ==>
      && r.1.index < |ts|
      && |r.0| == |ts|
      && r.0[r.1.index].active
      && SameTimer(r.0[r.1.index], ts[r.1.index])
      && forall j :: 0 <= j < |ts| && j != r.1.index ==> r.0[j] == ts[j]
  {
    match Find(ts, n)
    case None => (ts, NotFound)
    case Some(i) =>
      if ts[i].active then (ts, Unchanged)
      else (ts[i := StartTask(ts[i])], At(i))
  }

  /** Pausing a running entry and resuming it gives back the original list,
      and both calls report the entry's index. */
  lemma {:induction false} PauseResumeRoundTrip(ts: seq<Entry>, n: string, i: nat)
    requires Named(ts, n, i) && ts[i].active
    ensures Pause(ts, n).1 == At(i)
    ensures Resume(Pause(ts, n).0, n) == (ts, At(i))
  {
    var p := Pause(ts, n).0;
    assert Named(p, n, i) by {
      forall j | 0 <= j < i
        ensures p[j].name != n
      {
        assert p[j] == ts[j];
      }
    }
    var q := Resume(p, n).0;
    assert q[i] == ts[i] by {
      assert q[i].active && SameTimer(q[i], p[i]) && SameTimer(p[i], ts[i]);
    }
    assert q == ts by {
      forall j | 0 <= j < |ts|
        ensures q[j] == ts[j]
      {
        if j != i {
          assert q[j] == p[j];
        }
      }
    }
  }

  /** Resuming a stopped entry and pausing it again gives back the original list. */
  lemma {:induction false} ResumePauseRoundTrip(ts: seq<Entry>, n: string, i: nat)
    requires Named(ts, n, i) && !ts[i].active
    ensures Resume(ts, n).1 == At(i)
    ensures Pause(Resume(ts, n).0, n) == (ts, At(i))
  {
    var p := Resume(ts, n).0;
    assert Named(p, n, i) by {
      forall j | 0 <= j < i
        ensures p[j].name != n
      {
        assert p[j] == ts[j];
      }
    }
    var q := Pause(p, n).0;
    assert q[i] == ts[i] by {
      assert !q[i].active && SameTimer(q[i], p[i]) && SameTimer(p[i], ts[i]);
    }
    assert q == ts by {
      forall j | 0 <= j < |ts|
        ensures q[j] == ts[j]
      {
        if j != i {
          assert q[j] == p[j];
        }
      }
    }
  }

  // ---------------------------------------------------------------- remove

  /** The number JavaScript reads from pause's return value in `index >= 0`
      and `splice(index, 1)`: -1, ToNumber(null) = 0, or the index. */
  function AsNumber(l: Lookup): (k: int)
    ensures k >= 0 <==> !l.NotFound?
    ensures l.Unchanged? ==> k == 0
    ensures l.At? ==> k == l.index
  {
    match l
    case NotFound => -1
    case Unchanged => 0
    case At(i) => i
  }

  /** `splice(k, 1)` for a non-negative start: the element at `k` goes, those
      after it move up one place, and a start past the end deletes nothing. */
  function Splice(s: seq<Entry>, k: nat): (r: seq<Entry>)
    ensures k >= |s| ==> r == s
    ensures k < |s| ==> |r| == |s| - 1
    ensures forall j :: 0 <= j < k && j < |r| ==> r[j] == s[j]
    ensures k < |s| ==> forall j :: k <= j < |r| ==> r[j] == s[j + 1]
  {
    if k < |s| then s[..k] + s[k+1..] else s
  }

  /** `remove(timerName)`: pause, then splice at whatever pause returned.
      A stopped entry makes pause return null, which `>= 0` and `splice` read
      as 0, so the FIRST entry of the list is deleted instead. */
  function Remove(ts: seq<Entry>, n: string): (r: seq<Entry>)
    ensures n !in Names(ts) ==> r == ts
    ensures n in Names(ts) ==> |r| == |ts| - 1
    ensures forall i :: Named(ts, n, i) && ts[i].active ==> r == ts[..i] + ts[i+1..]
    ensures forall i :: Named(ts, n, i) && !ts[i].active ==> r == ts[1..]
  {
    var (paused, found) := Pause(ts, n);
    var index := AsNumber(found);
    SpliceAfterPause(ts, n);
    if index >= 0 then Splice(paused, index) else paused
  }

  /** What `splice` deletes after `pause`: the named entry when it was
      running, position 0 when it was stopped. */
  lemma SpliceAfterPause(ts: seq<Entry>, n: string)
    ensures var (p, f) := Pause(ts, n);
      forall i :: Named(ts, n, i) ==>
        && AsNumber(f) >= 0
        && Splice(p, AsNumber(f)) == if ts[i].active then ts[..i] + ts[i+1..] else ts[1..]
  {
    var (p, f) := Pause(ts, n);
    forall i | Named(ts, n, i)
      ensures AsNumber(f) >= 0
      ensures Splice(p, AsNumber(f)) == if ts[i].active then ts[..i] + ts[i+1..] else ts[1..]
    {
      if ts[i].active {
        assert f == At(i);
        assert p[..i] == ts[..i] && p[i+1..] == ts[i+1..];
      } else {
        assert f == Unchanged && p == ts;
      }
    }
  }

  /** What is left after `remove` is the list with one element deleted, the
      survivors unchanged and in their original order. */
  lemma RemoveSubseq(ts: seq<Entry>, n: string)
    ensures Subseq(Remove(ts, n), ts)
  {
    var r := Remove(ts, n);
    var f := Find(ts, n);
    if f.None? {
      SubseqRefl(ts);
    } else {
      var i := f.value;
      assert Named(ts, n, i);
      var k := if ts[i].active then i else 0;
      assert r == ts[..k] + ts[k+1..];
      SubseqDelete(ts, k);
    }
  }

  /** The entry `remove` splices out with its task still set: its task is
      never cleared, though the entry has left the list. That happens
      exactly when the named entry is stopped, so position 0 goes instead,
      and the entry at position 0 is running. */
  function Orphaned(ts: seq<Entry>, n: string): (o: seq<Entry>)
    ensures |o| <= 1
    ensures forall e :: e in o ==> e.active && e in ts
    ensures forall i :: Named(ts, n, i) && !ts[i].active && ts[0].active ==> o == [ts[0]]
    ensures (forall i :: Named(ts, n, i) ==> ts[i].active || !ts[0].active) ==> o == []
  {
    var (paused, found) := Pause(ts, n);
    var index := AsNumber(found);
    if 0 <= index < |paused| && paused[index].active then [paused[index]] else []
  }

  /** Removing an entry never breaks name uniqueness. */
  lemma {:induction false} SubseqKeepsNamesUnique(a: seq<Entry>, b: seq<Entry>)
    requires Subseq(a, b) && UniqueNames(b)
    ensures UniqueNames(a)
    decreases |b|
  {
    if b == [] {
    } else if Subseq(a, b[1..]) {
      SubseqKeepsNamesUnique(a, b[1..]);
    } else {
      SubseqKeepsNamesUnique(a[1..], b[1..]);
      SubseqMembers(a[1..], b[1..]);
      forall i, j | 0 <= i < j < |a|
        ensures a[i].name != a[j].name
      {
        if i == 0 {
          assert a[j] == a[1..][j-1];
          assert a[1..][j-1] in a[1..];
          var k :| 0 <= k < |b[1..]| && b[1..][k] == a[j];
          assert b[k+1] == a[j];
        } else {
          assert a[i] == a[1..][i-1] && a[j] == a[1..][j-1];
        }
      }
    }
  }

  /** Every entry of a subsequence has a valid delay when the original's do. */
  lemma SubseqKeepsDelays(a: seq<Entry>, b: seq<Entry>)
    requires Subseq(a, b)
    requires forall i :: 0 <= i < |b| ==> ValidDelay(b[i].delay)
    ensures forall i :: 0 <= i < |a| ==> ValidDelay(a[i].delay)
  {
  }

  // ------------------------------------------------------- start and stop

  /** The per-entry part of `start`: start every entry that has no task. */
  function ActivateAll(ts: seq<Entry>): (r: seq<Entry>)
    ensures |r| == |ts|
    ensures forall i :: 0 <= i < |ts| ==> r[i].active && SameTimer(r[i], ts[i])
    ensures forall i :: 0 <= i < |ts| && ts[i].active ==> r[i] == ts[i]
    decreases |ts|
  {
    if ts == [] then []
    else [if ts[0].active then ts[0] else StartTask(ts[0])] + ActivateAll(ts[1..])
  }

  /** `stop`: clear the task of every entry that has one. */
  function DeactivateAll(ts: seq<Entry>): (r: seq<Entry>)
    ensures |r| == |ts|
    ensures forall i :: 0 <= i < |ts| ==> !r[i].active && SameTimer(r[i], ts[i])
    ensures forall i :: 0 <= i < |ts| && !ts[i].active ==> r[i] == ts[i]
    decreases |ts|
  {
    if ts == [] then []
    else [if ts[0].active then ClearTask(ts[0]) else ts[0]] + DeactivateAll(ts[1..])
  }

  /** Starting twice starts nothing new. */
  lemma ActivateAllIdempotent(ts: seq<Entry>)
    ensures ActivateAll(ActivateAll(ts)) == ActivateAll(ts)
  {
  }

  /** Stopping twice is the same as stopping once. */
  lemma DeactivateAllIdempotent(ts: seq<Entry>)
    ensures DeactivateAll(DeactivateAll(ts)) == DeactivateAll(ts)
  {
  }

  /** The `max` that `start` computes: 0 raised to the longest delay. */
  function LongestDelay(ts: seq<Entry>): (m: int)
    ensures m >= 0
    ensures forall i :: 0 <= i < |ts| ==> ts[i].delay <= m
    ensures m == 0 || exists i :: 0 <= i < |ts| && ts[i].delay == m
    decreases |ts|
  {
    if ts == [] then 0
    else
      var rest := LongestDelay(ts[1..]);
      assert rest == 0 || exists i :: 0 <= i < |ts| && ts[i].delay == rest by {
        if rest != 0 {
          var k :| 0 <= k < |ts[1..]| && ts[1..][k].delay == rest;
          assert ts[k+1].delay == rest;
        }
      }
      if ts[0].delay > rest then ts[0].delay else rest
  }

  // ------------------------------------------------------ watchdog sweep

  /** The watchdog's loop over the shrinking list, from position `i` on: each
      turn removes the entry now at `i` by name and then advances `i`, while
      that `remove` has shortened the list under the loop. */
  function SweepFrom(ts: seq<Entry>, i: nat): (r: seq<Entry>)
    ensures |r| == if i <= |ts| then i + (|ts| - i) / 2 else |ts|
    decreases |ts| - i
  {
    if i < |ts| then
      assert ts[i].name in Names(ts);
      SweepFrom(Remove(ts, ts[i].name), i + 1)
    else ts
  }

  /** The body of the watchdog that `start` arms. */
  function Sweep(ts: seq<Entry>): (r: seq<Entry>)
    ensures |r| == |ts| / 2
  {
    SweepFrom(ts, 0)
  }

  /** What the sweep leaves is a subsequence of what it found: survivors are
      unchanged and keep their order. */
  lemma {:induction false} SweepFromSubseq(ts: seq<Entry>, i: nat)
    ensures Subseq(SweepFrom(ts, i), ts)
    decreases |ts| - i
  {
    if i < |ts| {
      var next := Remove(ts, ts[i].name);
      RemoveSubseq(ts, ts[i].name);
      SweepFromSubseq(next, i + 1);
      SubseqTrans(SweepFrom(next, i + 1), next, ts);
    } else {
      SubseqRefl(ts);
    }
  }

  lemma SweepSubseq(ts: seq<Entry>)
    ensures Subseq(Sweep(ts), ts)
    ensures |Sweep(ts)| <= |ts|
  {
    SweepFromSubseq(ts, 0);
  }

  /** The entries the watchdog's loop, from position `i` on, drops from the
      list with their tasks still set. */
  function SweepOrphansFrom(ts: seq<Entry>, i: nat): (o: seq<Entry>)
    ensures forall e :: e in o ==> e.active && e in ts
    decreases |ts| - i
  {
    if i < |ts| then
      var next := Remove(ts, ts[i].name);
      RemoveSubseq(ts, ts[i].name);
      SubseqMembers(next, ts);
      Orphaned(ts, ts[i].name) + SweepOrphansFrom(next, i + 1)
    else []
  }

  /** The entries one watchdog sweep drops from the list with their tasks still set. */
  function SweepOrphans(ts: seq<Entry>): (o: seq<Entry>)
    ensures forall e :: e in o ==> e.active && e in ts
  {
    SweepOrphansFrom(ts, 0)
  }

  /** A sweep over a list in which nothing runs (as after `stop`) leaves no
      task behind. */
  lemma {:induction false} SweepOrphansNoneRunning(ts: seq<Entry>, i: nat)
    requires forall j :: 0 <= j < |ts| ==> !ts[j].active
    ensures SweepOrphansFrom(ts, i) == []
    decreases |ts| - i
  {
    if i < |ts| {
      var next := Remove(ts, ts[i].name);
      RemoveSubseq(ts, ts[i].name);
      SubseqMembers(next, ts);
      forall j | 0 <= j < |next|
        ensures !next[j].active
      {
        assert next[j] in ts;
      }
      SweepOrphansNoneRunning(next, i + 1);
    }
  }

  /** Every second entry, starting with the one at position 1. */
  function Odds(s: seq<Entry>): (r: seq<Entry>)
    ensures |r| == |s| / 2
    ensures forall k :: 0 <= k < |r| ==> r[k] == s[2 * k + 1]
    decreases |s|
  {
    if |s| < 2 then [] else [s[1]] + Odds(s[2..])
  }

  predicate AllActive(ts: seq<Entry>)
  {
    forall i :: 0 <= i < |ts| ==> ts[i].active
  }

  /** With unique names, removing a running entry deletes exactly that entry. */
  lemma RemoveRunning(ts: seq<Entry>, k: nat)
    requires UniqueNames(ts) && k < |ts| && ts[k].active
    ensures Remove(ts, ts[k].name) == ts[..k] + ts[k+1..]
    ensures UniqueNames(ts[..k] + ts[k+1..])
  {
    NamedWhenUnique(ts, k);
    RemoveSubseq(ts, ts[k].name);
    SubseqKeepsNamesUnique(Remove(ts, ts[k].name), ts);
  }

  /** One turn of the watchdog loop over a running entry at position `k`. */
  lemma SweepStepRunning(ts: seq<Entry>, k: nat)
    requires UniqueNames(ts) && k < |ts| && ts[k].active
    ensures SweepFrom(ts, k) == SweepFrom(ts[..k] + ts[k+1..], k + 1)
    ensures UniqueNames(ts[..k] + ts[k+1..])
  {
    RemoveRunning(ts, k);
  }

  /** After deleting position `k`, the already-visited prefix has grown by the
      entry that followed `k`, and every second entry of the rest is as before. */
  lemma OddsAfterDelete(ts: seq<Entry>, k: nat)
    requires k + 1 < |ts|
    ensures var next := ts[..k] + ts[k+1..];
            ts[..k] + Odds(ts[k..]) == next[..k+1] + Odds(next[k+1..])
  {
  }

  lemma {:induction false} SweepFromAllActive(ts: seq<Entry>, k: nat)
    requires UniqueNames(ts) && k <= |ts|
    requires forall i :: k <= i < |ts| ==> ts[i].active
    ensures SweepFrom(ts, k) == ts[..k] + Odds(ts[k..])
    decreases |ts| - k
  {
    if k < |ts| {
      SweepStepRunning(ts, k);
      var next := ts[..k] + ts[k+1..];
      if k + 1 == |ts| {
        assert next == ts[..k];
      } else {
        OddsAfterDelete(ts, k);
        SweepFromAllActive(next, k + 1);
      }
    }
  }

  /** When the unvisited entries all run and names are unique, each turn
      clears the task of the entry it deletes, so no task is left behind. */
  lemma {:induction false} SweepOrphansAllActive(ts: seq<Entry>, k: nat)
    requires UniqueNames(ts) && k <= |ts|
    requires forall i :: k <= i < |ts| ==> ts[i].active
    ensures SweepOrphansFrom(ts, k) == []
    decreases |ts| - k
  {
    if k < |ts| {
      NamedWhenUnique(ts, k);
      assert Orphaned(ts, ts[k].name) == [];
      SweepStepRunning(ts, k);
      var next := ts[..k] + ts[k+1..];
      forall i | k + 1 <= i < |next|
        ensures next[i].active
      {
        assert next[i] == ts[i+1];
      }
      if k + 1 < |ts| {
        SweepOrphansAllActive(next, k + 1);
      }
    }
  }

  /** When every entry is running and names are unique, the watchdog removes
      the entries at even positions and leaves every second entry running. */
  lemma SweepAllActive(ts: seq<Entry>)
    requires UniqueNames(ts) && AllActive(ts)
    ensures Sweep(ts) == Odds(ts)
    ensures AllActive(Sweep(ts))
  {
    SweepFromAllActive(ts, 0);
    assert ts[..0] + Odds(ts[0..]) == Odds(ts);
  }

  /** The sweep can delete a stopped entry: `remove` on a paused entry
      deletes position 0. */
  lemma SweepRemovesStoppedEntry()
    ensures var a := Entry("a", 0, false, 0, [], false);
            var b := Entry("b", 0, false, 1, [], false);
            Sweep([a, b]) == [b]
  {
  }

  /** The sweep can drop a running entry without clearing its task: here `x`
      leaves the list still active, and its task is never cleared. */
  lemma SweepOrphansRunningEntry()
    ensures var a := Entry("a", 0, true, 0, [], true);
            var x := Entry("x", 0, true, 1, [], true);
            var b := Entry("b", 0, true, 2, [], false);
            Sweep([a, x, b]) == [b] && SweepOrphans([a, x, b]) == [x]
  {
    var a := Entry("a", 0, true, 0, [], true);
    var x := Entry("x", 0, true, 1, [], true);
    var b := Entry("b", 0, true, 2, [], false);
    assert Named([a, x, b], "a", 0);
    assert Remove([a, x, b], "a") == [x, b];
    assert Orphaned([a, x, b], "a") == [];
    assert Named([x, b], "b", 1);
    assert Remove([x, b], "b") == [b];
    assert Orphaned([x, b], "b") == [x];
    assert SweepFrom([a, x, b], 0) == SweepFrom([x, b], 1);
    assert SweepFrom([x, b], 1) == SweepFrom([b], 2) == [b];
    assert SweepOrphansFrom([a, x, b], 0) == [] + SweepOrphansFrom([x, b], 1);
    assert SweepOrphansFrom([x, b], 1) == [x] + SweepOrphansFrom([b], 2);
  }
}
