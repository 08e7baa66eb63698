/** The `TimersManager` object as a whole: its timer list, its execution log and
    the watchdog timeouts `start` arms. Every public method is a transition from
    one state to the next; a method that throws produces no new state. */
module Manager {
  import opened Values
  import opened Validation
  import opened Subsequences
  import opened Timers

  /** What one run of a job did: returned a value, or threw one. */
  datatype JobOutcome = Returned(result: Value) | Threw(thrown: Value)

  /** One element of `this.logs`: `out` is undefined when the job threw, and
      `error` holds (the name, message and stack of) the thrown value. */
  datatype LogRecord = LogRecord(name: string, input: seq<Value>, output: Value, error: Option<Value>)

  /** A watchdog timeout that has been armed and has neither fired nor been cleared. */
  datatype Watchdog = Watchdog(handle: nat, delay: int)

  /** `timers`, `logs`, the watchdog timeouts still pending, `mainTimer` (the
      handle of the latest one), the next fresh scheduler handle, and the
      entries that left `timers` with their tasks still set: nothing in
      the object refers to them any more, yet their tasks are never cleared. */
  datatype State = State(
    timers: seq<Entry>,
    logs: seq<LogRecord>,
    watchdogs: seq<Watchdog>,
    mainTimer: Option<nat>,
    nextHandle: nat,
    orphans: seq<Entry>)

  /** The grace period added to the longest delay before the watchdog fires. */
  const GraceMs := 10000

  predicate Pending(ws: seq<Watchdog>, h: nat)
  {
    exists k :: 0 <= k < |ws| && ws[k].handle == h
  }

  /** `e`'s task is set: `e` is a running entry of the list, or an entry
      dropped from it without its task being cleared. Only such an entry can
      fire; this over-approximates what the scheduler actually holds. */
  predicate Live(m: State, e: Entry)
  {
    (e in m.timers && e.active) || e in m.orphans
  }

  /** What every reachable state satisfies: names are unique, delays are in
      range, and every pending watchdog has a handle already handed out. */
  predicate Valid(m: State)
  {
    && UniqueNames(m.timers)
    && (forall i :: 0 <= i < |m.timers| ==> ValidDelay(m.timers[i].delay))
    && (forall k :: 0 <= k < |m.watchdogs| ==> m.watchdogs[k].handle < m.nextHandle)
  }

  /** The constructor: no timers, no logs, no watchdog. */
  function Init(): (m: State)
    ensures Valid(m)
    ensures m.timers == [] && m.logs == [] && m.watchdogs == [] && m.mainTimer == None
    ensures forall e :: !Live(m, e)
  {
    State([], [], [], None, 0, [])
  }

  /** `add(timer, ...props)`. */
  function Add(m: State, d: Definition, params: seq<Value>): (r: Result<State, Error>)
    ensures r.Success? <==> Acceptable(Names(m.timers), d)
    ensures r.Failure? ==> CheckTimer(Names(m.timers), d) == Some(r.error)
    ensures r.Success? ==>
      && |r.value.timers| == |m.timers| + 1
      && r.value.timers[..|m.timers|] == m.timers
      && r.value == m.(timers := r.value.timers)
    ensures r.Success? ==>
      var e := r.value.timers[|m.timers|];
      && Describes(d.fields, e)
      && ValidDelay(e.delay)
      && e.params == params
      && (e.active <==> TaskTruthy(d.fields))
      && e.name !in Names(m.timers)
  {
    match Timers.Add(m.timers, d, params)
    case Failure(e) => Failure(e)
    case Success(ts) => Success(m.(timers := ts))
  }

  lemma AddKeepsValid(m: State, d: Definition, params: seq<Value>)
    requires Valid(m)
    ensures Add(m, d, params).Success? ==> Valid(Add(m, d, params).value)
  {
    AddKeepsNamesUnique(m.timers, d, params);
  }

  /** `pause(timerName)`: throws unless the name is a string. */
  function Pause(m: State, arg: Value): (r: Result<(State, Lookup), Error>)
    ensures r.Failure? <==> !arg.Str?
    ensures r.Failure? ==> r.error == NameNotString
    ensures r.Success? ==>
      && r.value.0 == m.(timers := r.value.0.timers)
      && Names(r.value.0.timers) == Names(m.timers)
      && (r.value.1 == NotFound <==> arg.s !in Names(m.timers))
      && (r.value.1.At? ==> Named(m.timers, arg.s, r.value.1.index) && m.timers[r.value.1.index].active)
      && (r.value.1 == Unchanged ==> exists i :: Named(m.timers, arg.s, i) && !m.timers[i].active)
  {
    match arg
    case Str(n) =>
      var (ts, found) := Timers.Pause(m.timers, n);
      assert found == Unchanged ==> Named(m.timers, n, Find(m.timers, n).value);
      assert Names(ts) == Names(m.timers);
      Success((m.(timers := ts), found))
    case _ => Failure(NameNotString)
  }

  /** `resume(timerName)`: throws unless the name is a string. */
  function Resume(m: State, arg: Value): (r: Result<(State, Lookup), Error>)
    ensures r.Failure? <==> !arg.Str?
    ensures r.Failure? ==> r.error == NameNotString
    ensures r.Success? ==>
      && r.value.0 == m.(timers := r.value.0.timers)
      && Names(r.value.0.timers) == Names(m.timers)
      && (r.value.1 == NotFound <==> arg.s !in Names(m.timers))
      && (r.value.1.At? ==> Named(m.timers, arg.s, r.value.1.index) && !m.timers[r.value.1.index].active)
      && (r.value.1 == Unchanged ==> exists i :: Named(m.timers, arg.s, i) && m.timers[i].active)
  {
    match arg
    case Str(n) =>
      var (ts, found) := Timers.Resume(m.timers, n);
      assert found == Unchanged ==> Named(m.timers, n, Find(m.timers, n).value);
      assert Names(ts) == Names(m.timers);
      Success((m.(timers := ts), found))
    case _ => Failure(NameNotString)
  }

  /** `remove(timerName)`: throws (from `pause`) unless the name is a string.
      An entry spliced out with its task set joins the orphans. */
  function Remove(m: State, arg: Value): (r: Result<State, Error>)
    ensures r.Failure? <==> !arg.Str?
    ensures r.Failure? ==> r.error == NameNotString
    ensures r.Success? ==>
      && r.value == m.(timers := r.value.timers, orphans := r.value.orphans)
      && Subseq(r.value.timers, m.timers)
      && r.value.orphans == m.orphans + Orphaned(m.timers, arg.s)
      && |r.value.timers| == if arg.s in Names(m.timers) then |m.timers| - 1 else |m.timers|
  {
    match arg
    case Str(n) =>
      RemoveSubseq(m.timers, n);
      Success(m.(timers := Timers.Remove(m.timers, n), orphans := m.orphans + Orphaned(m.timers, n)))
    case _ => Failure(NameNotString)
  }

  /** `start()`: start every stopped entry and arm a new watchdog at the longest
      delay (at least 0) plus the grace period. The watchdog armed by an earlier
      `start` is not cleared; only `mainTimer` is overwritten. */
  function Start(m: State): (r: State)
    ensures |r.timers| == |m.timers|
    ensures forall i :: 0 <= i < |m.timers| ==> r.timers[i].active && SameTimer(r.timers[i], m.timers[i])
    ensures forall i :: 0 <= i < |m.timers| && m.timers[i].active ==> r.timers[i] == m.timers[i]
    ensures r.logs == m.logs && r.orphans == m.orphans
    ensures |r.watchdogs| == |m.watchdogs| + 1 && r.watchdogs[..|m.watchdogs|] == m.watchdogs
    ensures r.mainTimer == Some(r.watchdogs[|m.watchdogs|].handle)
    ensures Valid(m) ==> !Pending(m.watchdogs, r.watchdogs[|m.watchdogs|].handle)
    ensures var w := r.watchdogs[|m.watchdogs|].delay;
      && w >= GraceMs
      && (forall i :: 0 <= i < |m.timers| ==> m.timers[i].delay + GraceMs <= w)
      && (w == GraceMs || exists i :: 0 <= i < |m.timers| && m.timers[i].delay + GraceMs == w)
    ensures Valid(m) ==> Valid(r)
  {
    var h := m.nextHandle;
    State(
      ActivateAll(m.timers),
      m.logs,
      m.watchdogs + [Watchdog(h, LongestDelay(m.timers) + GraceMs)],
      Some(h),
      h + 1,
      m.orphans)
  }

  /** `stop()`: clear the task of every listed entry; entries stay. Orphaned
      tasks are out of its reach. */
  function Stop(m: State): (r: State)
    ensures |r.timers| == |m.timers|
    ensures forall i :: 0 <= i < |m.timers| ==> !r.timers[i].active && SameTimer(r.timers[i], m.timers[i])
    ensures forall i :: 0 <= i < |m.timers| && !m.timers[i].active ==> r.timers[i] == m.timers[i]
    ensures r == m.(timers := r.timers)
  {
    m.(timers := DeactivateAll(m.timers))
  }

  /** `stop` is idempotent. */
  lemma StopIdempotent(m: State)
    ensures Stop(Stop(m)) == Stop(m)
  {
  }

  /** The log record `_log` builds. `error` is set only when the thrown value is
      truthy (`if (error)`), so `throw 0` or `throw null` logs like a job that
      returned undefined. */
  function Record(e: Entry, o: JobOutcome): (rec: LogRecord)
    ensures rec.name == e.name && rec.input == e.params
    ensures rec.error.Some? <==> o.Threw? && Truthy(o.thrown)
    ensures rec.error.Some? ==> rec.error.value == o.thrown
    ensures rec.output == if o.Returned? then o.result else Undefined
  {
    match o
    case Returned(v) => LogRecord(e.name, e.params, v, None)
    case Threw(x) => LogRecord(e.name, e.params, Undefined, if Truthy(x) then Some(x) else None)
  }

  /** One firing of the handler `_handlerTask` wraps around `e`'s job: the job
      runs with `e`'s params, its outcome is logged, and nothing else changes.
      A one-shot entry's `task` is not cleared after it fires. */
  function Invoke(m: State, e: Entry, o: JobOutcome): (r: State)
    requires Live(m, e)
    ensures r == m.(logs := r.logs)
    ensures |r.logs| == |m.logs| + 1 && r.logs[..|m.logs|] == m.logs
    ensures r.logs[|m.logs|].name == e.name && r.logs[|m.logs|].input == e.params
    ensures r.logs[|m.logs|].error.Some? <==> o.Threw? && Truthy(o.thrown)
    ensures r.logs[|m.logs|] == Record(e, o)
  {
    m.(logs := m.logs + [Record(e, o)])
  }

  /** `clearTimeout(h)` on the pending watchdogs. */
  function Cancel(ws: seq<Watchdog>, h: nat): (r: seq<Watchdog>)
    ensures forall w :: w in r <==> w in ws && w.handle != h
    ensures !Pending(r, h)
    decreases |ws|
  {
    if ws == [] then []
    else if ws[0].handle == h then Cancel(ws[1..], h)
    else [ws[0]] + Cancel(ws[1..], h)
  }

  /** `clearTimeout(this.mainTimer)`, where a null `mainTimer` cancels nothing. */
  function CancelMain(ws: seq<Watchdog>, main: Option<nat>): (r: seq<Watchdog>)
    ensures forall w :: w in r <==> w in ws && Some(w.handle) != main
    ensures main.None? ==> r == ws
    ensures main.Some? ==> r == Cancel(ws, main.value)
  {
    match main
    case None => ws
    case Some(h) => Cancel(ws, h)
  }

  /** The watchdog timeout with handle `h` fires: its sweep runs over the
      current list, then `clearTimeout(this.mainTimer)` clears the LATEST
      watchdog, which need not be the one that fired. */
  function FireWatchdog(m: State, h: nat): (r: State)
    ensures !Pending(m.watchdogs, h) ==> r == m
    ensures Pending(m.watchdogs, h) ==>
      && Subseq(r.timers, m.timers)
      && r.orphans == m.orphans + SweepOrphans(m.timers)
      && |r.timers| == |m.timers| / 2
      && r.logs == m.logs && r.mainTimer == m.mainTimer
      && !Pending(r.watchdogs, h)
      && (m.mainTimer.Some? ==> !Pending(r.watchdogs, m.mainTimer.value))
      && (forall w :: w in r.watchdogs <==>
            w in m.watchdogs && w.handle != h && Some(w.handle) != m.mainTimer)
  {
    if !Pending(m.watchdogs, h) then m
    else
      SweepSubseq(m.timers);
      m.(timers := Sweep(m.timers),
         watchdogs := CancelMain(Cancel(m.watchdogs, h), m.mainTimer),
         orphans := m.orphans + SweepOrphans(m.timers))
  }

  lemma FireWatchdogKeepsValid(m: State, h: nat)
    requires Valid(m)
    ensures Valid(FireWatchdog(m, h))
  {
    var r := FireWatchdog(m, h);
    if Pending(m.watchdogs, h) {
      SweepSubseq(m.timers);
      SubseqKeepsNamesUnique(r.timers, m.timers);
      SubseqKeepsDelays(r.timers, m.timers);
      forall k | 0 <= k < |r.watchdogs|
        ensures r.watchdogs[k].handle < r.nextHandle
      {
        assert r.watchdogs[k] in r.watchdogs;
      }
    }
  }

  // ------------------------------------------------------ call sequences

  /** A call a client makes, or an event the scheduler delivers. A job run
      for an entry that is not live is no event. */
  datatype Call =
    | AddCall(d: Definition, params: seq<Value>)
    | RemoveCall(name: Value)
    | PauseCall(name: Value)
    | ResumeCall(name: Value)
    | StartCall
    | StopCall
    | JobRuns(entry: Entry, outcome: JobOutcome)
    | WatchdogFires(handle: nat)

  /** The state after one call; a call that throws leaves the state as it was. */
  function Step(m: State, c: Call): State
  {
    match c
    case AddCall(d, params) =>
      (match Add(m, d, params) case Success(m') => m' case Failure(_) => m)
    case RemoveCall(n) =>
      (match Remove(m, n) case Success(m') => m' case Failure(_) => m)
    case PauseCall(n) =>
      (match Pause(m, n) case Success(p) => p.0 case Failure(_) => m)
    case ResumeCall(n) =>
      (match Resume(m, n) case Success(p) => p.0 case Failure(_) => m)
    case StartCall => Start(m)
    case StopCall => Stop(m)
    case JobRuns(e, o) => if Live(m, e) then Invoke(m, e, o) else m
    case WatchdogFires(h) => FireWatchdog(m, h)
  }

  lemma StepKeepsValid(m: State, c: Call)
    requires Valid(m)
    ensures Valid(Step(m, c))
  {
    match c
    case AddCall(d, params) =>
      AddKeepsValid(m, d, params);
    case RemoveCall(n) =>
      if Remove(m, n).Success? {
        var ts := Remove(m, n).value.timers;
        SubseqKeepsNamesUnique(ts, m.timers);
        SubseqKeepsDelays(ts, m.timers);
      }
    case PauseCall(n) =>
      if Pause(m, n).Success? {
        PauseKeepsValid(m, n);
      }
    case ResumeCall(n) =>
      if Resume(m, n).Success? {
        ResumeKeepsValid(m, n);
      }
    case StartCall =>
    case StopCall =>
    case JobRuns(e, o) =>
    case WatchdogFires(h) =>
      FireWatchdogKeepsValid(m, h);
  }

  lemma PauseKeepsValid(m: State, n: Value)
    requires Valid(m) && Pause(m, n).Success?
    ensures Valid(Pause(m, n).value.0)
  {
  }

  lemma ResumeKeepsValid(m: State, n: Value)
    requires Valid(m) && Resume(m, n).Success?
    ensures Valid(Resume(m, n).value.0)
  {
  }

  function Run(m: State, cs: seq<Call>): State
    decreases |cs|
  {
    if cs == [] then m else Run(Step(m, cs[0]), cs[1..])
  }

  /** Names stay pairwise distinct, and delays in range, across any sequence
      of calls and scheduler events. */
  lemma {:induction false} RunKeepsValid(m: State, cs: seq<Call>)
    requires Valid(m)
    ensures Valid(Run(m, cs))
    ensures UniqueNames(Run(m, cs).timers)
    decreases |cs|
  {
    if cs != [] {
      StepKeepsValid(m, cs[0]);
      RunKeepsValid(Step(m, cs[0]), cs[1..]);
    }
  }

  // ------------------------------------------------------------ scenarios

  /** A definition just added and never started (and carrying no `task` of its
      own) is reported by `pause` as already paused: null. */
  lemma AddThenPauseIsNull(m: State, d: Definition, params: seq<Value>, n: string)
    requires Valid(m)
    requires d.Record? && Field("name", Str(n)) in d.fields && !TaskTruthy(d.fields)
    ensures Add(m, d, params).Success? ==>
      Pause(Add(m, d, params).value, Str(n)) == Success((Add(m, d, params).value, Unchanged))
  {
    if Add(m, d, params).Success? {
      var ts := Add(m, d, params).value.timers;
      AddedEntryName(m.timers, d, params, n);
      AddKeepsNamesUnique(m.timers, d, params);
      NamedWhenUnique(ts, |m.timers|);
    }
  }

  /** After `start`, `pause` on any registered name reports its index, and a
      following `resume` reports the same index and restores the started list. */
  lemma StartPauseResume(m: State, i: nat)
    requires Valid(m) && i < |m.timers|
    ensures var s := Start(m);
            var n := m.timers[i].name;
            && Pause(s, Str(n)).Success?
            && Pause(s, Str(n)).value.1 == At(i)
            && Resume(Pause(s, Str(n)).value.0, Str(n)) == Success((s, At(i)))
  {
    var s := Start(m);
    var n := m.timers[i].name;
    assert Names(s.timers) == Names(m.timers);
    assert UniqueNames(s.timers);
    NamedWhenUnique(s.timers, i);
    PauseResumeRoundTrip(s.timers, n, i);
  }

  /** Calling `start` twice leaves two watchdogs pending. If the first-armed
      one fires first, it also clears `mainTimer`, the second one, so only one
      sweep runs. */
  lemma RestartThenFirstFires(m: State)
    requires Valid(m) && m.watchdogs == []
    ensures var s1 := Start(m);
            var s2 := Start(s1);
            var h1 := s1.watchdogs[0].handle;
            && |s2.watchdogs| == 2
            && FireWatchdog(s2, h1).watchdogs == []
  {
    var s1 := Start(m);
    var s2 := Start(s1);
    var h1 := m.nextHandle;
    var w1 := s1.watchdogs[0];
    var w2 := s2.watchdogs[1];
    assert s1.watchdogs == [w1] && w1.handle == h1;
    assert s2.watchdogs == [w1, w2] && w2.handle == h1 + 1;
    assert s2.mainTimer == Some(h1 + 1);
    assert Pending(s2.watchdogs, h1);
    assert Cancel([w1, w2], h1) == [w2] by {
      assert [w1, w2][1..] == [w2];
      assert Cancel([w2], h1) == [w2];
    }
    assert Cancel([w2], h1 + 1) == [];
  }

  /** Removing the stopped `b` from [x running, b stopped] deletes `x` without
      clearing its task: `x` is gone from the list, yet its job still runs and
      logs, and `stop` cannot reach it. */
  lemma RemovePausedOrphansFirst(m: State, o: JobOutcome)
    requires m.timers == [Entry("x", 100, true, 0, [], true), Entry("b", 100, true, 1, [], false)]
    ensures var x := Entry("x", 100, true, 0, [], true);
            var r := Remove(m, Str("b")).value;
            && r.timers == [Entry("b", 100, true, 1, [], false)]
            && Live(r, x) && Live(Stop(r), x)
            && Invoke(r, x, o).logs[|r.logs|].name == "x"
  {
    var x := Entry("x", 100, true, 0, [], true);
    var b := Entry("b", 100, true, 1, [], false);
    assert Named([x, b], "b", 1);
    assert Orphaned([x, b], "b") == [x];
    var r := Remove(m, Str("b")).value;
    assert x in r.orphans;
  }

  /** A watchdog firing over [a running, x running, b stopped] leaves [b] and
      an orphaned `x` whose job still runs and logs. */
  lemma SweepOrphanStillFires(m: State, h: nat, o: JobOutcome)
    requires Pending(m.watchdogs, h)
    requires m.timers == [Entry("a", 0, true, 0, [], true), Entry("x", 0, true, 1, [], true),
                          Entry("b", 0, true, 2, [], false)]
    ensures var x := Entry("x", 0, true, 1, [], true);
            var r := FireWatchdog(m, h);
            && r.timers == [Entry("b", 0, true, 2, [], false)]
            && Live(r, x) && Live(Stop(r), x)
            && Invoke(r, x, o).logs[|r.logs|].name == "x"
  {
    var x := Entry("x", 0, true, 1, [], true);
    SweepOrphansRunningEntry();
    var r := FireWatchdog(m, h);
    assert r.orphans == m.orphans + [x];
    assert x in r.orphans;
  }

  /** The only pending watchdog fires: it sweeps and leaves nothing pending,
      whatever `mainTimer` names. */
  lemma LastWatchdogFires(m: State, w: Watchdog)
    requires m.watchdogs == [w]
    ensures FireWatchdog(m, w.handle).watchdogs == []
    ensures |FireWatchdog(m, w.handle).timers| == |m.timers| / 2
  {
    assert m.watchdogs[0].handle == w.handle;
    assert Cancel([w], w.handle) == [];
  }

  /** Of two pending watchdogs, the latest (`mainTimer`) fires: it clears only
      itself, and the earlier one stays pending. */
  lemma LatestOfTwoFires(m: State, w1: Watchdog, w2: Watchdog)
    requires m.watchdogs == [w1, w2] && w1.handle != w2.handle && m.mainTimer == Some(w2.handle)
    ensures FireWatchdog(m, w2.handle).watchdogs == [w1]
    ensures |FireWatchdog(m, w2.handle).timers| == |m.timers| / 2
  {
    assert m.watchdogs[1].handle == w2.handle;
    assert Cancel([w1, w2], w2.handle) == [w1] by {
      assert [w1, w2][1..] == [w2];
      assert Cancel([w2], w2.handle) == [];
    }
    assert Cancel([w1], w2.handle) == [w1];
  }

  /** The opposite order: when the second-armed watchdog fires first (a later
      `start` may see a shorter longest delay), it clears only itself. The
      first one stays pending and runs a second sweep when it fires. */
  lemma RestartThenSecondFires(m: State)
    requires Valid(m) && m.watchdogs == []
    ensures var s1 := Start(m);
            var s2 := Start(s1);
            var f2 := FireWatchdog(s2, s2.watchdogs[1].handle);
            && f2.watchdogs == s1.watchdogs
            && |f2.timers| == |m.timers| / 2
            && FireWatchdog(f2, s1.watchdogs[0].handle).watchdogs == []
  {
    var s1 := Start(m);
    var s2 := Start(s1);
    var w1 := s1.watchdogs[0];
    var w2 := s2.watchdogs[1];
    assert s1.watchdogs == [w1];
    assert s2.watchdogs == [w1, w2] && w2.handle == w1.handle + 1;
    LatestOfTwoFires(s2, w1, w2);
    LastWatchdogFires(FireWatchdog(s2, w2.handle), w1);
  }
}
