# TimersManager in Dafny

A model of `TimersManager` (index-4.js), a registry of named one-shot and repeating
timers. A client adds timer definitions, then `start`s them. It can `pause`, `resume`,
`remove` and `stop` them. A watchdog armed by `start` sweeps the registry 10000 ms after
the longest delay. Every run of a job appends one record to the log.

The model is functional. The registry is a `seq<Entry>` of immutable records. Every
method is a transition function that returns the next state and the method's answer.
An entry's `task` handle is reduced to a flag (`active`). An entry that leaves the list
with its task still set is kept among the orphans, which `stop` cannot reach. Which
task fires, and the outcome of its job, are parameters. Elapsed time and
timestamps are not modelled.

Modules:

- `Values` (values.dfy): JavaScript values as the manager inspects them (`typeof`
  plus contents), JavaScript truthiness, and `Option`/`Result`.
- `Subsequences` (subsequences.dfy): order-preserving deletion and its lemmas.
- `Validation` (validation.dfy): `_checkTimer`. A definition is either not an object
  or a sequence of (key, value) properties in enumeration order.
- `Timers` (timers.dfy): `Entry`, and the transitions of `add`, `pause`, `resume`,
  `remove`, `start`, `stop` and the watchdog sweep on the entry list.
- `Manager` (manager.dfy): the whole object. It holds the timers, the log, the pending
  watchdog timeouts, `mainTimer` and the orphaned tasks. It covers job invocation and logging, arming and
  firing the watchdog, and an invariant kept over any sequence of calls.
- `Corrected` (corrected.dfy): the intended `remove` and watchdog sweep, next to
  inputs that tell them apart from the code (see Findings).

## Behaviour as written

The model follows the code where it differs from what one might expect of such a
registry:

- One might expect `remove` on a paused entry to delete that entry. In the code, `pause` returns
  `null` for such an entry. In JavaScript `null >= 0` is true, and `splice(null, 1)`
  deletes position 0. So `remove` on a paused entry deletes the FIRST entry of the
  list, whatever its name and state. A running first entry leaves the list with its
  task never cleared. `Timers.AsNumber` models this coercion and `Timers.Orphaned`
  names that entry.
- The watchdog's loop indexes a list that shrinks under it. Every turn deletes exactly
  one entry, by either branch of `remove`. So the loop stops after ⌈n/2⌉ turns and
  leaves ⌊n/2⌋ entries. It can delete paused entries. It can drop running entries
  without clearing their tasks.
- One might expect each `start` to replace the watchdog. In the code, `start` arms a
  new timeout and only overwrites `mainTimer`, so earlier watchdogs stay pending. When
  any watchdog fires, it clears `mainTimer`, the latest one.
- A one-shot entry keeps its `task` after it fires. It still counts as running, so
  `start` does not re-arm it and `pause` reports its index.
- `add` stores the definition object itself. A definition carrying its own truthy
  `task` property is therefore stored as running.
- `_log` sets `error` only for a truthy thrown value. A job that throws `0`, `""`,
  `null` or `undefined` is logged like one that returned `undefined`.

## Model

| member | source | states |
|---|---|---|
| Validation.FieldError | index-4.js:26-38 | a present property is rejected only if its key is name, delay, interval or job. It is rejected exactly when it lacks the key's type, or, for delay, lies outside [0, 5000]. The error is that key's |
| Validation.FirstBadField | index-4.js:26-38 | the position of the first property, in enumeration order, that fails its check; all earlier ones pass |
| Validation.FirstMissingKey | index-4.js:41-45 | the first required key, in the order name, delay, interval, job, that the object lacks; all earlier ones are present |
| Validation.CheckTimer | index-4.js:9-51 | NotAnObject iff the value is not an object. No error iff every present field is well typed, all four required fields are present and the name is unused. A field error belongs to the first ill-typed field. A missing-field error belongs to the first absent required key, with all fields well typed. A duplicate error comes only after all earlier checks pass |
| Validation.FirstBadKeyDecides | index-4.js:26-38 | when property k is the first ill-typed one, its error is the one thrown, whatever follows it |
| Timers.NewEntry | index-4.js:95-99 | the stored entry carries the definition's name, delay, interval and job and the extra arguments as params. Its delay is in range. It runs iff the definition has a truthy `task` |
| Timers.Add | index-4.js:95-101 | succeeds iff the definition is acceptable for the current names; otherwise it throws the check's error. On success exactly one entry, with an unused name, is appended and the others are untouched |
| Timers.AddKeepsNamesUnique | index-4.js:47-50 | adding keeps names pairwise distinct |
| Timers.AddedEntryName | index-4.js:95-99 | after a successful add, the appended entry is found under the `name` field the definition gives |
| Timers.StartTask | index-4.js:76-83 | starting a task marks the entry running and changes nothing else, for interval and one-shot timers alike |
| Timers.ClearTask | index-4.js:53-62 | clearing a task marks the entry stopped and changes nothing else |
| Timers.Find | index-4.js:139-152 | the search finds nothing iff no entry has the name; otherwise it finds the first position holding it |
| Timers.Pause | index-4.js:137-156 | -1 iff the name is unknown. null iff the named entry is stopped. Otherwise its index, with exactly that entry stopped and everything else unchanged. The list is unchanged in the first two cases |
| Timers.Resume | index-4.js:158-177 | the mirror of pause: -1 iff unknown, null iff already running, else the index with exactly that entry started |
| Timers.PauseResumeRoundTrip | index-4.js:137-177 | pausing a running entry and then resuming it restores the list, and both calls report its index |
| Timers.ResumePauseRoundTrip | index-4.js:137-177 | resuming a stopped entry and then pausing it restores the list, and both report its index |
| Timers.AsNumber | index-4.js:107-108 | the number `>= 0` and `splice` read from pause's answer: negative only for -1; null reads as 0; an index reads as itself |
| Timers.Splice | index-4.js:108 | `splice(k, 1)` deletes the element at k and moves the later ones up one place; a start past the end deletes nothing |
| Timers.Remove | index-4.js:104-112 | an unknown name leaves the list unchanged. A known name always shortens it by one. A running entry is deleted at its own position. For a paused entry the first entry of the list is deleted |
| Timers.RemoveSubseq | index-4.js:104-112 | what `remove` leaves is a subsequence of the list: survivors unchanged and in order |
| Timers.Orphaned | index-4.js:104-109 | the entry `remove` splices out with its task still set: the first entry, exactly when the named entry is stopped and the first one runs; otherwise none |
| Timers.RemoveRunning | index-4.js:104-109 | with unique names, removing a running entry deletes exactly that entry and keeps names unique |
| Timers.ActivateAll | index-4.js:116-120 | after start's loop every entry runs, definitions and order are unchanged, and entries already running are left exactly as they were |
| Timers.DeactivateAll | index-4.js:128-135 | after stop every entry is stopped, definitions and order are unchanged, and stopped entries are untouched |
| Timers.ActivateAllIdempotent | index-4.js:117-120 | starting twice starts nothing new |
| Timers.DeactivateAllIdempotent | index-4.js:130-133 | stopping twice is the same as stopping once |
| Timers.LongestDelay | index-4.js:115-124 | start's `max` is at least 0 and every delay. It is 0 or equal to some entry's delay |
| Timers.SweepFrom | index-4.js:87-89 | the watchdog loop from position i leaves i + ⌊(n−i)/2⌋ entries |
| Timers.Sweep | index-4.js:86-89 | the watchdog sweep leaves ⌊n/2⌋ of n entries |
| Timers.SweepFromSubseq | index-4.js:87-89 | the loop from any position leaves a subsequence of its input |
| Timers.SweepSubseq | index-4.js:86-89 | the sweep's result is a subsequence of the input and no longer than it |
| Timers.SweepOrphansFrom | index-4.js:87-89 | the entries the watchdog loop drops with their tasks still set are running entries of the list |
| Timers.SweepOrphans | index-4.js:86-89 | the same for the whole sweep |
| Timers.SweepOrphansNoneRunning | index-4.js:87-89 | a sweep over a list where nothing runs, as after `stop`, leaves no task behind |
| Timers.SweepOrphansAllActive | index-4.js:87-89 | when the unvisited entries all run and names are unique, each turn clears the task of the entry it deletes, so no task is left behind |
| Timers.SweepStepRunning | index-4.js:87-88 | one turn over a running entry deletes that entry and moves to the next position |
| Timers.SweepFromAllActive | index-4.js:87-89 | when the unvisited entries all run and names are unique, the loop keeps the visited prefix and every second unvisited entry |
| Timers.SweepAllActive | index-4.js:85-93 | with all entries running and unique names, the sweep leaves exactly the odd-position entries, still running |
| Timers.SweepRemovesStoppedEntry | index-4.js:87-89 | the sweep can delete a stopped entry: [a stopped, b stopped] becomes [b] |
| Timers.SweepOrphansRunningEntry | index-4.js:87-89 | the sweep can drop a running entry without clearing its task: [a running, x running, b stopped] becomes [b], and x is the one task left behind |
| Manager.Init | index-4.js:2-7 | a fresh manager has no timers, no log and no watchdog, and satisfies the invariant |
| Manager.Add | index-4.js:95-101 | succeeds iff the definition is acceptable. It fails with the check's error. On success only the timer list changes, by appending one entry that carries the definition's name, delay, interval and job, the extra arguments as params, an unused name, and runs iff the definition has a truthy `task` |
| Manager.AddKeepsValid | index-4.js:47-50 | a successful add keeps the invariant: unique names, delays in range |
| Manager.Pause | index-4.js:137-156 | throws iff the argument is not a string. Otherwise only the timers change, names stay put, and the answer is -1 / null / index as for Timers.Pause |
| Manager.Resume | index-4.js:158-177 | throws iff the argument is not a string; otherwise as Timers.Resume |
| Manager.Remove | index-4.js:104-112 | throws iff the argument is not a string. Otherwise the timers become a subsequence, one entry shorter when the name is known. An entry spliced out with its task set joins the orphans, and nothing else changes |
| Manager.Start | index-4.js:114-126 | every entry runs and running ones are untouched. Earlier watchdogs stay pending and a fresh one is appended and becomes mainTimer. Its delay is max(0, longest delay) + 10000. The invariant is kept |
| Manager.Stop | index-4.js:128-135 | every entry is stopped with its definition unchanged; log, watchdogs and orphaned tasks untouched |
| Manager.StopIdempotent | index-4.js:128-135 | stop twice is stop once |
| Manager.Record | index-4.js:185-202 | the record carries the timer's name and params. It has an error iff the job threw a truthy value. Its output is the job's result, or undefined when the job threw |
| Manager.Invoke | index-4.js:64-74 | only a live entry (a running listed entry, or an orphan) fires. One job run appends exactly one record with the timer's name and params, error iff a truthy throw, and leaves timers and watchdogs untouched |
| Manager.Cancel | index-4.js:91 | `clearTimeout(h)` on the pending watchdogs: exactly the ones with another handle stay, and h is no longer pending |
| Manager.CancelMain | index-4.js:91 | `clearTimeout(this.mainTimer)`: a null mainTimer cancels nothing; otherwise exactly the watchdogs with another handle stay |
| Manager.FireWatchdog | index-4.js:85-93 | a watchdog not pending does nothing. Otherwise the sweep leaves a subsequence of ⌊n/2⌋ entries, and the entries it drops while running join the orphans. Both the fired watchdog and mainTimer are cleared, and every other pending watchdog stays |
| Manager.FireWatchdogKeepsValid | index-4.js:85-93 | a watchdog firing keeps the invariant |
| Manager.PauseKeepsValid | index-4.js:137-156 | pause keeps the invariant |
| Manager.ResumeKeepsValid | index-4.js:158-177 | resume keeps the invariant |
| Manager.StepKeepsValid | index-4.js:95-177 | every call or scheduler event keeps names unique and delays in range |
| Manager.RunKeepsValid | index-4.js:47-50 | names stay pairwise distinct across any sequence of add, remove, pause, resume, start, stop, job runs and watchdog firings |
| Manager.AddThenPauseIsNull | index-4.js:137-144 | a freshly added, never-started entry without its own `task` makes `pause` answer null and change nothing |
| Manager.StartPauseResume | index-4.js:114-177 | after start, pause of any registered name answers its index, and resume answers the same index and restores the started state |
| Manager.RemovePausedOrphansFirst | index-4.js:104-109 | removing stopped b from [x running, b stopped] leaves [b]; x's task is never cleared, its job can still log, and `stop` cannot clear it |
| Manager.SweepOrphanStillFires | index-4.js:85-93 | a watchdog firing over [a running, x running, b stopped] leaves [b]; x's task is never cleared, its job can still log, and `stop` cannot clear it |
| Manager.RestartThenFirstFires | index-4.js:85-93 | two starts leave two pending watchdogs. If the first-armed one fires first, it also clears the second, so one sweep runs |
| Manager.LastWatchdogFires | index-4.js:85-93 | when one watchdog is pending and it fires, it sweeps to ⌊n/2⌋ entries and nothing stays pending, whatever mainTimer names |
| Manager.LatestOfTwoFires | index-4.js:85-93 | of two pending watchdogs, the one mainTimer names fires: it sweeps to ⌊n/2⌋ entries and clears only itself, so the other stays pending |
| Manager.RestartThenSecondFires | index-4.js:85-93 | two starts, the second-armed watchdog firing first: after its sweep the first is still pending, and when that one fires later it sweeps again and nothing stays pending |
| Corrected.RemoveNamed | index-4.js:104-112 | intended remove: an unknown name changes nothing; otherwise exactly the named entry is deleted, running or not |
| Corrected.RemoveNamedDeletesOnlyThatName | index-4.js:104-112 | with unique names, after the intended remove the name is gone and every other name remains |
| Corrected.RemoveOfPausedEntryDeletesFirst | index-4.js:104-109 | removing stopped b from [x running, b stopped] yields [b] as written, [x] as intended |
| Corrected.RemoveNamedKeeps | index-4.js:104-112 | with unique names, the intended remove leaves a subsequence holding exactly the entries of other names, names still unique |
| Corrected.RemoveAllKeeps | index-4.js:86-89 | with unique names, removing a list of names in order leaves a subsequence holding exactly the entries whose names are not in it |
| Corrected.SweepAll | index-4.js:86-89 | the intended sweep leaves no entry |
| Corrected.RemoveAllNames | index-4.js:86-89 | removing, in order, the names a list held empties it |
| Corrected.SweepLeavesSecondRunning | index-4.js:86-89 | with two running timers the sweep as written leaves the second running; the intended sweep leaves none |

## Left out

- Host scheduler: setTimeout, setInterval, clearTimeout and clearInterval are reduced to
  an entry's `active` flag, the orphans and the list of pending watchdogs. Elapsed time
  is not modelled. Which live task fires, and when, is a parameter
  (`Manager.Invoke`'s entry, which must be live, and `Manager.FireWatchdog`'s handle).
  So is how often an interval repeats.
- Manager.Invoke: its `Live` precondition reads a truthy `task` as a scheduled task,
  which admits two entries the scheduler never fires. A fired one-shot entry keeps its
  `task`, so it still counts as live and may fire again in the model. An entry stored
  with its own truthy `task` counts as live although nothing was ever scheduled for
  it: `start` skips it and only `_startTask` arms a task. Telling these apart needs
  the scheduler's own state, which the model abstracts to the `active` flag.
- Job execution: the job function is an opaque identity. Its run is an outcome given
  as a parameter, either a return value or a thrown value.
- `print`: it only writes the log to the console.
- `created` timestamps and the `name`/`message`/`stack` of a thrown error: the record
  holds the thrown value itself.
- Numbers are integers. Fractional delays, `Infinity` and `NaN` are not modelled. In the
  code `NaN` passes the range check, because every comparison with it is false.
- `Object.keys(null)` and `Object.keys(undefined)`, which throw a TypeError before the
  object check, and `typeof null === 'object'`: a non-object definition is a single
  case, and null is not a definition.
- Further object-protocol errors, which the model accepts as ordinary definitions.
  The check calls `timer.hasOwnProperty(key)`. That throws a TypeError when the
  definition has an own `hasOwnProperty` that is not a function. It also throws when
  the definition has a null prototype and at least one key. `timer.params = props`
  runs in strict class code, so it throws on a frozen or non-extensible definition.
- Inherited, non-enumerable and symbol-keyed properties. Properties other than the
  four checked ones, `task` and `params` are dropped from the stored entry.
- Later mutation of a definition object by its creator after `add`.
- Manager.Remove: states only that the result is a subsequence one entry shorter.
  Which entry goes is stated by Timers.Remove.
- Manager.Pause: states the answer and the unchanged names. The exact effect on the
  list is stated by Timers.Pause.
- Manager.Resume: as Manager.Pause, with Timers.Resume.

## Findings

| source | as written | input that shows it | evidently intended | confidence | as-written member | corrected member |
|---|---|---|---|---|---|---|
| index-4.js:104-109 | `pause` returns null for a stopped entry. `null >= 0` holds and `splice(null, 1)` deletes position 0 | timers [x running, b stopped], `remove('b')` gives [b]. x leaves the list with its task never cleared (Timers.Orphaned, Manager.RemovePausedOrphansFirst) | delete the entry named b and no other | medium (the coercion is certain, the intent inferred), not executed | Corrected.RemoveOfPausedEntryDeletesFirst | Corrected.RemoveNamed |
| index-4.js:87-89 | the loop index advances while `remove` shortens the list, so only ⌈n/2⌉ entries are visited | running timers [a, b]: the watchdog leaves [b], still running | every entry present when the watchdog fires is removed | high, not executed | Corrected.SweepLeavesSecondRunning | Corrected.SweepAll |

The registry (`Manager`) keeps the behaviour as written, because that is what the
program does. `Corrected` holds the intended definitions and their proved properties.
