/** The check `add` runs on a timer definition before storing it
    (`_checkTimer` in index-4.js). */
module Validation {
  import opened Values

  /** One own enumerable property of the definition object. */
  datatype Field = Field(key: string, value: Value)

  function Keys(fs: seq<Field>): (ks: seq<string>)
    ensures |ks| == |fs|
    ensures forall i :: 0 <= i < |fs| ==> ks[i] == fs[i].key
  {
    seq(|fs|, i requires 0 <= i < |fs| => fs[i].key)
  }

  predicate DistinctKeys(fs: seq<Field>)
  {
    forall i, j :: 0 <= i < j < |fs| ==> fs[i].key != fs[j].key
  }

  /** The properties of a JavaScript object, in enumeration order; an object
      never holds the same key twice. */
  type Fields = fs: seq<Field> | DistinctKeys(fs) witness []

  /** What `add` receives as its first argument: something whose `typeof` is
      not "object", or an object with its properties. */
  datatype Definition = NotObject | Record(fields: Fields)

  /** The errors `add`, `pause`, `resume` and `remove` throw, one per message. */
  datatype Error =
    | NotAnObject        // the definition is not an object
    | InvalidName        // the check on `name` fails
    | InvalidDelay       // the check on `delay` (a number within the range) fails
    | InvalidInterval    // the check on `interval` fails
    | InvalidJob         // the check on `job` fails
    | MissingField(key: string)  // a required property is absent
    | DuplicateName      // the name is already registered
    | NameNotString      // `pause` or `resume` was given a non-string name

  predicate IsFieldError(e: Error)
  {
    e.InvalidName? || e.InvalidDelay? || e.InvalidInterval? || e.InvalidJob?
  }

  const MinDelayMs := 0
  const MaxDelayMs := 5000

  /** The properties `add` insists on, in the order it looks for them. */
  const RequiredKeys: seq<string> := ["name", "delay", "interval", "job"]

  predicate ValidDelay(n: int)
  {
    MinDelayMs <= n <= MaxDelayMs
  }

  /** The type (and range) check applied to one present property. */
  function FieldError(f: Field): (r: Option<Error>)
    ensures f.key !in RequiredKeys ==> r == None
    ensures f.key == "name" ==> (r.None? <==> f.value.Str?) && (r.Some? ==> r.value == InvalidName)
    ensures f.key == "delay" ==> (r.None? <==> f.value.Num? && ValidDelay(f.value.n)) && (r.Some? ==> r.value == InvalidDelay)
    ensures f.key == "interval" ==> (r.None? <==> f.value.Bool?) && (r.Some? ==> r.value == InvalidInterval)
    ensures f.key == "job" ==> (r.None? <==> f.value.Func?) && (r.Some? ==> r.value == InvalidJob)
  {
    if f.key == "name" && !f.value.Str? then Some(InvalidName)
    else if f.key == "delay" && (!f.value.Num? || f.value.n < MinDelayMs || f.value.n > MaxDelayMs) then Some(InvalidDelay)
    else if f.key == "interval" && !f.value.Bool? then Some(InvalidInterval)
    else if f.key == "job" && !f.value.Func? then Some(InvalidJob)
    else None
  }

  predicate AllWellTyped(fs: seq<Field>)
  {
    forall i :: 0 <= i < |fs| ==> FieldError(fs[i]).None?
  }

  predicate HasRequired(fs: seq<Field>)
  {
    forall k :: k in RequiredKeys ==> k in Keys(fs)
  }

  /** The value of property `key`, if the object has one. */
  function Get(fs: seq<Field>, key: string): (r: Option<Value>)
    ensures r.Some? <==> key in Keys(fs)
    ensures r.Some? ==> Field(key, r.value) in fs
    decreases |fs|
  {
    if fs == [] then None
    else if fs[0].key == key then Some(fs[0].value)
    else
      assert Keys(fs) == [fs[0].key] + Keys(fs[1..]);
      Get(fs[1..], key)
  }

  /** The definition's name is already held by a registered timer. */
  predicate NameInUse(names: seq<string>, fs: seq<Field>)
  {
    match Get(fs, "name")
    case Some(Str(n)) => n in names
    case _ => false
  }

  /** The definitions `add` accepts when the registry already holds `names`. */
  predicate Acceptable(names: seq<string>, d: Definition)
  {
    && d.Record?
    && AllWellTyped(d.fields)
    && HasRequired(d.fields)
    && !NameInUse(names, d.fields)
  }

  /** Position of the first property, in enumeration order, that fails its type check. */
  function FirstBadField(fs: seq<Field>): (i: nat)
    ensures i <= |fs|
    ensures forall j :: 0 <= j < i ==> FieldError(fs[j]).None?
    ensures i < |fs| ==> FieldError(fs[i]).Some?
    decreases |fs|
  {
    if fs == [] then 0
    else if FieldError(fs[0]).Some? then 0
    else 1 + FirstBadField(fs[1..])
  }

  /** Position in `req` of the first key the object lacks. */
  function FirstMissingKey(fs: seq<Field>, req: seq<string>): (k: nat)
    ensures k <= |req|
    ensures forall j :: 0 <= j < k ==> req[j] in Keys(fs)
    ensures k < |req| ==> req[k] !in Keys(fs)
    decreases |req|
  {
    if req == [] then 0
    else if req[0] !in Keys(fs) then 0
    else 1 + FirstMissingKey(fs, req[1..])
  }

  /** `_checkTimer`: None when the definition may be stored, otherwise the error
      thrown. The checks run in a fixed order, so the first failing one decides. */
  function CheckTimer(names: seq<string>, d: Definition): (r: Option<Error>)
    ensures r == Some(NotAnObject) <==> d.NotObject?
    ensures r.None? <==> Acceptable(names, d)
    ensures r.Some? && IsFieldError(r.value) ==>
      d.Record? &&
      exists i :: 0 <= i < |d.fields| && FieldError(d.fields[i]) == r &&
        forall j :: 0 <= j < i ==> FieldError(d.fields[j]).None?
    ensures r.Some? && r.value.MissingField? ==>
      d.Record? && AllWellTyped(d.fields) &&
      exists k :: 0 <= k < |RequiredKeys| && RequiredKeys[k] == r.value.key &&
        RequiredKeys[k] !in Keys(d.fields) &&
        forall j :: 0 <= j < k ==> RequiredKeys[j] in Keys(d.fields)
    ensures r == Some(DuplicateName) ==>
      d.Record? && AllWellTyped(d.fields) && HasRequired(d.fields) && NameInUse(names, d.fields)
    ensures r.Some? ==> IsFieldError(r.value) || r.value.MissingField? || r.value in {NotAnObject, DuplicateName}
  {
    match d
    case NotObject => Some(NotAnObject)
    case Record(fs) =>
      var i := FirstBadField(fs);
      if i < |fs| then FieldError(fs[i])
      else
        var k := FirstMissingKey(fs, RequiredKeys);
        if k < |RequiredKeys| then Some(MissingField(RequiredKeys[k]))
        else if NameInUse(names, fs) then Some(DuplicateName)
        else None
  }

  /** The first ill-typed property, in enumeration order, decides the error,
      whatever follows it and whatever is missing. */
  lemma FirstBadKeyDecides(names: seq<string>, d: Definition, k: nat)
    requires d.Record? && k < |d.fields| && FieldError(d.fields[k]).Some?
    requires forall j :: 0 <= j < k ==> FieldError(d.fields[j]).None?
    ensures CheckTimer(names, d) == FieldError(d.fields[k])
  {
  }

  /** Every property of an accepted definition has passed its type check. */
  lemma WellTypedMember(fs: seq<Field>, f: Field)
    requires AllWellTyped(fs) && f in fs
    ensures FieldError(f).None?
  {
  }
}
