/**
  Which stopping conditions a load test gets (`OGModule.provideTestConditions`)
  and the validation of the condition configuration that the module's test
  pins.

  A condition is represented by what it watches and its threshold; the test,
  the statistics and the event bus it is registered with are outside this
  model. The status-code map is given as its entries in iteration order.
 */
module Conditions {
  import opened Wrappers

  datatype TimeUnit = Nanoseconds | Microseconds | Milliseconds | Seconds | Minutes | Hours | Days

  datatype Counter = Operations | Aborts

  datatype Condition =
    | CounterCondition(counter: Counter, threshold: int)
    | StatusCodeCondition(statusCode: int, count: int)
    | RuntimeCondition(runtime: real, unit: Option<TimeUnit>)

  datatype ConditionsConfig = ConditionsConfig(
    operations: int,
    aborts: int,
    runtime: real,
    runtimeUnit: Option<TimeUnit>,
    concurrentRequests: int,
    statusCodes: Option<seq<(int, int)>>)

  // ---------------------------------------------------------------------------
  // Validation

  predicate NoNegativeCount(entries: seq<(int, int)>) {
    forall i :: 0 <= i < |entries| ==> entries[i].1 >= 0
  }

  /** What a configuration must satisfy for conditions to be built from it. */
  predicate WellFormed(c: ConditionsConfig) {
    && c.operations >= 0
    && c.runtime >= 0.0
    && c.runtimeUnit.Some?
    && c.concurrentRequests >= 0
    && c.statusCodes.Some?
    && NoNegativeCount(c.statusCodes.value)
  }

  /**
    The checks, in the order of the test's rows: a negative number is an
    illegal argument, a missing unit or map a null pointer.
   */
  function Validate(c: ConditionsConfig): (r: Outcome)
    ensures r.Pass? <==> WellFormed(c)
    ensures r == Fail(NullPointer) ==> c.runtimeUnit.None? || c.statusCodes.None?
    ensures r == Fail(IllegalArgument) ==>
      || c.operations < 0 || c.runtime < 0.0 || c.concurrentRequests < 0
      || (c.statusCodes.Some? && !NoNegativeCount(c.statusCodes.value))
    ensures r.Fail? ==> r.error == NullPointer || r.error == IllegalArgument
  {
    if c.operations < 0 then Fail(IllegalArgument)
    else if c.runtime < 0.0 then Fail(IllegalArgument)
    else if c.runtimeUnit.None? then Fail(NullPointer)
    else if c.concurrentRequests < 0 then Fail(IllegalArgument)
    else if c.statusCodes.None? then Fail(NullPointer)
    else if !NoNegativeCount(c.statusCodes.value) then Fail(IllegalArgument)
    else Pass
  }

  // ---------------------------------------------------------------------------
  // Building

  /** One status-code condition per entry with a positive count, in entry order. */
  function StatusCodeConditions(entries: seq<(int, int)>): (cs: seq<Condition>)
    ensures |cs| <= |entries|
    ensures forall i :: 0 <= i < |cs| ==> cs[i].StatusCodeCondition? && cs[i].count > 0
    ensures forall code, count ::
      StatusCodeCondition(code, count) in cs <==> (code, count) in entries && count > 0
  {
    if |entries| == 0 then []
    else
      var rest := StatusCodeConditions(entries[1..]);
      assert entries == [entries[0]] + entries[1..];
      if entries[0].1 > 0 then [StatusCodeCondition(entries[0].0, entries[0].1)] + rest
      else rest
  }

  function PositiveCounts(entries: seq<(int, int)>): nat {
    if |entries| == 0 then 0
    else (if entries[0].1 > 0 then 1 else 0) + PositiveCounts(entries[1..])
  }

  lemma {:induction false} StatusCodeConditionCount(entries: seq<(int, int)>)
    ensures |StatusCodeConditions(entries)| == PositiveCounts(entries)
    decreases |entries|
  {
    if |entries| > 0 {
      StatusCodeConditionCount(entries[1..]);
    }
  }

  /**
    `provideTestConditions` as the module builds them: an operations counter,
    an aborts counter, the status-code conditions and a runtime condition, each
    only when its threshold is positive. Iterating a missing map is a null
    pointer failure.
   */
  function BuildConditions(c: ConditionsConfig): (r: Result<seq<Condition>>)
    ensures r.Ok? <==> c.statusCodes.Some?
    ensures r.Err? ==> r.error == NullPointer
  {
    match c.statusCodes
    case None => Err(NullPointer)
    case Some(entries) =>
      Ok((if c.operations > 0 then [CounterCondition(Operations, c.operations)] else [])
        + (if c.aborts > 0 then [CounterCondition(Aborts, c.aborts)] else [])
        + StatusCodeConditions(entries)
        + (if c.runtime > 0.0 then [RuntimeCondition(c.runtime, c.runtimeUnit)] else []))
  }

  /** Validation first, then building. */
  function ProvideTestConditions(c: ConditionsConfig): (r: Result<seq<Condition>>)
    ensures r.Ok? <==> WellFormed(c)
    ensures r.Err? ==> Validate(c) == Fail(r.error)
    ensures r.Ok? ==> r == BuildConditions(c)
  {
    match Validate(c)
    case Fail(e) => Err(e)
    case Pass => BuildConditions(c)
  }

  /** Where each kind of condition sits in the list. */
  function Rank(x: Condition): nat {
    match x
    case CounterCondition(Operations, _) => 0
    case CounterCondition(Aborts, _) => 1
    case StatusCodeCondition(_, _) => 2
    case RuntimeCondition(_, _) => 3
  }

  function Indicator(b: bool): nat {
    if b then 1 else 0
  }

  /**
    Exactly the conditions with a positive threshold are built: each counter
    and the runtime condition if and only if its threshold is positive, and a
    status-code condition if and only if its entry has a positive count.
   */
  lemma ConditionMembership(c: ConditionsConfig)
    requires c.statusCodes.Some?
    ensures forall t :: CounterCondition(Operations, t) in BuildConditions(c).value <==>
      c.operations > 0 && t == c.operations
    ensures forall t :: CounterCondition(Aborts, t) in BuildConditions(c).value <==>
      c.aborts > 0 && t == c.aborts
    ensures forall code, count :: StatusCodeCondition(code, count) in BuildConditions(c).value <==>
      (code, count) in c.statusCodes.value && count > 0
    ensures forall r, u :: RuntimeCondition(r, u) in BuildConditions(c).value <==>
      c.runtime > 0.0 && r == c.runtime && u == c.runtimeUnit
  {
  }

  /**
    The list holds one condition per positive threshold, and its order is
    operations, aborts, status codes, runtime.
   */
  lemma ConditionCountAndOrder(c: ConditionsConfig)
    requires c.statusCodes.Some?
    ensures |BuildConditions(c).value| ==
      Indicator(c.operations > 0) + Indicator(c.aborts > 0)
      + PositiveCounts(c.statusCodes.value) + Indicator(c.runtime > 0.0)
    ensures forall i, j :: 0 <= i < j < |BuildConditions(c).value| ==>
      Rank(BuildConditions(c).value[i]) <= Rank(BuildConditions(c).value[j])
  {
    StatusCodeConditionCount(c.statusCodes.value);
    var ops := if c.operations > 0 then [CounterCondition(Operations, c.operations)] else [];
    var aborts := if c.aborts > 0 then [CounterCondition(Aborts, c.aborts)] else [];
    var codes := StatusCodeConditions(c.statusCodes.value);
    var runtime := if c.runtime > 0.0 then [RuntimeCondition(c.runtime, c.runtimeUnit)] else [];
    var all := ops + aborts + codes + runtime;
    assert BuildConditions(c).value == all;
    forall i | 0 <= i < |all|
      ensures Rank(all[i]) == (if i < |ops| then 0 else if i < |ops| + |aborts| then 1
        else if i < |ops| + |aborts| + |codes| then 2 else 3)
    {
      if i < |ops| {
        assert all[i] == ops[i];
      } else if i < |ops| + |aborts| {
        assert all[i] == aborts[i - |ops|];
      } else if i < |ops| + |aborts| + |codes| {
        assert all[i] == codes[i - |ops| - |aborts|];
      } else {
        assert all[i] == runtime[i - |ops| - |aborts| - |codes|];
      }
    }
  }

  /** A configuration with every threshold zero builds no condition at all. */
  lemma NothingConfiguredNoConditions(unit: TimeUnit)
    ensures ProvideTestConditions(ConditionsConfig(0, 0, 0.0, Some(unit), 0, Some([]))).Ok?
    ensures ProvideTestConditions(ConditionsConfig(0, 0, 0.0, Some(unit), 0, Some([]))).value == []
  {
    var c := ConditionsConfig(0, 0, 0.0, Some(unit), 0, Some([]));
    assert Validate(c) == Pass;
    assert StatusCodeConditions([]) == [];
  }

  /** The rows of the module test: each invalid field gives its exception. */
  lemma InvalidConditionRows()
    ensures ProvideTestConditions(ConditionsConfig(-1, 0, 0.0, Some(Seconds), 1, Some([]))) == Err(IllegalArgument)
    ensures ProvideTestConditions(ConditionsConfig(1, 0, -1.0, Some(Seconds), 1, Some([]))) == Err(IllegalArgument)
    ensures ProvideTestConditions(ConditionsConfig(1, 0, 0.0, None, 1, Some([]))) == Err(NullPointer)
    ensures ProvideTestConditions(ConditionsConfig(1, 0, 0.0, Some(Seconds), -1, Some([]))) == Err(IllegalArgument)
    ensures ProvideTestConditions(ConditionsConfig(1, 0, 0.0, Some(Seconds), 1, None)) == Err(NullPointer)
    ensures ProvideTestConditions(ConditionsConfig(1, 0, 0.0, Some(Seconds), 1, Some([(201, -1)]))) == Err(IllegalArgument)
  {
    var bad := ConditionsConfig(1, 0, 0.0, Some(Seconds), 1, Some([(201, -1)]));
    assert bad.statusCodes.value[0].1 < 0;
    assert Validate(bad) == Fail(IllegalArgument);
  }
}
