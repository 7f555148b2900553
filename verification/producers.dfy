/**
  Producers of the load generator: the weighted random choice producer
  (`RandomChoiceProducer`, whose build and selection rules its test pins)
  and the constant producer (`ConstantProducer`).

  A draw is taken as an input: a real number in `[0, total weight)`, which
  selects the choice whose cumulative-weight interval contains it.
 */
module Producers {
  import opened Wrappers

  datatype Choice<T> = Choice(item: T, weight: real)

  /** The weight a choice added without one receives. */
  const DefaultWeight: real := 1.0

  /** The builder accumulates choices in the order they are added. */
  datatype Builder<T> = Builder(choices: seq<Choice<T>>)

  /** A built producer: a non-empty list of positively weighted choices. */
  datatype RandomChoice<T> = RandomChoice(choices: seq<Choice<T>>)

  function NewBuilder<T>(): Builder<T> {
    Builder([])
  }

  function WithChoice<T>(b: Builder<T>, item: T, weight: real): (r: Builder<T>)
    ensures r.choices == b.choices + [Choice(item, weight)]
  {
    Builder(b.choices + [Choice(item, weight)])
  }

  function WithDefaultChoice<T>(b: Builder<T>, item: T): (r: Builder<T>)
    ensures r.choices == b.choices + [Choice(item, DefaultWeight)]
  {
    WithChoice(b, item, DefaultWeight)
  }

  predicate AllPositive<T>(cs: seq<Choice<T>>) {
    forall i :: 0 <= i < |cs| ==> cs[i].weight > 0.0
  }

  predicate Valid<T>(p: RandomChoice<T>) {
    |p.choices| > 0 && AllPositive(p.choices)
  }

  /** Building fails with no choices and with any weight that is not positive. */
  function Build<T>(b: Builder<T>): (r: Result<RandomChoice<T>>)
    ensures r.Ok? <==> |b.choices| > 0 && AllPositive(b.choices)
    ensures r.Err? ==> r.error == IllegalArgument
    ensures r.Ok? ==> Valid(r.value) && r.value.choices == b.choices
  {
    if |b.choices| == 0 then Err(IllegalArgument)
    else if exists i :: 0 <= i < |b.choices| && b.choices[i].weight <= 0.0 then Err(IllegalArgument)
    else Ok(RandomChoice(b.choices))
  }

  /** The sum of the first `n` weights: the lower end of choice `n`'s interval. */
  function Cumulative<T>(cs: seq<Choice<T>>, n: nat): real
    requires n <= |cs|
  {
    if n == 0 then 0.0 else cs[0].weight + Cumulative(cs[1..], n - 1)
  }

  function Total<T>(cs: seq<Choice<T>>): real {
    Cumulative(cs, |cs|)
  }

  lemma {:induction false} CumulativeGrows<T>(cs: seq<Choice<T>>, n: nat)
    requires AllPositive(cs)
    requires n < |cs|
    ensures Cumulative(cs, n + 1) == Cumulative(cs, n) + cs[n].weight
    ensures Cumulative(cs, n) >= 0.0
    decreases n
  {
    if n > 0 {
      CumulativeGrows(cs[1..], n - 1);
    }
  }

  lemma {:induction false} CumulativeMonotone<T>(cs: seq<Choice<T>>, m: nat, n: nat)
    requires AllPositive(cs)
    requires m <= n <= |cs|
    ensures Cumulative(cs, m) <= Cumulative(cs, n)
    ensures m < n ==> Cumulative(cs, m) < Cumulative(cs, n)
    decreases n - m
  {
    if m < n {
      CumulativeGrows(cs, n - 1);
      CumulativeMonotone(cs, m, n - 1);
    }
  }

  /** The index whose interval `[Cumulative(i), Cumulative(i + 1))` holds `x`. */
  function SelectIndex<T>(cs: seq<Choice<T>>, x: real): (i: nat)
    requires AllPositive(cs)
    requires 0.0 <= x < Total(cs)
    ensures i < |cs|
    ensures Cumulative(cs, i) <= x < Cumulative(cs, i + 1)
    decreases |cs|
  {
    if x < cs[0].weight then 0
    else
      assert AllPositive(cs[1..]) by {
        forall j | 0 <= j < |cs[1..]| ensures cs[1..][j].weight > 0.0 {
          assert cs[1..][j] == cs[j + 1];
        }
      }
      1 + SelectIndex(cs[1..], x - cs[0].weight)
  }

  /** The interval of `i` holds `x` only for the selected index: intervals do not overlap. */
  lemma SelectIndexUnique<T>(cs: seq<Choice<T>>, x: real, i: nat)
    requires AllPositive(cs)
    requires 0.0 <= x < Total(cs)
    requires i < |cs| && Cumulative(cs, i) <= x < Cumulative(cs, i + 1)
    ensures SelectIndex(cs, x) == i
  {
    var j := SelectIndex(cs, x);
    if j < i {
      CumulativeMonotone(cs, j + 1, i);
    } else if i < j {
      CumulativeMonotone(cs, i + 1, j);
    }
  }

  /** `produce`: the item of the choice the draw selects. */
  function Produce<T>(p: RandomChoice<T>, x: real): (item: T)
    requires Valid(p)
    requires 0.0 <= x < Total(p.choices)
    ensures exists i :: 0 <= i < |p.choices| && p.choices[i].item == item
  {
    p.choices[SelectIndex(p.choices, x)].item
  }

  /** With a single choice every draw returns it. */
  lemma OneChoice<T>(item: T, x: real)
    requires 0.0 <= x < DefaultWeight
    ensures Build(WithDefaultChoice(NewBuilder(), item)).Ok?
    ensures var p := Build(WithDefaultChoice(NewBuilder(), item)).value;
      Total(p.choices) == DefaultWeight && Produce(p, x) == item
  {
    var cs := Build(WithDefaultChoice(NewBuilder(), item)).value.choices;
    assert cs == [Choice(item, DefaultWeight)];
    assert Cumulative(cs, 1) == DefaultWeight + Cumulative(cs[1..], 0);
  }

  /**
    Every choice, whatever its positive weight (fractional ones included),
    owns a non-empty interval and so is returned by some draw: the draw at
    the interval's lower end.
   */
  lemma EveryChoiceSelectable<T>(p: RandomChoice<T>, i: nat)
    requires Valid(p)
    requires i < |p.choices|
    ensures 0.0 <= Cumulative(p.choices, i) < Cumulative(p.choices, i + 1)
    ensures Cumulative(p.choices, i) < Total(p.choices)
    ensures SelectIndex(p.choices, Cumulative(p.choices, i)) == i
    ensures Produce(p, Cumulative(p.choices, i)) == p.choices[i].item
  {
    CumulativeGrows(p.choices, i);
    CumulativeMonotone(p.choices, i + 1, |p.choices|);
    SelectIndexUnique(p.choices, Cumulative(p.choices, i), i);
  }

  /** The three-way choice with weights 33, 33.5 and 33 reaches every item. */
  lemma NChoices()
    ensures var b := WithChoice(WithChoice(WithChoice(NewBuilder(), 1, 33.0), 2, 33.5), 3, 33.0);
      && Build(b).Ok?
      && Total(b.choices) == 99.5
      && Produce(Build(b).value, 0.0) == 1
      && Produce(Build(b).value, 33.0) == 2
      && Produce(Build(b).value, 66.5) == 3
  {
    var b := WithChoice(WithChoice(WithChoice(NewBuilder(), 1, 33.0), 2, 33.5), 3, 33.0);
    var p := Build(b).value;
    assert p.choices == [Choice(1, 33.0), Choice(2, 33.5), Choice(3, 33.0)];
    EveryChoiceSelectable(p, 0);
    EveryChoiceSelectable(p, 1);
    EveryChoiceSelectable(p, 2);
    CumulativeGrows(p.choices, 0);
    CumulativeGrows(p.choices, 1);
    CumulativeGrows(p.choices, 2);
  }

  // ---------------------------------------------------------------------------
  // ConstantProducer

  datatype Constant<T> = Constant(item: T)

  /** Construction requires an item to be present. */
  function NewConstant<T>(item: Option<T>): (r: Result<Constant<T>>)
    ensures r.Ok? <==> item.Some?
    ensures r.Err? ==> r.error == NullPointer
    ensures r.Ok? ==> ProduceConstant(r.value) == item.value
  {
    match item
    case None => Err(NullPointer)
    case Some(x) => Ok(Constant(x))
  }

  function ProduceConstant<T>(p: Constant<T>): T {
    p.item
  }

  /**
    `n` successive `produce` calls. The producer is a value and is never
    replaced, so each call sees the same state.
   */
  function ProduceMany<T>(p: Constant<T>, n: nat): (r: seq<T>)
    ensures |r| == n
  {
    if n == 0 then [] else [ProduceConstant(p)] + ProduceMany(p, n - 1)
  }

  /** Repeated calls return the item given at construction, every time. */
  lemma {:induction false} ConstantIsConstant<T>(x: T, n: nat)
    ensures NewConstant(Some(x)).Ok?
    ensures forall i :: 0 <= i < n ==> ProduceMany(NewConstant(Some(x)).value, n)[i] == x
    decreases n
  {
    if n > 0 {
      ConstantIsConstant(x, n - 1);
      var p := NewConstant(Some(x)).value;
      assert forall i :: 0 < i < n ==> ProduceMany(p, n)[i] == ProduceMany(p, n - 1)[i - 1];
    }
  }
}
