/**
  Weighted selection of the next request kind: `SimpleRequestManager` (nine
  kinds, each weight in [0, 100], sum 100) and the older
  `OGModule.provideRequestProducer` (write, read and delete, sum 100).

  Each request supplier is represented by the kind of request it supplies;
  what a supplier builds is outside this model. Doubles are modelled as reals,
  with the source's tolerance of 0.1^6 as an exact constant.
 */
module RequestManagers {
  import opened Wrappers
  import opened Producers

  datatype RequestKind =
    | Write | Overwrite | Read | Metadata | Delete
    | List | ContainerList | ContainerCreate | MultipartWrite

  /** The order in which the constructor offers kinds to the choice builder. */
  const KindOrder: seq<RequestKind> :=
    [Write, Overwrite, Read, Metadata, Delete, List, ContainerList, ContainerCreate, MultipartWrite]

  /** `Math.pow(0.1, 6)`, the tolerance of the weight-sum check. */
  const Tolerance: real := 0.000001

  /** Guava's `DoubleMath.fuzzyEquals(a, b, tolerance)` on reals. */
  predicate FuzzyEquals(a: real, b: real, tolerance: real) {
    -tolerance <= a - b <= tolerance
  }

  predicate IsPercentage(w: real) {
    0.0 <= w <= 100.0
  }

  datatype Weights = Weights(
    write: real, overwrite: real, read: real, metadata: real, delete: real,
    list: real, containerList: real, containerCreate: real, multipartWrite: real)

  function WeightOf(w: Weights, k: RequestKind): real {
    match k
    case Write => w.write
    case Overwrite => w.overwrite
    case Read => w.read
    case Metadata => w.metadata
    case Delete => w.delete
    case List => w.list
    case ContainerList => w.containerList
    case ContainerCreate => w.containerCreate
    case MultipartWrite => w.multipartWrite
  }

  function WeightSum(w: Weights, ks: seq<RequestKind>): real {
    if |ks| == 0 then 0.0 else WeightOf(w, ks[0]) + WeightSum(w, ks[1..])
  }

  /** What the constructor checks: every weight a percentage, and the sum 100. */
  predicate ValidWeights(w: Weights) {
    && (forall k :: IsPercentage(WeightOf(w, k)))
    && FuzzyEquals(WeightSum(w, KindOrder), 100.0, Tolerance)
  }

  /**
    The choice table: one choice per kind of `ks` with a positive weight, in
    the order of `ks`, carrying that kind's own weight.
   */
  function PositiveChoices(w: Weights, ks: seq<RequestKind>): (cs: seq<Choice<RequestKind>>)
    ensures AllPositive(cs)
    ensures forall i :: 0 <= i < |cs| ==> cs[i].weight == WeightOf(w, cs[i].item)
    ensures forall i :: 0 <= i < |cs| ==> cs[i].item in ks
  {
    if |ks| == 0 then []
    else
      var rest := PositiveChoices(w, ks[1..]);
      if WeightOf(w, ks[0]) > 0.0 then [Choice(ks[0], WeightOf(w, ks[0]))] + rest else rest
  }

  function Items(cs: seq<Choice<RequestKind>>): seq<RequestKind> {
    if |cs| == 0 then [] else [cs[0].item] + Items(cs[1..])
  }

  function FilterPositive(w: Weights, ks: seq<RequestKind>): seq<RequestKind> {
    if |ks| == 0 then []
    else (if WeightOf(w, ks[0]) > 0.0 then [ks[0]] else []) + FilterPositive(w, ks[1..])
  }

  /**
    The kinds in the table are exactly the positive-weight kinds, each once,
    in the order offered: the table's items are the positive-weight filter of
    the offered order.
   */
  lemma {:induction false} TableFollowsOrder(w: Weights, ks: seq<RequestKind>)
    ensures Items(PositiveChoices(w, ks)) == FilterPositive(w, ks)
    decreases |ks|
  {
    if |ks| > 0 {
      TableFollowsOrder(w, ks[1..]);
      var rest := PositiveChoices(w, ks[1..]);
      if WeightOf(w, ks[0]) > 0.0 {
        assert ([Choice(ks[0], WeightOf(w, ks[0]))] + rest)[1..] == rest;
      }
    }
  }

  /** A kind is in the table if and only if its weight is positive. */
  lemma {:induction false} TableMembership(w: Weights, ks: seq<RequestKind>, k: RequestKind)
    ensures (exists i :: 0 <= i < |PositiveChoices(w, ks)| && PositiveChoices(w, ks)[i].item == k)
        <==> k in ks && WeightOf(w, k) > 0.0
    decreases |ks|
  {
    if |ks| > 0 {
      TableMembership(w, ks[1..], k);
      var rest := PositiveChoices(w, ks[1..]);
      var cs := PositiveChoices(w, ks);
      if WeightOf(w, ks[0]) > 0.0 {
        assert cs == [Choice(ks[0], WeightOf(w, ks[0]))] + rest;
        assert forall i :: 0 <= i < |rest| ==> cs[i + 1] == rest[i];
        if k in ks[1..] && WeightOf(w, k) > 0.0 {
          var i :| 0 <= i < |rest| && rest[i].item == k;
          assert cs[i + 1].item == k;
        }
        if k == ks[0] { assert cs[0].item == k; }
      }
      assert ks == [ks[0]] + ks[1..];
    }
  }

  /** When the weights are valid, some kind has a positive weight. */
  lemma {:induction false} SomeWeightPositive(w: Weights, ks: seq<RequestKind>)
    requires WeightSum(w, ks) > 0.0
    ensures |PositiveChoices(w, ks)| > 0
    decreases |ks|
  {
    if WeightOf(w, ks[0]) <= 0.0 {
      SomeWeightPositive(w, ks[1..]);
    }
  }

  /**
    `SimpleRequestManager`'s constructor: fails when a weight is outside
    [0, 100] or the sum is not 100 within the tolerance; otherwise builds the
    weighted choice over the positive-weight kinds.
   */
  function NewSimpleRequestManager(w: Weights): (r: Result<RandomChoice<RequestKind>>)
    ensures r.Ok? <==> ValidWeights(w)
    ensures r.Err? ==> r.error == IllegalArgument
    ensures r.Ok? ==> Valid(r.value) && r.value.choices == PositiveChoices(w, KindOrder)
  {
    if !(forall k :: IsPercentage(WeightOf(w, k))) then Err(IllegalArgument)
    else if !FuzzyEquals(WeightSum(w, KindOrder), 100.0, Tolerance) then Err(IllegalArgument)
    else
      SomeWeightPositive(w, KindOrder);
      var b := Builder(PositiveChoices(w, KindOrder));
      Build(b)
  }

  /** `get`: the kind of request whose supplier the draw selects. */
  function GetRequest(m: RandomChoice<RequestKind>, x: real): (k: RequestKind)
    requires Valid(m)
    requires 0.0 <= x < Total(m.choices)
    ensures exists i :: 0 <= i < |m.choices| && m.choices[i].item == k
  {
    Produce(m, x)
  }

  /** Every kind a valid manager returns has a positive configured weight. */
  lemma GetHasPositiveWeight(w: Weights, x: real)
    requires ValidWeights(w)
    requires 0.0 <= x < Total(NewSimpleRequestManager(w).value.choices)
    ensures WeightOf(w, GetRequest(NewSimpleRequestManager(w).value, x)) > 0.0
  {
  }

  /**
    With no negative weight, the table's total weight is the configured sum:
    dropping zero-weight kinds loses nothing.
   */
  lemma {:induction false} TableTotal(w: Weights, ks: seq<RequestKind>)
    requires forall i :: 0 <= i < |ks| ==> WeightOf(w, ks[i]) >= 0.0
    ensures Total(PositiveChoices(w, ks)) == WeightSum(w, ks)
    decreases |ks|
  {
    if |ks| > 0 {
      assert forall i :: 0 <= i < |ks[1..]| ==> ks[1..][i] == ks[i + 1];
      TableTotal(w, ks[1..]);
      var rest := PositiveChoices(w, ks[1..]);
      if WeightOf(w, ks[0]) > 0.0 {
        var cs := [Choice(ks[0], WeightOf(w, ks[0]))] + rest;
        assert cs[1..] == rest;
        assert Total(cs) == cs[0].weight + Cumulative(cs[1..], |cs| - 1);
      }
    }
  }

  /** Every valid configuration selects with draws in `[0, sum)`, the sum within 10^-6 of 100. */
  lemma ValidTableTotal(w: Weights)
    requires ValidWeights(w)
    ensures NewSimpleRequestManager(w).Ok?
    ensures Total(NewSimpleRequestManager(w).value.choices) == WeightSum(w, KindOrder)
    ensures 100.0 - Tolerance <= Total(NewSimpleRequestManager(w).value.choices) <= 100.0 + Tolerance
  {
    assert forall i :: 0 <= i < |KindOrder| ==> IsPercentage(WeightOf(w, KindOrder[i]));
    TableTotal(w, KindOrder);
  }

  /** Weights that sum to exactly one kind's weight when every other kind has weight 0. */
  lemma {:induction false} SumOfOne(w: Weights, k: RequestKind, ks: seq<RequestKind>)
    requires forall k' :: k' != k ==> WeightOf(w, k') == 0.0
    requires forall i, j :: 0 <= i < j < |ks| ==> ks[i] != ks[j]
    ensures WeightSum(w, ks) == if k in ks then WeightOf(w, k) else 0.0
    decreases |ks|
  {
    if |ks| > 0 {
      SumOfOne(w, k, ks[1..]);
      assert ks == [ks[0]] + ks[1..];
    }
  }

  /** A kind weighted 100 with every other kind at 0 is returned by every draw. */
  lemma SingleKindAlwaysChosen(w: Weights, k: RequestKind, x: real)
    requires WeightOf(w, k) == 100.0
    requires forall k' :: k' != k ==> WeightOf(w, k') == 0.0
    requires 0.0 <= x < 100.0
    ensures ValidWeights(w)
    ensures Total(NewSimpleRequestManager(w).value.choices) == 100.0
    ensures GetRequest(NewSimpleRequestManager(w).value, x) == k
  {
    SumOfOne(w, k, KindOrder);
    ValidTableTotal(w);
    var m := NewSimpleRequestManager(w).value;
    var kk := GetRequest(m, x);
    var i :| 0 <= i < |m.choices| && m.choices[i].item == kk;
    assert WeightOf(w, kk) > 0.0;
  }

  // ---------------------------------------------------------------------------
  // OGModule.provideRequestProducer

  datatype ThreeKind = WriteRequest | ReadRequest | DeleteRequest

  /** The position of each kind in the order write, read, delete. */
  function ThreeKindRank(k: ThreeKind): nat {
    match k
    case WriteRequest => 0
    case ReadRequest => 1
    case DeleteRequest => 2
  }

  /** Offers `k` to the builder only when its weight is positive. */
  function OfferIfPositive(b: Builder<ThreeKind>, k: ThreeKind, weight: real): (r: Builder<ThreeKind>)
    ensures r.choices == b.choices + (if weight > 0.0 then [Choice(k, weight)] else [])
  {
    if weight > 0.0 then WithChoice(b, k, weight) else b
  }

  /** The choices offered, in the order write, read, delete. */
  function ThreeKindTable(writeWeight: real, readWeight: real, deleteWeight: real): seq<Choice<ThreeKind>> {
    var b1 := OfferIfPositive(NewBuilder(), WriteRequest, writeWeight);
    var b2 := OfferIfPositive(b1, ReadRequest, readWeight);
    OfferIfPositive(b2, DeleteRequest, deleteWeight).choices
  }

  /** The table holds each positive-weight kind, with its own weight, and nothing else. */
  predicate OffersEach(cs: seq<Choice<ThreeKind>>, writeWeight: real, readWeight: real, deleteWeight: real) {
    && (forall i :: 0 <= i < |cs| ==> cs[i].weight > 0.0)
    && ((exists i :: 0 <= i < |cs| && cs[i].item == WriteRequest) <==> writeWeight > 0.0)
    && ((exists i :: 0 <= i < |cs| && cs[i].item == ReadRequest) <==> readWeight > 0.0)
    && ((exists i :: 0 <= i < |cs| && cs[i].item == DeleteRequest) <==> deleteWeight > 0.0)
    && (forall i :: 0 <= i < |cs| ==>
      && (cs[i].item == WriteRequest ==> cs[i].weight == writeWeight)
      && (cs[i].item == ReadRequest ==> cs[i].weight == readWeight)
      && (cs[i].item == DeleteRequest ==> cs[i].weight == deleteWeight))
  }

  /** The kinds appear in strictly increasing rank, so each at most once. */
  predicate InRankOrder(cs: seq<Choice<ThreeKind>>) {
    forall i, j :: 0 <= i < j < |cs| ==> ThreeKindRank(cs[i].item) < ThreeKindRank(cs[j].item)
  }

  /** The table holds each positive-weight kind once, with its own weight, in rank order. */
  predicate OffersExactly(cs: seq<Choice<ThreeKind>>, writeWeight: real, readWeight: real, deleteWeight: real) {
    OffersEach(cs, writeWeight, readWeight, deleteWeight) && InRankOrder(cs)
  }

  /** The table is the positive-weight kinds, in the order write, read, delete. */
  lemma ThreeKindTableShape(writeWeight: real, readWeight: real, deleteWeight: real)
    ensures ThreeKindTable(writeWeight, readWeight, deleteWeight) ==
      (if writeWeight > 0.0 then [Choice(WriteRequest, writeWeight)] else [])
      + (if readWeight > 0.0 then [Choice(ReadRequest, readWeight)] else [])
      + (if deleteWeight > 0.0 then [Choice(DeleteRequest, deleteWeight)] else [])
  {
  }

  /** Each positive-weight kind is offered with its own weight; nothing else is. */
  lemma ThreeKindTableOffersEach(writeWeight: real, readWeight: real, deleteWeight: real)
    ensures OffersEach(ThreeKindTable(writeWeight, readWeight, deleteWeight), writeWeight, readWeight, deleteWeight)
  {
    var cs := ThreeKindTable(writeWeight, readWeight, deleteWeight);
    var w := if writeWeight > 0.0 then [Choice(WriteRequest, writeWeight)] else [];
    var r := if readWeight > 0.0 then [Choice(ReadRequest, readWeight)] else [];
    ThreeKindTableShape(writeWeight, readWeight, deleteWeight);
    if writeWeight > 0.0 { assert cs[0].item == WriteRequest; }
    if readWeight > 0.0 { assert cs[|w|].item == ReadRequest; }
    if deleteWeight > 0.0 { assert cs[|w| + |r|].item == DeleteRequest; }
  }

  /** The table lists write before read before delete. */
  lemma ThreeKindTableInRankOrder(writeWeight: real, readWeight: real, deleteWeight: real)
    ensures InRankOrder(ThreeKindTable(writeWeight, readWeight, deleteWeight))
  {
    ThreeKindTableShape(writeWeight, readWeight, deleteWeight);
  }

  /** The table offers exactly the positive-weight kinds, in rank order. */
  lemma ThreeKindTableOffers(writeWeight: real, readWeight: real, deleteWeight: real)
    ensures OffersExactly(ThreeKindTable(writeWeight, readWeight, deleteWeight), writeWeight, readWeight, deleteWeight)
  {
    ThreeKindTableOffersEach(writeWeight, readWeight, deleteWeight);
    ThreeKindTableInRankOrder(writeWeight, readWeight, deleteWeight);
  }

  /**
    `provideRequestProducer` as written: only the sum of the three weights is
    checked; the positive ones are offered in the order write, read, delete,
    each with its own weight.
   */
  function ProvideRequestProducer(writeWeight: real, readWeight: real, deleteWeight: real)
    : (r: Result<RandomChoice<ThreeKind>>)
    ensures r.Ok? <==> FuzzyEquals(readWeight + writeWeight + deleteWeight, 100.0, Tolerance)
    ensures r.Err? ==> r.error == IllegalArgument
    ensures r.Ok? ==> Valid(r.value)
    ensures r.Ok? ==> OffersExactly(r.value.choices, writeWeight, readWeight, deleteWeight)
  {
    if !FuzzyEquals(readWeight + writeWeight + deleteWeight, 100.0, Tolerance) then Err(IllegalArgument)
    else
      ThreeKindTableOffers(writeWeight, readWeight, deleteWeight);
      Build(Builder(ThreeKindTable(writeWeight, readWeight, deleteWeight)))
  }

  /**
    As written, `provideRequestProducer` accepts negative weights: write 150,
    read -50, delete 0 passes the sum check and yields a producer that always
    writes.
   */
  lemma ProvideRequestProducerAcceptsNegativeWeight()
    ensures ProvideRequestProducer(150.0, -50.0, 0.0).Ok?
    ensures ProvideRequestProducer(150.0, -50.0, 0.0).value.choices == [Choice(WriteRequest, 150.0)]
  {
  }

  /**
    The intended check, as `SimpleRequestManager` performs it: each weight
    must also lie in [0, 100].
   */
  function ProvideRequestProducerChecked(writeWeight: real, readWeight: real, deleteWeight: real)
    : (r: Result<RandomChoice<ThreeKind>>)
    ensures r.Ok? <==>
      && IsPercentage(writeWeight) && IsPercentage(readWeight) && IsPercentage(deleteWeight)
      && FuzzyEquals(readWeight + writeWeight + deleteWeight, 100.0, Tolerance)
    ensures r.Ok? ==> Valid(r.value)
    ensures r.Ok? ==> forall i :: 0 <= i < |r.value.choices| ==>
      r.value.choices[i].weight <= 100.0
  {
    if !(IsPercentage(writeWeight) && IsPercentage(readWeight) && IsPercentage(deleteWeight)) then
      Err(IllegalArgument)
    else
      var r := ProvideRequestProducer(writeWeight, readWeight, deleteWeight);
      if r.Ok? then
        assert forall i :: 0 <= i < |r.value.choices| ==>
          r.value.choices[i].item in {WriteRequest, ReadRequest, DeleteRequest};
        r
      else r
  }
}
