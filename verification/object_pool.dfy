/**
  The object pool contract of `ObjectManager`: objects are added under
  management, selected for reading (and released with `getComplete`), and
  removed. Objects under management are either available or reserved for a
  read that has not completed. Selection is driven by a random draw, taken
  here as an input, applied as an index into the available objects; the
  chosen slot is refilled with the last available object (swap-remove).
 */
module ObjectPool {
  import opened Wrappers

  datatype Pool<T> = Pool(available: seq<T>, reserved: set<T>)

  function Elements<T>(s: seq<T>): set<T> {
    set i | 0 <= i < |s| :: s[i]
  }

  predicate NoDuplicates<T(==)>(s: seq<T>) {
    forall i, j :: 0 <= i < j < |s| ==> s[i] != s[j]
  }

  /** No object is listed twice and none is both available and reserved. */
  predicate Valid<T(==)>(p: Pool<T>) {
    NoDuplicates(p.available) && Elements(p.available) !! p.reserved
  }

  /** The objects under management. */
  function Managed<T>(p: Pool<T>): set<T> {
    Elements(p.available) + p.reserved
  }

  /** The empty pool a test starts from. */
  function EmptyPool<T>(): (p: Pool<T>)
    ensures Valid(p) && Managed(p) == {}
  {
    Pool([], {})
  }

  /** Removes slot `i` by moving the last element into it. */
  function SwapRemove<T(==)>(s: seq<T>, i: nat): (r: seq<T>)
    requires i < |s|
    requires NoDuplicates(s)
    ensures |r| == |s| - 1
    ensures NoDuplicates(r)
    ensures Elements(r) == Elements(s) - {s[i]}
  {
    var last := |s| - 1;
    var r := s[i := s[last]][..last];
    assert forall j :: 0 <= j < |r| ==> r[j] == (if j == i then s[last] else s[j]);
    assert Elements(r) == Elements(s) - {s[i]} by {
      forall x | x in Elements(s) - {s[i]} ensures x in Elements(r) {
        var j :| 0 <= j < |s| && s[j] == x;
        if j == last { assert r[i] == x; } else { assert r[j] == x; }
      }
    }
    r
  }

  /** `add`: the object becomes available; an object already managed is refused. */
  function Add<T(==)>(p: Pool<T>, o: T): (r: Result<Pool<T>>)
    requires Valid(p)
    ensures r.Err? <==> o in Managed(p)
    ensures r.Err? ==> r.error == DuplicateObject
    ensures r.Ok? ==> Valid(r.value) && Managed(r.value) == Managed(p) + {o}
    ensures r.Ok? ==> r.value.reserved == p.reserved
  {
    if o in Managed(p) then Err(DuplicateObject)
    else
      var a := p.available + [o];
      assert Elements(a) == Elements(p.available) + {o} by {
        assert forall j :: 0 <= j < |p.available| ==> a[j] == p.available[j];
        assert a[|a| - 1] == o;
      }
      Ok(Pool(a, p.reserved))
  }

  /**
    `get`: selects an available object for reading and reserves it; the
    object stays under management. Fails when nothing is available.
   */
  function Get<T(==)>(p: Pool<T>, draw: nat): (r: Result<(Pool<T>, T)>)
    requires Valid(p)
    ensures r.Err? <==> |p.available| == 0
    ensures r.Err? ==> r.error == PoolEmpty
    ensures r.Ok? ==> var (q, o) := r.value;
      && o in Elements(p.available)
      && Valid(q)
      && Managed(q) == Managed(p)
      && o in q.reserved
      && Elements(q.available) == Elements(p.available) - {o}
  {
    if |p.available| == 0 then Err(PoolEmpty)
    else
      var i := draw % |p.available|;
      var o := p.available[i];
      Ok((Pool(SwapRemove(p.available, i), p.reserved + {o}), o))
  }

  /**
    `getComplete`: the reader is done with `o`, which becomes available again
    and stays under management. A completion without a reservation is refused.
   */
  function GetComplete<T(==)>(p: Pool<T>, o: T): (r: Result<Pool<T>>)
    requires Valid(p)
    ensures r.Err? <==> o !in p.reserved
    ensures r.Err? ==> r.error == NotReserved
    ensures r.Ok? ==> Valid(r.value) && Managed(r.value) == Managed(p)
    ensures r.Ok? ==> o in Elements(r.value.available) && o !in r.value.reserved
    ensures r.Ok? ==> r.value.reserved == p.reserved - {o}
    ensures r.Ok? ==> Elements(r.value.available) == Elements(p.available) + {o}
  {
    if o !in p.reserved then Err(NotReserved)
    else
      var a := p.available + [o];
      assert Elements(a) == Elements(p.available) + {o} by {
        assert forall j :: 0 <= j < |p.available| ==> a[j] == p.available[j];
        assert a[|a| - 1] == o;
      }
      Ok(Pool(a, p.reserved - {o}))
  }

  /**
    `remove`: takes an available object out of management. A reserved object
    is never chosen. Fails when nothing is available.
   */
  function Remove<T(==)>(p: Pool<T>, draw: nat): (r: Result<(Pool<T>, T)>)
    requires Valid(p)
    ensures r.Err? <==> |p.available| == 0
    ensures r.Err? ==> r.error == PoolEmpty
    ensures r.Ok? ==> var (q, o) := r.value;
      && o in Managed(p)
      && o !in p.reserved
      && Valid(q)
      && Managed(q) == Managed(p) - {o}
      && q.reserved == p.reserved
  {
    if |p.available| == 0 then Err(PoolEmpty)
    else
      var i := draw % |p.available|;
      var o := p.available[i];
      Ok((Pool(SwapRemove(p.available, i), p.reserved), o))
  }

  // ---------------------------------------------------------------------------
  // Sequences of operations

  datatype Op<T> = AddOp(obj: T) | GetOp(draw: nat) | GetCompleteOp(obj: T) | RemoveOp(draw: nat)

  /**
    One pool call. A failed call leaves the pool as it was: the source's
    callers treat an empty pool or a stray completion as recoverable.
   */
  function Step<T(==)>(p: Pool<T>, op: Op<T>): (q: Pool<T>)
    requires Valid(p)
    ensures Valid(q)
  {
    match op
    case AddOp(o) => (match Add(p, o) case Ok(q) => q case Err(_) => p)
    case GetOp(d) => (match Get(p, d) case Ok((q, _)) => q case Err(_) => p)
    case GetCompleteOp(o) => (match GetComplete(p, o) case Ok(q) => q case Err(_) => p)
    case RemoveOp(d) => (match Remove(p, d) case Ok((q, _)) => q case Err(_) => p)
  }

  /** Runs a sequence of pool calls one after another. */
  function Run<T(==)>(p: Pool<T>, ops: seq<Op<T>>): (q: Pool<T>)
    requires Valid(p)
    ensures Valid(q)
    decreases |ops|
  {
    if |ops| == 0 then p else Run(Step(p, ops[0]), ops[1..])
  }

  function Removals<T>(ops: seq<Op<T>>): nat {
    if |ops| == 0 then 0 else (if ops[0].RemoveOp? then 1 else 0) + Removals(ops[1..])
  }

  /** No call other than `remove` takes an object out of management. */
  lemma StepKeepsManaged<T>(p: Pool<T>, op: Op<T>)
    requires Valid(p)
    requires !op.RemoveOp?
    ensures Managed(p) <= Managed(Step(p, op))
  {
  }

  /** Over any run without `remove`, the set under management only grows. */
  lemma {:induction false} OnlyRemoveShrinks<T>(p: Pool<T>, ops: seq<Op<T>>)
    requires Valid(p)
    requires Removals(ops) == 0
    ensures Managed(p) <= Managed(Run(p, ops))
    decreases |ops|
  {
    if |ops| > 0 {
      StepKeepsManaged(p, ops[0]);
      OnlyRemoveShrinks(Step(p, ops[0]), ops[1..]);
    }
  }

  /**
    Draining: removing once per available object succeeds every time, returns
    each available object exactly once, and leaves nothing available.
   */
  function RemoveAll<T(==)>(p: Pool<T>, draws: seq<nat>): (r: Result<(Pool<T>, seq<T>)>)
    requires Valid(p)
    ensures r.Ok? ==> Valid(r.value.0) && r.value.0.reserved == p.reserved
    decreases |draws|
  {
    if |draws| == 0 then Ok((p, []))
    else
      match Remove(p, draws[0])
      case Err(e) => Err(e)
      case Ok((q, o)) =>
        match RemoveAll(q, draws[1..])
        case Err(e) => Err(e)
        case Ok((q', os)) => Ok((q', [o] + os))
  }

  lemma {:induction false} DrainPool<T>(p: Pool<T>, draws: seq<nat>)
    requires Valid(p)
    requires |draws| == |p.available|
    ensures RemoveAll(p, draws).Ok?
    ensures var (q, os) := RemoveAll(p, draws).value;
      && |q.available| == 0
      && q.reserved == p.reserved
      && Elements(os) == Elements(p.available)
      && NoDuplicates(os)
    decreases |draws|
  {
    if |draws| > 0 {
      var (q, o) := Remove(p, draws[0]).value;
      DrainPool(q, draws[1..]);
      var os := RemoveAll(q, draws[1..]).value.1;
      ConsElements(o, os);
    }
  }

  lemma ConsElements<T>(o: T, os: seq<T>)
    requires NoDuplicates(os) && o !in Elements(os)
    ensures Elements([o] + os) == {o} + Elements(os)
    ensures NoDuplicates([o] + os)
  {
    var all := [o] + os;
    assert forall j :: 0 < j < |all| ==> all[j] == os[j - 1];
    forall x | x in Elements(os) ensures x in Elements(all) {
      var j :| 0 <= j < |os| && os[j] == x;
      assert all[j + 1] == x;
    }
    assert all[0] == o;
  }

  /** Once drained, the next `remove` reports an empty pool. */
  lemma DrainedPoolIsEmpty<T>(p: Pool<T>, draws: seq<nat>, draw: nat)
    requires Valid(p)
    requires |draws| == |p.available|
    ensures RemoveAll(p, draws).Ok?
    ensures Remove(RemoveAll(p, draws).value.0, draw) == Err(PoolEmpty)
  {
    DrainPool(p, draws);
  }
}
