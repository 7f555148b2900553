/**
  Per-operation statistics of a load test (`Statistics`), the end-of-test
  snapshot (`Summary`) and the recorded result of a test (`LoadTestResult`).

  Statistics keep, for each kind of operation and for all of them together,
  an operations counter, a bytes counter, an aborts counter and a histogram of
  response status codes. One `update` is one completed request/response pair,
  applied atomically.
 */
module Statistics {
  import opened Wrappers
  import Http

  /** The kinds of operation counted, plus `All`, the aggregate over every kind. */
  datatype Operation = All | Write | Read | Delete | Metadata

  datatype Counter = Operations | Bytes | Aborts

  datatype Cell = Cell(operations: nat, bytes: nat, aborts: nat, statusCodes: map<int, nat>)

  /** Every operation, `All` included, has a cell. */
  predicate HasEveryCell(m: map<Operation, Cell>) {
    forall op: Operation :: op in m
  }

  type Stats = m: map<Operation, Cell> | HasEveryCell(m)
    witness map op: Operation :: Cell(0, 0, 0, map[])

  /** One completed request and its response, reduced to what statistics read. */
  datatype Exchange = Exchange(
    httpMethod: Http.HttpMethod, requestBodySize: nat, statusCode: int, responseBodySize: nat)

  const EmptyCell: Cell := Cell(0, 0, 0, map[])

  const EveryOperation: set<Operation> := {All, Write, Read, Delete, Metadata}

  function NewStatistics(): Stats {
    var m := map op | op in EveryOperation :: EmptyCell;
    assert HasEveryCell(m) by {
      forall op: Operation ensures op in m {
        assert op.All? || op.Write? || op.Read? || op.Delete? || op.Metadata?;
      }
    }
    m
  }

  /** Fresh statistics count nothing and have seen no status code. */
  lemma FreshStatistics(op: Operation, c: Counter)
    ensures Get(NewStatistics(), op, c) == 0
    ensures StatusCodes(NewStatistics(), op) == map[]
  {
  }

  function CellOf(s: Stats, op: Operation): Cell {
    s[op]
  }

  function WithCell(s: Stats, op: Operation, c: Cell): Stats {
    s[op := c]
  }

  /** `get(operation, counter)`. */
  function Get(s: Stats, op: Operation, c: Counter): nat {
    var cell := CellOf(s, op);
    match c
    case Operations => cell.operations
    case Bytes => cell.bytes
    case Aborts => cell.aborts
  }

  function CountOf(m: map<int, nat>, code: int): nat {
    if code in m then m[code] else 0
  }

  /** Status codes outside [100, 600) are not HTTP status codes. */
  predicate IsStatusCode(code: int) {
    100 <= code < 600
  }

  /** `getStatusCode`: the number of responses with `code`, 0 if none. */
  function GetStatusCode(s: Stats, op: Operation, code: int): (r: Result<nat>)
    ensures r.Ok? <==> IsStatusCode(code)
    ensures r.Err? ==> r.error == IllegalArgument
    ensures r.Ok? ==> r.value == CountOf(StatusCodes(s, op), code)
    ensures r.Ok? && r.value > 0 ==> code in StatusCodes(s, op)
  {
    if !IsStatusCode(code) then Err(IllegalArgument)
    else Ok(CountOf(CellOf(s, op).statusCodes, code))
  }

  /** `statusCodes`: the histogram, holding only codes that were seen. */
  function StatusCodes(s: Stats, op: Operation): map<int, nat> {
    CellOf(s, op).statusCodes
  }

  /** The kind an HTTP method is counted under. */
  function KindOf(m: Http.HttpMethod): (op: Operation)
    ensures op != All
  {
    match m
    case Put => Write
    case Post => Write
    case Get => Read
    case Head => Metadata
    case Delete => Delete
  }

  predicate IsSuccess(code: int) {
    200 <= code < 300
  }

  /**
    The bytes an exchange moved: only a successful one counts; a write moved
    its request body, a read its response body, anything else nothing.
   */
  function Transferred(e: Exchange): (n: nat)
    ensures !IsSuccess(e.statusCode) ==> n == 0
    ensures n > 0 ==> KindOf(e.httpMethod) == Write || KindOf(e.httpMethod) == Read
    ensures IsSuccess(e.statusCode) && KindOf(e.httpMethod) == Write ==> n == e.requestBodySize
    ensures IsSuccess(e.statusCode) && KindOf(e.httpMethod) == Read ==> n == e.responseBodySize
  {
    var k := KindOf(e.httpMethod);
    if !IsSuccess(e.statusCode) then 0
    else if k == Write then e.requestBodySize
    else if k == Read then e.responseBodySize
    else 0
  }

  function Record(c: Cell, bytes: nat, code: int): Cell {
    Cell(c.operations + 1, c.bytes + bytes, c.aborts, c.statusCodes[code := CountOf(c.statusCodes, code) + 1])
  }

  /**
    A cell after recording one response: one more operation, `bytes` more
    bytes, one more response with `code`, nothing else changed.
   */
  ghost predicate RecordedIn(before: Cell, after: Cell, bytes: nat, code: int) {
    && after.operations == before.operations + 1
    && after.bytes == before.bytes + bytes
    && after.aborts == before.aborts
    && CountOf(after.statusCodes, code) == CountOf(before.statusCodes, code) + 1
    && code in after.statusCodes
    && (forall c :: c != code ==> CountOf(after.statusCodes, c) == CountOf(before.statusCodes, c))
    && after.statusCodes.Keys == before.statusCodes.Keys + {code}
  }

  /**
    `update`: the exchange's kind and the aggregate each record it; every
    other kind is unchanged.
   */
  function Update(s: Stats, e: Exchange): (r: Stats)
    ensures RecordedIn(CellOf(s, KindOf(e.httpMethod)), CellOf(r, KindOf(e.httpMethod)), Transferred(e), e.statusCode)
    ensures RecordedIn(CellOf(s, All), CellOf(r, All), Transferred(e), e.statusCode)
    ensures forall op :: op != KindOf(e.httpMethod) && op != All ==> CellOf(r, op) == CellOf(s, op)
  {
    var k := KindOf(e.httpMethod);
    var b := Transferred(e);
    var s1 := WithCell(s, k, Record(CellOf(s, k), b, e.statusCode));
    WithCell(s1, All, Record(CellOf(s, All), b, e.statusCode))
  }

  /**
    What `update` does as seen through `get` and `getStatusCode`: for the
    exchange's kind and for `All`, one more operation, the transferred bytes,
    and one more response with its code; no other code changes.
   */
  lemma AfterUpdate(s: Stats, e: Exchange, op: Operation)
    requires op == KindOf(e.httpMethod) || op == All
    ensures Get(Update(s, e), op, Operations) == Get(s, op, Operations) + 1
    ensures Get(Update(s, e), op, Bytes) == Get(s, op, Bytes) + Transferred(e)
    ensures Get(Update(s, e), op, Aborts) == Get(s, op, Aborts)
    ensures forall code :: (CountOf(StatusCodes(Update(s, e), op), code) ==
      CountOf(StatusCodes(s, op), code) + (if code == e.statusCode then 1 else 0))
  {
  }

  /** Applies exchanges in order. */
  function UpdateAll(s: Stats, es: seq<Exchange>): Stats
    decreases |es|
  {
    if |es| == 0 then s else UpdateAll(Update(s, es[0]), es[1..])
  }

  // ---------------------------------------------------------------------------
  // The aggregate

  function SumOver(s: Stats, c: Counter): nat {
    Get(s, Write, c) + Get(s, Read, c) + Get(s, Delete, c) + Get(s, Metadata, c)
  }

  function CodeSum(s: Stats, code: int): nat {
    CountOf(StatusCodes(s, Write), code) + CountOf(StatusCodes(s, Read), code)
    + CountOf(StatusCodes(s, Delete), code) + CountOf(StatusCodes(s, Metadata), code)
  }

  /** `All` holds the sum of the kinds, counter by counter and code by code. */
  ghost predicate AggregateConsistent(s: Stats) {
    && (forall c :: Get(s, All, c) == SumOver(s, c))
    && forall code :: CountOf(StatusCodes(s, All), code) == CodeSum(s, code)
  }

  lemma UpdateKeepsCounterSums(s: Stats, e: Exchange, c: Counter)
    requires Get(s, All, c) == SumOver(s, c)
    ensures Get(Update(s, e), All, c) == SumOver(Update(s, e), c)
  {
    AfterUpdate(s, e, KindOf(e.httpMethod));
    AfterUpdate(s, e, All);
  }

  lemma UpdateKeepsCodeSums(s: Stats, e: Exchange, code: int)
    requires CountOf(StatusCodes(s, All), code) == CodeSum(s, code)
    ensures CountOf(StatusCodes(Update(s, e), All), code) == CodeSum(Update(s, e), code)
  {
    AfterUpdate(s, e, KindOf(e.httpMethod));
    AfterUpdate(s, e, All);
  }

  lemma UpdateKeepsAggregate(s: Stats, e: Exchange)
    requires AggregateConsistent(s)
    ensures AggregateConsistent(Update(s, e))
  {
    forall c ensures Get(Update(s, e), All, c) == SumOver(Update(s, e), c) {
      UpdateKeepsCounterSums(s, e, c);
    }
    forall code ensures CountOf(StatusCodes(Update(s, e), All), code) == CodeSum(Update(s, e), code) {
      UpdateKeepsCodeSums(s, e, code);
    }
  }

  /** From fresh statistics, any sequence of updates keeps `All` the sum of the kinds. */
  lemma {:induction false} AggregateIsSum(s: Stats, es: seq<Exchange>)
    requires AggregateConsistent(s)
    ensures AggregateConsistent(UpdateAll(s, es))
    decreases |es|
  {
    if |es| > 0 {
      UpdateKeepsAggregate(s, es[0]);
      AggregateIsSum(Update(s, es[0]), es[1..]);
    }
  }

  lemma FreshIsConsistent()
    ensures AggregateConsistent(NewStatistics())
  {
  }

  /** Counters never decrease. */
  lemma {:induction false} CountersMonotone(s: Stats, es: seq<Exchange>, op: Operation, c: Counter)
    ensures Get(s, op, c) <= Get(UpdateAll(s, es), op, c)
    decreases |es|
  {
    if |es| > 0 {
      CountersMonotone(Update(s, es[0]), es[1..], op, c);
    }
  }

  function Repeat(e: Exchange, n: nat): (es: seq<Exchange>)
    ensures |es| == n
    ensures forall i :: 0 <= i < n ==> es[i] == e
  {
    if n == 0 then [] else [e] + Repeat(e, n - 1)
  }

  /**
    `n` identical updates from fresh statistics: `n` operations, `n` times the
    bytes, `n` responses with the code, and the histogram agrees with
    `getStatusCode`.
   */
  lemma {:induction false} RepeatedUpdatesFrom(s: Stats, e: Exchange, n: nat)
    ensures var r := UpdateAll(s, Repeat(e, n));
      var k := KindOf(e.httpMethod);
      && Get(r, k, Operations) == Get(s, k, Operations) + n
      && Get(r, k, Bytes) == Get(s, k, Bytes) + n * Transferred(e)
      && (forall code :: CountOf(StatusCodes(r, k), code) ==
            CountOf(StatusCodes(s, k), code) + (if code == e.statusCode then n else 0))
      && StatusCodes(r, k).Keys == StatusCodes(s, k).Keys + (if n > 0 then {e.statusCode} else {})
    decreases n
  {
    if n > 0 {
      var k := KindOf(e.httpMethod);
      assert Repeat(e, n)[1..] == Repeat(e, n - 1);
      AfterUpdate(s, e, k);
      RepeatedUpdatesFrom(Update(s, e), e, n - 1);
      assert (n - 1) * Transferred(e) + Transferred(e) == n * Transferred(e);
    }
  }

  lemma RepeatedUpdates(e: Exchange, n: nat)
    ensures var s := UpdateAll(NewStatistics(), Repeat(e, n));
      var k := KindOf(e.httpMethod);
      && Get(s, k, Operations) == n
      && Get(s, k, Bytes) == n * Transferred(e)
      && CountOf(StatusCodes(s, k), e.statusCode) == n
      && (n > 0 ==> StatusCodes(s, k) == map[e.statusCode := n])
  {
    var k := KindOf(e.httpMethod);
    FreshStatistics(k, Operations);
    FreshStatistics(k, Bytes);
    RepeatedUpdatesFrom(NewStatistics(), e, n);
    var m := StatusCodes(UpdateAll(NewStatistics(), Repeat(e, n)), k);
    if n > 0 {
      assert m.Keys == {e.statusCode};
      assert m[e.statusCode] == n by {
        assert CountOf(m, e.statusCode) == n;
      }
    }
  }

  /**
    After `n` identical updates, `getStatusCode` reports `n` for the code, and
    every entry of the `statusCodes` histogram agrees with `getStatusCode`.
   */
  lemma RepeatedUpdatesHistogram(e: Exchange, n: nat)
    requires IsStatusCode(e.statusCode)
    ensures var s := UpdateAll(NewStatistics(), Repeat(e, n));
      var k := KindOf(e.httpMethod);
      && GetStatusCode(s, k, e.statusCode) == Ok(n)
      && forall code :: code in StatusCodes(s, k) ==> GetStatusCode(s, k, code) == Ok(StatusCodes(s, k)[code])
  {
    RepeatedUpdates(e, n);
    var k := KindOf(e.httpMethod);
    FreshStatistics(k, Operations);
    RepeatedUpdatesFrom(NewStatistics(), e, n);
  }

  // ---------------------------------------------------------------------------
  // The scenarios of the statistics test

  /** The counters of one kind after one update of fresh statistics. */
  lemma OneUpdate(e: Exchange)
    ensures var k := KindOf(e.httpMethod);
      var s := Update(NewStatistics(), e);
      && Get(s, k, Operations) == 1
      && Get(s, k, Bytes) == Transferred(e)
      && forall code :: IsStatusCode(code) ==>
           GetStatusCode(s, k, code) == Ok(if code == e.statusCode then 1 else 0)
  {
    var k := KindOf(e.httpMethod);
    FreshStatistics(k, Operations);
    FreshStatistics(k, Bytes);
    AfterUpdate(NewStatistics(), e, k);
  }

  /** The counters of one kind after two updates of that kind on fresh statistics. */
  lemma TwoUpdates(e1: Exchange, e2: Exchange)
    requires KindOf(e1.httpMethod) == KindOf(e2.httpMethod)
    ensures var k := KindOf(e1.httpMethod);
      var s := Update(Update(NewStatistics(), e1), e2);
      && Get(s, k, Operations) == 2
      && Get(s, k, Bytes) == Transferred(e1) + Transferred(e2)
      && forall code :: IsStatusCode(code) ==>
           GetStatusCode(s, k, code) == Ok((if code == e1.statusCode then 1 else 0) + (if code == e2.statusCode then 1 else 0))
  {
    var k := KindOf(e1.httpMethod);
    FreshStatistics(k, Operations);
    FreshStatistics(k, Bytes);
    AfterUpdate(NewStatistics(), e1, k);
    AfterUpdate(Update(NewStatistics(), e1), e2, k);
  }

  /** A PUT with a 1024-byte body answered with `code`. */
  function Put(code: int): Exchange {
    Exchange(Http.Put, 1024, code, 0)
  }

  /** One successful write: one operation, 1024 bytes, one 201. */
  lemma WriteRow()
    ensures var s := Update(NewStatistics(), Put(201));
      Get(s, Write, Operations) == 1 && Get(s, Write, Bytes) == 1024
      && GetStatusCode(s, Write, 201) == Ok(1)
  {
    assert KindOf(Http.Put) == Write;
    assert Transferred(Put(201)) == 1024;
    OneUpdate(Put(201));
    assert IsStatusCode(201);
  }

  /** Two successful writes accumulate. */
  lemma WriteTwiceRow()
    ensures var s := Update(Update(NewStatistics(), Put(201)), Put(201));
      Get(s, Write, Operations) == 2 && Get(s, Write, Bytes) == 2048
      && GetStatusCode(s, Write, 201) == Ok(2)
  {
    assert KindOf(Http.Put) == Write;
    assert Transferred(Put(201)) == 1024;
    TwoUpdates(Put(201), Put(201));
    assert IsStatusCode(201);
  }

  /** A write answered 500 counts as an operation but moves no bytes and no 201. */
  lemma WriteFailedRow()
    ensures var s := Update(Update(NewStatistics(), Put(201)), Put(500));
      Get(s, Write, Operations) == 2 && Get(s, Write, Bytes) == 1024
      && GetStatusCode(s, Write, 201) == Ok(1)
  {
    assert KindOf(Http.Put) == Write;
    assert Transferred(Put(201)) == 1024 && Transferred(Put(500)) == 0;
    TwoUpdates(Put(201), Put(500));
    assert IsStatusCode(201);
  }

  /** A GET with a 1024-byte response body answered with `code`. */
  function ReadOf(code: int): Exchange {
    Exchange(Http.Get, 0, code, 1024)
  }

  /** A read counts its response body. */
  lemma ReadRow()
    ensures var s := Update(NewStatistics(), ReadOf(201));
      Get(s, Read, Operations) == 1 && Get(s, Read, Bytes) == 1024
      && GetStatusCode(s, Read, 201) == Ok(1)
  {
    assert KindOf(Http.Get) == Read;
    assert Transferred(ReadOf(201)) == 1024;
    OneUpdate(ReadOf(201));
    assert IsStatusCode(201);
  }

  /** A failed read moves no bytes. */
  lemma ReadFailedRow()
    ensures var s := Update(Update(NewStatistics(), ReadOf(201)), ReadOf(500));
      Get(s, Read, Operations) == 2 && Get(s, Read, Bytes) == 1024
      && GetStatusCode(s, Read, 201) == Ok(1)
  {
    assert KindOf(Http.Get) == Read;
    assert Transferred(ReadOf(201)) == 1024 && Transferred(ReadOf(500)) == 0;
    TwoUpdates(ReadOf(201), ReadOf(500));
    assert IsStatusCode(201);
  }

  /** A delete is counted with no bytes. */
  lemma DeleteRow()
    ensures var s := Update(NewStatistics(), Exchange(Http.Delete, 0, 201, 0));
      Get(s, Delete, Operations) == 1 && Get(s, Delete, Bytes) == 0
      && GetStatusCode(s, Delete, 201) == Ok(1)
  {
    var e := Exchange(Http.Delete, 0, 201, 0);
    assert KindOf(e.httpMethod) == Delete && Transferred(e) == 0;
    OneUpdate(e);
    assert IsStatusCode(201);
  }

  /** Codes below 100 or from 600 up are refused, whatever has been recorded. */
  lemma InvalidStatusCodeRows(s: Stats)
    ensures GetStatusCode(s, Write, -1) == Err(IllegalArgument)
    ensures GetStatusCode(s, Write, 0) == Err(IllegalArgument)
    ensures GetStatusCode(s, Write, 99) == Err(IllegalArgument)
    ensures GetStatusCode(s, Write, 600) == Err(IllegalArgument)
  {
  }

  // ---------------------------------------------------------------------------
  // Summary

  /** One operation kind's line of the summary. */
  datatype OperationSummary = OperationSummary(
    operation: Operation, operations: nat, bytes: nat, statusCodes: map<int, nat>)

  datatype SummaryStats = SummaryStats(
    timestampStart: int,
    timestampFinish: int,
    runtime: real,
    operations: nat,
    write: OperationSummary,
    read: OperationSummary,
    delete: OperationSummary)

  function Snapshot(s: Stats, op: Operation): (r: OperationSummary)
    ensures r.operation == op
    ensures r.operations == Get(s, op, Operations) && r.bytes == Get(s, op, Bytes)
    ensures forall code :: IsStatusCode(code) ==> GetStatusCode(s, op, code) == Ok(CountOf(r.statusCodes, code))
  {
    OperationSummary(op, Get(s, op, Operations), Get(s, op, Bytes), StatusCodes(s, op))
  }

  /**
    `new Summary(stats, start, finish)`: timestamps must be non-negative and
    in order; the snapshot echoes them, derives the runtime as their difference
    divided by 1000, counts every operation and mirrors the write, read and
    delete statistics.
   */
  function NewSummary(s: Stats, timestampStart: int, timestampFinish: int): (r: Result<SummaryStats>)
    ensures r.Ok? <==> 0 <= timestampStart <= timestampFinish
    ensures r.Err? ==> r.error == IllegalArgument
    ensures r.Ok? ==>
      && r.value.timestampStart == timestampStart
      && r.value.timestampFinish == timestampFinish
      && r.value.runtime * 1000.0 == (timestampFinish - timestampStart) as real
      && r.value.runtime >= 0.0
      && r.value.operations == Get(s, All, Operations)
      && r.value.write == Snapshot(s, Write)
      && r.value.read == Snapshot(s, Read)
      && r.value.delete == Snapshot(s, Delete)
  {
    if timestampStart < 0 then Err(IllegalArgument)
    else if timestampFinish < 0 then Err(IllegalArgument)
    else if timestampStart > timestampFinish then Err(IllegalArgument)
    else Ok(SummaryStats(timestampStart, timestampFinish,
      (timestampFinish - timestampStart) as real / 1000.0, Get(s, All, Operations),
      Snapshot(s, Write), Snapshot(s, Read), Snapshot(s, Delete)))
  }

  /** The summary's operation total is the sum over the kinds. */
  lemma SummaryTotal(es: seq<Exchange>, timestampStart: int, timestampFinish: int)
    requires 0 <= timestampStart <= timestampFinish
    ensures var s := UpdateAll(NewStatistics(), es);
      NewSummary(s, timestampStart, timestampFinish).value.operations == SumOver(s, Operations)
  {
    AggregateIsSum(NewStatistics(), es);
  }

  lemma InvalidSummaryRows(s: Stats)
    ensures NewSummary(s, -1, 0) == Err(IllegalArgument)
    ensures NewSummary(s, 0, -1) == Err(IllegalArgument)
    ensures NewSummary(s, 1, 0) == Err(IllegalArgument)
  {
  }

  /** One successful 1024-byte read, summarised over 100 time units. */
  lemma OneReadSummary(start: int)
    requires start >= 0
    ensures var s := Update(NewStatistics(), Exchange(Http.Get, 0, 200, 1024));
      var r := NewSummary(s, start, start + 100);
      && r.Ok?
      && r.value.timestampStart == start && r.value.timestampFinish == start + 100
      && r.value.runtime == 0.1
      && r.value.operations == 1
      && r.value.write == OperationSummary(Write, 0, 0, map[])
      && r.value.read == OperationSummary(Read, 1, 1024, map[200 := 1])
      && r.value.delete == OperationSummary(Delete, 0, 0, map[])
  {
    var s := Update(NewStatistics(), Exchange(Http.Get, 0, 200, 1024));
    assert StatusCodes(s, Read) == map[][200 := 1];
  }

  // ---------------------------------------------------------------------------
  // LoadTestResult

  datatype LoadTestResult = LoadTestResult(
    timestampStart: int, timestampFinish: int, success: bool, messages: seq<string>)

  /** Construction needs a non-negative start no later than the finish; fields are kept as given. */
  function NewLoadTestResult(timestampStart: int, timestampFinish: int, success: bool, messages: seq<string>)
    : (r: Result<LoadTestResult>)
    ensures r.Ok? <==> 0 <= timestampStart <= timestampFinish
    ensures r.Err? ==> r.error == IllegalArgument
    ensures r.Ok? ==>
      && r.value.timestampStart == timestampStart && r.value.timestampFinish == timestampFinish
      && r.value.success == success && r.value.messages == messages
  {
    if timestampStart < 0 then Err(IllegalArgument)
    else if timestampStart > timestampFinish then Err(IllegalArgument)
    else Ok(LoadTestResult(timestampStart, timestampFinish, success, messages))
  }

  /** A test that starts and finishes at the same instant is a valid result. */
  lemma InstantResult(t: nat, success: bool, messages: seq<string>)
    ensures NewLoadTestResult(t, t, success, messages).Ok?
  {
  }
}
