/**
  HTTP vocabulary shared by the model, and the legacy mutable operation
  record `HTTPOperation`: a URL, a method, request and response header maps
  and a response code that is -1 until a positive code is set. The record is
  a value here; each setter returns the updated record.
 */
module Http {
  import opened Wrappers

  datatype HttpMethod = Get | Put | Post | Head | Delete

  datatype OperationType = WriteOperation | ReadOperation | DeleteOperation

  /** The response code of an operation that has not received a response. */
  const NoResponseCode: int := -1

  datatype HttpOperation = HttpOperation(
    operationType: OperationType,
    url: string,
    httpMethod: HttpMethod,
    requestHeaders: map<string, string>,
    responseHeaders: map<string, string>,
    responseCode: int)

  /** A new operation: the given URL and method, no headers, no response code. */
  function NewOperation(t: OperationType, url: string, m: HttpMethod): (o: HttpOperation)
    ensures o.url == url && o.httpMethod == m && o.operationType == t
    ensures o.responseCode == NoResponseCode
    ensures HeaderPairs(o.requestHeaders) == {} && HeaderPairs(o.responseHeaders) == {}
  {
    HttpOperation(t, url, m, map[], map[], NoResponseCode)
  }

  function SetUrl(o: HttpOperation, url: string): (r: HttpOperation)
    ensures r.url == url
    ensures r.operationType == o.operationType && r.httpMethod == o.httpMethod
    ensures r.requestHeaders == o.requestHeaders && r.responseHeaders == o.responseHeaders
    ensures r.responseCode == o.responseCode
  {
    o.(url := url)
  }

  function SetMethod(o: HttpOperation, m: HttpMethod): (r: HttpOperation)
    ensures r.httpMethod == m
    ensures r.operationType == o.operationType && r.url == o.url
    ensures r.requestHeaders == o.requestHeaders && r.responseHeaders == o.responseHeaders
    ensures r.responseCode == o.responseCode
  {
    o.(httpMethod := m)
  }

  /** Only a positive response code is accepted; otherwise the record is unchanged. */
  function SetResponseCode(o: HttpOperation, code: int): (r: Result<HttpOperation>)
    ensures r.Ok? <==> code > 0
    ensures r.Err? ==> r.error == IllegalArgument
    ensures r.Ok? ==> r.value.responseCode == code && r.value == o.(responseCode := code)
  {
    if code <= 0 then Err(IllegalArgument) else Ok(o.(responseCode := code))
  }

  /** A header lookup; an unset key gives no value. */
  function GetHeader(headers: map<string, string>, key: string): (v: Option<string>)
    ensures v.Some? <==> key in headers
  {
    if key in headers then Some(headers[key]) else None
  }

  /** The pairs the header iterator yields. */
  function HeaderPairs(headers: map<string, string>): set<(string, string)> {
    headers.Items
  }

  function SetRequestHeader(o: HttpOperation, key: string, value: string): (r: HttpOperation)
    ensures GetHeader(r.requestHeaders, key) == Some(value)
    ensures forall k :: k != key ==> GetHeader(r.requestHeaders, k) == GetHeader(o.requestHeaders, k)
    ensures r.responseHeaders == o.responseHeaders
    ensures r.url == o.url && r.httpMethod == o.httpMethod && r.responseCode == o.responseCode
  {
    o.(requestHeaders := o.requestHeaders[key := value])
  }

  function SetResponseHeader(o: HttpOperation, key: string, value: string): (r: HttpOperation)
    ensures GetHeader(r.responseHeaders, key) == Some(value)
    ensures forall k :: k != key ==> GetHeader(r.responseHeaders, k) == GetHeader(o.responseHeaders, k)
    ensures r.requestHeaders == o.requestHeaders
    ensures r.url == o.url && r.httpMethod == o.httpMethod && r.responseCode == o.responseCode
  {
    o.(responseHeaders := o.responseHeaders[key := value])
  }

  /** Sets each pair in turn as a request header. */
  function SetRequestHeaders(o: HttpOperation, pairs: seq<(string, string)>): HttpOperation
    decreases |pairs|
  {
    if |pairs| == 0 then o
    else SetRequestHeaders(SetRequestHeader(o, pairs[0].0, pairs[0].1), pairs[1..])
  }

  /** Sets each pair in turn as a response header. */
  function SetResponseHeaders(o: HttpOperation, pairs: seq<(string, string)>): HttpOperation
    decreases |pairs|
  {
    if |pairs| == 0 then o
    else SetResponseHeaders(SetResponseHeader(o, pairs[0].0, pairs[0].1), pairs[1..])
  }

  predicate DistinctKeys(pairs: seq<(string, string)>) {
    forall i, j :: 0 <= i < j < |pairs| ==> pairs[i].0 != pairs[j].0
  }

  function PairSet(pairs: seq<(string, string)>): set<(string, string)> {
    set i | 0 <= i < |pairs| :: pairs[i]
  }

  /**
    Setting pairs with distinct keys on a fresh header map makes the iterator
    yield exactly those pairs; the response headers are untouched.
   */
  lemma {:induction false} RequestHeaderIterator(o: HttpOperation, pairs: seq<(string, string)>)
    requires DistinctKeys(pairs)
    requires forall i :: 0 <= i < |pairs| ==> pairs[i].0 !in o.requestHeaders
    ensures HeaderPairs(SetRequestHeaders(o, pairs).requestHeaders) == HeaderPairs(o.requestHeaders) + PairSet(pairs)
    ensures SetRequestHeaders(o, pairs).responseHeaders == o.responseHeaders
    decreases |pairs|
  {
    if |pairs| > 0 {
      var o' := SetRequestHeader(o, pairs[0].0, pairs[0].1);
      assert forall i :: 0 <= i < |pairs[1..]| ==> pairs[1..][i] == pairs[i + 1];
      RequestHeaderIterator(o', pairs[1..]);
      ItemsOfNewKey(o.requestHeaders, pairs[0].0, pairs[0].1);
      PairSetCons(pairs);
    }
  }

  /** The same for response headers, independently of the request headers. */
  lemma {:induction false} ResponseHeaderIterator(o: HttpOperation, pairs: seq<(string, string)>)
    requires DistinctKeys(pairs)
    requires forall i :: 0 <= i < |pairs| ==> pairs[i].0 !in o.responseHeaders
    ensures HeaderPairs(SetResponseHeaders(o, pairs).responseHeaders) == HeaderPairs(o.responseHeaders) + PairSet(pairs)
    ensures SetResponseHeaders(o, pairs).requestHeaders == o.requestHeaders
    decreases |pairs|
  {
    if |pairs| > 0 {
      var o' := SetResponseHeader(o, pairs[0].0, pairs[0].1);
      assert forall i :: 0 <= i < |pairs[1..]| ==> pairs[1..][i] == pairs[i + 1];
      ResponseHeaderIterator(o', pairs[1..]);
      ItemsOfNewKey(o.responseHeaders, pairs[0].0, pairs[0].1);
      PairSetCons(pairs);
    }
  }

  /** Adding a new key adds exactly its pair to what the iterator yields. */
  lemma ItemsOfNewKey(m: map<string, string>, key: string, value: string)
    requires key !in m
    ensures HeaderPairs(m[key := value]) == HeaderPairs(m) + {(key, value)}
  {
    var m' := m[key := value];
    forall p | p in m'.Items ensures p in m.Items + {(key, value)} {
      assert p.0 in m' && m'[p.0] == p.1;
      if p.0 != key { assert p.0 in m && m[p.0] == p.1; }
    }
    forall p | p in m.Items ensures p in m'.Items {
      assert p.0 in m && m[p.0] == p.1;
      assert p.0 in m' && m'[p.0] == p.1;
    }
    assert (key, value).0 in m' && m'[(key, value).0] == (key, value).1;
  }

  lemma PairSetCons(pairs: seq<(string, string)>)
    requires |pairs| > 0
    ensures PairSet(pairs) == {pairs[0]} + PairSet(pairs[1..])
  {
    forall x | x in PairSet(pairs) ensures x in {pairs[0]} + PairSet(pairs[1..]) {
      var i :| 0 <= i < |pairs| && pairs[i] == x;
      if i > 0 { assert pairs[1..][i - 1] == x; }
    }
    forall x | x in PairSet(pairs[1..]) ensures x in PairSet(pairs) {
      var i :| 0 <= i < |pairs[1..]| && pairs[1..][i] == x;
      assert pairs[i + 1] == x;
    }
  }
}
