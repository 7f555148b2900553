/**
  Object-name routing between requests and the object manager
  (`ObjectNameProcessor`), and the name producer for new writes
  (`UUIDObjectNameProducer`).

  The object manager is outside this module: `Produce` takes the manager's
  reply as an input (`None` when the manager raised its checked exception),
  and `Consume` returns the manager call it would make instead of making it.
 */
module NameRouting {
  import opened Wrappers
  import opened Http
  import opened Bytes
  import ObjectMetadata

  /** The calls `ObjectNameProcessor` makes on the object manager. */
  datatype ManagerCall =
    | AcquireNameForRead
    | GetNameForDelete
    | WriteNameComplete(name: string)
    | ReleaseNameFromRead(name: string)

  /** The response metadata key that carries the name of a freshly written object. */
  const ObjectNameKey: string := "object_name"

  /**
    `produce`: a GET asks the manager for a name to read, a DELETE for a name
    to delete; any other method fails. When the manager fails (`reply` is
    `None`), no name is produced and no error is raised.
   */
  function Produce(m: HttpMethod, reply: Option<string>): (r: Result<(ManagerCall, Option<string>)>)
    ensures r.Ok? <==> m == Get || m == Delete
    ensures r.Err? ==> r.error == UnsupportedMethod
    ensures r.Ok? && m == Get ==> r.value.0 == AcquireNameForRead
    ensures r.Ok? && m == Delete ==> r.value.0 == GetNameForDelete
    ensures r.Ok? ==> r.value.1 == reply
  {
    match m
    case Get => Ok((AcquireNameForRead, reply))
    case Delete => Ok((GetNameForDelete, reply))
    case _ => Err(UnsupportedMethod)
  }

  // ---------------------------------------------------------------------------
  // Splitting a path on '/'

  /** Guava's `Splitter.on("/")`: every separator splits, empty parts are kept. */
  function Split(s: string, sep: char): (parts: seq<string>)
    ensures |parts| >= 1
    ensures forall i :: 0 <= i < |parts| ==> sep !in parts[i]
  {
    if |s| == 0 then [""]
    else
      var rest := Split(s[1..], sep);
      if s[0] == sep then [""] + rest
      else [[s[0]] + rest[0]] + rest[1..]
  }

  /** The inverse of `Split`: rejoin the parts with the separator. */
  function Join(parts: seq<string>, sep: char): string
    requires |parts| >= 1
  {
    if |parts| == 1 then parts[0] else parts[0] + [sep] + Join(parts[1..], sep)
  }

  function Count(s: string, c: char): nat {
    if |s| == 0 then 0 else (if s[0] == c then 1 else 0) + Count(s[1..], c)
  }

  lemma {:induction false} SplitJoin(s: string, sep: char)
    ensures Join(Split(s, sep), sep) == s
    decreases |s|
  {
    if |s| > 0 {
      SplitJoin(s[1..], sep);
      var rest := Split(s[1..], sep);
      if s[0] == sep {
        assert ([""] + rest)[1..] == rest;
        assert s == [sep] + s[1..];
      } else {
        var parts := [[s[0]] + rest[0]] + rest[1..];
        if |rest| == 1 {
          assert s == [s[0]] + s[1..];
        } else {
          assert parts[1..] == rest[1..];
          assert s == [s[0]] + s[1..];
        }
      }
    }
  }

  /** One part more than there are separators. */
  lemma {:induction false} SplitCount(s: string, sep: char)
    ensures |Split(s, sep)| == Count(s, sep) + 1
    decreases |s|
  {
    if |s| > 0 {
      SplitCount(s[1..], sep);
    }
  }

  /**
    `objectNameFromURL`: a name exists only when the path splits into exactly
    two parts, and it is the second one.
   */
  function ObjectNameFromPath(path: string): (name: Option<string>)
    ensures name.Some? <==> Count(path, '/') == 1
    ensures name.Some? ==> '/' !in name.value
  {
    SplitCount(path, '/');
    var parts := Split(path, '/');
    if |parts| == 2 then Some(parts[1]) else None
  }

  /** The extracted name is what follows the single slash of the path. */
  lemma ObjectNameIsAfterSlash(path: string)
    requires ObjectNameFromPath(path).Some?
    ensures exists pre :: '/' !in pre && path == pre + "/" + ObjectNameFromPath(path).value
  {
    var parts := Split(path, '/');
    SplitCount(path, '/');
    SplitJoin(path, '/');
    assert Join(parts, '/') == parts[0] + ['/'] + parts[1];
  }

  lemma {:induction false} CountAppend(a: string, b: string, c: char)
    ensures Count(a + b, c) == Count(a, c) + Count(b, c)
    decreases |a|
  {
    if |a| > 0 {
      assert (a + b)[0] == a[0] && (a + b)[1..] == a[1..] + b;
      CountAppend(a[1..], b, c);
    } else {
      assert a + b == b;
    }
  }

  lemma {:induction false} CountAbsent(s: string, c: char)
    requires c !in s
    ensures Count(s, c) == 0
    decreases |s|
  {
    if |s| > 0 {
      assert forall i :: 0 <= i < |s[1..]| ==> s[1..][i] == s[i + 1];
      CountAbsent(s[1..], c);
    }
  }

  /** A path of the form "/name" yields exactly that name. */
  lemma SlashNameYieldsName(name: string)
    requires '/' !in name
    ensures ObjectNameFromPath("/" + name) == Some(name)
  {
    var path := "/" + name;
    assert path[1..] == name;
    var rest := Split(name, '/');
    SplitCount(name, '/');
    CountAbsent(name, '/');
    SplitJoin(name, '/');
    assert Split(path, '/') == [""] + rest;
  }

  /**
    `consume`: a response that names the object it wrote completes that write,
    whatever the URL. Otherwise, a name taken from the request URL releases a
    read for a GET and fails for any other method; with no name in the URL
    the manager is not called.
   */
  function Consume(responseMetadata: map<string, string>, m: HttpMethod, urlPath: string): (r: Result<Option<ManagerCall>>)
    ensures ObjectNameKey in responseMetadata ==> r == Ok(Some(WriteNameComplete(responseMetadata[ObjectNameKey])))
    ensures ObjectNameKey !in responseMetadata && Count(urlPath, '/') != 1 ==> r == Ok(None)
    ensures ObjectNameKey !in responseMetadata && Count(urlPath, '/') == 1 ==>
      (r.Ok? <==> m == Get) && (r.Err? ==> r.error == UnsupportedMethod)
    ensures ObjectNameKey !in responseMetadata && Count(urlPath, '/') == 1 && m == Get ==>
      r == Ok(Some(ReleaseNameFromRead(ObjectNameFromPath(urlPath).value)))
    ensures r.Ok? && r.value.Some? && r.value.value.ReleaseNameFromRead? ==>
      r.value.value.name == ObjectNameFromPath(urlPath).value
  {
    if ObjectNameKey in responseMetadata then Ok(Some(WriteNameComplete(responseMetadata[ObjectNameKey])))
    else
      match ObjectNameFromPath(urlPath)
      case None => Ok(None)
      case Some(name) =>
        if m == Get then Ok(Some(ReleaseNameFromRead(name))) else Err(UnsupportedMethod)
  }

  // ---------------------------------------------------------------------------
  // UUID-derived names

  /** The canonical 8-4-4-4-12 form of a UUID, as `UUID.toString` prints it. */
  predicate IsDashPosition(i: int) {
    i == 8 || i == 13 || i == 18 || i == 23
  }

  predicate IsCanonicalUuid(u: string) {
    && |u| == 36
    && forall i :: 0 <= i < 36 ==> (if IsDashPosition(i) then u[i] == '-' else IsHexChar(u[i]))
  }

  function RemoveDashes(s: string): (r: string)
    ensures '-' !in r
    ensures |r| == |s| - Count(s, '-')
  {
    if |s| == 0 then ""
    else if s[0] == '-' then RemoveDashes(s[1..])
    else [s[0]] + RemoveDashes(s[1..])
  }

  /** The name suffix appended to every UUID-derived name. */
  const NameTail: string := "0000"

  /** `UUIDObjectNameProducer.produce`, with the random UUID as input. */
  function UuidObjectName(uuid: string): (name: string)
    ensures '-' !in name
    ensures |name| == |uuid| - Count(uuid, '-') + 4
    ensures |name| >= 4 && name[|name| - 4..] == NameTail
    ensures name[..|name| - 4] == RemoveDashes(uuid)
  {
    RemoveDashes(uuid) + NameTail
  }

  /** Dashes are dropped and every other character is kept. */
  lemma RemoveDashesOne(c: char)
    ensures RemoveDashes([c]) == if c == '-' then "" else [c]
  {
    assert [c][1..] == "";
  }

  /**
    Removal distributes over concatenation; with `RemoveDashesOne` this says
    the result is the non-dash characters of the input, in order.
   */
  lemma {:induction false} RemoveDashesAppend(a: string, b: string)
    ensures RemoveDashes(a + b) == RemoveDashes(a) + RemoveDashes(b)
    decreases |a|
  {
    if |a| > 0 {
      assert (a + b)[0] == a[0] && (a + b)[1..] == a[1..] + b;
      RemoveDashesAppend(a[1..], b);
    } else {
      assert a + b == b;
    }
  }

  lemma {:induction false} RemoveDashesHex(s: string)
    requires forall i :: 0 <= i < |s| ==> s[i] == '-' || IsHexChar(s[i])
    ensures IsLowerHex(RemoveDashes(s))
    decreases |s|
  {
    if |s| > 0 {
      assert forall i :: 0 <= i < |s[1..]| ==> s[1..][i] == s[i + 1];
      RemoveDashesHex(s[1..]);
    }
  }

  /** A canonical UUID has exactly four dashes. */
  lemma CanonicalUuidDashes(u: string)
    requires IsCanonicalUuid(u)
    ensures Count(u, '-') == 4
  {
    var g1, g2, g3, g4, g5 := u[..8], u[9..13], u[14..18], u[19..23], u[24..36];
    assert u == g1 + "-" + g2 + "-" + g3 + "-" + g4 + "-" + g5;
    HexGroupHasNoDash(u, 0, 8);
    HexGroupHasNoDash(u, 9, 13);
    HexGroupHasNoDash(u, 14, 18);
    HexGroupHasNoDash(u, 19, 23);
    HexGroupHasNoDash(u, 24, 36);
    assert Count("-", '-') == 1 by { assert "-"[1..] == ""; }
    CountAppend(g1, "-", '-');
    CountAppend(g1 + "-", g2, '-');
    CountAppend(g1 + "-" + g2, "-", '-');
    CountAppend(g1 + "-" + g2 + "-", g3, '-');
    CountAppend(g1 + "-" + g2 + "-" + g3, "-", '-');
    CountAppend(g1 + "-" + g2 + "-" + g3 + "-", g4, '-');
    CountAppend(g1 + "-" + g2 + "-" + g3 + "-" + g4, "-", '-');
    CountAppend(g1 + "-" + g2 + "-" + g3 + "-" + g4 + "-", g5, '-');
  }

  /** A group of hex digits between two dash positions holds no dash. */
  lemma HexGroupHasNoDash(u: string, lo: nat, hi: nat)
    requires IsCanonicalUuid(u)
    requires lo <= hi <= 36
    requires forall i :: lo <= i < hi ==> !IsDashPosition(i)
    ensures Count(u[lo..hi], '-') == 0
  {
    forall i | 0 <= i < hi - lo ensures u[lo..hi][i] != '-' {
      assert u[lo..hi][i] == u[lo + i];
    }
    CountAbsent(u[lo..hi], '-');
  }

  /**
    A canonical UUID yields 36 lowercase hex characters: exactly the name
    that `LegacyObjectMetadata.fromMetadata` accepts.
   */
  lemma CanonicalUuidName(u: string, size: int64, suffix: int32)
    requires IsCanonicalUuid(u)
    requires size >= 0 && suffix >= -1
    ensures |UuidObjectName(u)| == ObjectMetadata.NameLength
    ensures IsLowerHex(UuidObjectName(u))
    ensures ObjectMetadata.FromMetadata(UuidObjectName(u), size, suffix).Ok?
  {
    CanonicalUuidDashes(u);
    RemoveDashesHex(u);
    var name := UuidObjectName(u);
    RemoveDashesAppend(RemoveDashes(u), NameTail);
    assert IsLowerHex(NameTail);
    assert IsLowerHex(name) by {
      forall i | 0 <= i < |name| ensures IsHexChar(name[i]) {
        if i < |RemoveDashes(u)| { assert name[i] == RemoveDashes(u)[i]; }
        else { assert name[i] == NameTail[i - |RemoveDashes(u)|]; }
      }
    }
  }
}
