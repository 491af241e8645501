/** The Swoole HTTP server objects the bridge touches: the inbound request
    snapshot and the per-request response object, which is modelled by the
    log of calls made on it. */
module Swoole {
  import opened Php

  /** The entries of `$request->server` the bridge reads. */
  datatype ServerParams = ServerParams(
    requestMethod: string,
    requestUri: string,
    pathInfo: string,
    queryString: Option<string>,
    serverProtocol: string,
    serverPort: Port,
    remoteAddr: string,
    requestTime: int,
    requestTimeFloat: real)

  /** One entry of `$request->files`. */
  datatype FileEntry = FileEntry(tmpName: string, name: string, mimeType: string, size: int, error: int)

  /** `$request`: server variables, the header array (names as the server
      gives them), the post array and the files array (each `null` when the
      server sets none) and `rawContent()`. */
  datatype Request = Request(
    server: ServerParams,
    header: Assoc<string>,
    post: Option<Assoc<Value>>,
    files: Option<Assoc<FileEntry>>,
    rawContent: Bytes)

  /** One call made on the response object. */
  datatype Call =
    | HeaderCall(key: string, value: string)
    | StatusCall(code: int)
    | WriteCall(data: Bytes)
    | EndCall

  /** Headers come first, then the status, then the body, then the end. */
  function Phase(c: Call): nat {
    match c
    case HeaderCall(_, _) => 0
    case StatusCall(_) => 1
    case WriteCall(_) => 2
    case EndCall => 3
  }

  /** Number of calls of the given phase. */
  function Count(calls: seq<Call>, phase: nat): nat
    decreases |calls|
  {
    if |calls| == 0 then 0
    else (if Phase(calls[0]) == phase then 1 else 0) + Count(calls[1..], phase)
  }

  lemma {:induction false} CountAppend(a: seq<Call>, b: seq<Call>, phase: nat)
    ensures Count(a + b, phase) == Count(a, phase) + Count(b, phase)
    decreases |a|
  {
    if |a| > 0 {
      assert (a + b)[1..] == a[1..] + b;
      CountAppend(a[1..], b, phase);
    } else {
      assert a + b == b;
    }
  }

  /** In a log of calls all of one phase, that phase counts every call and
      every other phase counts none. */
  lemma {:induction false} CountUniform(calls: seq<Call>, phase: nat, other: nat)
    requires forall i :: 0 <= i < |calls| ==> Phase(calls[i]) == phase
    requires other != phase
    ensures Count(calls, phase) == |calls|
    ensures Count(calls, other) == 0
    decreases |calls|
  {
    if |calls| > 0 {
      CountUniform(calls[1..], phase, other);
    }
  }

  /** The write protocol of the response object: calls in phase order, at
      most one status, one body write and one end. */
  predicate FollowsProtocol(calls: seq<Call>) {
    && (forall i, j :: 0 <= i < j < |calls| ==> Phase(calls[i]) <= Phase(calls[j]))
    && Count(calls, 1) <= 1
    && Count(calls, 2) <= 1
    && Count(calls, 3) <= 1
  }

  /** Ending a log that follows the protocol and has not ended yet gives a
      log that follows it too, ends exactly once and ends last. */
  lemma EndAfter(calls: seq<Call>)
    requires FollowsProtocol(calls) && Count(calls, 3) == 0
    ensures FollowsProtocol(calls + [EndCall])
    ensures Count(calls + [EndCall], 3) == 1
  {
    CountAppend(calls, [EndCall], 1);
    CountAppend(calls, [EndCall], 2);
    CountAppend(calls, [EndCall], 3);
    assert Count([EndCall], 3) == 1;
  }

  /** `Swoole\Http\Response`, observed through the calls made on it. */
  class Response {
    var calls: seq<Call>

    /** A response object before the bridge has made any call on it. */
    constructor()
      ensures calls == []
    {
      calls := [];
    }

    /** `header($key, $value)`: assumed only to be recorded, never refused,
        even out of order; Swoole's own handling of a repeated key is not
        modelled. */
    method Header(key: string, value: string)
      modifies this
      ensures calls == old(calls) + [HeaderCall(key, value)]
    {
      calls := calls + [HeaderCall(key, value)];
    }

    /** `status($code)`: assumed only to be recorded, never refused. */
    method Status(code: int)
      modifies this
      ensures calls == old(calls) + [StatusCall(code)]
    {
      calls := calls + [StatusCall(code)];
    }

    /** `write($data)`: assumed only to be recorded, never refused; how
        Swoole sends the data (chunked transfer) is not modelled. */
    method Write(data: Bytes)
      modifies this
      ensures calls == old(calls) + [WriteCall(data)]
    {
      calls := calls + [WriteCall(data)];
    }

    /** `end()`: assumed only to be recorded, never refused. */
    method End()
      modifies this
      ensures calls == old(calls) + [EndCall]
    {
      calls := calls + [EndCall];
    }
  }
}
