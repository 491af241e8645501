/** The response half of the bridge: the Slim response written into the
    Swoole response object (class `ResponseMerger`). */
module ResponseBridge {
  import opened Php
  import Text
  import Slim
  import Swoole

  const ContentLengthSetting := "addContentLengthHeader"
  const ContentLengthHeader := "Content-Length"

  /** Separator between the values of one header. */
  const HeaderGlue := "; "

  /** The setting is set (not `null`) and is exactly the boolean `true`. */
  predicate AddsContentLength(settings: map<string, Value>) {
    ContentLengthSetting in settings && settings[ContentLengthSetting] == Bool(true)
  }

  /** The merger's own `Content-Length` call, when the setting asks for it and
      the body knows its size. */
  function ContentLengthCall(addContentLength: bool, body: Slim.Stream): seq<Swoole.Call> {
    if addContentLength && Slim.Size(body).Some?
    then [Swoole.HeaderCall(ContentLengthHeader, Text.NatToString(Slim.Size(body).value))]
    else []
  }

  /** One header call per response header, values imploded with the glue. */
  function HeaderCalls(headers: seq<(string, seq<string>)>): seq<Swoole.Call> {
    seq(|headers|, i requires 0 <= i < |headers| => Swoole.HeaderCall(headers[i].0, Text.Implode(HeaderGlue, headers[i].1)))
  }

  lemma HeaderCallsExtend(headers: seq<(string, seq<string>)>, i: nat)
    requires i < |headers|
    ensures HeaderCalls(headers[..i + 1]) ==
            HeaderCalls(headers[..i]) + [Swoole.HeaderCall(headers[i].0, Text.Implode(HeaderGlue, headers[i].1))]
  {
  }

  lemma AppendPhases(log: seq<Swoole.Call>, a: seq<Swoole.Call>, b: seq<Swoole.Call>, c: seq<Swoole.Call>, d: seq<Swoole.Call>)
    ensures log + a + b + c + d == log + (a + b + c + d)
  {
  }

  /** `getSize() > 0`; an unknown (`null`) size is not greater than 0. */
  predicate HasBody(body: Slim.Stream) {
    Slim.Size(body).Some? && Slim.Size(body).value > 0
  }

  /** What `getContents()` returns after the rewind a seekable body gets. */
  function Payload(body: Slim.Stream): Bytes {
    if body.seekable then Slim.Contents(Slim.Rewind(body)) else Slim.Contents(body)
  }

  function WriteCalls(body: Slim.Stream): seq<Swoole.Call> {
    if HasBody(body) then [Swoole.WriteCall(Payload(body))] else []
  }

  /** The calls `mergeToSwoole` makes, in order. */
  function MergeCalls(addContentLength: bool, response: Slim.Response): seq<Swoole.Call> {
    ContentLengthCall(addContentLength, response.body) + HeaderCalls(response.headers)
    + [Swoole.StatusCall(response.status)] + WriteCalls(response.body)
  }

  /** How many calls of each phase the merger makes. */
  lemma MergeCounts(addContentLength: bool, response: Slim.Response)
    ensures Swoole.Count(MergeCalls(addContentLength, response), 0) ==
            |ContentLengthCall(addContentLength, response.body)| + |response.headers|
    ensures Swoole.Count(MergeCalls(addContentLength, response), 1) == 1
    ensures Swoole.Count(MergeCalls(addContentLength, response), 2) == if HasBody(response.body) then 1 else 0
    ensures Swoole.Count(MergeCalls(addContentLength, response), 3) == 0
  {
    var cl := ContentLengthCall(addContentLength, response.body);
    var hs := HeaderCalls(response.headers);
    var st := [Swoole.StatusCall(response.status)];
    var wr := WriteCalls(response.body);
    var headerPhase := cl + hs;
    assert MergeCalls(addContentLength, response) == headerPhase + st + wr;
    forall phase: nat | phase <= 3
      ensures Swoole.Count(MergeCalls(addContentLength, response), phase) ==
              Swoole.Count(headerPhase, phase) + Swoole.Count(st, phase) + Swoole.Count(wr, phase)
    {
      Swoole.CountAppend(headerPhase + st, wr, phase);
      Swoole.CountAppend(headerPhase, st, phase);
    }
    Swoole.CountUniform(headerPhase, 0, 1);
    Swoole.CountUniform(headerPhase, 0, 2);
    Swoole.CountUniform(headerPhase, 0, 3);
    Swoole.CountUniform(st, 1, 0);
    Swoole.CountUniform(st, 1, 2);
    Swoole.CountUniform(st, 1, 3);
    Swoole.CountUniform(wr, 2, 0);
    Swoole.CountUniform(wr, 2, 1);
    Swoole.CountUniform(wr, 2, 3);
  }

  /** With the setting exactly `true` and a known body size, the first call is
      the `Content-Length` header, whose value is the decimal string that
      denotes the size. */
  lemma ContentLengthFirst(settings: map<string, Value>, response: Slim.Response)
    requires AddsContentLength(settings) && Slim.Size(response.body).Some?
    ensures MergeCalls(AddsContentLength(settings), response)[0] ==
            Swoole.HeaderCall(ContentLengthHeader, Text.NatToString(|response.body.content|))
    ensures Text.ParseDecimal(MergeCalls(AddsContentLength(settings), response)[0].value) == |response.body.content|
  {
    Text.ParseNatToString(|response.body.content|);
  }

  /** When the setting is absent or not exactly `true`, or the size is
      unknown, every header call is one of the response's own headers. */
  lemma NoOwnContentLength(settings: map<string, Value>, response: Slim.Response)
    requires !AddsContentLength(settings) || Slim.Size(response.body).None?
    ensures Swoole.Count(MergeCalls(AddsContentLength(settings), response), 0) == |response.headers|
    ensures forall i :: 0 <= i < |MergeCalls(AddsContentLength(settings), response)| &&
                        MergeCalls(AddsContentLength(settings), response)[i].HeaderCall? ==>
              i < |response.headers| && MergeCalls(AddsContentLength(settings), response)[i].key == response.headers[i].0
  {
    MergeCounts(AddsContentLength(settings), response);
  }

  /** There is exactly one header call per response header, in order, whose
      value is the header's values joined with `"; "`, right after the
      optional `Content-Length` call; the only other header call is that one. */
  lemma OneHeaderCallPerKey(addContentLength: bool, response: Slim.Response, j: nat)
    requires j < |response.headers|
    ensures var offset := |ContentLengthCall(addContentLength, response.body)|;
            offset <= 1 &&
            MergeCalls(addContentLength, response)[offset + j] ==
              Swoole.HeaderCall(response.headers[j].0, Text.Implode(HeaderGlue, response.headers[j].1))
    ensures Swoole.Count(MergeCalls(addContentLength, response), 0) ==
            |response.headers| + (if addContentLength && Slim.Size(response.body).Some? then 1 else 0)
  {
    MergeCounts(addContentLength, response);
  }

  /** The status is set exactly once, with the response's code, after every
      header call and before any write. */
  lemma StatusOnceBetween(addContentLength: bool, response: Slim.Response)
    ensures var calls := MergeCalls(addContentLength, response);
            var k := |ContentLengthCall(addContentLength, response.body)| + |response.headers|;
            && k < |calls|
            && calls[k] == Swoole.StatusCall(response.status)
            && Swoole.Count(calls, 1) == 1
            && (forall i :: 0 <= i < k ==> calls[i].HeaderCall?)
            && (forall i :: k < i < |calls| ==> calls[i].WriteCall?)
  {
    MergeCounts(addContentLength, response);
  }

  /** A body is written by exactly one call when its size is greater than 0
      and by none otherwise (size 0 or unknown); that call is the last one. A
      seekable body is written in full from position 0, so the payload length
      is the size. */
  lemma SingleWrite(addContentLength: bool, response: Slim.Response)
    ensures Swoole.Count(MergeCalls(addContentLength, response), 2) == if HasBody(response.body) then 1 else 0
    ensures HasBody(response.body) ==>
      MergeCalls(addContentLength, response)[|MergeCalls(addContentLength, response)| - 1] ==
      Swoole.WriteCall(Payload(response.body))
    ensures HasBody(response.body) && response.body.seekable ==>
      Payload(response.body) == response.body.content &&
      Slim.Size(response.body) == Some(|Payload(response.body)|)
  {
    MergeCounts(addContentLength, response);
    if response.body.seekable {
      assert response.body.content[0..] == response.body.content;
    }
  }

  /** The merger never ends the response and follows the write protocol. */
  lemma MergeFollowsProtocol(addContentLength: bool, response: Slim.Response)
    ensures Swoole.Count(MergeCalls(addContentLength, response), 3) == 0
    ensures Swoole.FollowsProtocol(MergeCalls(addContentLength, response))
  {
    MergeCounts(addContentLength, response);
  }

  /** `SwooleProxy\Bridge\ResponseMerger`. */
  class ResponseMerger {
    const app: Slim.App

    constructor(app: Slim.App)
      ensures this.app == app
    {
      this.app := app;
    }

    /** `mergeToSwoole`: the calls of `MergeCalls` for the application's
        setting, made on the given response object, which is returned. */
    method MergeToSwoole(response: Slim.Response, swooleResponse: Swoole.Response) returns (out: Swoole.Response)
      modifies swooleResponse
      ensures out == swooleResponse
      ensures swooleResponse.calls == old(swooleResponse.calls) + MergeCalls(AddsContentLength(app.settings), response)
    {
      var settings := app.settings;
      if AddsContentLength(settings) {
        var size := Slim.Size(response.body);
        if size.Some? {
          swooleResponse.Header(ContentLengthHeader, Text.NatToString(size.value));
        }
      }
      ghost var start := swooleResponse.calls;
      assert start == old(swooleResponse.calls) + ContentLengthCall(AddsContentLength(app.settings), response.body);

      if |response.headers| > 0 {
        var i := 0;
        while i < |response.headers|
          invariant 0 <= i <= |response.headers|
          invariant swooleResponse.calls == start + HeaderCalls(response.headers[..i])
        {
          var key := response.headers[i].0;
          var headerArray := response.headers[i].1;
          HeaderCallsExtend(response.headers, i);
          swooleResponse.Header(key, Text.Implode(HeaderGlue, headerArray));
          i := i + 1;
        }
        assert response.headers[..i] == response.headers;
      }
      assert swooleResponse.calls == start + HeaderCalls(response.headers);

      swooleResponse.Status(response.status);
      ghost var beforeBody := swooleResponse.calls;

      var body := response.body;
      if Slim.Size(body).Some? && Slim.Size(body).value > 0 {
        if body.seekable {
          body := Slim.Rewind(body);
        }
        swooleResponse.Write(Slim.Contents(body));
      }
      assert swooleResponse.calls == beforeBody + WriteCalls(response.body);
      AppendPhases(old(swooleResponse.calls), ContentLengthCall(AddsContentLength(app.settings), response.body),
        HeaderCalls(response.headers), [Swoole.StatusCall(response.status)], WriteCalls(response.body));
      out := swooleResponse;
    }
  }
}
