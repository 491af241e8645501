/** The proxy that serves Slim through Swoole: per-request orchestration
    (class `SwooleProxy`, its `processing` and the `request` handler) and the
    configuration the bootstrap reads. */
module Proxy {
  import opened Php
  import Slim
  import Swoole
  import RequestBridge
  import ResponseBridge

  const FaviconPath := "/favicon.ico"

  /** Requests for the icon path, by path info or by request URI. */
  predicate IsFavicon(server: Swoole.ServerParams) {
    server.pathInfo == FaviconPath || server.requestUri == FaviconPath
  }

  /** The calls `processing` makes: the merge of what the application returns
      for the adapted request and a new response. */
  function ProcessingCalls(settings: map<string, Value>, app: Slim.App, request: Swoole.Request): seq<Swoole.Call> {
    ResponseBridge.MergeCalls(
      ResponseBridge.AddsContentLength(settings),
      app.process(RequestBridge.Adapt(request), Slim.NewResponse()))
  }

  /** The calls the `request` handler makes. */
  function HandlerCalls(settings: map<string, Value>, app: Slim.App, request: Swoole.Request): seq<Swoole.Call> {
    if IsFavicon(request.server) then [Swoole.EndCall]
    else ProcessingCalls(settings, app, request) + [Swoole.EndCall]
  }

  /** Every request ends the response exactly once, as its last call, and the
      calls follow the write protocol; the icon request gets nothing but the
      end. */
  lemma HandlerEndsOnce(settings: map<string, Value>, app: Slim.App, request: Swoole.Request)
    ensures var calls := HandlerCalls(settings, app, request);
            |calls| > 0 && calls[|calls| - 1] == Swoole.EndCall && Swoole.Count(calls, 3) == 1
    ensures Swoole.FollowsProtocol(HandlerCalls(settings, app, request))
    ensures IsFavicon(request.server) ==> HandlerCalls(settings, app, request) == [Swoole.EndCall]
  {
    if !IsFavicon(request.server) {
      var response := app.process(RequestBridge.Adapt(request), Slim.NewResponse());
      ResponseBridge.MergeFollowsProtocol(ResponseBridge.AddsContentLength(settings), response);
      Swoole.EndAfter(ProcessingCalls(settings, app, request));
    }
  }

  /** `SwooleBridge\SwooleProxy`. */
  class SwooleProxy {
    const app: Slim.App
    const requestTransformer: RequestBridge.RequestTransformer
    const responseMerger: ResponseBridge.ResponseMerger

    /** Files the workers require when they start. */
    var requiredFiles: seq<string>

    /** Directory the development file watcher observes. */
    var sourceDir: string

    var enableHotReload: bool

    /** The requests handed to the application so far. */
    ghost var dispatched: seq<Slim.Request>

    /** A transformer or merger that is not supplied is the default one. */
    constructor(
      app: Slim.App,
      requestTransformer: RequestBridge.RequestTransformer? := null,
      responseMerger: ResponseBridge.ResponseMerger? := null)
      ensures this.app == app
      ensures requestTransformer != null ==> this.requestTransformer == requestTransformer
      ensures requestTransformer == null ==> fresh(this.requestTransformer)
      ensures responseMerger != null ==> this.responseMerger == responseMerger
      ensures responseMerger == null ==> fresh(this.responseMerger) && this.responseMerger.app == app
      ensures requiredFiles == [] && sourceDir == "" && !enableHotReload
      ensures dispatched == []
    {
      var transformer: RequestBridge.RequestTransformer;
      if requestTransformer != null {
        transformer := requestTransformer;
      } else {
        transformer := new RequestBridge.RequestTransformer();
      }
      var merger: ResponseBridge.ResponseMerger;
      if responseMerger != null {
        merger := responseMerger;
      } else {
        merger := new ResponseBridge.ResponseMerger(app);
      }
      this.app := app;
      this.requestTransformer := transformer;
      this.responseMerger := merger;
      requiredFiles := [];
      sourceDir := "";
      enableHotReload := false;
      dispatched := [];
    }

    /** `processing`: the adapted request and a new response go to the
        application, and what it returns is merged into the given response
        object, which is returned. */
    method Processing(swooleRequest: Swoole.Request, swooleResponse: Swoole.Response) returns (out: Swoole.Response)
      modifies swooleResponse, this`dispatched
      ensures out == swooleResponse
      ensures dispatched == old(dispatched) + [RequestBridge.Adapt(swooleRequest)]
      ensures swooleResponse.calls ==
              old(swooleResponse.calls) + ProcessingCalls(responseMerger.app.settings, app, swooleRequest)
    {
      var slimRequest := requestTransformer.ToSlim(swooleRequest);
      dispatched := dispatched + [slimRequest];
      var slimResponse := app.process(slimRequest, Slim.NewResponse());
      out := responseMerger.MergeToSwoole(slimResponse, swooleResponse);
    }

    /** The `request` handler: the icon request is ended at once without
        reaching the application; any other is processed and then ended. */
    method OnRequest(swooleRequest: Swoole.Request, swooleResponse: Swoole.Response)
      modifies swooleResponse, this`dispatched
      ensures swooleResponse.calls ==
              old(swooleResponse.calls) + HandlerCalls(responseMerger.app.settings, app, swooleRequest)
      ensures IsFavicon(swooleRequest.server) ==> dispatched == old(dispatched)
      ensures !IsFavicon(swooleRequest.server) ==>
              dispatched == old(dispatched) + [RequestBridge.Adapt(swooleRequest)]
    {
      if swooleRequest.server.pathInfo == FaviconPath || swooleRequest.server.requestUri == FaviconPath {
        swooleResponse.End();
        return;
      }
      var out := Processing(swooleRequest, swooleResponse);
      out.End();
    }

    /** `setRequiredFiles`: the names are appended in order. */
    method SetRequiredFiles(fileNames: seq<string> := [])
      modifies this`requiredFiles
      ensures requiredFiles == old(requiredFiles) + fileNames
      ensures |fileNames| == 0 ==> requiredFiles == old(requiredFiles)
    {
      if |fileNames| > 0 {
        requiredFiles := requiredFiles + fileNames;
      }
    }

    /** `setSourceDir`: an empty directory name leaves the setting alone. */
    method SetSourceDir(sourceDir: string := "")
      modifies this`sourceDir
      ensures this.sourceDir == if |sourceDir| > 0 then sourceDir else old(this.sourceDir)
    {
      if |sourceDir| > 0 {
        this.sourceDir := sourceDir;
      }
    }

    /** `setEnableHotReload`. */
    method SetEnableHotReload(enable: bool := true)
      modifies this`enableHotReload
      ensures enableHotReload == enable
    {
      enableHotReload := enable;
    }
  }
}
