/** The request half of the bridge: the Slim request built from a Swoole
    request (class `RequestTransformer`). */
module RequestBridge {
  import opened Php
  import Text
  import Slim
  import Swoole

  /** The scheme every request gets; the transport is never inspected. */
  const DefaultScheme := "http"

  const ContentTypeKey := "content-type"
  const MultipartFormData := "multipart/form-data"
  const FormUrlEncoded := "application/x-www-form-urlencoded"

  /** The environment record built from the server variables. */
  function EnvironmentOf(server: Swoole.ServerParams): (env: Slim.Environment)
    ensures env.requestScheme == DefaultScheme
    ensures env.queryString == (if server.queryString.Some? then server.queryString.value else "")
    ensures env.serverProtocol == server.serverProtocol && env.requestMethod == server.requestMethod
    ensures env.requestUri == server.requestUri && env.serverPort == server.serverPort
    ensures env.remoteAddr == server.remoteAddr
    ensures env.requestTime == server.requestTime && env.requestTimeFloat == server.requestTimeFloat
  {
    var query := match server.queryString case Some(q) => q case None => "";
    Slim.Environment(
      server.serverProtocol, server.requestMethod, DefaultScheme, server.requestUri, query,
      server.serverPort, server.remoteAddr, server.requestTime, server.requestTimeFloat)
  }

  /** The `content-type` entry of the header array is set and contains
      `mediaType`, ignoring case. */
  function ContentTypeContains(header: Assoc<string>, mediaType: string): (r: bool)
    ensures r <==> HasKey(header, ContentTypeKey) && Text.ContainsIgnoreCase(Get(header, ContentTypeKey).value, mediaType)
  {
    match Get(header, ContentTypeKey)
    case Some(contentType) => Text.StrIPos(contentType, mediaType).Some?
    case None => false
  }

  function IsMultiPartFormData(request: Swoole.Request): (r: bool)
    ensures r <==> HasKey(request.header, ContentTypeKey) &&
                   Text.ContainsIgnoreCase(Get(request.header, ContentTypeKey).value, MultipartFormData)
  {
    ContentTypeContains(request.header, MultipartFormData)
  }

  function IsXWwwFormUrlEncoded(request: Swoole.Request): (r: bool)
    ensures r <==> HasKey(request.header, ContentTypeKey) &&
                   Text.ContainsIgnoreCase(Get(request.header, ContentTypeKey).value, FormUrlEncoded)
  {
    ContentTypeContains(request.header, FormUrlEncoded)
  }

  /** The post array becomes the parsed body, verbatim, when it is set and
      not empty; nothing else about the request changes. */
  function HandlePostData(swooleRequest: Swoole.Request, slimRequest: Slim.Request): (r: Slim.Request)
    ensures r.parsedBody == (if swooleRequest.post.Some? && |swooleRequest.post.value| > 0
                             then swooleRequest.post else slimRequest.parsedBody)
    ensures r.env == slimRequest.env && r.headers == slimRequest.headers
    ensures r.uploadedFiles == slimRequest.uploadedFiles && r.body == slimRequest.body
  {
    match swooleRequest.post
    case None => slimRequest
    case Some(post) => if |post| == 0 then slimRequest else slimRequest.WithParsedBody(post)
  }

  /** The header collection after `withHeader` for each entry, in order. */
  function HeadersCopied(h: Slim.HeaderSet, entries: seq<(string, string)>): Slim.HeaderSet
    decreases |entries|
  {
    if |entries| == 0 then h
    else
      var last := entries[|entries| - 1];
      HeadersCopied(h, entries[..|entries| - 1]).With(last.0, last.1)
  }

  /** Entry `i` names the same header as `name`. */
  predicate Names(entries: seq<(string, string)>, i: int, name: string)
    requires 0 <= i < |entries|
  {
    Slim.NormalizeKey(entries[i].0) == Slim.NormalizeKey(name)
  }

  /** Entry `i` is the last one naming `name`. */
  ghost predicate IsLastFor(entries: seq<(string, string)>, i: int, name: string) {
    && 0 <= i < |entries|
    && Names(entries, i, name)
    && forall j :: i < j < |entries| ==> !Names(entries, j, name)
  }

  /** One step of copying: the last entry decides the lookup when it names
      `name`, and the lookup is the one before it otherwise. */
  lemma HeadersCopiedLast(h: Slim.HeaderSet, entries: seq<(string, string)>, name: string)
    requires |entries| > 0
    ensures HeadersCopied(h, entries).Get(name) ==
            if Names(entries, |entries| - 1, name) then [entries[|entries| - 1].1]
            else HeadersCopied(h, entries[..|entries| - 1]).Get(name)
  {
    var last := entries[|entries| - 1];
    Slim.GetAfterWith(HeadersCopied(h, entries[..|entries| - 1]), last.0, last.1, name);
  }

  /** A header no entry names keeps what it had. */
  lemma {:induction false} HeadersCopiedUnnamed(h: Slim.HeaderSet, entries: seq<(string, string)>, name: string)
    requires forall i :: 0 <= i < |entries| ==> !Names(entries, i, name)
    ensures HeadersCopied(h, entries).Get(name) == h.Get(name)
    decreases |entries|
  {
    if |entries| > 0 {
      var front := entries[..|entries| - 1];
      forall i | 0 <= i < |front|
        ensures !Names(front, i, name)
      {
        assert front[i] == entries[i];
        assert !Names(entries, i, name);
      }
      HeadersCopiedUnnamed(h, front, name);
      HeadersCopiedLast(h, entries, name);
    }
  }

  /** An entry that is the last to name `name`, and is not the final entry,
      is still the last to name it once the final entry is dropped. */
  lemma LastForFront(entries: seq<(string, string)>, name: string, i: int)
    requires IsLastFor(entries, i, name) && i < |entries| - 1
    ensures IsLastFor(entries[..|entries| - 1], i, name)
    ensures !Names(entries, |entries| - 1, name)
  {
    var front := entries[..|entries| - 1];
    forall j | i < j < |front|
      ensures !Names(front, j, name)
    {
      assert front[j] == entries[j];
      assert !Names(entries, j, name);
    }
    assert front[i] == entries[i];
  }

  /** A header carries the value of the last entry that names it. */
  lemma {:induction false} HeadersCopiedLastFor(h: Slim.HeaderSet, entries: seq<(string, string)>, name: string, i: int)
    requires IsLastFor(entries, i, name)
    ensures HeadersCopied(h, entries).Get(name) == [entries[i].1]
    decreases |entries|
  {
    var n := |entries| - 1;
    HeadersCopiedLast(h, entries, name);
    if i < n {
      var front := entries[..n];
      LastForFront(entries, name, i);
      HeadersCopiedLastFor(h, front, name, i);
      assert front[i] == entries[i];
      assert HeadersCopied(h, entries).Get(name) == HeadersCopied(h, front).Get(name);
    } else {
      assert Names(entries, n, name);
    }
  }

  /** After copying, a header carries the value of the last entry that names
      it, whatever the spelling of either name; a header no entry names keeps
      what it had. */
  lemma HeadersCopiedLookup(h: Slim.HeaderSet, entries: seq<(string, string)>, name: string)
    ensures (forall i :: 0 <= i < |entries| ==> !Names(entries, i, name)) ==>
              HeadersCopied(h, entries).Get(name) == h.Get(name)
    ensures forall i :: IsLastFor(entries, i, name) ==> HeadersCopied(h, entries).Get(name) == [entries[i].1]
  {
    if forall i :: 0 <= i < |entries| ==> !Names(entries, i, name) {
      HeadersCopiedUnnamed(h, entries, name);
    }
    forall i | IsLastFor(entries, i, name)
      ensures HeadersCopied(h, entries).Get(name) == [entries[i].1]
    {
      HeadersCopiedLastFor(h, entries, name, i);
    }
  }

  /** Entry `i` is the first to name its header. */
  ghost predicate IsFirst(entries: seq<(string, string)>, i: int) {
    && 0 <= i < |entries|
    && forall j :: 0 <= j < i ==> !Names(entries, j, entries[i].0)
  }

  lemma FirstInFront(entries: seq<(string, string)>, i: int)
    requires IsFirst(entries, i) && i < |entries| - 1
    ensures IsFirst(entries[..|entries| - 1], i)
  {
    var front := entries[..|entries| - 1];
    forall j | 0 <= j < i
      ensures !Names(front, j, front[i].0)
    {
      assert front[j] == entries[j] && front[i] == entries[i];
      assert !Names(entries, j, entries[i].0);
    }
  }

  /** The normalised names of `entries` not already in `start`, each once, in
      the order of their first appearance, after those of `start`. */
  function FirstNames(start: seq<string>, entries: seq<(string, string)>): seq<string>
    decreases |entries|
  {
    if |entries| == 0 then start
    else
      var earlier := FirstNames(start, entries[..|entries| - 1]);
      var key := Slim.NormalizeKey(entries[|entries| - 1].0);
      if key in earlier then earlier else earlier + [key]
  }

  /** Entry `i` of the front part names what entry `i` of the whole names. */
  lemma NamesInFront(entries: seq<(string, string)>, i: int, name: string)
    requires 0 <= i < |entries| - 1
    ensures Names(entries[..|entries| - 1], i, name) <==> Names(entries, i, name)
  {
    assert entries[..|entries| - 1][i] == entries[i];
  }

  /** The keys of the copied collection are the first-appearance names after
      the keys it started with. */
  lemma {:induction false} CopiedKeys(h: Slim.HeaderSet, entries: seq<(string, string)>)
    ensures Keys(HeadersCopied(h, entries).entries) == FirstNames(Keys(h.entries), entries)
    decreases |entries|
  {
    if |entries| > 0 {
      var front := entries[..|entries| - 1];
      var last := entries[|entries| - 1];
      CopiedKeys(h, front);
      var slots := HeadersCopied(h, front).entries;
      assert HeadersCopied(h, entries).entries ==
             Put(slots, Slim.NormalizeKey(last.0), Slim.HeaderValue(last.0, [last.1]));
      KeysAfterPut(slots, Slim.NormalizeKey(last.0), Slim.HeaderValue(last.0, [last.1]));
    }
  }

  /** Some entry names `name` exactly when one before the last does or the
      last does. */
  lemma NamedStep(entries: seq<(string, string)>, front: seq<(string, string)>, name: string)
    requires |entries| > 0 && front == entries[..|entries| - 1]
    ensures (exists i :: 0 <= i < |entries| && Names(entries, i, name)) <==>
            (exists i :: 0 <= i < |front| && Names(front, i, name)) || Names(entries, |entries| - 1, name)
  {
    var n := |entries| - 1;
    if exists i :: 0 <= i < n && Names(front, i, name) {
      var i :| 0 <= i < n && Names(front, i, name);
      NamesInFront(entries, i, name);
    }
    if exists i :: 0 <= i < |entries| && Names(entries, i, name) {
      var i :| 0 <= i < |entries| && Names(entries, i, name);
      if i < n {
        NamesInFront(entries, i, name);
      }
    }
  }

  /** A name is among the first-appearance names exactly when it is in
      `start` or an entry uses it. */
  lemma {:induction false} FirstNamesKeys(start: seq<string>, entries: seq<(string, string)>, name: string)
    ensures Slim.NormalizeKey(name) in FirstNames(start, entries) <==>
            Slim.NormalizeKey(name) in start || exists i :: 0 <= i < |entries| && Names(entries, i, name)
    decreases |entries|
  {
    if |entries| > 0 {
      var n := |entries| - 1;
      var front := entries[..n];
      FirstNamesKeys(start, front, name);
      assert Slim.NormalizeKey(name) in FirstNames(start, entries) <==>
             Slim.NormalizeKey(name) in FirstNames(start, front) || Names(entries, n, name);
      NamedStep(entries, front, name);
    }
  }

  /** Copying gives a slot to exactly the names the collection already had
      and the names some entry uses. */
  lemma CopiedSlotsKeys(h: Slim.HeaderSet, entries: seq<(string, string)>, name: string)
    ensures HasKey(HeadersCopied(h, entries).entries, Slim.NormalizeKey(name)) <==>
            HasKey(h.entries, Slim.NormalizeKey(name)) || exists i :: 0 <= i < |entries| && Names(entries, i, name)
  {
    CopiedKeys(h, entries);
    FirstNamesKeys(Keys(h.entries), entries, name);
    assert HasKey(HeadersCopied(h, entries).entries, Slim.NormalizeKey(name)) <==>
           Slim.NormalizeKey(name) in Keys(HeadersCopied(h, entries).entries);
    assert HasKey(h.entries, Slim.NormalizeKey(name)) <==> Slim.NormalizeKey(name) in Keys(h.entries);
  }

  /** No entry before a first entry names its header. */
  lemma FirstIsNew(start: seq<string>, entries: seq<(string, string)>)
    requires IsFirst(entries, |entries| - 1) && Slim.NormalizeKey(entries[|entries| - 1].0) !in start
    ensures Slim.NormalizeKey(entries[|entries| - 1].0) !in FirstNames(start, entries[..|entries| - 1])
  {
    var n := |entries| - 1;
    FirstNamesKeys(start, entries[..n], entries[n].0);
    forall k | 0 <= k < n
      ensures !Names(entries[..n], k, entries[n].0)
    {
      NamesInFront(entries, k, entries[n].0);
    }
  }

  /** Copying one more entry only ever extends the first-appearance names. */
  lemma FirstNamesExtend(start: seq<string>, entries: seq<(string, string)>)
    requires |entries| > 0
    ensures var earlier := FirstNames(start, entries[..|entries| - 1]);
            |earlier| <= |FirstNames(start, entries)| &&
            forall p :: 0 <= p < |earlier| ==> FirstNames(start, entries)[p] == earlier[p]
  {
  }

  /** The names a collection starts with keep their places. */
  lemma {:induction false} FirstNamesKeepStart(start: seq<string>, entries: seq<(string, string)>)
    ensures |start| <= |FirstNames(start, entries)|
    ensures forall p :: 0 <= p < |start| ==> FirstNames(start, entries)[p] == start[p]
    decreases |entries|
  {
    if |entries| > 0 {
      FirstNamesKeepStart(start, entries[..|entries| - 1]);
      FirstNamesExtend(start, entries);
    }
  }

  /** The first-appearance names keep the order of first appearance. */
  lemma {:induction false} FirstNamesOrder(start: seq<string>, entries: seq<(string, string)>, i: int, j: int)
    requires i < j && IsFirst(entries, i) && IsFirst(entries, j)
    requires Slim.NormalizeKey(entries[j].0) !in start
    ensures exists p, q :: 0 <= p < q < |FirstNames(start, entries)| &&
              FirstNames(start, entries)[p] == Slim.NormalizeKey(entries[i].0) &&
              FirstNames(start, entries)[q] == Slim.NormalizeKey(entries[j].0)
    decreases |entries|
  {
    var n := |entries| - 1;
    var front := entries[..n];
    var earlier := FirstNames(start, front);
    var names := FirstNames(start, entries);
    var keyI := Slim.NormalizeKey(entries[i].0);
    var keyJ := Slim.NormalizeKey(entries[j].0);
    FirstNamesExtend(start, entries);
    if j < n {
      FirstInFront(entries, i);
      FirstInFront(entries, j);
      assert front[i] == entries[i] && front[j] == entries[j];
      FirstNamesOrder(start, front, i, j);
      var p, q :| 0 <= p < q < |earlier| && earlier[p] == keyI && earlier[q] == keyJ;
      assert names[p] == keyI && names[q] == keyJ;
    } else {
      FirstIsNew(start, entries);
      FirstNamesKeys(start, front, entries[i].0);
      NamesInFront(entries, i, entries[i].0);
      var p :| 0 <= p < |earlier| && earlier[p] == keyI;
      assert names == earlier + [keyJ];
      assert names[p] == keyI && names[|earlier|] == keyJ;
    }
  }

  /** Copying keeps the slots the collection started with in place. */
  lemma HeadersCopiedKeepsSlots(h: Slim.HeaderSet, entries: seq<(string, string)>)
    ensures |h.entries| <= |HeadersCopied(h, entries).entries|
    ensures forall p :: 0 <= p < |h.entries| ==> HeadersCopied(h, entries).entries[p].0 == h.entries[p].0
  {
    CopiedKeys(h, entries);
    FirstNamesKeepStart(Keys(h.entries), entries);
    var slots := HeadersCopied(h, entries).entries;
    forall p | 0 <= p < |h.entries|
      ensures slots[p].0 == h.entries[p].0
    {
      assert Keys(slots)[p] == Keys(h.entries)[p];
    }
  }

  /** Header names keep the order in which they first appear: replacing a
      header keeps its slot, and a new name goes after every earlier one. */
  lemma HeadersCopiedOrder(h: Slim.HeaderSet, entries: seq<(string, string)>, i: int, j: int)
    requires i < j && IsFirst(entries, i) && IsFirst(entries, j)
    requires !HasKey(h.entries, Slim.NormalizeKey(entries[j].0))
    ensures var slots := HeadersCopied(h, entries).entries;
            && HasKey(slots, Slim.NormalizeKey(entries[i].0)) && HasKey(slots, Slim.NormalizeKey(entries[j].0))
            && forall p, q ::
                 (0 <= p < |slots| && 0 <= q < |slots| &&
                  slots[p].0 == Slim.NormalizeKey(entries[i].0) && slots[q].0 == Slim.NormalizeKey(entries[j].0)) ==> p < q
  {
    assert HasKey(h.entries, Slim.NormalizeKey(entries[j].0)) <==> Slim.NormalizeKey(entries[j].0) in Keys(h.entries);
    CopiedKeys(h, entries);
    FirstNamesOrder(Keys(h.entries), entries, i, j);
    var slots := HeadersCopied(h, entries).entries;
    var p, q :| 0 <= p < q < |slots| && Keys(slots)[p] == Slim.NormalizeKey(entries[i].0) &&
                Keys(slots)[q] == Slim.NormalizeKey(entries[j].0);
    assert slots[p].0 == Slim.NormalizeKey(entries[i].0) && slots[q].0 == Slim.NormalizeKey(entries[j].0);
  }

  /** The descriptor for one entry of the files array. */
  function Describe(file: Swoole.FileEntry): Slim.UploadedFile {
    Slim.UploadedFile(file.tmpName, file.name, file.mimeType, file.size, file.error)
  }

  /** One descriptor per files-array entry, under the same key, in order. */
  function DescribeAll(files: seq<(string, Swoole.FileEntry)>): (r: seq<(string, Slim.UploadedFile)>)
    ensures |r| == |files|
    ensures forall i :: 0 <= i < |files| ==> r[i] == (files[i].0, Describe(files[i].1))
    ensures UniqueKeys(files) ==> UniqueKeys(r)
  {
    seq(|files|, i requires 0 <= i < |files| => (files[i].0, Describe(files[i].1)))
  }

  /** Looking a key up among the descriptors finds the descriptor of the
      files-array entry under that key, with every field copied, and nothing
      for a key the files array does not set. */
  lemma {:induction false} DescribeAllLookup(files: seq<(string, Swoole.FileEntry)>, key: string)
    ensures Get(DescribeAll(files), key) == match Get(files, key) case Some(f) => Some(Describe(f)) case None => None
    decreases |files|
  {
    if |files| > 0 {
      assert DescribeAll(files)[1..] == DescribeAll(files[1..]);
      DescribeAllLookup(files[1..], key);
    }
  }

  /** The whole request the transformer builds from `request`: environment,
      headers, form data for form content types, uploaded files for multipart,
      then the body. */
  function Adapt(request: Swoole.Request): Slim.Request {
    var base := Slim.CreateFromEnvironment(EnvironmentOf(request.server));
    var withHeaders := base.(headers := HeadersCopied(base.headers, request.header));
    var withPost :=
      if IsMultiPartFormData(request) || IsXWwwFormUrlEncoded(request)
      then HandlePostData(request, withHeaders) else withHeaders;
    var withFiles :=
      if IsMultiPartFormData(request) && request.files.Some? && |request.files.value| > 0
      then withPost.WithUploadedFiles(DescribeAll(request.files.value)) else withPost;
    if |request.rawContent| == 0 then withFiles
    else withFiles.WithBody(Slim.Rewind(Slim.Write(withFiles.body, request.rawContent)))
  }

  /** The environment always has scheme `http` and an empty query string when
      the server sets none. */
  lemma AdaptEnvironment(request: Swoole.Request)
    ensures Adapt(request).env == EnvironmentOf(request.server)
    ensures Adapt(request).env.requestScheme == "http"
    ensures request.server.queryString.None? ==> Adapt(request).env.queryString == ""
  {
  }

  /** The request's headers are the `Host` header it was created with, then
      each Swoole header entry copied in order. */
  lemma AdaptHeadersCopied(request: Swoole.Request)
    ensures Adapt(request).headers == HeadersCopied(Slim.HostHeaders(EnvironmentOf(request.server)), request.header)
  {
  }

  /** Every header of the Swoole request reaches the Slim request: a lookup
      under any spelling of a name gives the value of the last header entry
      with that name. A name no entry has gives no value, except `host`, which
      keeps the value the request was created with. */
  lemma AdaptHeaders(request: Swoole.Request, name: string)
    ensures (forall i :: 0 <= i < |request.header| ==> !Names(request.header, i, name)) ==>
              Adapt(request).headers.Get(name) ==
                if Slim.NormalizeKey(name) == "host" then [Slim.HostValue(EnvironmentOf(request.server))] else []
    ensures forall i :: IsLastFor(request.header, i, name) ==> Adapt(request).headers.Get(name) == [request.header[i].1]
  {
    AdaptHeadersCopied(request);
    HeadersCopiedLookup(Slim.HostHeaders(EnvironmentOf(request.server)), request.header, name);
  }

  /** The `host` header always comes first, whatever the Swoole request's
      header order. */
  lemma AdaptHostFirst(request: Swoole.Request)
    ensures |Adapt(request).headers.entries| > 0 && Adapt(request).headers.entries[0].0 == "host"
  {
    AdaptHeadersCopied(request);
    HeadersCopiedKeepsSlots(Slim.HostHeaders(EnvironmentOf(request.server)), request.header);
  }

  /** The application sees the other header names in the order in which their
      first entries appear in the Swoole request. */
  lemma AdaptHeaderOrder(request: Swoole.Request, i: int, j: int)
    requires i < j && IsFirst(request.header, i) && IsFirst(request.header, j)
    requires Slim.NormalizeKey(request.header[j].0) != "host"
    ensures var slots := Adapt(request).headers.entries;
            && HasKey(slots, Slim.NormalizeKey(request.header[i].0))
            && HasKey(slots, Slim.NormalizeKey(request.header[j].0))
            && forall p, q ::
                 (0 <= p < |slots| && 0 <= q < |slots| &&
                  slots[p].0 == Slim.NormalizeKey(request.header[i].0) &&
                  slots[q].0 == Slim.NormalizeKey(request.header[j].0)) ==> p < q
  {
    AdaptHeadersCopied(request);
    HeadersCopiedOrder(Slim.HostHeaders(EnvironmentOf(request.server)), request.header, i, j);
  }

  /** When no two header names normalise alike (as with the lower-case names
      the server produces), every header is found under any spelling of its
      name. */
  lemma AdaptHeaderAnyCase(request: Swoole.Request, i: nat, name: string)
    requires i < |request.header|
    requires forall j, k :: 0 <= j < k < |request.header| ==>
               Slim.NormalizeKey(request.header[j].0) != Slim.NormalizeKey(request.header[k].0)
    requires Slim.NormalizeKey(name) == Slim.NormalizeKey(request.header[i].0)
    ensures Adapt(request).headers.Get(name) == [request.header[i].1]
  {
    AdaptHeaders(request, name);
    assert IsLastFor(request.header, i, name);
  }

  /** In particular a header is found under its name spelled in any mix of
      upper and lower case. */
  lemma AdaptHeaderCaseVariant(request: Swoole.Request, i: nat, name: string)
    requires i < |request.header|
    requires forall j, k :: 0 <= j < k < |request.header| ==>
               Slim.NormalizeKey(request.header[j].0) != Slim.NormalizeKey(request.header[k].0)
    requires Text.Lower(name) == Text.Lower(request.header[i].0)
    ensures Adapt(request).headers.Get(name) == [request.header[i].1]
  {
    Slim.NormalizeKeyIgnoresCase(name, request.header[i].0);
    AdaptHeaderAnyCase(request, i, name);
  }

  /** The parsed body is the post array exactly when the content type is a
      form type and the post array is set and not empty; uploaded files are
      attached exactly when the content type is multipart and the files array
      is set and not empty. */
  lemma AdaptFormData(request: Swoole.Request)
    ensures Adapt(request).parsedBody ==
      if (IsMultiPartFormData(request) || IsXWwwFormUrlEncoded(request))
         && request.post.Some? && |request.post.value| > 0
      then request.post else None
    ensures Adapt(request).uploadedFiles ==
      if IsMultiPartFormData(request) && request.files.Some? && |request.files.value| > 0
      then DescribeAll(request.files.value) else []
  {
  }

  /** The body is the fresh temporary stream, with the raw bytes written into
      it and rewound when there are any. */
  lemma AdaptBodyWritten(request: Swoole.Request)
    ensures Adapt(request).body ==
      if |request.rawContent| == 0 then Slim.TempStream()
      else Slim.Rewind(Slim.Write(Slim.TempStream(), request.rawContent))
  {
  }

  /** An empty raw body leaves the fresh empty body in place; otherwise the
      body holds exactly the raw bytes and reads them back from position 0. */
  lemma AdaptBody(request: Swoole.Request)
    ensures |request.rawContent| == 0 ==> Adapt(request).body == Slim.TempStream()
    ensures |request.rawContent| > 0 ==>
      Adapt(request).body.content == request.rawContent &&
      Adapt(request).body.position == 0 &&
      Slim.Contents(Adapt(request).body) == request.rawContent
  {
    AdaptBodyWritten(request);
    if |request.rawContent| > 0 {
      var written := Slim.Write(Slim.TempStream(), request.rawContent);
      assert written.content == written.content[0..|request.rawContent|];
    }
  }

  /** `SwooleProxy\Bridge\RequestTransformer`. */
  class RequestTransformer {

    constructor() {
    }

    /** `toSlim`. */
    method ToSlim(request: Swoole.Request) returns (slimRequest: Slim.Request)
      ensures slimRequest == Adapt(request)
      ensures slimRequest.env.requestScheme == DefaultScheme
    {
      slimRequest := Slim.CreateFromEnvironment(EnvironmentOf(request.server));
      slimRequest := CopyHeaders(request, slimRequest);
      if IsMultiPartFormData(request) || IsXWwwFormUrlEncoded(request) {
        slimRequest := HandlePostData(request, slimRequest);
      }
      if IsMultiPartFormData(request) {
        slimRequest := HandleUploadedFiles(request, slimRequest);
      }
      slimRequest := CopyBody(request, slimRequest);
    }

    /** `copyBody`: an empty raw body leaves the request as it is; otherwise
        the raw bytes are written into the body at its position and the body
        is rewound. */
    method CopyBody(request: Swoole.Request, slimRequest: Slim.Request) returns (r: Slim.Request)
      requires |request.rawContent| > 0 ==> slimRequest.body.seekable
      ensures |request.rawContent| == 0 ==> r == slimRequest
      ensures |request.rawContent| > 0 ==>
        r == slimRequest.WithBody(Slim.Rewind(Slim.Write(slimRequest.body, request.rawContent)))
      ensures |request.rawContent| > 0 ==> r.body.position == 0
      ensures |request.rawContent| > 0 ==>
        r.body.content[slimRequest.body.position..slimRequest.body.position + |request.rawContent|] == request.rawContent
      ensures |request.rawContent| > 0 && slimRequest.body.content == [] ==>
        Slim.Contents(r.body) == request.rawContent
    {
      if |request.rawContent| == 0 {
        return slimRequest;
      }
      var body := slimRequest.body;
      body := Slim.Write(body, request.rawContent);
      body := Slim.Rewind(body);
      r := slimRequest.WithBody(body);
      assert body.content[body.position..] == body.content;
    }

    /** `copyHeaders`: `withHeader` for each header entry in array order. */
    method CopyHeaders(request: Swoole.Request, slimRequest: Slim.Request) returns (r: Slim.Request)
      ensures r == slimRequest.(headers := HeadersCopied(slimRequest.headers, request.header))
    {
      r := slimRequest;
      var i := 0;
      while i < |request.header|
        invariant 0 <= i <= |request.header|
        invariant r == slimRequest.(headers := HeadersCopied(slimRequest.headers, request.header[..i]))
      {
        var (key, val) := request.header[i];
        assert request.header[..i + 1][..i] == request.header[..i];
        r := r.WithHeader(key, val);
        i := i + 1;
      }
      assert request.header[..i] == request.header;
    }

    /** `handleUploadedFiles`: with no files array or an empty one the request
        is unchanged; otherwise it carries one descriptor per entry, under the
        entry's key, in order. */
    method HandleUploadedFiles(request: Swoole.Request, slimRequest: Slim.Request) returns (r: Slim.Request)
      ensures request.files.None? || |request.files.value| == 0 ==> r == slimRequest
      ensures request.files.Some? && |request.files.value| > 0 ==>
        r == slimRequest.WithUploadedFiles(DescribeAll(request.files.value))
    {
      if request.files.None? || |request.files.value| == 0 {
        return slimRequest;
      }
      var files: Assoc<Swoole.FileEntry> := request.files.value;
      var uploadedFiles: Assoc<Slim.UploadedFile> := [];
      var i := 0;
      while i < |files|
        invariant 0 <= i <= |files|
        invariant uploadedFiles == DescribeAll(files[..i])
      {
        var (key, file) := files[i];
        assert !HasKey(uploadedFiles, key);
        uploadedFiles := Put(uploadedFiles, key, Describe(file));
        i := i + 1;
      }
      assert files[..i] == files;
      r := slimRequest.WithUploadedFiles(uploadedFiles);
    }
  }
}
