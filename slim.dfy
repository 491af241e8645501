/** The Slim framework objects the bridge touches, reduced to the operations
    it uses: the environment record, the case-insensitive header collection,
    uploaded-file descriptors, body streams, the immutable request and
    response with their `with*` copies, and the application. */
module Slim {
  import opened Php
  import Text

  /** The server-variable record `Request::createFromEnvironment` reads. */
  datatype Environment = Environment(
    serverProtocol: string,
    requestMethod: string,
    requestScheme: string,
    requestUri: string,
    queryString: string,
    serverPort: Port,
    remoteAddr: string,
    requestTime: int,
    requestTimeFloat: real)

  /** One character of a normalised header key: lower-cased, `_` read as `-`. */
  function KeyChar(c: char): (k: char)
    ensures k == (if c == '_' then '-' else Text.LowerChar(c))
  {
    if Text.LowerChar(c) == '_' then '-' else Text.LowerChar(c)
  }

  /** `Headers::normalizeKey`: lower-case, `_` becomes `-`, and a leading
      `http-` is dropped, so `HTTP_X_TOKEN`, `x_token` and `X-Token` name the
      same header. */
  function NormalizeKey(name: string): (key: string)
    ensures |key| <= |name|
    ensures forall i :: 0 <= i < |key| ==> key[i] != '_' && !('A' <= key[i] <= 'Z')
  {
    var dashed := seq(|name|, i requires 0 <= i < |name| => KeyChar(name[i]));
    if |dashed| >= 5 && dashed[..5] == "http-" then dashed[5..] else dashed
  }

  /** Spellings that differ in case, in `_` against `-`, or by a leading
      `HTTP_` name one header. */
  lemma NormalizeKeyExamples()
    ensures NormalizeKey("X_Id") == NormalizeKey("x-id") == "x-id"
    ensures NormalizeKey("HTTP_ID") == NormalizeKey("Id") == "id"
  {
  }

  /** A name that does not begin with a spelling of `http-` keeps every
      character, lower-cased with `_` read as `-`. */
  lemma NormalizeKeyPlain(name: string)
    requires |name| < 5 || seq(5, i requires 0 <= i < 5 => KeyChar(name[i])) != "http-"
    ensures NormalizeKey(name) == seq(|name|, i requires 0 <= i < |name| => KeyChar(name[i]))
  {
    var dashed := seq(|name|, i requires 0 <= i < |name| => KeyChar(name[i]));
    if |name| >= 5 {
      assert dashed[..5] == seq(5, i requires 0 <= i < 5 => KeyChar(name[i]));
    }
  }

  /** Names that differ only in the case of ASCII letters name one header. */
  lemma NormalizeKeyIgnoresCase(a: string, b: string)
    requires Text.Lower(a) == Text.Lower(b)
    ensures NormalizeKey(a) == NormalizeKey(b)
  {
    forall i | 0 <= i < |a|
      ensures KeyChar(a[i]) == KeyChar(b[i])
    {
      assert Text.Lower(a)[i] == Text.LowerChar(a[i]) && Text.Lower(b)[i] == Text.LowerChar(b[i]);
    }
  }

  /** Names that differ only where one has `_` and the other `-` name one
      header. */
  lemma NormalizeKeyUnderscore(a: string, b: string)
    requires |a| == |b|
    requires forall i :: 0 <= i < |a| ==> a[i] == b[i] || (a[i] == '_' && b[i] == '-')
    ensures NormalizeKey(a) == NormalizeKey(b)
  {
    forall i | 0 <= i < |a|
      ensures KeyChar(a[i]) == KeyChar(b[i])
    {
    }
  }

  /** A leading `HTTP_` is dropped, and only it: the key of `HTTP_` followed
      by a name is that name, lower-cased with `_` read as `-`. */
  lemma NormalizeKeyHttpPrefix(name: string)
    ensures |NormalizeKey("HTTP_" + name)| == |name|
    ensures forall i :: 0 <= i < |name| ==> NormalizeKey("HTTP_" + name)[i] == KeyChar(name[i])
  {
    var full := "HTTP_" + name;
    var dashed := seq(|full|, i requires 0 <= i < |full| => KeyChar(full[i]));
    assert dashed[..5] == "http-" by {
      assert full[0] == 'H' && full[1] == 'T' && full[2] == 'T' && full[3] == 'P' && full[4] == '_';
    }
    forall i | 0 <= i < |name|
      ensures dashed[5..][i] == KeyChar(name[i])
    {
      assert full[i + 5] == name[i];
    }
  }

  datatype HeaderValue = HeaderValue(originalKey: string, values: seq<string>)

  /** Header collection: an ordered array keyed by normalised name, in which
      each entry remembers the name as last given. */
  datatype HeaderSet = HeaderSet(entries: Assoc<HeaderValue>) {

    /** `set($name, $value)`: the entry for the name is replaced by the one
        value, in its slot; a new name is added at the end. */
    function With(name: string, value: string): HeaderSet {
      HeaderSet(Put(entries, NormalizeKey(name), HeaderValue(name, [value])))
    }

    /** `getHeader($name)`: the values under the name, none when it is absent. */
    function Get(name: string): seq<string> {
      match Php.Get(entries, NormalizeKey(name))
      case Some(v) => v.values
      case None => []
    }
  }

  /** `set` replaces the values under its name and leaves every other name alone. */
  lemma GetAfterWith(h: HeaderSet, name: string, value: string, other: string)
    ensures h.With(name, value).Get(other) ==
            if NormalizeKey(name) == NormalizeKey(other) then [value] else h.Get(other)
  {
    GetAfterPut(h.entries, NormalizeKey(name), HeaderValue(name, [value]), NormalizeKey(other));
  }

  function EmptyHeaders(): HeaderSet {
    HeaderSet([])
  }

  /** The `Host` value Slim's request constructor derives from an environment
      with no host variable: the empty host, then `:` and the port unless it
      is 80, the standard port of the `http` scheme. */
  function HostValue(env: Environment): (host: string)
    ensures host == "" <==> env.serverPort == 80
    ensures host != "" ==>
              host[0] == ':' && Text.IsDigits(host[1..]) && Text.ParseDecimal(host[1..]) == env.serverPort
  {
    if env.serverPort == 80 then ""
    else
      Text.ParseNatToString(env.serverPort);
      ":" + Text.NatToString(env.serverPort)
  }

  /** The collection a request starts with when the environment carries no
      header variables: the constructor adds `Host`, since none is present. */
  function HostHeaders(env: Environment): (h: HeaderSet)
    ensures h.entries == [("host", HeaderValue("Host", [HostValue(env)]))]
    ensures forall name :: h.Get(name) == if NormalizeKey(name) == "host" then [HostValue(env)] else []
  {
    assert NormalizeKey("Host") == "host" by {
      assert KeyChar('H') == 'h' && KeyChar('o') == 'o' && KeyChar('s') == 's' && KeyChar('t') == 't';
    }
    EmptyHeaders().With("Host", HostValue(env))
  }

  /** `new UploadedFile($file, $name, $type, $size, $error)`. */
  datatype UploadedFile = UploadedFile(file: string, name: string, mediaType: string, size: int, error: int)

  datatype StreamState = StreamState(content: Bytes, position: nat, seekable: bool, sizeKnown: bool)

  /** A body stream: its bytes, the read/write position and two capabilities. */
  type Stream = s: StreamState | s.position <= |s.content| witness StreamState([], 0, true, true)

  /** A fresh `php://temp` stream: empty, seekable, size known. */
  function TempStream(): Stream {
    StreamState([], 0, true, true)
  }

  /** `write($data)`: overwrites from the position onwards, growing the stream
      past its end, and leaves the position after the data. */
  function Write(s: Stream, data: Bytes): (r: Stream)
    ensures r.position == s.position + |data|
    ensures |r.content| == if s.position + |data| <= |s.content| then |s.content| else s.position + |data|
    ensures r.content[..s.position] == s.content[..s.position]
    ensures r.content[s.position..r.position] == data
    ensures r.position <= |s.content| ==> r.content[r.position..] == s.content[r.position..]
    ensures r.seekable == s.seekable && r.sizeKnown == s.sizeKnown
  {
    var end := s.position + |data|;
    var tail := if end <= |s.content| then s.content[end..] else [];
    var r: Stream := s.(content := s.content[..s.position] + data + tail, position := end);
    assert r.content[s.position..r.position] == data;
    r
  }

  /** `rewind()`; only a seekable stream can be rewound. */
  function Rewind(s: Stream): (r: Stream)
    requires s.seekable
    ensures r.position == 0 && r.content == s.content
    ensures r.seekable && r.sizeKnown == s.sizeKnown
  {
    s.(position := 0)
  }

  /** `getContents()`: the bytes from the position to the end. */
  function Contents(s: Stream): (r: Bytes)
    ensures |r| == |s.content| - s.position
    ensures s.content == s.content[..s.position] + r
    ensures s.position == 0 ==> r == s.content
  {
    s.content[s.position..]
  }

  /** `getSize()`: the byte size, or `null` when the stream cannot tell it. */
  function Size(s: Stream): (r: Option<nat>)
    ensures r.Some? <==> s.sizeKnown
    ensures r.Some? ==> r.value == |s.content|
  {
    if s.sizeKnown then Some(|s.content|) else None
  }

  /** The PSR-7 server request; every `with*` returns a changed copy.
      `parsedBody` is the value attached with `withParsedBody`, `None` when
      nothing was attached. */
  datatype Request = Request(
    env: Environment,
    headers: HeaderSet,
    parsedBody: Option<Assoc<Value>>,
    uploadedFiles: Assoc<UploadedFile>,
    body: Stream)
  {
    function WithHeader(name: string, value: string): Request {
      this.(headers := headers.With(name, value))
    }

    function WithParsedBody(data: Assoc<Value>): Request {
      this.(parsedBody := Some(data))
    }

    function WithUploadedFiles(files: Assoc<UploadedFile>): Request {
      this.(uploadedFiles := files)
    }

    function WithBody(stream: Stream): Request {
      this.(body := stream)
    }
  }

  /** `Request::createFromEnvironment($env)` for an environment that carries
      no header variables and no uploaded files: only the `Host` header the
      constructor adds, no parsed body, an empty temporary body. */
  function CreateFromEnvironment(env: Environment): (r: Request)
    ensures r.env == env
    ensures r.headers == HostHeaders(env)
    ensures r.parsedBody.None? && r.uploadedFiles == []
    ensures r.body.content == [] && r.body.position == 0 && r.body.seekable && Size(r.body) == Some(0)
  {
    Request(env, HostHeaders(env), None, [], TempStream())
  }

  /** The PSR-7 response; `headers` is what `getHeaders()` returns: each
      name as last given (its `originalKey`), with its values in order. */
  datatype Response = Response(status: int, headers: Assoc<seq<string>>, body: Stream)

  /** `new Response`: status 200, no headers, an empty temporary body. */
  function NewResponse(): (r: Response)
    ensures r.status == 200 && r.headers == []
    ensures r.body.content == [] && r.body.seekable && Size(r.body) == Some(0)
  {
    Response(200, [], TempStream())
  }

  /** The application: its container's `settings` entry and `process`, which
      turns a request and an empty response into the response to send. */
  datatype App = App(settings: map<string, Value>, process: (Request, Response) -> Response)
}
