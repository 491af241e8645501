# SlimSwooleProxy bridge, modelled in Dafny

This project models the request/response bridge of SlimSwooleProxy. The bridge
lets a Slim 3 application (a dispatcher over immutable PSR-7 messages) run
inside a Swoole HTTP server, and it has three parts:

- `RequestTransformer::toSlim` builds a Slim request from a Swoole request. It
  builds an environment whose scheme is always `http`. It copies each header
  with `withHeader`. It attaches the post array as the parsed body for form
  content types, and the uploaded files for multipart. It writes the raw body
  into the body stream and rewinds it.
- `ResponseMerger::mergeToSwoole` writes a Slim response into the Swoole
  response object. It makes an optional `Content-Length` call, one `header`
  call per header (values joined by `"; "`), one `status` call, and at most
  one `write`.
- `SwooleProxy` chains transform → application → merge in `processing`. Its
  `request` handler answers `/favicon.ico` without reaching the application.
  It also keeps the settings the bootstrap reads: required files, source
  directory and hot reload.

Files and modules:

| file | module | models |
|---|---|---|
| `php.dfy` | `Php` | `null`, byte strings, loosely typed values, string-keyed ordered arrays (`Assoc`), `$a[$k]` and `$a[$k] = $v` |
| `text.dfy` | `Text` | `stripos`, the `(string)` cast of an integer, `implode` |
| `slim.dfy` | `Slim` | environment, header collection, uploaded file, body stream, request, response, application |
| `swoole.dfy` | `Swoole` | the Swoole request snapshot; the Swoole response as a class that logs its `header`/`status`/`write`/`end` calls |
| `request_transformer.dfy` | `RequestBridge` | `src/Bridge/RequestTransformer.php` |
| `response_merger.dfy` | `ResponseBridge` | `src/Bridge/ResponseMerger.php` |
| `swoole_proxy.dfy` | `Proxy` | `src/SwooleProxy.php` (constructor, `processing`, the `request` handler, setters) |

How the model is built:

- The Slim request and response are datatypes. Each `with*` returns an updated copy.
- A body stream is a value: its bytes, its position, and whether it is seekable and knows its size.
- The Swoole response is a class. Its `calls` field logs every call made on it.
- `mergeToSwoole` and the handler are specified by a function that gives the
  calls they append to that log. The lemmas state ordering, gating and
  counting properties about those functions.
- The application is a datatype holding the container's `settings` and
  `process`, an arbitrary function from a request and a response to a
  response. No lemma assumes anything about what it returns.
- The proxy keeps a ghost log, `dispatched`, of the requests it hands to the
  application. This makes "the application is not invoked" something a
  contract can state.

Three points of the code worth knowing:

- The computed `Content-Length` is the first header call. A `Content-Length` among the response's own headers is sent after it, by the header loop (`ResponseMerger.php:34-46`). `ResponseBridge.OneHeaderCallPerKey` states that order.
- Uploaded files are an array keyed by field name, in the order of the files array (`RequestTransformer.php:102-114`).
- The post and files arrays come already parsed by Swoole. No form parsing is modelled.

## Model

| member | source | states |
|---|---|---|
| `Text.StrIPos` | src/Bridge/RequestTransformer.php:86 | `stripos` gives a position exactly when the lower-cased needle occurs in the lower-cased haystack, and that position is the first occurrence |
| `Text.NatToString` | src/Bridge/ResponseMerger.php:38 | `(string) $size` is a non-empty string of decimal digits, with a leading `0` only for 0 |
| `Text.ParseNatToString` | src/Bridge/ResponseMerger.php:38 | the decimal string of a size denotes that size (round trip) |
| `Text.NatToStringOf42` | src/Bridge/ResponseMerger.php:38 | size 42 gives the header value `"42"` |
| `Text.ImplodeLayout` | src/Bridge/ResponseMerger.php:44 | in `implode($glue, $pieces)` each piece sits at its offset, in order, with one glue between neighbours and nothing after the last piece; this fixes the whole string |
| `Text.NatToStringInjective` | src/Bridge/ResponseMerger.php:38 | different sizes never give the same `Content-Length` value |
| `Text.ImplodeTwo` | src/Bridge/ResponseMerger.php:44 | values `a` and `b` give `a; b` |
| `Slim.NormalizeKey` | src/Bridge/RequestTransformer.php:77 | the header key `withHeader` files a name under (Slim's `normalizeKey`): lower-cased, `_` turned into `-`, a leading `http-` dropped; it is never longer than the name and holds no `_` and no upper-case ASCII letter |
| `Slim.NormalizeKeyExamples` | src/Bridge/RequestTransformer.php:77 | `X_Id` and `x-id` name one header, and so do `HTTP_ID` and `Id` |
| `Slim.NormalizeKeyPlain` | src/Bridge/RequestTransformer.php:77 | a name that does not begin with a spelling of `http-` keeps its length, and each character is lower-cased with `_` read as `-` (so `content-type` stays `content-type`) |
| `Slim.NormalizeKeyIgnoresCase` | src/Bridge/RequestTransformer.php:77 | two names that lower-case alike get the same key, so they name one header |
| `Slim.NormalizeKeyUnderscore` | src/Bridge/RequestTransformer.php:77 | two names that differ only where one has `_` and the other `-` get the same key |
| `Slim.NormalizeKeyHttpPrefix` | src/Bridge/RequestTransformer.php:77 | the key of `HTTP_` followed by a name is that name, character by character lower-cased with `_` read as `-`: the prefix is dropped once, and nothing else is |
| `Slim.GetAfterWith` | src/Bridge/RequestTransformer.php:77 | `withHeader` replaces the values under its name, matching names after normalisation, and leaves every other name alone |
| `Slim.Write` | src/Bridge/RequestTransformer.php:61 | a stream write puts the data at the position, keeps the bytes before it, and leaves the position after the data |
| `Slim.Rewind` | src/Bridge/RequestTransformer.php:62 | `rewind()` on a seekable stream sets the position to 0 and keeps the bytes and capabilities; the same library call is used at `ResponseMerger.php:52` |
| `Slim.Contents` | src/Bridge/ResponseMerger.php:55 | `getContents()` returns the bytes from the position to the end, so the stream is what lies before the position followed by the result; after a rewind it is the whole content |
| `Slim.Size` | src/Bridge/ResponseMerger.php:35 | `getSize()` is `null` exactly when the stream cannot tell its size, and the byte count otherwise; the same call is compared with 0 at line 50 |
| `Slim.HostValue` | src/Bridge/RequestTransformer.php:27-39 | the `Host` value Slim derives from this environment, which names no host: empty exactly for port 80, otherwise `:` followed by decimal digits that denote the port |
| `Slim.HostHeaders` | src/Bridge/RequestTransformer.php:27-39 | the starting collection holds one slot, `host`, with original name `Host`; a lookup gives that value under any spelling of `host` and nothing under any other name |
| `Slim.CreateFromEnvironment` | src/Bridge/RequestTransformer.php:27-39 | the library is assumed to give a request with the given environment, only the `Host` header its constructor adds, no attached parsed body, no uploaded files, and an empty, seekable body of known size 0 |
| `Slim.NewResponse` | src/SwooleProxy.php:83 | the library is assumed to give status 200, no headers, and an empty, seekable body of known size 0 |
| `Php.GetAfterPut` | src/Bridge/RequestTransformer.php:105 | after `$a[$k] = $v`, `$a[$k]` is `$v` and every other key reads as before |
| `Php.IndexOfAfterPut` | src/Bridge/RequestTransformer.php:105 | `$a[$k] = $v` keeps the slot of every key already set, including the replaced one, and puts a new key in the slot after the last |
| `Php.KeysAfterPut` | src/Bridge/RequestTransformer.php:105 | the key order after `$a[$k] = $v` is unchanged for a key already set, and has the key appended otherwise |
| `RequestBridge.EnvironmentOf` | src/Bridge/RequestTransformer.php:18-38 | the environment has scheme `http`, `QUERY_STRING` is `''` when the server sets none, and the other server fields are copied unchanged |
| `RequestBridge.IsMultiPartFormData` | src/Bridge/RequestTransformer.php:83-87 | holds iff `content-type` is set and contains `multipart/form-data`, ignoring case |
| `RequestBridge.IsXWwwFormUrlEncoded` | src/Bridge/RequestTransformer.php:89-93 | holds iff `content-type` is set and contains `application/x-www-form-urlencoded`, ignoring case |
| `RequestBridge.HandlePostData` | src/Bridge/RequestTransformer.php:117-124 | the parsed body becomes the post array verbatim when that array is set and non-empty, and stays as it was otherwise; no other part of the request changes |
| `RequestBridge.HeadersCopiedLookup` | src/Bridge/RequestTransformer.php:74-81 | after the `withHeader` loop, a name carries the value of the LAST entry naming it (so a later entry replaces an earlier one), under any spelling that normalises alike; a name that no entry uses keeps its old values |
| `RequestBridge.CopiedSlotsKeys` | src/Bridge/RequestTransformer.php:74-81 | after copying, a name has a slot exactly when it had one before or some entry uses it |
| `RequestBridge.CopiedKeys` | src/Bridge/RequestTransformer.php:74-81 | the keys of the copied collection are its old keys, then the entries' other normalised names, each once, in the order of first appearance |
| `RequestBridge.FirstNamesKeepStart` | src/Bridge/RequestTransformer.php:74-81 | the keys a collection starts with keep their positions through the copy |
| `RequestBridge.HeadersCopiedKeepsSlots` | src/Bridge/RequestTransformer.php:74-81 | every slot the collection had before the `withHeader` loop keeps its name and position |
| `RequestBridge.FirstNamesOrder` | src/Bridge/RequestTransformer.php:74-81 | of two entries that each first name a header, the later one with a name not already in the collection, the earlier one's name comes first among the first-appearance names |
| `RequestBridge.HeadersCopiedOrder` | src/Bridge/RequestTransformer.php:74-81 | the header collection keeps names in the order of their first entries: replacing a header keeps its slot, and a name the collection did not have goes after every earlier one |
| `RequestBridge.DescribeAllLookup` | src/Bridge/RequestTransformer.php:102-112 | each files-array key maps to exactly one descriptor under the same key, with `tmp_name`, `name`, `type`, `size` and `error` copied; a key that is not in the array has no descriptor |
| `RequestBridge.AdaptEnvironment` | src/Bridge/RequestTransformer.php:27-38 | the built request's environment is the one built from the server fields: scheme `http`, and an empty query string when none is given |
| `RequestBridge.AdaptHeadersCopied` | src/Bridge/RequestTransformer.php:27-41 | the built request's headers are the `Host` header of the created request, then each Swoole header entry copied in array order |
| `RequestBridge.AdaptHeaders` | src/Bridge/RequestTransformer.php:27-41 | every header of the Swoole request is found in the Slim request under any spelling that normalises like its name, with the value of the last entry for that name; a name no entry has is absent, except `host`, which keeps the value Slim derived from the environment |
| `RequestBridge.AdaptHostFirst` | src/Bridge/RequestTransformer.php:27-41 | the request the application receives always has a `host` slot, and it is the first |
| `RequestBridge.AdaptHeaderOrder` | src/Bridge/RequestTransformer.php:27-41 | after `host`, the request the application receives lists header names in the order in which their first entries appear in the Swoole request |
| `RequestBridge.AdaptHeaderAnyCase` | src/Bridge/RequestTransformer.php:76-78 | when no two header names normalise alike, each header's value is found under any spelling of its name |
| `RequestBridge.AdaptHeaderCaseVariant` | src/Bridge/RequestTransformer.php:76-78 | when no two header names normalise alike, each header's value is found under its name in any mix of upper and lower case |
| `RequestBridge.AdaptFormData` | src/Bridge/RequestTransformer.php:43-49 | the post array is attached as the parsed body exactly when the type is multipart or urlencoded and the post array is set and non-empty, and nothing is attached otherwise; uploaded files are attached exactly when the type is multipart and the files array is set and non-empty |
| `RequestBridge.AdaptBodyWritten` | src/Bridge/RequestTransformer.php:27-65 | the built request's body is the fresh temporary stream, with the raw bytes written in and the stream rewound when there are any |
| `RequestBridge.AdaptBody` | src/Bridge/RequestTransformer.php:54-65 | an empty raw body leaves the fresh empty body in place; a non-empty one gives a body that holds exactly the raw bytes, has position 0, and reads back the raw bytes |
| `RequestBridge.RequestTransformer.ToSlim` | src/Bridge/RequestTransformer.php:25-52 | the request built step by step equals `Adapt`, the composition the lemmas above describe, and its scheme is `http` |
| `RequestBridge.RequestTransformer.CopyBody` | src/Bridge/RequestTransformer.php:54-65 | an empty raw body returns the request unchanged; otherwise the raw bytes are written at the body's position and the body is rewound to 0; an empty body then reads back exactly the raw bytes |
| `RequestBridge.RequestTransformer.CopyHeaders` | src/Bridge/RequestTransformer.php:74-81 | the result is the request with `withHeader` applied to each entry in array order; nothing else changes |
| `RequestBridge.RequestTransformer.HandleUploadedFiles` | src/Bridge/RequestTransformer.php:96-115 | a missing or empty files array leaves the request unchanged; otherwise the request carries one descriptor per entry, under the entry's key, in order |
| `ResponseBridge.MergeCounts` | src/Bridge/ResponseMerger.php:34-56 | the merge makes \|response headers\| header calls plus at most one of its own, exactly one status call, one write iff the size is greater than 0, and no end |
| `ResponseBridge.ContentLengthFirst` | src/Bridge/ResponseMerger.php:34-40 | when the setting is exactly `true` and the size is known, the first call is `header('Content-Length', …)`, whose value is the decimal string that denotes the size |
| `ResponseBridge.NoOwnContentLength` | src/Bridge/ResponseMerger.php:34-38 | when the setting is absent or not exactly `true`, or the size is unknown, every header call is one of the response's own headers, in position |
| `ResponseBridge.OneHeaderCallPerKey` | src/Bridge/ResponseMerger.php:42-46 | header `j` of the response gives exactly one call, placed right after the optional Content-Length call, whose value is the header's values joined with `"; "` in order |
| `ResponseBridge.StatusOnceBetween` | src/Bridge/ResponseMerger.php:48 | `status` is called exactly once, with the response's code, after all header calls and before any write |
| `ResponseBridge.SingleWrite` | src/Bridge/ResponseMerger.php:50-56 | there is exactly one `write` iff the size is greater than 0 (none for size 0 or `null`), and it is the last call; a seekable body is rewound first, so the payload is its whole content and has the size's length |
| `ResponseBridge.MergeFollowsProtocol` | src/Bridge/ResponseMerger.php:25-59 | the merge never calls `end`, and its calls come in header → status → write order, with at most one status and one write |
| `ResponseBridge.ResponseMerger.constructor` | src/Bridge/ResponseMerger.php:20-23 | the merger keeps the application it was given |
| `ResponseBridge.ResponseMerger.MergeToSwoole` | src/Bridge/ResponseMerger.php:25-59 | the Swoole response's log grows by exactly the calls of `MergeCalls`, computed for the application's `addContentLengthHeader` setting, and the same object is returned |
| `Swoole.Response.constructor` | src/SwooleProxy.php:189 | the response object the handler receives is assumed to have no calls logged yet |
| `Swoole.Response.Header` | src/Bridge/ResponseMerger.php:38-44 | `header($key, $value)` is assumed only to append that one call to the log, and never to fail or refuse a call made out of order |
| `Swoole.Response.Status` | src/Bridge/ResponseMerger.php:48 | `status($code)` is assumed only to append that one call to the log, and never to fail or refuse it |
| `Swoole.Response.Write` | src/Bridge/ResponseMerger.php:55 | `write($data)` is assumed only to append that one call, with the data, to the log, and never to fail or refuse it |
| `Swoole.Response.End` | src/SwooleProxy.php:192-195 | `end()` is assumed only to append that one call to the log, and never to fail or refuse it |
| `Swoole.EndAfter` | src/SwooleProxy.php:195 | calling `end()` after a merge that follows the write protocol and has not ended keeps the protocol and ends exactly once |
| `Proxy.HandlerEndsOnce` | src/SwooleProxy.php:189-196 | the handler ends the response exactly once, as its last call, and its calls follow the protocol; for the icon path `end()` is the only call |
| `Proxy.SwooleProxy.constructor` | src/SwooleProxy.php:56-65 | a supplied transformer or merger is kept; when none is supplied a fresh default is built, and the default merger holds the proxy's application; the fields start at `[]`, `''` and `false` |
| `Proxy.SwooleProxy.Processing` | src/SwooleProxy.php:76-86 | the application receives `toSlim(request)` and a new empty response; the log grows by the merge of the application's result, and the given object is returned |
| `Proxy.SwooleProxy.OnRequest` | src/SwooleProxy.php:189-196 | when `path_info` or `request_uri` is `/favicon.ico`, the only call is `end()` and nothing reaches the application; otherwise `processing` runs once and is followed by one `end()` |
| `Proxy.SwooleProxy.SetRequiredFiles` | src/SwooleProxy.php:106-111 | the names are appended after the existing ones, in order; an empty list changes nothing |
| `Proxy.SwooleProxy.SetSourceDir` | src/SwooleProxy.php:119-124 | a non-empty argument replaces `sourceDir`; an empty one leaves it unchanged |
| `Proxy.SwooleProxy.SetEnableHotReload` | src/SwooleProxy.php:131-134 | the flag becomes the argument, which defaults to `true`; no other field changes |

## Left out

- `src/AutoReload.php`: the development file watcher. It is inotify, signal and event-loop plumbing, with no decision the bridge depends on.
- `SwooleProxy::run` (`src/SwooleProxy.php:139-200`): server bootstrap. It covers the socket on port 80, coroutine hooks, the queue-listener process, `WorkerStart` with its `require_once`, and logging. Only its `request` handler closure is modelled, as `OnRequest`.
- `SwooleProxy::__call` forwards unknown calls to the application and has no behaviour of its own. The interface files hold signatures only. The mismatched namespaces are declarations only.
- The application's `process` is an opaque function. What routes it has, what it writes into the response it gets, and any exception it throws are not modelled. Exceptions from dispatch or merge propagate to the host; the model has no error path for them.
- Library internals are reduced to the operations used. `createFromEnvironment` is modelled for an environment with no header variables and no uploaded files, which is the environment the transformer builds. The one header it then holds is the `Host` header Slim 3's request constructor adds when none is present: the host part is empty because the environment names no host, and the port part follows Slim's URI rules for the `http` scheme. Slim's `Request`, `Headers` and `Uri` classes are not part of this model; their behaviour here is stated as Slim 3 defines it. The Swoole response object only logs the calls made on it. Swoole's overwrite of a header key set twice, its chunked transfer for `write`, and any refusal of a call made after the headers are sent or after `end` are not modelled.
- Body streams are values, not shared objects. After `mergeToSwoole`, the response body has been rewound and read to its end; that change to the stream's position is not kept, because nothing reads the stream afterwards. The aliasing in `copyBody`, where the request's own stream object is written and re-attached, shows up only as the new body value.
- `RequestBridge.RequestTransformer.CopyBody` requires a seekable body when the raw body is non-empty. The library would throw when rewinding a non-seekable stream. The request that `toSlim` builds always has the seekable temporary stream.
- Slim's lazy parsing of the body is not modelled. In Slim, `getParsedBody()` on a request with nothing attached decodes a JSON, XML or urlencoded raw body on first use. Here `parsedBody` is only what `withParsedBody` attached, that is, the post array.
- `stripos` and the header-name normalisation fold case for ASCII only. Locale-dependent folding of non-ASCII bytes is not modelled.
- Strings are Unicode code points, not bytes, except the raw body and the response payload, which are byte sequences.
- `REQUEST_TIME_FLOAT` is a `real`, and it is only copied.
- The server port is a `Port`, from 1 to 65535, as a listening Swoole server always reports. Slim's URI rejects any other port with an exception, and that error path is not modelled.
- Server fields other than `query_string` are assumed present, as Swoole always sets them. PHP's `null` for a missing entry is not modelled.
- The entries of a files array are single-file descriptors. Swoole's nested arrays for array-named upload fields (`name[]`) are not modelled.
- `setRequiredFiles` is modelled for lists. The key-overwriting behaviour of `array_merge` on string-keyed arrays is not modelled.
- The constructor accepts only this repository's transformer and merger classes. Other implementations of their interfaces are not modelled.
