# DispatchServlet request dispatch, modelled in Dafny

This project models the request-dispatch core of the WEBrick front end of
Rails (`railties/lib/webrick_server.rb`, class `DispatchServlet`) and proves
properties of the model.

For every request, the servlet does the following:

- **Static attempt** (`handle_file`). It rewrites a private copy of the
  request path. It appends `.html` when `%r{(^|/)[^./]+$}` matches a path
  other than `/`, then replaces every `+` with a space. It then asks the file
  server to serve the copy. A served file ends the request. So does
  PartialContent or NotModified, after that status is set on the response.
  Any other failure is a miss.
- **Serialization gate** (`service`). On a miss, the servlet takes
  `REQUEST_MUTEX` unless `RAILS_ENV` is `production`. It then runs the
  dynamic attempt. In its `ensure` clause it releases the mutex if it is
  held.
- **Environment builder** (`create_cgi`, `create_env_table`). It clones the
  CGI meta-variables (RFC 3875, section 4.1) and removes `SCRIPT_NAME`. It
  sets `QUERY_STRING` (RFC 3875, section 4.1.7) to the query component of the
  request URI, which may be nil. It overrides `REQUEST_URI` when an origin is
  given. The handler's input is the request body, or `""` when there is none.
- **Response translator** (`handle_dispatch`, `extract_header_and_body`,
  `assign_status`). It splits the handler's output with
  `split(/^[\r\n]+/, 2)` and parses the header block. It applies the leading
  digits of the `Status` pseudo-header (RFC 3875, section 6.3.3) as the
  response status and drops that header. It moves the `set-cookie` values
  into the cookie list. Every other header is written with its values
  joined by `", "`. The body is passed through as it is. If anything
  raises, `handle_dispatch` returns false and `service` raises NotFound with
  the message `` `<path>' not found. ``.

Modules:

- `Common`: the Option type. Ruby's nil is `None`.
- `LineAnchors`: the leftmost match of `^c+` under Ruby's line-anchor
  semantics. It is shared by the split and the status regexps.
- `StaticPath`: the path rewrite, and the regexp as a declarative predicate
  next to the scan that decides it.
- `CgiEnv`: the environment table.
- `Translator`: the split, the status digits, the header join and the whole
  output translation.
- `Gate`: the log of gate events, replayed as a small state machine.
- `Http`: the request value, the file server's outcomes and the response
  object.
- `Servlet`: class `DispatchServlet`. It holds the mutex as the boolean field
  `locked`, plus a ghost log of gate events, and has one method per servlet
  method. `Lock` and `Unlock` change the field and log the event together.
  The ghost predicate `InSync` says that replaying the log gives the actual
  state of `locked`. `HandleDispatch` requires it, and outside production it
  also requires the mutex to be held. So the handler can only be invoked
  while the real lock is taken.

The three collaborators are parameters of the methods:

- the file server is `fileServer: Request -> FileOutcome`;
- `Dispatcher.dispatch` is `handler: Cgi -> Option<string>`, where `None`
  means it raised;
- `WEBrick::HTTPUtils.parse_header` is
  `parse: string -> Option<HeaderMap>`, where `None` means it raised.
  The parser returns a map from lower-case header name to its values.

Behaviour of the code a reader may not expect, which the model keeps:

- Handler output with no blank line is not rejected. The whole output is
  the header block and the body is nil (`OutputWithoutSeparator`).
- `header.delete('set-cookie')` is nil when the output has no cookie line,
  because `Hash#delete` ignores the hash default. `concat(nil)` then raises,
  so such output ends in NotFound. The status has already been assigned by
  then (`RedirectWithoutCookie`).
- Empty handler output splits into no pieces at all. Parsing the resulting
  nil header raises.
- The comment at `webrick_server.rb:73` says `.html` is added when the last
  path piece has no dot. In Ruby, though, `^` and `$` are line anchors, so a
  path containing a newline can get `.html` even though its last piece has a
  dot (`LineAnchoredSuffix`).

## Model

| member | source | states |
|---|---|---|
| `StaticPath.HtmlPattern` | railties/lib/webrick_server.rb:74 | the scan returns true exactly when `%r{(^|/)[^./]+$}` matches under Ruby's line anchors |
| `StaticPath.ReplacePlus` | railties/lib/webrick_server.rb:75 | `gsub!('+', ' ')` keeps the length; every `+` becomes a space and every other character is unchanged |
| `StaticPath.RewritePath` | railties/lib/webrick_server.rb:73-75 | the rewritten path is the original with `+` replaced, plus `.html` exactly when the path is not `/` and the pattern matches; no `+` remains |
| `StaticPath.LastSegment` | railties/lib/webrick_server.rb:73 | the "last path piece" is the suffix after the last `/` and contains no `/` |
| `StaticPath.HtmlPatternBySegment` | railties/lib/webrick_server.rb:73-74 | on a newline-free path, `.html` is due exactly when the last piece is non-empty and undotted (so never for `/` or a path ending in `/`) |
| `StaticPath.MatchHasUndottedSegment` | railties/lib/webrick_server.rb:74 | a match on a newline-free path implies a non-empty, dot-free last piece |
| `StaticPath.UndottedSegmentMatches` | railties/lib/webrick_server.rb:74 | a non-empty, dot-free last piece makes the pattern match |
| `StaticPath.ReplacePlusIdempotent` | railties/lib/webrick_server.rb:75 | replacing `+` twice gives the same path as replacing it once |
| `StaticPath.LineAnchoredSuffix` | railties/lib/webrick_server.rb:74 | with line anchors, `"/a\n/b.c"` is rewritten to `"/a\n/b.c.html"` |
| `LineAnchors.FirstRun` | railties/lib/webrick_server.rb:125 | the leftmost line-start position holding a character of the class, extended over the maximal run; None exactly when no such position exists |
| `Translator.SplitOutput` | railties/lib/webrick_server.rb:121-128 | empty output gives no pieces; with no separator the header is all of the data and the body is nil; otherwise header ++ CR/LF run ++ body == data, the separator is the first line-start CR/LF, and the body does not start with CR or LF |
| `Translator.SplitFindsSeparator` | railties/lib/webrick_server.rb:125 | header ++ separator ++ body splits back into that header and body when the header has no blank line and ends a line |
| `Translator.SplitRoundTrip` | railties/lib/webrick_server.rb:125 | CRLF-terminated header lines, a blank line and a body split back into exactly that header block and body |
| `Translator.HeaderBlockHasNoSeparator` | railties/lib/webrick_server.rb:125 | a block of non-empty CRLF-terminated lines has no line-start CR or LF |
| `Translator.StatusDigits` | railties/lib/webrick_server.rb:132 | `$1` of `/^(\d+)/` is None exactly when no line starts with a digit; otherwise it is the maximal digit run at the first line start holding a digit (no earlier line start holds one) |
| `Translator.StatusCode` | railties/lib/webrick_server.rb:132-133 | no code exactly when `status` is missing (the hash default `[]` gives a nil first value), has no values, or its first value has no line starting with a digit |
| `Translator.DecimalValue` | railties/lib/webrick_server.rb:133 | `to_i` of a digit string is a number below 10 to the power of its length |
| `Translator.DecimalValueAppend` | railties/lib/webrick_server.rb:133 | `to_i` is positional: the value of `a + b` is the value of `a` shifted past the digits of `b`, plus the value of `b` |
| `Translator.LeadingZerosIgnored` | railties/lib/webrick_server.rb:133 | leading zeros do not change `to_i` (`"0302"` reads as 302) |
| `Translator.DecimalValueOfString` | railties/lib/webrick_server.rb:133 | `to_i` reads back every number from its decimal digits |
| `Translator.StatusRoundTrip` | railties/lib/webrick_server.rb:132-134 | a `status` value that is a decimal number, possibly padded with leading zeros and optionally followed by a reason phrase not starting with a digit, yields exactly that number as the code |
| `Translator.JoinEnds` | railties/lib/webrick_server.rb:96 | `val.join(", ")` starts with the first value and ends with the last |
| `Translator.JoinSnoc` | railties/lib/webrick_server.rb:96 | joining one more value appends a separator and that value, which fixes the whole joined string |
| `Translator.JoinLength` | railties/lib/webrick_server.rb:96 | the joined string is as long as all the values plus one separator between each pair of neighbours |
| `Translator.JoinHeadersShape` | railties/lib/webrick_server.rb:96 | joining keeps the header names, and a single-valued header is written unchanged |
| `Translator.ExtractHeaderAndBody` | railties/lib/webrick_server.rb:121-128 | fails exactly when the output is empty (nil header) or the header parser raises; otherwise it yields the parsed header and the body piece |
| `Translator.TranslateOutput` | railties/lib/webrick_server.rb:89-103 | a handler or parse failure aborts with no status; otherwise the status is the numeric `status` value, and the result is complete exactly when `set-cookie` is present; then the cookies are its values, the body is the split body, `set-cookie` and a numeric `status` are dropped, and every other header is its values joined by `", "` |
| `Translator.RedirectWithCookie` | railties/lib/webrick_server.rb:93-98 | `status: 302`, `Location: /x` and a cookie line give status 302, the cookie, header `location: /x` only, and body `body` |
| `Translator.RedirectWithoutCookie` | railties/lib/webrick_server.rb:94-95 | the same output without a cookie line aborts, with status 302 already assigned |
| `Translator.OutputWithoutSeparator` | railties/lib/webrick_server.rb:125-128 | output with no blank line translates with all of it as header and a nil body |
| `CgiEnv.EnvTable` | railties/lib/webrick_server.rb:113-119 | no `SCRIPT_NAME`; `QUERY_STRING` is the parsed query (possibly nil); `REQUEST_URI` is the origin when given; every other meta-variable keeps its value; no other key appears |
| `Servlet.DispatchServlet.CreateEnvTable` | railties/lib/webrick_server.rb:113-119 | cloning and then editing the meta-variables yields exactly `EnvTable` |
| `Servlet.CgiFor` | railties/lib/webrick_server.rb:106-111 | the handler input has the `EnvTable` environment, and the request body or `""` when there is none as its standard input |
| `Servlet.DispatchServlet.CreateCgi` | railties/lib/webrick_server.rb:106-111 | building the handler input step by step yields exactly `CgiFor` |
| `Gate.RequestEvents` | railties/lib/webrick_server.rb:53-66 | a static hit produces no gate event and no invocation; in production the gate is never taken or released; a miss invokes the handler |
| `Gate.RequestLeavesGateFree` | railties/lib/webrick_server.rb:61-65 | a request that starts with the gate free leaves it free, in both modes |
| `Gate.RequestsLeaveGateFree` | railties/lib/webrick_server.rb:53-66 | any sequence of requests replays in order and leaves the gate free |
| `Gate.InvocationsHoldGate` | railties/lib/webrick_server.rb:56-57 | outside production, every handler invocation in an in-order log happens while the gate is held |
| `Gate.RunAppend` | railties/lib/webrick_server.rb:53-66 | replaying a log in two parts equals replaying it whole |
| `Servlet.DispatchServlet.constructor` | railties/lib/webrick_server.rb:30 | the mutex starts unlocked and no event has happened |
| `Servlet.DispatchServlet.Lock` | railties/lib/webrick_server.rb:56 | taking the free mutex sets `locked`, logs `Acquire` and keeps the log in step with `locked` |
| `Servlet.DispatchServlet.Unlock` | railties/lib/webrick_server.rb:63 | releasing the held mutex clears `locked`, logs `Release` and keeps the log in step with `locked` |
| `Servlet.NotFoundMessage` | railties/lib/webrick_server.rb:58 | the message is the path between a backquote and `' not found.`, so the path can be read back from it |
| `Servlet.DispatchServlet.Service` | railties/lib/webrick_server.rb:53-66 | a static hit ends the request without touching the gate or the handler; otherwise the handler runs once, with `locked` set unless in production (the call to `HandleDispatch` requires it); a failed dispatch yields NotFound with `` `<path>' not found. `` for the original path; the mutex is free afterwards and the log is in step with it |
| `Servlet.StaticRequest` | railties/lib/webrick_server.rb:70-77 | the copy handed to the file server differs from the request only in its `path_info`, which is the rewritten path and holds no `+` |
| `Servlet.AfterStaticAttempt` | railties/lib/webrick_server.rb:79-86 | the status becomes 206 for PartialContent and 304 for NotModified (`set_error` reduced to its status), and is kept otherwise; the cookies, headers and body are not represented as changing |
| `Servlet.DispatchServlet.HandleFile` | railties/lib/webrick_server.rb:68-87 | the file server sees a copy whose `path_info` is the rewritten path; served, PartialContent and NotModified are hits, the latter two setting 206 and 304; any other failure is a miss and leaves the response unchanged |
| `Servlet.DispatchServlet.HandleDispatch` | railties/lib/webrick_server.rb:89-103 | called with the log in step with `locked`, and with the mutex held outside production; logs one invocation and keeps the log in step; returns true exactly when the translation completes, and leaves the response as `AfterDispatch` says |
| `Servlet.DispatchServlet.WriteOutput` | railties/lib/webrick_server.rb:93-98 | returns true exactly when the handler's output translates completely, and leaves the response as `AfterDispatch` says |
| `Servlet.AfterDispatchEffect` | railties/lib/webrick_server.rb:93-98 | the status is set whenever `assign_status` ran, even when a later step raised; only on success are the cookies appended, the translated headers written over the old ones (other headers kept) and the body replaced |
| `Servlet.DispatchServlet.AssignStatus` | railties/lib/webrick_server.rb:131-136 | a numeric first `status` value sets the status and removes `status`; otherwise the status and the header map are left unchanged |
| `Servlet.DispatchServlet.ApplyHeaders` | railties/lib/webrick_server.rb:96 | every header is written with its values joined by `", "`, and the response's other headers are kept |

## Left out

- Server bootstrap in `DispatchServlet.dispatch`: socket options,
  construction, mounting, the INT trap, requiring the environment and
  `server.start`. These are process plumbing.
- `initialize`: building the `FileHandler` and `Dir.chdir`. These are
  filesystem side effects.
- The `CGI` accessor reopening (lines 11-27). Only its "body or empty
  string" default is kept.
- The internals of `FileHandler#service`, `Dispatcher.dispatch`,
  `ActionController::CgiRequest` and `WEBrick::HTTPUtils.parse_header`.
  These are foreign libraries, given as parameters. Whatever the file
  server itself writes into the response on a served file is not
  represented.
- `Servlet.AfterStaticAttempt` and `Servlet.DispatchServlet.HandleFile`:
  `res.set_error` is reduced to setting the status. The content type and HTML error body it also writes
  belong to the library.
- Real `Mutex` semantics and thread interleaving. The mutex is a boolean
  flag used by one request at a time. "No two invocations overlap" is
  stated as "every invocation happens while the gate is held".
- Exceptions outside `StandardError`, which `rescue => err` does not catch,
  are not modelled.
- Logging with `p err, err.backtrace`, and the `StringIO` rewind and read.
  These are output side effects and library behaviour.
- `res[key] = ...` lower-cases the header name. The model stores names as
  the header parser gives them, and that parser already lower-cases them.
- `StaticPath.HtmlPatternBySegment`: the "last path piece" reading of the
  regexp is proved only for paths without newlines. With newlines, the
  general behaviour is what `HtmlPattern` and `LineAnchoredSuffix` state.
