# thunder CGI gateway, modelled in Dafny

This project models the request-handling core of the thunder web frontend
(`src/serve/frontend.rs`). The frontend runs a fixed CGI program for every
request to the application route and turns the program's standard output
back into an HTTP response. A password login and a cookie gate sit in front
of that route. Three pieces of it are modelled as pure functions over bytes,
header lists and environment maps:

- **The CGI response parser.** The program's stdout is read line by line, as
  `BufRead::lines` on a cursor reads it, up to the first empty line.
  - Lines that start with `getEnvs ` are diagnostic echo and are skipped.
  - The header name is the text before the first `:`. Exactly one character
    after the colon is dropped.
  - A `Status` line sets the status from its first three bytes
    (section 6.3.3 of RFC 3875). The last one wins and 200 is the default.
  - Any other line becomes a response header. The model keeps the headers
    in the order they were printed (see "## Left out" for repeated names).
  - Everything after the empty line is the body, unchanged.
  - The model reproduces the handler's failure cases: invalid UTF-8, a
    missing colon, a slice that is not on a character boundary (the source
    panics), an unparsable status, an invalid header, and a final status
    outside 100..999.
- **The CGI environment mapper.** It builds the meta-variables of section 4.1
  of RFC 3875 that the handler sets on the command. They form a map built by
  successive writes, so later writes win:
  - the configured environment;
  - thirteen fixed variables;
  - `HTTP_<name>` for every header with a non-empty value;
  - `CONTENT_TYPE` and `CONTENT_LENGTH`.

  A request whose target does not contain the home path is redirected
  (307) to it before any of this happens.
- **Login and gate.** The password check, the login handler, and the gate.
  - The login handler answers with a 303 and an `access_token` Set-Cookie.
  - The gate lets a request through when no password is configured. It also
    lets one through when a `;`-segment of the first Cookie header, trimmed,
    starts with `access_token`, splits on `=` into exactly two parts, and its
    token verifies.

`gateway.dfy` ties the pieces together as the route behind the gate. The
CGI program is a parameter `run`, from environment and standard input to
captured stdout or an error.

Modules, one per file: `Results`, `Text` (the Rust string operations the
code relies on), `Lines` (`BufRead::lines`), `CgiResponse` (the parser),
`CgiResponseFacts` (the parser against an independent reference reading),
`CgiRender` (what a CGI program prints, and the round trip through the
parser), `CgiEnv`, `Replies`, `Auth` and `Gateway`.

Where the code and its documented intent differ, the model follows the code:

- Header names are lowercased before `HTTP_` is prefixed (line 219). They
  are neither kept as received nor upper-snake-cased.
- The `Proxy` exclusion compares the lowercased name with the literal
  `"PROXY"` (line 221), so it never fires. A `Proxy` header therefore
  becomes `HTTP_proxy` (`CgiEnv.ProxyNeverSkipped`, `CgiEnv.EnvForwardsProxy`).
- The gate matches the cookie name as a prefix (`starts_with`) and needs
  exactly one `=` in the segment (lines 315-317). A token that itself
  contains `=` is therefore refused (`Auth.PaddedTokenDenied`).
- A password setting that was never made counts as "no password" for the
  password check (line 137). The gate, however, then still demands a cookie,
  because only `Some(None)` opens it (line 302).

## Model

| member | source | states |
|---|---|---|
| Text.SplitOnce | src/serve/frontend.rs:266-268 | `split_once` finds the first separator: the text before it has no separator, and the parts rebuild the input |
| Text.Split | src/serve/frontend.rs:309-316 | `split` yields separator-free pieces that, joined with the separator, give back the input |
| Text.ToLower | src/serve/frontend.rs:219 | ASCII lowercasing keeps the length, leaves no upper-case letter and changes only A-Z, by 32 |
| Text.ToStr | src/serve/frontend.rs:290 | `HeaderValue::to_str` succeeds exactly when every byte is visible ASCII or tab, and then returns the bytes unchanged |
| Text.Decimal | src/serve/frontend.rs:205 | `to_string` of a port gives non-empty decimal digits whose value is the number, with no leading zero except for 0 itself |
| Lines.Chunks | src/serve/frontend.rs:256-257 | the reads of `lines()` cover the output exactly: their concatenation is the output |
| Lines.LineLen | src/serve/frontend.rs:257 | one read takes everything up to and including the first LF, or the whole rest when there is no LF |
| Lines.ChunksShape | src/serve/frontend.rs:257 | every read is one line: non-empty, LF only at its end, LF-terminated unless it is the last |
| Lines.ContentStrips | src/serve/frontend.rs:257 | the line handed to the loop is the read minus a final LF and the CR before it: a read without LF is the line itself, and one with LF is the line plus CR LF, or the line plus LF when the line does not end in CR |
| Lines.ChunksAppend | src/serve/frontend.rs:257 | an output cut right after an LF is read as the reads of the first part followed by the reads of the second |
| CgiResponse.ParseStatusCode | src/serve/frontend.rs:272-274 | `u16` parsing of the three status bytes succeeds exactly for three digits or `+` and two digits, and gives the decimal value of the digits (after the `+` when there is one) |
| CgiResponse.SignedStatusInvalid | src/serve/frontend.rs:272-282 | a `+`-signed status parses to a two-digit number, which the response builder refuses |
| CgiResponse.SplitHeaderLine | src/serve/frontend.rs:266-269 | a missing colon fails exactly when the line has no `:`; otherwise the name is colon-free and the value is the rest after the colon and one dropped byte; the slice panics exactly when byte 1 of the text after the colon is not a character boundary (past its end included) |
| CgiResponse.Classify | src/serve/frontend.rs:257-277 | one turn of the loop: a line is Blank exactly when it is empty, and a line kept as a header is one the HTTP library accepts and not named `Status` |
| CgiResponse.ClassifyBasics | src/serve/frontend.rs:258-268 | invalid UTF-8, an empty line, a `getEnvs ` line and a colon-free line are each recognised exactly when the text says so |
| CgiResponse.ClassifyStatusPrefix | src/serve/frontend.rs:266-274 | a valid line starting with `Status:` is a Status line or a failure, never a header |
| CgiResponse.ClassifyStatusMeaning | src/serve/frontend.rs:269-274 | a Status line's code is the `u16` value of bytes 8..11 of the line |
| CgiResponse.ClassifyHeaderMeaning | src/serve/frontend.rs:266-276 | a header line is exactly its name, the colon, one dropped byte and its value |
| CgiResponse.Finish | src/serve/frontend.rs:280-282 | building the response succeeds exactly when the status is in 100..999 |
| CgiResponse.Scan | src/serve/frontend.rs:256-278 | a successful loop ends with a valid status and extends the headers gathered so far, all of them emittable |
| CgiResponse.ScanStep | src/serve/frontend.rs:257-277 | past a line that is neither empty nor failing, the loop carries on with that line's status and header |
| CgiResponse.Parse | src/serve/frontend.rs:249-283 | a parsed response has a status in 100..999 and never a header named `Status` |
| CgiResponseFacts.ScanIsReference | src/serve/frontend.rs:256-278 | the loop equals the reference reading: first failing line of the block, else the last Status code, the header lines in order, and the bytes after the first empty line |
| CgiResponseFacts.ParseCharacterization | src/serve/frontend.rs:249-283 | the parse succeeds exactly when no line of the header block fails and the last status is valid, and then returns the last Status code, the header lines in order and the body after the first empty line |
| CgiResponseFacts.NoStatusLineKeepsStatus | src/serve/frontend.rs:250 | without a Status line the status stays what it was |
| CgiResponseFacts.DefaultStatusIs200 | src/serve/frontend.rs:250-281 | with no `Status:` line before the first empty line the status is 200, and only a failing line makes the parse fail |
| CgiResponseFacts.LastStatusIsLastLine | src/serve/frontend.rs:271-274 | the status is the code of the last Status line |
| CgiResponseFacts.LastStatusLineWins | src/serve/frontend.rs:269-274 | the status of a parsed response is the `u16` value of bytes 8..11 of the last `Status:` line |
| CgiResponseFacts.NonNumericStatusFails | src/serve/frontend.rs:272-274 | a `Status:` line whose three status bytes are not a number makes the whole parse fail |
| CgiResponseFacts.MissingColonFails | src/serve/frontend.rs:266-268 | a non-empty, non-`getEnvs ` line without a colon makes the whole parse fail |
| CgiResponseFacts.BlankChunk | src/serve/frontend.rs:259 | an empty line as read is LF or CR LF |
| CgiResponseFacts.OutputSplitsAtBlank | src/serve/frontend.rs:256-260 | the output is the header block, the empty line and the rest, or only the block when there is no empty line |
| CgiResponseFacts.ParseBody | src/serve/frontend.rs:256-282 | the body is exactly the bytes after the LF of the first empty line, unchanged; without an empty line it is empty |
| CgiResponseFacts.ScanSkipsDiagnostic | src/serve/frontend.rs:262-264 | inserting a `getEnvs ` line anywhere in the header block leaves the loop's result unchanged |
| CgiResponseFacts.DiagnosticLineIgnored | src/serve/frontend.rs:262-264 | removing a `getEnvs ` line from the header block of any output leaves the parse unchanged: it is never a header and never an error |
| CgiRender.StatusTextIsStatusLine | src/serve/frontend.rs:269-274 | the line `Status: <code>` reads as a Status line with that code for every code in 100..999 |
| CgiRender.HeaderTextIsHeaderLine | src/serve/frontend.rs:266-276 | the line `name: value` of an acceptable header reads as exactly that header |
| CgiRender.ChunksOfRender | src/serve/frontend.rs:257 | a rendered response is read as the status line, one line per header, the empty line, then the body's lines |
| CgiRender.ScanHeaderLines | src/serve/frontend.rs:257-278 | a run of rendered header lines followed by an empty line appends those headers in order and leaves the rest as the body |
| CgiRender.RenderParseRoundTrip | src/serve/frontend.rs:249-283 | whatever status, acceptable headers and body a CGI program prints, the parse gives back exactly that status, those headers in print order and that body |
| CgiEnv.FindName | src/serve/frontend.rs:287-290 | `HeaderMap::get` finds the first header stored under the name, and finds none exactly when no header has it |
| CgiEnv.FirstText | src/serve/frontend.rs:229-235 | the text of the first header under a name, or "" when there is none or it is not visible ASCII |
| CgiEnv.BuildEnv | src/serve/frontend.rs:181-235 | the environment is built exactly when the configuration yields one and the target has a path and query; a configuration error passes through and a missing path and query is an error of its own |
| CgiEnv.FixedVars | src/serve/frontend.rs:188-207 | the fixed list leaves every configured variable outside it as it was |
| CgiEnv.HostOf | src/serve/frontend.rs:287-292 | the host is the text of the first Host header, or "" when there is none or it is not visible ASCII |
| CgiEnv.FixedKeysPresent | src/serve/frontend.rs:189-207 | the thirteen fixed variables are all set |
| CgiEnv.FixedVarsConstants | src/serve/frontend.rs:189-205 | the fixed variables that do not depend on the request hold `rust`, `HTTP/1.1`, `CGI/1.1`, `.` and the port in decimal |
| CgiEnv.FixedVarsFromRequest | src/serve/frontend.rs:191-207 | the method, query ("" when absent), path and query, path (twice) and host (three times) land in their variables |
| CgiEnv.LowerIsNotProxy | src/serve/frontend.rs:219-223 | a lowercased name never equals the upper-case literal `PROXY` |
| CgiEnv.ForwardOne | src/serve/frontend.rs:218-226 | one turn of the header loop sets exactly the variable `HTTP_<lowercased name>` when the value is non-empty, to the value's text, and touches nothing else |
| CgiEnv.ForwardHeaders | src/serve/frontend.rs:218-227 | the header loop never removes a variable |
| CgiEnv.ProxyNeverSkipped | src/serve/frontend.rs:218-227 | the `PROXY` comparison never holds, so one turn of the header loop writes `HTTP_<lowercased name>` exactly when the value is non-empty and touches nothing else |
| CgiEnv.ForwardUntouched | src/serve/frontend.rs:218-227 | the header loop leaves a variable no header writes as it was |
| CgiEnv.ForwardLast | src/serve/frontend.rs:218-227 | a header variable holds the value of the last header that writes it |
| CgiEnv.ForwardKeys | src/serve/frontend.rs:218-227 | after the loop a variable is set exactly when it was set before or some header writes it |
| CgiEnv.ReservedKeysNotWritten | src/serve/frontend.rs:189-227 | no header can write a fixed variable or a content variable |
| CgiEnv.CopiesKeep | src/serve/frontend.rs:229-235 | the two content copies touch no other variable |
| CgiEnv.CopyFirst | src/serve/frontend.rs:229-235 | without a header of that name nothing changes; otherwise the variable is set to the first such header's text and nothing else changes |
| CgiEnv.EnvKeepsFixed | src/serve/frontend.rs:218-235 | the header loop and the content copies leave a variable no header writes as the fixed list left it |
| CgiEnv.FixedVarSurvives | src/serve/frontend.rs:189-235 | a fixed variable keeps its fixed value in the final environment |
| CgiEnv.EnvFixedVars | src/serve/frontend.rs:184-207 | in the final environment HTTP_HOST, REMOTE_ADDR and SERVER_NAME hold the host, PATH_INFO and SCRIPT_FILENAME the path, QUERY_STRING the query or "", and no header overrides any of them |
| CgiEnv.EnvHasHeaderVar | src/serve/frontend.rs:218-227 | every header with a non-empty value yields `HTTP_<lowercased name>` |
| CgiEnv.EnvHeaderValue | src/serve/frontend.rs:218-227 | that variable holds the text of the last non-empty value among headers with the same lowercased name |
| CgiEnv.EnvForwardsProxy | src/serve/frontend.rs:219-225 | a `proxy` header is forwarded as `HTTP_proxy` like any other |
| CgiEnv.EnvContentVars | src/serve/frontend.rs:229-235 | CONTENT_TYPE and CONTENT_LENGTH hold the first value of their header, and are inherited from the configuration when the header is absent |
| CgiEnv.EnvInherits | src/serve/frontend.rs:188-235 | a configured variable nobody else writes is among the variables the handler sets, unchanged |
| Replies.Redirect | src/serve/frontend.rs:177 | a redirect carries the status and one location header, and fails (panics) exactly when the location is not a valid header value |
| Auth.Authenticate | src/serve/frontend.rs:134-139 | with no password configured any input passes; with one, the input passes exactly when it equals the password |
| Auth.Login | src/serve/frontend.rs:147-164 | a passing password with a generated token gives a 303 to home setting `access_token=<token>; Max-Age=<n>; Path=/; HttpOnly`; any other case gives a 303 to `/login`; the only error is the builder's panic on invalid header text |
| Auth.NonEmpty | src/serve/frontend.rs:309-312 | the kept segments are exactly the non-empty ones |
| Auth.AnyAdmits | src/serve/frontend.rs:313-324 | the loop finds an admitting segment exactly when one exists |
| Auth.Admits | src/serve/frontend.rs:314-319 | a segment admits exactly when, trimmed, it starts with `access_token`, holds exactly one `=`, and the verifier accepts the text after that `=` |
| Auth.SplitInTwo | src/serve/frontend.rs:316-317 | `split('=')` has two parts exactly when the text holds one `=`, and the second part is the text after it |
| Auth.Gate | src/serve/frontend.rs:297-328 | a denied request is always a 303 to `/login`; with no password configured every request is allowed |
| Auth.EmptySegmentNeverAdmits | src/serve/frontend.rs:311-315 | an empty segment never names the access cookie |
| Auth.NonEmptyAdmits | src/serve/frontend.rs:309-324 | dropping empty segments does not change whether some segment admits the request |
| Auth.GateAllowsIff | src/serve/frontend.rs:302-327 | the gate allows exactly when the setting is `Some(None)`, or a Cookie header exists and some `;`-segment of its first value admits the request |
| Auth.SplitAt | src/serve/frontend.rs:316 | splitting text that holds the separator right after a separator-free head gives that head, then the split of the rest |
| Auth.GateOnSingleSegment | src/serve/frontend.rs:307-324 | a Cookie header of cookie octets is one segment, which alone decides the gate when a password is configured |
| Auth.PairAdmits | src/serve/frontend.rs:314-319 | `access_token=<token>` admits a plain token the verifier accepts |
| Auth.PaddedPairSplits | src/serve/frontend.rs:316-317 | a pair whose token holds `=` splits into more than two parts and never admits |
| Auth.PaddedTokenDenied | src/serve/frontend.rs:307-327 | with a password configured, a cookie whose token holds `=` is sent to the login page even when the verifier would accept it |
| Auth.SetCookieValue | src/serve/frontend.rs:154 | the login's Set-Cookie text is a valid header value exactly when the token is, and for a token without `;` its name-value pair is `access_token=<token>` |
| Auth.LoginThenGate | src/serve/frontend.rs:307-320 | after a successful login, a request sending back the cookie pair the login set passes the gate, for a plain token that still verifies |
| Auth.NoCookieDenied | src/serve/frontend.rs:307-327 | with a password configured, a request without a Cookie header is sent to `/login` |
| Gateway.Prepare | src/serve/frontend.rs:176-244 | outside the mount the answer is the 307 to home; inside it the program runs with the built environment and the body (or nothing) as input, and an environment error stops the handler |
| Gateway.Handle | src/serve/frontend.rs:172-284 | outside the mount the only answer is the 307 to home (or the panic on an invalid home path); a CGI response comes only from a mounted request whose environment was built, and has a valid status |
| Gateway.UnmountedRedirects | src/serve/frontend.rs:176-178 | a request outside the mount gets the 307 to home whatever the configuration and the program |
| Gateway.EnvFailureStops | src/serve/frontend.rs:181-201 | a mounted request whose environment cannot be built fails with that error before the program runs |
| Gateway.ProgramInput | src/serve/frontend.rs:237-283 | the program's failure is the route's failure; otherwise the route answers with the parse of what the program printed |
| Gateway.ProgramResponsePassesThrough | src/serve/frontend.rs:249-283 | a program that prints a status, acceptable headers and a body gets exactly that response, headers in print order, through the route |
| Gateway.GuardedRoute | src/serve/frontend.rs:297-328 | a request the gate denies is sent to `/login` and the program never runs |
| Gateway.OpenRoute | src/serve/frontend.rs:302-304 | with no password configured the route is the handler alone |
| Gateway.Serve | src/serve/frontend.rs:297-328 | a denied request gets the 303 to `/login`; with no password configured the route is the handler; a CGI response reaches the client only through an allowed, mounted request |

## Left out

- Server start-up, TLS, the router, the login page HTML, the `/webman/login.cgi` stub and graceful shutdown are not modelled. They are I/O plumbing with no logic of their own.
- Spawning the program is not modelled. This covers its working directory, uid and gid, stderr handling, the copy of the body to stdin and `wait_with_output`. The program appears only as the parameter `run` from environment and stdin to stdout or an error.
- The configuration's environment, the token generator and verifier, the token lifetime `EXP` and the home path are parameters. Their code is not part of this model.
- The status and headers of the response are modelled, but the body's streaming is not. The body is the unread rest of the output as one byte sequence.
- CgiEnv.BuildEnv: the model is the set of variables the handler writes. The command is built without `env_clear`, so the spawned process also inherits the gateway's own environment under them. That environment is outside the model, and so are the variables it holds that no write replaces.
- CgiRender.RenderParseRoundTrip: the model keeps the headers in the order they were printed. The HTTP library's header map groups repeated names at the position of their first occurrence, so `A: 1`, `B: 2`, `A: 3` goes out as `a: 1`, `a: 3`, `b: 2`. The order holds as stated when the names are distinct.
- Gateway.ProgramResponsePassesThrough: the same caveat on repeated header names applies to the headers the route sends.
- Errors that surface only when the process is spawned are not modelled, such as an environment name holding `=` or NUL.
- CgiResponse.ValidHeaderName: the header name keeps the case the program printed. The HTTP library stores names lowercased and limits their length; neither is modelled.
- Text.Trim: trims ASCII white space only. Cookie text reaches it only through `to_str`, which admits visible ASCII and tab, so nothing else can occur there.
- Concurrency is not modelled: each request is handled on its own, and the password setting is read once.
