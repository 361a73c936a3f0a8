/**
 * The meta-variables the gateway hands to the CGI program (section 4.1 of
 * RFC 3875), built from the request the way `get_pan_thunder_com` builds
 * them: the configured environment first, then a fixed list of variables,
 * then one `HTTP_` variable per request header, then CONTENT_TYPE and
 * CONTENT_LENGTH. Each write replaces an earlier value under the same name.
 * These are the variables the handler sets on the command; the process it
 * spawns also inherits the gateway's own environment underneath them.
 */
module CgiEnv {
  import opened Results
  import opened Text
  import opened CgiResponse

  type Env = map<string, string>

  /** The listening port, an unsigned 16-bit integer. */
  type Port = n: nat | n < 0x1_0000

  /**
   * The request target as the HTTP library presents it: its printed form,
   * its path, its query, and its path-and-query part (absent for a target
   * such as the authority form of CONNECT).
   */
  datatype Uri = Uri(text: string, path: string, query: Option<string>, pathAndQuery: Option<string>)

  /** The request method (`verb`) and target, its headers with names as the HTTP library stores them (in lower case), and its body if any. */
  datatype Request = Request(verb: string, uri: Uri, headers: seq<Header>, body: Option<Bytes>)

  /**
   * What the handler reads from the configuration: the web-UI home path the
   * CGI application is mounted under, the bound port, and the environment
   * the configuration produces (or the error producing it failed with).
   */
  datatype Config = Config(home: string, port: Port, envs: Result<Env>)

  /** The variables written after the configured environment, whatever the request. */
  const FixedKeys: set<string> := {
    "SERVER_SOFTWARE", "SERVER_PROTOCOL", "HTTP_HOST", "GATEWAY_INTERFACE", "REQUEST_METHOD",
    "QUERY_STRING", "REQUEST_URI", "PATH_INFO", "SCRIPT_NAME", "SCRIPT_FILENAME",
    "SERVER_PORT", "REMOTE_ADDR", "SERVER_NAME"
  }

  const ContentTypeKey := "CONTENT_TYPE"
  const ContentLengthKey := "CONTENT_LENGTH"

  /** Position of the first header stored under `name` (`HeaderMap::get` answers with its value). */
  function FindName(hs: seq<Header>, name: Bytes): (r: Option<nat>)
    ensures r.None? <==> forall i | 0 <= i < |hs| :: hs[i].name != name
    ensures r.Some? ==> r.value < |hs| && hs[r.value].name == name
    ensures r.Some? ==> forall j | 0 <= j < r.value :: hs[j].name != name
    decreases |hs|
  {
    if |hs| == 0 then None
    else if hs[0].name == name then Some(0)
    else
      match FindName(hs[1..], name)
      case None => None
      case Some(i) =>
        assert forall j | 1 <= j < i + 1 :: hs[j] == hs[1..][j - 1];
        Some(i + 1)
  }

  /** Header `i` is the first one stored under `name`. */
  predicate FirstWith(hs: seq<Header>, name: Bytes, i: int) {
    0 <= i < |hs| && hs[i].name == name && forall j | 0 <= j < i :: hs[j].name != name
  }

  /** `FindName` answers with the first header stored under the name. */
  lemma FoundIsFirst(hs: seq<Header>, name: Bytes)
    ensures forall i | FirstWith(hs, name, i) :: FindName(hs, name) == Some(i)
  {
    forall i | FirstWith(hs, name, i) ensures FindName(hs, name) == Some(i) {
      var r := FindName(hs, name);
      assert hs[i].name == name;
      assert r.Some? && r.value == i;
    }
  }

  /** The first value under `name` as text; "" when there is none or it is not visible ASCII. */
  function FirstText(hs: seq<Header>, name: Bytes): (r: string)
    ensures (forall i | 0 <= i < |hs| :: hs[i].name != name) ==> r == ""
    ensures forall i | FirstWith(hs, name, i) :: r == ToStrOrEmpty(hs[i].value)
  {
    FoundIsFirst(hs, name);
    match FindName(hs, name)
    case None => ""
    case Some(i) => ToStrOrEmpty(hs[i].value)
  }

  /** `extract_real_host`: the text of the first Host header, or "" when there is none or it is not visible ASCII. */
  function HostOf(hs: seq<Header>): (host: string)
    ensures (forall i | 0 <= i < |hs| :: hs[i].name != "host") ==> host == ""
    ensures forall i | FirstWith(hs, "host", i) :: host == ToStrOrEmpty(hs[i].value)
  {
    FirstText(hs, "host")
  }

  /** The writes that follow the configured environment, in the order the handler issues them. */
  function FixedVars(base: Env, c: Config, req: Request, host: string, pathAndQuery: string): (env: Env)
    ensures forall k | k in base && k !in FixedKeys :: k in env && env[k] == base[k]
  {
    base["SERVER_SOFTWARE" := "rust"]
        ["SERVER_PROTOCOL" := "HTTP/1.1"]
        ["HTTP_HOST" := host]
        ["GATEWAY_INTERFACE" := "CGI/1.1"]
        ["REQUEST_METHOD" := req.verb]
        ["QUERY_STRING" := req.uri.query.GetOr("")]
        ["REQUEST_URI" := pathAndQuery]
        ["PATH_INFO" := req.uri.path]
        ["SCRIPT_NAME" := "."]
        ["SCRIPT_FILENAME" := req.uri.path]
        ["SERVER_PORT" := Decimal(c.port)]
        ["REMOTE_ADDR" := host]
        ["SERVER_NAME" := host]
  }

  /** One turn of the header loop: the name is lowercased and compared with "PROXY", and a non-empty value is written. */
  function ForwardOne(env: Env, h: Header): (r: Env)
    ensures forall k :: (k in r <==> k in env || Writes(h, k))
    ensures Writes(h, "HTTP_" + ToLower(h.name)) ==> r["HTTP_" + ToLower(h.name)] == ToStrOrEmpty(h.value)
    ensures forall k | k in env && !Writes(h, k) :: r[k] == env[k]
  {
    LowerIsNotProxy(h.name);
    var k := ToLower(h.name);
    if k == "PROXY" then env
    else if |h.value| > 0 then env["HTTP_" + k := ToStrOrEmpty(h.value)]
    else env
  }

  /** The header loop never removes a variable. */
  function ForwardHeaders(env: Env, hs: seq<Header>): (r: Env)
    ensures env.Keys <= r.Keys
    decreases |hs|
  {
    if |hs| == 0 then env else ForwardHeaders(ForwardOne(env, hs[0]), hs[1..])
  }

  /** Copies the first value under `name`, when there is one, to the unprefixed variable `key`. */
  function CopyFirst(env: Env, hs: seq<Header>, name: Bytes, key: string): (r: Env)
    ensures (forall i | 0 <= i < |hs| :: hs[i].name != name) ==> r == env
    ensures forall i | FirstWith(hs, name, i) :: key in r && r[key] == ToStrOrEmpty(hs[i].value)
    ensures forall k | k in env && k != key :: k in r && r[k] == env[k]
    ensures forall k | k in r :: k in env || k == key
  {
    FoundIsFirst(hs, name);
    match FindName(hs, name)
    case None => env
    case Some(i) => env[key := ToStrOrEmpty(hs[i].value)]
  }

  /** The variables the handler sets on the CGI command, or the error that stops the handler before it spawns one. */
  function BuildEnv(c: Config, req: Request): (r: Result<Env>)
    ensures r.Ok? <==> c.envs.Ok? && req.uri.pathAndQuery.Some?
    ensures c.envs.Err? ==> r == Err(c.envs.error)
    ensures c.envs.Ok? && req.uri.pathAndQuery.None? ==> r == Err(MalformedRequest)
  {
    match c.envs
    case Err(e) => Err(e)
    case Ok(base) =>
      match req.uri.pathAndQuery
      case None => Err(MalformedRequest)
      case Some(pq) =>
        var fixed := FixedVars(base, c, req, HostOf(req.headers), pq);
        var forwarded := ForwardHeaders(fixed, req.headers);
        var typed := CopyFirst(forwarded, req.headers, "content-type", ContentTypeKey);
        Ok(CopyFirst(typed, req.headers, "content-length", ContentLengthKey))
  }

  /** Header `h` makes the loop write the variable `k`. */
  predicate Writes(h: Header, k: string) {
    |h.value| > 0 && k == "HTTP_" + ToLower(h.name)
  }

  /** A lowercased name is never the upper-case literal the loop compares it with. */
  lemma LowerIsNotProxy(name: Bytes)
    ensures ToLower(name) != "PROXY"
  {
    var k := ToLower(name);
    if |k| == 5 {
      assert !IsUpper(k[0]);
    }
  }

  /** The reserved-name check compares a lowercased name with an upper-case literal, so it never skips a header. */
  lemma ProxyNeverSkipped(env: Env, h: Header)
    ensures ToLower(h.name) != "PROXY"
    ensures forall k :: (k in ForwardOne(env, h) <==> k in env || Writes(h, k))
    ensures Writes(h, "HTTP_" + ToLower(h.name)) ==> ForwardOne(env, h)["HTTP_" + ToLower(h.name)] == ToStrOrEmpty(h.value)
    ensures forall k | k in env && !Writes(h, k) :: ForwardOne(env, h)[k] == env[k]
  {
    LowerIsNotProxy(h.name);
  }

  lemma {:induction false} ForwardUntouched(env: Env, hs: seq<Header>, k: string)
    requires forall i | 0 <= i < |hs| :: !Writes(hs[i], k)
    ensures k in ForwardHeaders(env, hs) <==> k in env
    ensures k in env ==> ForwardHeaders(env, hs)[k] == env[k]
    decreases |hs|
  {
    if |hs| > 0 {
      ProxyNeverSkipped(env, hs[0]);
      assert forall i | 0 <= i < |hs[1..]| :: hs[1..][i] == hs[i + 1];
      ForwardUntouched(ForwardOne(env, hs[0]), hs[1..], k);
    }
  }

  /** The value of an `HTTP_` variable comes from the last header that writes it. */
  lemma {:induction false} ForwardLast(env: Env, hs: seq<Header>, i: nat, k: string)
    requires i < |hs| && Writes(hs[i], k)
    requires forall j | i < j < |hs| :: !Writes(hs[j], k)
    ensures k in ForwardHeaders(env, hs) && ForwardHeaders(env, hs)[k] == ToStrOrEmpty(hs[i].value)
    decreases |hs|
  {
    ProxyNeverSkipped(env, hs[0]);
    if i == 0 {
      assert forall j | 0 <= j < |hs[1..]| :: hs[1..][j] == hs[j + 1];
      ForwardUntouched(ForwardOne(env, hs[0]), hs[1..], k);
    } else {
      assert forall j | i - 1 < j < |hs[1..]| :: hs[1..][j] == hs[j + 1];
      ForwardLast(ForwardOne(env, hs[0]), hs[1..], i - 1, k);
    }
  }

  /** A variable is present after the loop iff it was present before or some header writes it. */
  lemma {:induction false} ForwardKeys(env: Env, hs: seq<Header>, k: string)
    ensures k in ForwardHeaders(env, hs) <==> k in env || exists i | 0 <= i < |hs| :: Writes(hs[i], k)
    decreases |hs|
  {
    if |hs| > 0 {
      ProxyNeverSkipped(env, hs[0]);
      ForwardKeys(ForwardOne(env, hs[0]), hs[1..], k);
      if exists i | 0 <= i < |hs| :: Writes(hs[i], k) {
        var i :| 0 <= i < |hs| && Writes(hs[i], k);
        if i > 0 {
          assert Writes(hs[1..][i - 1], k);
        }
      }
      if exists i | 0 <= i < |hs[1..]| :: Writes(hs[1..][i], k) {
        var i :| 0 <= i < |hs[1..]| && Writes(hs[1..][i], k);
        assert Writes(hs[i + 1], k);
      }
    }
  }

  /** Every variable the header loop writes starts with 'H'; the only other such name is HTTP_HOST, which has upper-case letters after the prefix. */
  lemma ReservedKeysNotWritten(h: Header, k: string)
    requires k in FixedKeys || k == ContentTypeKey || k == ContentLengthKey
    ensures !Writes(h, k)
  {
    var lower := ToLower(h.name);
    var w := "HTTP_" + lower;
    assert w[0] == 'H' && |w| == 5 + |lower|;
    if |lower| > 0 {
      assert w[5] == lower[0] && !IsUpper(w[5]);
    }
    assert w != "HTTP_HOST";
  }

  lemma NoHeaderWrites(hs: seq<Header>, k: string)
    requires k in FixedKeys || k == ContentTypeKey || k == ContentLengthKey
    ensures forall i | 0 <= i < |hs| :: !Writes(hs[i], k)
  {
    forall i | 0 <= i < |hs| ensures !Writes(hs[i], k) {
      ReservedKeysNotWritten(hs[i], k);
    }
  }

  /** The variables the handler sets, for a request it does not reject. */
  function EnvOf(c: Config, req: Request): Env
    requires c.envs.Ok? && req.uri.pathAndQuery.Some?
  {
    BuildEnv(c, req).value
  }

  /** The value a key not written by the final two copies has after the header loop. */
  lemma CopiesKeep(env: Env, hs: seq<Header>, k: string)
    requires k != ContentTypeKey && k != ContentLengthKey
    ensures var r := CopyFirst(CopyFirst(env, hs, "content-type", ContentTypeKey), hs, "content-length", ContentLengthKey);
      (k in r <==> k in env) && (k in env ==> r[k] == env[k])
  {
  }

  /** Every variable of the fixed list is set. */
  lemma FixedKeysPresent(base: Env, c: Config, req: Request, host: string, pathAndQuery: string)
    ensures FixedKeys <= FixedVars(base, c, req, host, pathAndQuery).Keys
  {
  }

  /** The fixed list, read back: the variables that do not depend on the request. */
  lemma FixedVarsConstants(base: Env, c: Config, req: Request, host: string, pathAndQuery: string)
    ensures var env := FixedVars(base, c, req, host, pathAndQuery);
      && "SERVER_SOFTWARE" in env && env["SERVER_SOFTWARE"] == "rust"
      && "SERVER_PROTOCOL" in env && env["SERVER_PROTOCOL"] == "HTTP/1.1"
      && "GATEWAY_INTERFACE" in env && env["GATEWAY_INTERFACE"] == "CGI/1.1"
      && "SCRIPT_NAME" in env && env["SCRIPT_NAME"] == "."
      && "SERVER_PORT" in env && env["SERVER_PORT"] == Decimal(c.port)
  {
  }

  /** The fixed list, read back: the variables taken from the request. */
  lemma FixedVarsFromRequest(base: Env, c: Config, req: Request, host: string, pathAndQuery: string)
    ensures var env := FixedVars(base, c, req, host, pathAndQuery);
      && "REQUEST_METHOD" in env && env["REQUEST_METHOD"] == req.verb
      && "QUERY_STRING" in env && env["QUERY_STRING"] == req.uri.query.GetOr("")
      && "REQUEST_URI" in env && env["REQUEST_URI"] == pathAndQuery
      && "PATH_INFO" in env && env["PATH_INFO"] == req.uri.path
      && "SCRIPT_FILENAME" in env && env["SCRIPT_FILENAME"] == req.uri.path
      && "HTTP_HOST" in env && env["HTTP_HOST"] == host
      && "REMOTE_ADDR" in env && env["REMOTE_ADDR"] == host
      && "SERVER_NAME" in env && env["SERVER_NAME"] == host
  {
  }

  /** The header loop and the content copies leave alone a variable no header writes and that is not a content variable. */
  lemma EnvKeepsFixed(c: Config, req: Request, k: string)
    requires c.envs.Ok? && req.uri.pathAndQuery.Some?
    requires k != ContentTypeKey && k != ContentLengthKey
    requires forall i | 0 <= i < |req.headers| :: !Writes(req.headers[i], k)
    ensures var fixed := FixedVars(c.envs.value, c, req, HostOf(req.headers), req.uri.pathAndQuery.value);
      && (k in EnvOf(c, req) <==> k in fixed)
      && (k in fixed ==> EnvOf(c, req)[k] == fixed[k])
  {
    var hs := req.headers;
    var fixed := FixedVars(c.envs.value, c, req, HostOf(hs), req.uri.pathAndQuery.value);
    ForwardUntouched(fixed, hs, k);
    CopiesKeep(ForwardHeaders(fixed, hs), hs, k);
  }

  lemma FixedKeysNotContent(k: string)
    requires k in FixedKeys
    ensures k != ContentTypeKey && k != ContentLengthKey
  {
  }

  /** A variable of the fixed list keeps, in the final environment, the value the fixed list gave it. */
  lemma FixedVarSurvives(c: Config, req: Request, k: string)
    requires c.envs.Ok? && req.uri.pathAndQuery.Some?
    requires k in FixedKeys
    ensures var fixed := FixedVars(c.envs.value, c, req, HostOf(req.headers), req.uri.pathAndQuery.value);
      k in fixed && k in EnvOf(c, req) && EnvOf(c, req)[k] == fixed[k]
  {
    FixedKeysPresent(c.envs.value, c, req, HostOf(req.headers), req.uri.pathAndQuery.value);
    NoHeaderWrites(req.headers, k);
    FixedKeysNotContent(k);
    EnvKeepsFixed(c, req, k);
  }

  /**
   * Every variable of the fixed list has the value derived from the request:
   * HTTP_HOST, REMOTE_ADDR and SERVER_NAME all hold the Host header's text,
   * PATH_INFO and SCRIPT_FILENAME both hold the path, QUERY_STRING is "" when
   * the target has no query, and no header can override any of them.
   */
  lemma EnvFixedVars(c: Config, req: Request)
    requires c.envs.Ok? && req.uri.pathAndQuery.Some?
    ensures var env := EnvOf(c, req);
      FixedKeys <= env.Keys &&
      env["SERVER_SOFTWARE"] == "rust" &&
      env["SERVER_PROTOCOL"] == "HTTP/1.1" &&
      env["GATEWAY_INTERFACE"] == "CGI/1.1" &&
      env["REQUEST_METHOD"] == req.verb &&
      env["QUERY_STRING"] == req.uri.query.GetOr("") &&
      env["REQUEST_URI"] == req.uri.pathAndQuery.value &&
      env["PATH_INFO"] == req.uri.path && env["SCRIPT_FILENAME"] == req.uri.path &&
      env["SCRIPT_NAME"] == "." &&
      env["SERVER_PORT"] == Decimal(c.port) &&
      env["HTTP_HOST"] == HostOf(req.headers) &&
      env["REMOTE_ADDR"] == HostOf(req.headers) &&
      env["SERVER_NAME"] == HostOf(req.headers)
  {
    var env := EnvOf(c, req);
    var fixed := FixedVars(c.envs.value, c, req, HostOf(req.headers), req.uri.pathAndQuery.value);
    FixedKeysPresent(c.envs.value, c, req, HostOf(req.headers), req.uri.pathAndQuery.value);
    FixedVarsConstants(c.envs.value, c, req, HostOf(req.headers), req.uri.pathAndQuery.value);
    FixedVarsFromRequest(c.envs.value, c, req, HostOf(req.headers), req.uri.pathAndQuery.value);
    forall k | k in FixedKeys
      ensures k in env && env[k] == fixed[k]
    {
      FixedVarSurvives(c, req, k);
    }
  }

  /** Every header with a non-empty value yields the variable `HTTP_` + its lowercased name. */
  lemma EnvHasHeaderVar(c: Config, req: Request, i: nat)
    requires c.envs.Ok? && req.uri.pathAndQuery.Some?
    requires i < |req.headers| && |req.headers[i].value| > 0
    ensures "HTTP_" + ToLower(req.headers[i].name) in EnvOf(c, req)
  {
    var hs := req.headers;
    var k := "HTTP_" + ToLower(hs[i].name);
    var fixed := FixedVars(c.envs.value, c, req, HostOf(hs), req.uri.pathAndQuery.value);
    ForwardKeys(fixed, hs, k);
    assert Writes(hs[i], k);
    assert k[0] == 'H';
    CopiesKeep(ForwardHeaders(fixed, hs), hs, k);
  }

  /**
   * The variable of a header holds the text of the last non-empty value among
   * the headers with the same lowercased name ("" when that value is not
   * visible ASCII).
   */
  lemma EnvHeaderValue(c: Config, req: Request, i: nat)
    requires c.envs.Ok? && req.uri.pathAndQuery.Some?
    requires i < |req.headers| && |req.headers[i].value| > 0
    requires forall j | i < j < |req.headers| :: !Writes(req.headers[j], "HTTP_" + ToLower(req.headers[i].name))
    ensures "HTTP_" + ToLower(req.headers[i].name) in EnvOf(c, req)
    ensures EnvOf(c, req)["HTTP_" + ToLower(req.headers[i].name)] == ToStrOrEmpty(req.headers[i].value)
  {
    var hs := req.headers;
    var k := "HTTP_" + ToLower(hs[i].name);
    var fixed := FixedVars(c.envs.value, c, req, HostOf(hs), req.uri.pathAndQuery.value);
    ForwardLast(fixed, hs, i, k);
    assert k[0] == 'H';
    CopiesKeep(ForwardHeaders(fixed, hs), hs, k);
  }

  /** A `Proxy` header is forwarded like any other, as HTTP_proxy. */
  lemma EnvForwardsProxy(c: Config, req: Request, i: nat)
    requires c.envs.Ok? && req.uri.pathAndQuery.Some?
    requires i < |req.headers| && req.headers[i].name == "proxy" && |req.headers[i].value| > 0
    ensures "HTTP_proxy" in EnvOf(c, req)
  {
    ToLowerOfLower(req.headers[i].name);
    assert "HTTP_" + ToLower(req.headers[i].name) == "HTTP_proxy";
    EnvHasHeaderVar(c, req, i);
  }

  /** `key` holds the first value under `name`, or, without such a header, what `base` holds under `key`. */
  predicate CopiedFrom(env: Env, base: Env, hs: seq<Header>, name: Bytes, key: string) {
    match FindName(hs, name)
    case Some(i) => key in env && env[key] == ToStrOrEmpty(hs[i].value)
    case None => (key in env <==> key in base) && (key in base ==> env[key] == base[key])
  }

  /** CONTENT_TYPE and CONTENT_LENGTH hold the first value of their headers, and are inherited when the header is absent. */
  lemma EnvContentVars(c: Config, req: Request)
    requires c.envs.Ok? && req.uri.pathAndQuery.Some?
    ensures CopiedFrom(EnvOf(c, req), c.envs.value, req.headers, "content-type", ContentTypeKey)
    ensures CopiedFrom(EnvOf(c, req), c.envs.value, req.headers, "content-length", ContentLengthKey)
  {
    var hs, base := req.headers, c.envs.value;
    var fixed := FixedVars(base, c, req, HostOf(hs), req.uri.pathAndQuery.value);
    NoHeaderWrites(hs, ContentTypeKey);
    NoHeaderWrites(hs, ContentLengthKey);
    ForwardUntouched(fixed, hs, ContentTypeKey);
    ForwardUntouched(fixed, hs, ContentLengthKey);
  }

  /**
   * A variable of the configured environment that neither the fixed list, nor
   * a header, nor the content copies write is among the variables the handler
   * sets, unchanged.
   */
  lemma EnvInherits(c: Config, req: Request, k: string)
    requires c.envs.Ok? && req.uri.pathAndQuery.Some?
    requires k !in FixedKeys && k != ContentTypeKey && k != ContentLengthKey
    requires forall i | 0 <= i < |req.headers| :: !Writes(req.headers[i], k)
    ensures k in EnvOf(c, req) <==> k in c.envs.value
    ensures k in c.envs.value ==> EnvOf(c, req)[k] == c.envs.value[k]
  {
    EnvKeepsFixed(c, req, k);
  }
}
