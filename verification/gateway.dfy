/**
 * The CGI route as a whole (`get_pan_thunder_com` behind `auth_middleware`):
 * the mount check, the environment, one run of the CGI program, and the
 * parse of what it printed. Running the program is a parameter `run` from the
 * environment and the standard input to the captured standard output, or
 * the error spawning, feeding or waiting for it failed with.
 */
module Gateway {
  import opened Results
  import opened Text
  import opened CgiResponse
  import opened CgiRender
  import opened CgiEnv
  import opened Replies
  import opened Auth

  /** What the handler does before running the program: redirect, or run it with this environment and input. */
  datatype Step = Redirected(reply: Reply) | Invoke(env: Env, stdin: Bytes)

  /** The answer of the route: a reply of the handler's own, or the CGI program's response. */
  datatype Outcome = Replied(reply: Reply) | Cgi(response: Response)

  /** A request whose printed target does not contain the home path is outside the application's mount. */
  predicate Mounted(c: Config, req: Request) {
    Contains(req.uri.text, c.home)
  }

  function Prepare(c: Config, req: Request): (r: Result<Step>)
    ensures !Mounted(c, req) ==> (r.Ok? <==> ValidValueText(c.home))
    ensures !Mounted(c, req) && r.Ok? ==> r.value == Redirected(Reply(TemporaryRedirectStatus, [("location", c.home)]))
    ensures Mounted(c, req) ==> (r.Ok? <==> BuildEnv(c, req).Ok?)
    ensures Mounted(c, req) && r.Ok? ==> r.value == Invoke(BuildEnv(c, req).value, req.body.GetOr([]))
    ensures r.Err? && Mounted(c, req) ==> r.error == BuildEnv(c, req).error
    ensures r.Err? && !Mounted(c, req) ==> r.error == Panic
  {
    if !Mounted(c, req) then
      match Redirect(TemporaryRedirectStatus, c.home)
      case Err(e) => Err(e)
      case Ok(reply) => Ok(Redirected(reply))
    else
      match BuildEnv(c, req)
      case Err(e) => Err(e)
      case Ok(env) => Ok(Invoke(env, req.body.GetOr([])))
  }

  /** `get_pan_thunder_com`: the handler's own redirect, or the CGI program's parsed response. */
  function Handle(c: Config, req: Request, run: (Env, Bytes) -> Result<Bytes>): (r: Result<Outcome>)
    ensures !Mounted(c, req) ==> (r.Ok? <==> ValidValueText(c.home))
    ensures r.Ok? && r.value.Replied? ==>
      !Mounted(c, req) && r.value.reply == Reply(TemporaryRedirectStatus, [("location", c.home)])
    ensures r.Ok? && r.value.Cgi? ==>
      Mounted(c, req) && BuildEnv(c, req).Ok? && IsValidStatus(r.value.response.status)
  {
    match Prepare(c, req)
    case Err(e) => Err(e)
    case Ok(Redirected(reply)) => Ok(Replied(reply))
    case Ok(Invoke(env, stdin)) =>
      match run(env, stdin)
      case Err(e) => Err(e)
      case Ok(out) =>
        match Parse(out)
        case Err(e) => Err(e)
        case Ok(response) => Ok(Cgi(response))
  }

  /** The route with the gate in front: a denied request never reaches the handler. */
  function Serve(setting: PasswordSetting, c: Config, req: Request, verify: string -> bool,
                 run: (Env, Bytes) -> Result<Bytes>): (r: Result<Outcome>)
    ensures Gate(setting, req.headers, verify).Deny? ==>
      r == Ok(Replied(Reply(SeeOtherStatus, [("location", LoginPath)])))
    ensures setting == Some(None) ==> r == Handle(c, req, run)
    ensures r.Ok? && r.value.Cgi? ==> Gate(setting, req.headers, verify) == Allow && Mounted(c, req)
  {
    match Gate(setting, req.headers, verify)
    case Deny(reply) => Ok(Replied(reply))
    case Allow => Handle(c, req, run)
  }

  /**
   * A request outside the mount is redirected to the home path with a
   * temporary redirect, whatever the configuration's environment and
   * whatever the program would do: the answer does not depend on `run`.
   */
  lemma UnmountedRedirects(c: Config, req: Request, run: (Env, Bytes) -> Result<Bytes>)
    requires !Mounted(c, req) && ValidValueText(c.home)
    ensures Handle(c, req, run) == Ok(Replied(Reply(TemporaryRedirectStatus, [("location", c.home)])))
  {
  }

  /** A mounted request the environment cannot be built for fails before the program runs. */
  lemma EnvFailureStops(c: Config, req: Request, run: (Env, Bytes) -> Result<Bytes>)
    requires Mounted(c, req) && BuildEnv(c, req).Err?
    ensures Handle(c, req, run) == Err(BuildEnv(c, req).error)
    ensures c.envs.Ok? ==> Handle(c, req, run) == Err(MalformedRequest)
  {
  }

  /** The program runs with the environment built from the request and with the request body, or nothing, as input. */
  lemma ProgramInput(c: Config, req: Request, run: (Env, Bytes) -> Result<Bytes>)
    requires Mounted(c, req) && c.envs.Ok? && req.uri.pathAndQuery.Some?
    ensures run(EnvOf(c, req), req.body.GetOr([])).Err? ==>
      Handle(c, req, run) == Err(run(EnvOf(c, req), req.body.GetOr([])).error)
    ensures run(EnvOf(c, req), req.body.GetOr([])).Ok? ==>
      var parsed := Parse(run(EnvOf(c, req), req.body.GetOr([])).value);
      (Handle(c, req, run).Ok? <==> parsed.Ok?) &&
      (parsed.Ok? ==> Handle(c, req, run) == Ok(Cgi(parsed.value)))
  {
  }

  /**
   * End to end: when the program answers a mounted request with a Status
   * line, valid headers and a body, the route responds with exactly that
   * status, those headers and that body.
   */
  lemma ProgramResponsePassesThrough(c: Config, req: Request, run: (Env, Bytes) -> Result<Bytes>, r: Response)
    requires Mounted(c, req) && c.envs.Ok? && req.uri.pathAndQuery.Some?
    requires IsValidStatus(r.status) && forall i | 0 <= i < |r.headers| :: Renderable(r.headers[i])
    requires run(EnvOf(c, req), req.body.GetOr([])) == Ok(Render(r))
    ensures Handle(c, req, run) == Ok(Cgi(r))
  {
    RenderParseRoundTrip(r);
  }

  /**
   * With a password configured, a request whose Cookie header does not admit
   * it is sent to the login page whatever it asks for, and the program never
   * runs: the answer does not depend on `run` or on the configuration.
   */
  lemma GuardedRoute(setting: PasswordSetting, c: Config, req: Request, verify: string -> bool,
                     run: (Env, Bytes) -> Result<Bytes>)
    requires Gate(setting, req.headers, verify).Deny?
    ensures setting != Some(None)
    ensures Serve(setting, c, req, verify, run) == Ok(Replied(Reply(SeeOtherStatus, [("location", LoginPath)])))
  {
  }

  /** With no password configured, the gate is transparent. */
  lemma OpenRoute(c: Config, req: Request, verify: string -> bool, run: (Env, Bytes) -> Result<Bytes>)
    ensures Serve(Some(None), c, req, verify, run) == Handle(c, req, run)
  {
  }
}
