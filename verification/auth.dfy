/**
 * Password login and the access gate in front of the CGI application. The
 * login handler trades the configured password for a token cookie; the gate
 * lets a request through when password checking is switched off or when a
 * cookie segment named like the access cookie carries a token the verifier
 * accepts (cookie syntax of section 4.2.1 of RFC 6265, read loosely).
 * Token generation and verification are parameters: their algorithm is not
 * part of this model.
 */
module Auth {
  import opened Results
  import opened Text
  import opened CgiResponse
  import opened CgiEnv
  import opened Replies

  /**
   * The password setting, fixed at start-up: `None` before it is set,
   * `Some(None)` when no password is configured, `Some(Some(p))` for password `p`.
   */
  type PasswordSetting = Option<Option<string>>

  const AccessCookie := "access_token"
  const LoginPath := "/login"

  predicate PasswordRequired(setting: PasswordSetting) {
    setting.Some? && setting.value.Some?
  }

  /** `authentication`: exact comparison with the configured password, or success when there is none. */
  function Authenticate(setting: PasswordSetting, password: string): (ok: bool)
    ensures !PasswordRequired(setting) ==> ok
    ensures PasswordRequired(setting) ==> (ok <==> password == setting.value.value)
  {
    match setting
    case Some(Some(p)) => password == p
    case _ => true
  }

  /** The Set-Cookie value of a successful login; `maxAge` is the token lifetime in seconds. */
  function SetCookieValue(token: string, maxAge: nat): (v: string)
    ensures ValidValueText(v) <==> ValidValueText(token)
    ensures ';' !in token ==> CookiePair(v) == AccessCookie + "=" + token
  {
    var pair := AccessCookie + "=" + token;
    var rest := " Max-Age=" + Decimal(maxAge) + "; Path=/; HttpOnly";
    CookieTextValid(pair, rest, token, Decimal(maxAge));
    PairComesFirst(pair, rest, token);
    pair + [';'] + rest
  }

  /** The Set-Cookie text is a valid header value exactly when the token is. */
  lemma CookieTextValid(pair: string, rest: string, token: string, age: string)
    requires IsDigits(age)
    requires pair == AccessCookie + "=" + token && rest == " Max-Age=" + age + "; Path=/; HttpOnly"
    ensures ValidValueText(pair + [';'] + rest) <==> ValidValueText(token)
  {
    assert ValidValueText(age);
    ValidValueConcat(AccessCookie + "=", token);
    ValidValueConcat(" Max-Age=", age);
    ValidValueConcat(" Max-Age=" + age, "; Path=/; HttpOnly");
    ValidValueConcat(pair, [';']);
    ValidValueConcat(pair + [';'], rest);
  }

  /** A browser sends back the cookie pair: the text before the first `;`. */
  lemma PairComesFirst(pair: string, rest: string, token: string)
    requires pair == AccessCookie + "=" + token
    ensures ';' !in token ==> CookiePair(pair + [';'] + rest) == pair
  {
    if ';' !in token {
      assert ';' !in pair by {
        assert forall i | 0 <= i < |pair| :: pair[i] in AccessCookie + "=" || pair[i] in token;
      }
      SplitOnceAfter(pair + [';'] + rest, pair, rest, ';');
    }
  }

  /**
   * `post_login`: `generated` is what the token generator answers, `home` the
   * web-UI home path. Success is a 303 to the home path that sets the access
   * cookie; every failure is the same 303 back to the login page.
   */
  function Login(setting: PasswordSetting, password: string, generated: Result<string>, maxAge: nat, home: string): (r: Result<Reply>)
    ensures r.Ok? ==> r.value.status == SeeOtherStatus
    ensures !Authenticate(setting, password) || generated.Err? ==>
      r == Ok(Reply(SeeOtherStatus, [("location", LoginPath)]))
    ensures Authenticate(setting, password) && generated.Ok? ==>
      (r.Ok? <==> ValidValueText(home) && ValidValueText(SetCookieValue(generated.value, maxAge)))
    ensures Authenticate(setting, password) && generated.Ok? && r.Ok? ==>
      r.value.headers == [("location", home), ("set-cookie", SetCookieValue(generated.value, maxAge))]
    ensures r.Err? ==> r.error == Panic
  {
    if Authenticate(setting, password) && generated.Ok? then
      var cookie := SetCookieValue(generated.value, maxAge);
      if ValidValueText(home) && ValidValueText(cookie) then
        Ok(Reply(SeeOtherStatus, [("location", home), ("set-cookie", cookie)]))
      else
        Err(Panic)
    else
      Redirect(SeeOtherStatus, LoginPath)
  }

  /** What the gate does with a request: hand it to the wrapped handler, or answer with a redirect. */
  datatype Decision = Allow | Deny(reply: Reply)

  /** `c` holds exactly one `=`, at position `k`. */
  predicate OneSeparatorAt(c: string, k: int) {
    0 <= k < |c| && c[k] == '=' && '=' !in c[..k] && '=' !in c[k + 1..]
  }

  /** `split('=')` yields two parts exactly when the text holds one `=`, and then the second part is what follows it. */
  lemma SplitInTwo(c: string)
    ensures |Split(c, '=')| == 2 <==> exists k :: OneSeparatorAt(c, k)
    ensures forall k | OneSeparatorAt(c, k) :: |Split(c, '=')| == 2 && Split(c, '=')[1] == c[k + 1..]
  {
    match SplitOnce(c, '=')
    case None =>
      assert Split(c, '=') == [c];
      forall k | 0 <= k < |c| ensures !OneSeparatorAt(c, k) {
        assert c[k] in c;
      }
    case Some((a, b)) =>
      var n := |a|;
      assert c[n] == '=' && c[..n] == a && c[n + 1..] == b;
      assert Split(c, '=') == [a] + Split(b, '=');
      assert forall j | 0 <= j < n :: c[j] == a[j];
      assert forall k | n < k <= |c| :: c[..k][n] == '=';
      forall k | OneSeparatorAt(c, k) ensures k == n {
      }
      if '=' in b {
        var (x, y) := SplitOnce(b, '=').value;
        assert Split(b, '=') == [x] + Split(y, '=');
      } else {
        assert Split(b, '=') == [b];
        assert OneSeparatorAt(c, n);
      }
  }

  /**
   * One `;`-segment of the Cookie header admits the request when, trimmed, it
   * starts like the access cookie's name and holds exactly one `=`, followed
   * by a token the verifier accepts.
   */
  predicate Admits(segment: string, verify: string -> bool)
    ensures Admits(segment, verify) <==>
      StartsWith(Trim(segment), AccessCookie) &&
      exists k :: OneSeparatorAt(Trim(segment), k) && verify(Trim(segment)[k + 1..])
  {
    var c := Trim(segment);
    SplitInTwo(c);
    StartsWith(c, AccessCookie) && |Split(c, '=')| == 2 && verify(Split(c, '=')[1])
  }

  /** The segments the gate looks at: empty ones are dropped. */
  function NonEmpty(segments: seq<string>): (r: seq<string>)
    ensures forall s | s in r :: s in segments && s != []
    ensures forall s | s in segments && s != [] :: s in r
  {
    if |segments| == 0 then []
    else if segments[0] == [] then NonEmpty(segments[1..])
    else [segments[0]] + NonEmpty(segments[1..])
  }

  /** The loop over segments, which stops at the first one that admits the request. */
  function AnyAdmits(segments: seq<string>, verify: string -> bool): (found: bool)
    ensures found <==> exists s | s in segments :: Admits(s, verify)
  {
    if |segments| == 0 then false
    else if Admits(segments[0], verify) then true
    else
      var found := AnyAdmits(segments[1..], verify);
      assert forall s | s in segments :: s == segments[0] || s in segments[1..];
      found
  }

  /** `auth_middleware`: only the first Cookie header is read, as text, split on `;`. */
  function Gate(setting: PasswordSetting, hs: seq<Header>, verify: string -> bool): (d: Decision)
    ensures d.Deny? ==> d.reply == Reply(SeeOtherStatus, [("location", LoginPath)])
    ensures setting == Some(None) ==> d == Allow
  {
    var denied := Deny(Reply(SeeOtherStatus, [("location", LoginPath)]));
    if setting == Some(None) then Allow
    else
      match FindName(hs, "cookie")
      case None => denied
      case Some(i) =>
        var segments := NonEmpty(Split(ToStrOrEmpty(hs[i].value), ';'));
        if AnyAdmits(segments, verify) then Allow else denied
  }

  lemma EmptySegmentNeverAdmits(verify: string -> bool)
    ensures !Admits([], verify)
  {
    assert Trim([]) == [];
  }

  /**
   * The gate allows a request exactly when password checking is switched off
   * (a setting that was never made does not count), or some `;`-segment of
   * the first Cookie header admits it.
   */
  lemma GateAllowsIff(setting: PasswordSetting, hs: seq<Header>, verify: string -> bool)
    ensures Gate(setting, hs, verify) == Allow <==>
      setting == Some(None) ||
      (FindName(hs, "cookie").Some? &&
       exists s | s in Split(ToStrOrEmpty(hs[FindName(hs, "cookie").value].value), ';') :: Admits(s, verify))
  {
    if setting != Some(None) && FindName(hs, "cookie").Some? {
      NonEmptyAdmits(Split(ToStrOrEmpty(hs[FindName(hs, "cookie").value].value), ';'), verify);
    }
  }

  /** Dropping the empty segments changes nothing: an empty segment never admits. */
  lemma NonEmptyAdmits(segments: seq<string>, verify: string -> bool)
    ensures AnyAdmits(NonEmpty(segments), verify) <==> exists s | s in segments :: Admits(s, verify)
  {
    EmptySegmentNeverAdmits(verify);
    if exists s | s in segments :: Admits(s, verify) {
      var s :| s in segments && Admits(s, verify);
      assert s in NonEmpty(segments);
    }
  }

  /** `split` on a sequence that holds the separator once past a separator-free head. */
  lemma SplitAt<T>(s: seq<T>, a: seq<T>, b: seq<T>, sep: T)
    requires s == a + [sep] + b && sep !in a
    ensures Split(s, sep) == [a] + Split(b, sep)
  {
    SplitOnceAfter(s, a, b, sep);
  }

  /** Characters a cookie value may hold (section 4.1.1 of RFC 6265). */
  predicate IsCookieOctet(c: char) {
    c == '!' || ('#' <= c <= '+') || ('-' <= c <= ':') || ('<' <= c <= '[') || (']' <= c <= '~')
  }

  /** Tokens that survive the gate's parsing unchanged: cookie octets other than `=`. */
  predicate PlainToken(token: string) {
    |token| > 0 && forall i | 0 <= i < |token| :: IsCookieOctet(token[i]) && token[i] != '='
  }

  lemma PlainTokenShape(token: string)
    requires PlainToken(token)
    ensures ';' !in token && '=' !in token
    ensures forall i | 0 <= i < |token| :: IsVisibleAscii(token[i]) && token[i] as int < 256
    ensures !IsSpace(token[|token| - 1])
  {
  }

  lemma TrimUntouched(s: string)
    requires |s| > 0 && !IsSpace(s[0]) && !IsSpace(s[|s| - 1])
    ensures Trim(s) == s
  {
  }

  /** The access-cookie pair for a token of cookie octets is itself made of cookie octets. */
  lemma PairOctets(pair: string, token: string)
    requires forall i | 0 <= i < |token| :: IsCookieOctet(token[i])
    requires pair == AccessCookie + "=" + token
    ensures forall i | 0 <= i < |pair| :: IsCookieOctet(pair[i])
  {
    forall i | 0 <= i < |pair| ensures IsCookieOctet(pair[i]) {
      if i >= |AccessCookie| + 1 {
        assert pair[i] == token[i - |AccessCookie| - 1];
      }
    }
  }

  /** A Cookie header made of cookie octets is read as text unchanged, and is a single segment. */
  lemma GateOnSingleSegment(setting: PasswordSetting, hs: seq<Header>, value: string, verify: string -> bool)
    requires |value| > 0 && forall i | 0 <= i < |value| :: IsCookieOctet(value[i])
    requires FindName(hs, "cookie").Some? && hs[FindName(hs, "cookie").value].value == value
    ensures Admits(value, verify) ==> Gate(setting, hs, verify) == Allow
    ensures setting != Some(None) ==> (Gate(setting, hs, verify) == Allow <==> Admits(value, verify))
  {
    var bytes := hs[FindName(hs, "cookie").value].value;
    assert ToStr(bytes) == Some(value);
    assert ';' !in value;
    assert Split(value, ';') == [value];
    GateAllowsIff(setting, hs, verify);
  }

  /** The access-cookie pair on its own admits a plain token the verifier accepts. */
  lemma PairAdmits(pair: string, token: string, verify: string -> bool)
    requires PlainToken(token) && verify(token)
    requires pair == AccessCookie + "=" + token
    ensures Admits(pair, verify)
  {
    PlainTokenShape(token);
    TrimUntouched(pair);
    SplitAt(pair, AccessCookie, token, '=');
    assert Split(token, '=') == [token];
  }

  /** A pair whose token holds `=` splits into three parts or more. */
  lemma PaddedPairSplits(pair: string, token: string, verify: string -> bool)
    requires forall i | 0 <= i < |token| :: IsCookieOctet(token[i])
    requires pair == AccessCookie + "=" + token && '=' in token
    ensures !Admits(pair, verify)
  {
    PairOctets(pair, token);
    TrimUntouched(pair);
    SplitAt(pair, AccessCookie, token, '=');
    var (x, y) := SplitOnce(token, '=').value;
    SplitAt(token, x, y, '=');
  }

  /**
   * A token containing `=` (base64 padding, say) splits into more than two
   * parts, so a Cookie header carrying it is sent to the login page even when
   * the verifier would accept the token.
   */
  lemma PaddedTokenDenied(setting: PasswordSetting, hs: seq<Header>, token: string, verify: string -> bool)
    requires setting != Some(None)
    requires forall i | 0 <= i < |token| :: IsCookieOctet(token[i])
    requires '=' in token
    requires FindName(hs, "cookie").Some?
    requires hs[FindName(hs, "cookie").value].value == AccessCookie + "=" + token
    ensures Gate(setting, hs, verify).Deny?
  {
    var pair := AccessCookie + "=" + token;
    PairOctets(pair, token);
    PaddedPairSplits(pair, token, verify);
    GateOnSingleSegment(setting, hs, pair, verify);
  }

  /** The cookie name and value a browser sends back for a Set-Cookie value: the text before the first `;`. */
  function CookiePair(setCookie: string): string {
    match SplitOnce(setCookie, ';')
    case None => setCookie
    case Some((pair, _)) => pair
  }

  /**
   * Login and gate agree: after a successful login, a request whose Cookie
   * header carries the cookie pair the login set passes the gate, as long as
   * the token is a plain cookie value and still verifies.
   */
  lemma LoginThenGate(setting: PasswordSetting, password: string, token: string, maxAge: nat, home: string,
                      hs: seq<Header>, verify: string -> bool)
    requires Login(setting, password, Ok(token), maxAge, home).Ok?
    requires Authenticate(setting, password)
    requires PlainToken(token) && verify(token)
    requires FindName(hs, "cookie").Some?
    requires hs[FindName(hs, "cookie").value].value == CookiePair(SetCookieValue(token, maxAge))
    ensures Login(setting, password, Ok(token), maxAge, home).value.headers[1] ==
      ("set-cookie", SetCookieValue(token, maxAge))
    ensures Gate(setting, hs, verify) == Allow
  {
    PlainTokenShape(token);
    var pair := AccessCookie + "=" + token;
    PairOctets(pair, token);
    PairAdmits(pair, token, verify);
    GateOnSingleSegment(setting, hs, pair, verify);
  }

  /** With a password configured, a request without a Cookie header is sent to the login page. */
  lemma NoCookieDenied(setting: PasswordSetting, hs: seq<Header>, verify: string -> bool)
    requires setting != Some(None)
    requires forall i | 0 <= i < |hs| :: hs[i].name != "cookie"
    ensures Gate(setting, hs, verify) == Deny(Reply(SeeOtherStatus, [("location", LoginPath)]))
  {
  }
}
