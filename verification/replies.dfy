/** The responses the handlers produce themselves, without running the CGI program. */
module Replies {
  import opened Results
  import opened CgiResponse

  /** A response with no body: a status and header fields, names in lower case. */
  datatype Reply = Reply(status: nat, headers: seq<(string, string)>)

  const SeeOtherStatus := 303
  const TemporaryRedirectStatus := 307

  /** Text `HeaderValue` accepts: no control character other than tab, and no DEL. */
  predicate ValidValueText(s: string) {
    forall i | 0 <= i < |s| :: IsValueByte(s[i])
  }

  lemma ValidValueConcat(a: string, b: string)
    ensures ValidValueText(a + b) <==> ValidValueText(a) && ValidValueText(b)
  {
    assert forall i | 0 <= i < |a| :: a[i] == (a + b)[i];
    assert forall i | 0 <= i < |b| :: b[i] == (a + b)[|a| + i];
  }

  /** A redirect with the given status to `location`; building it panics when `location` is not a valid header value. */
  function Redirect(status: nat, location: string): (r: Result<Reply>)
    ensures r.Ok? <==> ValidValueText(location)
    ensures r.Ok? ==> r.value.status == status && r.value.headers == [("location", location)]
    ensures r.Err? ==> r.error == Panic
  {
    if ValidValueText(location) then Ok(Reply(status, [("location", location)])) else Err(Panic)
  }
}
