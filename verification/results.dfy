/** Failure-carrying outcomes shared by every part of the gateway model. */
module Results {

  datatype Option<+T> = None | Some(value: T) {

    /** The wrapped value, or `default` when there is none (Rust's `unwrap_or`). */
    function GetOr(default: T): T {
      match this
      case Some(v) => v
      case None => default
    }
  }

  /** The reasons a request ends in an application error instead of a response. */
  datatype Error =
    | InvalidUtf8        // a line read from the CGI output is not UTF-8
    | MissingColon       // a CGI header line has no ':' separator
    | InvalidStatus      // the Status value does not parse, or is not a valid HTTP status
    | InvalidHeader      // HeaderName / HeaderValue rejected the CGI header
    | Panic              // an out-of-range slice or a failed `expect` in the handler
    | MalformedRequest   // the request URI has no path-and-query part
    | ConfigError        // the configuration's environment could not be produced
    | ProcessError       // spawning, feeding or waiting for the CGI process failed

  datatype Result<+T> = Ok(value: T) | Err(error: Error)
}
