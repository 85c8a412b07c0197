/**
 * What both actions share with the host runtime and the remote service: the
 * truthiness test on the configured secret, the `Authorization` header, the outcome
 * of one `fetch` followed by `response.json()`, what a handler can throw, and
 * `Math.round`.
 */
module Host {
  import opened Wrappers

  /** JavaScript truthiness of `runtime.character.settings.secrets.bitmind`, a string
      that may be absent: `undefined` and `""` are falsy. */
  predicate Truthy(secret: Option<string>)
  {
    secret.Some? && secret.value != ""
  }

  /** `Bearer ${token}`: an absent token renders as `undefined`. */
  function Authorization(token: Option<string>): (h: string)
    ensures |h| >= 7 && h[..7] == "Bearer "
    ensures token.Some? ==> h[7..] == token.value
    ensures token.None? ==> h == "Bearer undefined"
  {
    "Bearer " + (if token.Some? then token.value else "undefined")
  }

  /** What awaiting `fetch(...)` and then `response.json()` yields: the parsed body of
      an ok response, a response whose `ok` is false (with its `statusText`), or a
      rejected promise (a network failure or a body that is not JSON) with the
      rejection's `message`. */
  datatype Response<T> = Ok(body: T) | NotOk(statusText: string) | Rejected(message: string)

  /** What a handler throws: a TypeError raised by the engine (reading a property of
      `undefined` or `null`), whose message the model does not fix, or an `Error`
      built by the handler with its message. */
  datatype Thrown = TypeError | Error(message: string)

  /** `Math.round(x)`: the nearest integer, halves rounding up. */
  function Round(x: real): (r: int)
    ensures x - 0.5 < r as real <= x + 0.5
  {
    (x + 0.5).Floor
  }

  /** `Math.round(x * 100)`, the percentage both replies show. */
  function Percent(x: real): (p: int)
    ensures 0.0 <= x <= 1.0 ==> 0 <= p <= 100
    ensures x * 100.0 - 0.5 < p as real <= x * 100.0 + 0.5
  {
    Round(x * 100.0)
  }
}
