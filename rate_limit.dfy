/**
 This module models the sliding-window-log rate limiter of the server
 (`rateLimit(windowMs, max)` in src/server.ts): a process-wide map from a
 client key to the timestamps of that client's recently admitted requests,
 and the per-request admission check that reads, filters and updates it.
 */
module RateLimit {

  /** An optional value: a request field that may be `undefined`. */
  datatype Option<T> = None | Some(value: T)

  /** A client key: the address a request is attributed to. */
  type ClientKey = string

  /** A millisecond timestamp, as returned by the clock. */
  type Millis = int

  /** The request log: for each client seen, the timestamps it kept. */
  type RequestLog = map<ClientKey, seq<Millis>>

  /** HTTP status of the rejection reply. */
  const TooManyRequests: nat := 429

  /** Body message of the rejection reply. */
  const RejectMessage: string := "Too many requests, please try again later."

  /** The key shared by every request with no resolvable address. */
  const UnknownKey: ClientKey := "unknown"

  /** Window length and ceiling used when the environment sets none. */
  const DefaultWindowMs: int := 900000
  const DefaultMax: int := 100

  /** The limiter's answer: forward the request, or reply 429 and stop. */
  datatype Decision = Admit | Reject(status: nat, message: string)

  /** A limiter decision together with the request log it leaves behind. */
  datatype Outcome = Outcome(decision: Decision, log: RequestLog)

  // ---------------------------------------------------------------------
  // Client key selection
  // ---------------------------------------------------------------------

  /** JavaScript truthiness of an optional string: present and non-empty. */
  predicate Truthy(s: Option<string>)
  {
    s.Some? && s.value != ""
  }

  /**
   The key is the first truthy value of `req.ip`, then
   `req.socket.remoteAddress`, and the literal "unknown" otherwise.
   */
  function ResolveKey(ip: Option<string>, remoteAddress: Option<string>): (k: ClientKey)
    ensures k != ""
    ensures Truthy(ip) ==> k == ip.value
    ensures !Truthy(ip) && Truthy(remoteAddress) ==> k == remoteAddress.value
    ensures !Truthy(ip) && !Truthy(remoteAddress) ==> k == UnknownKey
  {
    if Truthy(ip) then ip.value
    else if Truthy(remoteAddress) then remoteAddress.value
    else UnknownKey
  }

  // ---------------------------------------------------------------------
  // The window filter
  // ---------------------------------------------------------------------

  /** A timestamp `t` is still inside the window at time `now` (strictly). */
  predicate InWindow(t: Millis, now: Millis, windowMs: int)
  {
    now - t < windowMs
  }

  /**
   The timestamps of `log` still inside the window at `now`, in their
   original order: the list is never longer than `log`, and a timestamp
   occurs in it exactly when it occurs in `log` and is inside the window.
   */
  function Live(log: seq<Millis>, now: Millis, windowMs: int): (r: seq<Millis>)
    ensures |r| <= |log|
    ensures forall t :: t in r <==> t in log && InWindow(t, now, windowMs)
  {
    if log == [] then []
    else
      var rest := Live(log[1..], now, windowMs);
      assert log == [log[0]] + log[1..];
      if InWindow(log[0], now, windowMs) then [log[0]] + rest else rest
  }

  /** The stored timestamps of `key`; a key absent from the log has none. */
  function Stored(log: RequestLog, key: ClientKey): seq<Millis>
  {
    if key in log then log[key] else []
  }

  // ---------------------------------------------------------------------
  // The admission step, as a function of the log
  // ---------------------------------------------------------------------

  /**
   One request of `key` at time `now`: reject when the in-window count has
   reached `max` (the log is then left exactly as it was, expired entries
   included); otherwise store the in-window timestamps followed by `now`.
   */
  function Step(log: RequestLog, key: ClientKey, now: Millis, windowMs: int, max: int): (o: Outcome)
    ensures o.decision.Reject? <==> |Live(Stored(log, key), now, windowMs)| >= max
    ensures o.decision.Reject? ==> o.decision == Reject(TooManyRequests, RejectMessage) && o.log == log
    ensures o.decision.Admit? ==> o.log.Keys == log.Keys + {key}
    ensures o.decision.Admit? ==> Stored(o.log, key) == Live(Stored(log, key), now, windowMs) + [now]
    ensures forall k :: k != key ==> Stored(o.log, k) == Stored(log, k)
  {
    var valid := Live(Stored(log, key), now, windowMs);
    if |valid| >= max then Outcome(Reject(TooManyRequests, RejectMessage), log)
    else Outcome(Admit, log[key := valid + [now]])
  }

  /** Every stored list holds at most `max` timestamps. */
  predicate Bounded(log: RequestLog, max: int)
  {
    forall k :: k in log ==> |log[k]| <= max
  }

  // ---------------------------------------------------------------------
  // The limiter object: the closure and its handler
  // ---------------------------------------------------------------------

  /**
   The state captured by the `rateLimit(windowMs, max)` closure: the two
   configuration values and the mutable map `requests`.
   */
  class Limiter {
    const windowMs: int
    const max: int
    var requests: RequestLog

    /** The object invariant: no stored list exceeds the ceiling. */
    ghost predicate Valid()
      reads this
    {
      Bounded(requests, max)
    }

    /** `rateLimit(windowMs, max)`: the map starts empty. */
    constructor (windowMs: int, max: int)
      ensures this.windowMs == windowMs && this.max == max
      ensures requests == map[]
      ensures Valid()
    {
      this.windowMs := windowMs;
      this.max := max;
      requests := map[];
    }

    /**
     The admission check for one request of `key` at time `now`: the part
     of the handler after the key has been resolved.
     */
    method Check(key: ClientKey, now: Millis) returns (d: Decision)
      requires Valid()
      modifies this
      ensures Valid()
      ensures d.Reject? <==> |Live(Stored(old(requests), key), now, windowMs)| >= max
      ensures d.Reject? ==> d == Reject(TooManyRequests, RejectMessage) && requests == old(requests)
      ensures d.Admit? ==> requests == old(requests)[key := Live(Stored(old(requests), key), now, windowMs) + [now]]
      ensures Outcome(d, requests) == Step(old(requests), key, now, windowMs, max)
    {
      var userRequests := if key in requests then requests[key] else [];
      var validRequests := Live(userRequests, now, windowMs);
      if |validRequests| >= max {
        return Reject(TooManyRequests, RejectMessage);
      }
      validRequests := validRequests + [now];
      requests := requests[key := validRequests];
      d := Admit;
    }

    /**
     The request handler: resolve the client key from the request's
     addresses, then run the admission check with the clock value `now`.
     */
    method Handle(ip: Option<string>, remoteAddress: Option<string>, now: Millis) returns (d: Decision)
      requires Valid()
      modifies this
      ensures Valid()
      ensures Outcome(d, requests) == Step(old(requests), ResolveKey(ip, remoteAddress), now, windowMs, max)
    {
      var key := ResolveKey(ip, remoteAddress);
      d := Check(key, now);
    }
  }
}
