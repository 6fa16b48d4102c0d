/** The per-client rate limiter that runs before every handler: a fixed-window counter of at
    most 100 requests per 60 000 milliseconds for each pair of client address and request
    path. The clock `now` (milliseconds since the epoch) is passed in. */
module RateLimitingInterceptor {
  import opened Wrappers
  import JavaString
  import Http

  const MAX_REQUESTS: nat := 100
  /** One minute, in milliseconds. */
  const TIME_WINDOW: int := 60 * 1000

  const SC_TOO_MANY_REQUESTS: int := 429
  const RATE_LIMIT_EXCEEDED: string := "RATE_LIMIT_EXCEEDED"
  const RATE_LIMIT_MESSAGE: string := "Rate limit exceeded. Please try again later."

  const X_FORWARDED_FOR: string := "X-Forwarded-For"
  const X_REAL_IP: string := "X-Real-IP"

  // ---- the client address and the key ------------------------------------------------------

  /** The client address: the first comma-separated element of a non-empty X-Forwarded-For
      header, trimmed; else a non-empty X-Real-IP header; else the connection's remote address.
      `None` is the exception the source raises for an X-Forwarded-For made of commas alone. */
  function GetClientIpAddress(request: Http.Request): (ip: Option<string>)
    ensures var xff := request.GetHeader(X_FORWARDED_FOR);
            xff.Some? && xff.value != [] ==>
              (ip.None? <==> JavaString.OnlyCommas(xff.value)) &&
              (ip.Some? ==> exists first :: first <= xff.value && ',' !in first &&
                                            (|first| == |xff.value| || xff.value[|first|] == ',') &&
                                            ip.value == JavaString.Trim(first))
    ensures var xff := request.GetHeader(X_FORWARDED_FOR);
            var xri := request.GetHeader(X_REAL_IP);
            (xff.None? || xff.value == []) ==>
              ip == if xri.Some? && xri.value != [] then Some(xri.value) else Some(request.remoteAddr)
  {
    var xff := request.GetHeader(X_FORWARDED_FOR);
    if xff.Some? && xff.value != [] then
      match JavaString.FirstOfCommaSplit(xff.value)
      case None => None
      case Some(first) => Some(JavaString.Trim(first))
    else
      var xri := request.GetHeader(X_REAL_IP);
      if xri.Some? && xri.value != [] then Some(xri.value) else Some(request.remoteAddr)
  }

  /** Only the first hop of X-Forwarded-For counts: whatever follows the first comma is
      ignored. */
  lemma {:induction false} ForwardedForFirstHop(request: Http.Request, first: string, rest: string)
    requires request.GetHeader(X_FORWARDED_FOR) == Some(first + "," + rest)
    requires ',' !in first
    requires first != [] || !JavaString.OnlyCommas(rest)
    ensures GetClientIpAddress(request) == Some(JavaString.Trim(first))
  {
    var xff := first + "," + rest;
    UpToCommaOfPrefix(first, rest);
    if first == [] {
      var i :| 0 <= i < |rest| && rest[i] != ',';
      assert xff[i + 1] == rest[i];
    } else {
      assert xff[0] == first[0];
    }
  }

  lemma {:induction false} UpToCommaOfPrefix(first: string, rest: string)
    requires ',' !in first
    ensures JavaString.UpToComma(first + "," + rest) == first
  {
    if first != [] {
      assert (first + "," + rest)[1..] == first[1..] + "," + rest;
      assert first[0] in first;
      assert forall c :: c in first[1..] ==> c in first;
      UpToCommaOfPrefix(first[1..], rest);
    }
  }

  /** The map key: the client address and the request path, joined by a colon. */
  function RateLimitKey(clientIp: string, requestUri: string): (key: string)
    ensures |key| == |clientIp| + 1 + |requestUri|
    ensures key[..|clientIp|] == clientIp && key[|clientIp|] == ':' && key[|clientIp| + 1..] == requestUri
  {
    clientIp + ":" + requestUri
  }

  /** Two requests share a counter only when they come from the same address for the same
      path, as long as addresses carry no colon (an IPv6 address does). */
  lemma {:induction false} RateLimitKeyInjective(ip1: string, uri1: string, ip2: string, uri2: string)
    requires ':' !in ip1 && ':' !in ip2
    requires RateLimitKey(ip1, uri1) == RateLimitKey(ip2, uri2)
    ensures ip1 == ip2 && uri1 == uri2
  {
  }

  // ---- one counter -------------------------------------------------------------------------

  /** The counter of one key: requests admitted in the current window, and when the window
      began. */
  datatype RateLimitInfo = RateLimitInfo(requestCount: nat, firstRequestTime: int) {
    /** Starts a new window at `currentTime` with no requests in it. */
    function Reset(currentTime: int): (r: RateLimitInfo)
      ensures r.requestCount == 0 && r.firstRequestTime == currentTime
      ensures !WindowElapsed(r, currentTime) && r.requestCount < MAX_REQUESTS
    {
      RateLimitInfo(0, currentTime)
    }
  }

  /** The counter of `key` as the request finds it: its stored counter, or a new one with no
      requests whose window starts now. */
  function EntryFor(rateLimitMap: map<string, RateLimitInfo>, key: string, now: int): (r: RateLimitInfo)
    ensures key in rateLimitMap ==> r == rateLimitMap[key]
    ensures key !in rateLimitMap ==> r == RateLimitInfo(0, now) && !WindowElapsed(r, now)
    ensures (forall k :: k in rateLimitMap ==> rateLimitMap[k].requestCount <= MAX_REQUESTS) ==>
              r.requestCount <= MAX_REQUESTS
  {
    if key in rateLimitMap then rateLimitMap[key] else RateLimitInfo(0, now)
  }

  predicate WindowElapsed(info: RateLimitInfo, now: int) {
    now - info.firstRequestTime > TIME_WINDOW
  }

  datatype Decision = Decision(admitted: bool, info: RateLimitInfo)

  /** What one request does to its counter. A window older than TIME_WINDOW (strictly) is
      started afresh; the request is refused when the window already holds MAX_REQUESTS,
      and then the counter is left exactly as it was; otherwise it is counted. */
  function Admission(info: RateLimitInfo, now: int): (d: Decision)
    ensures d.admitted <==> WindowElapsed(info, now) || info.requestCount < MAX_REQUESTS
    ensures !d.admitted ==> d.info == info
    ensures d.admitted && WindowElapsed(info, now) ==> d.info == RateLimitInfo(1, now)
    ensures d.admitted && !WindowElapsed(info, now) ==>
              d.info == RateLimitInfo(info.requestCount + 1, info.firstRequestTime)
    ensures info.requestCount <= MAX_REQUESTS ==> d.info.requestCount <= MAX_REQUESTS
  {
    var current := if WindowElapsed(info, now) then info.Reset(now) else info;
    if current.requestCount >= MAX_REQUESTS then Decision(false, current)
    else Decision(true, current.(requestCount := current.requestCount + 1))
  }

  /** The decisions for requests arriving at the given times, one after another, on one
      counter, and the counter they leave. */
  function Replay(info: RateLimitInfo, times: seq<int>): (seq<bool>, RateLimitInfo)
    decreases |times|
  {
    if times == [] then ([], info)
    else
      var d := Admission(info, times[0]);
      var r := Replay(d.info, times[1..]);
      ([d.admitted] + r.0, r.1)
  }

  /** Requests that all fall within the window of a counter holding `count` requests: each is
      admitted exactly while the window still has room, and the window fills up to
      MAX_REQUESTS and no further. */
  lemma {:induction false} ReplayWithinWindow(count: nat, start: int, times: seq<int>)
    requires count <= MAX_REQUESTS
    requires forall i :: 0 <= i < |times| ==> times[i] - start <= TIME_WINDOW
    ensures |Replay(RateLimitInfo(count, start), times).0| == |times|
    ensures forall i :: 0 <= i < |times| ==> (Replay(RateLimitInfo(count, start), times).0[i] <==> count + i < MAX_REQUESTS)
    ensures Replay(RateLimitInfo(count, start), times).1 ==
              RateLimitInfo(if count + |times| < MAX_REQUESTS then count + |times| else MAX_REQUESTS, start)
    decreases |times|
  {
    if times != [] {
      var info := RateLimitInfo(count, start);
      var d := Admission(info, times[0]);
      var next := if count < MAX_REQUESTS then count + 1 else count;
      assert d.info == RateLimitInfo(next, start);
      ReplayWithinWindow(next, start, times[1..]);
      var r := Replay(d.info, times[1..]);
      assert Replay(info, times).0 == [d.admitted] + r.0;
      forall i | 1 <= i < |times|
        ensures Replay(info, times).0[i] <==> count + i < MAX_REQUESTS
      {
        assert Replay(info, times).0[i] == r.0[i - 1];
      }
    }
  }

  /** A key seen for the first time: of requests arriving within one window of the first,
      exactly the first MAX_REQUESTS are admitted and the next one is refused. */
  lemma FreshKeyBurst(times: seq<int>)
    requires |times| == MAX_REQUESTS + 1
    requires forall i :: 0 <= i < |times| ==> times[i] - times[0] <= TIME_WINDOW
    ensures var admitted := Replay(RateLimitInfo(0, times[0]), times).0;
            |admitted| == |times| &&
            (forall i :: 0 <= i < MAX_REQUESTS ==> admitted[i]) && !admitted[MAX_REQUESTS]
  {
    ReplayWithinWindow(0, times[0], times);
  }

  // ---- the interceptor ----------------------------------------------------------------------

  /** The end of `preHandle`: the request goes on, it is refused (429), or the address lookup
      threw. */
  datatype PreHandleOutcome = Admitted | Rejected(status: int, code: string, message: string) | Threw

  class RateLimitingInterceptor {
    /** One counter per key; requests are taken one at a time. */
    var rateLimitMap: map<string, RateLimitInfo>

    /** No counter ever holds more than MAX_REQUESTS. */
    ghost predicate Valid()
      reads this
    {
      forall k :: k in rateLimitMap ==> rateLimitMap[k].requestCount <= MAX_REQUESTS
    }

    constructor()
      ensures Valid() && rateLimitMap == map[]
    {
      rateLimitMap := map[];
    }

    /** `preHandle(request, response, handler)`: only the counter of the request's key changes,
        and it changes as `Admission` says; the request is admitted exactly when `Admission`
        admits it, and refused with 429 and RATE_LIMIT_EXCEEDED otherwise. A failed address
        lookup changes nothing. */
    method PreHandle(request: Http.Request, now: int) returns (outcome: PreHandleOutcome)
      requires Valid()
      modifies this
      ensures Valid()
      ensures GetClientIpAddress(request).None? ==> outcome == Threw && rateLimitMap == old(rateLimitMap)
      ensures GetClientIpAddress(request).Some? ==>
                var key := RateLimitKey(GetClientIpAddress(request).value, request.requestUri);
                var d := Admission(EntryFor(old(rateLimitMap), key, now), now);
                rateLimitMap == old(rateLimitMap)[key := d.info] &&
                outcome == if d.admitted then Admitted else Rejected(SC_TOO_MANY_REQUESTS, RATE_LIMIT_EXCEEDED, RATE_LIMIT_MESSAGE)
    {
      var clientIp := GetClientIpAddress(request);
      if clientIp.None? {
        return Threw;
      }
      var key := RateLimitKey(clientIp.value, request.requestUri);
      if key !in rateLimitMap {
        rateLimitMap := rateLimitMap[key := RateLimitInfo(0, now)];
      }
      var info := rateLimitMap[key];
      if now - info.firstRequestTime > TIME_WINDOW {
        info := info.Reset(now);
        rateLimitMap := rateLimitMap[key := info];
      }
      if info.requestCount >= MAX_REQUESTS {
        return Rejected(SC_TOO_MANY_REQUESTS, RATE_LIMIT_EXCEEDED, RATE_LIMIT_MESSAGE);
      }
      info := info.(requestCount := info.requestCount + 1);
      rateLimitMap := rateLimitMap[key := info];
      return Admitted;
    }
  }
}
