/** The network racer `fetchWithProxies` (contentUtils.tsx): which strategies are tried,
    which responses qualify, and how the race between them is decided. The asynchronous
    part is abstracted: each request's outcome and the time it settles are inputs. */
module Network {
  import opened Text

  /** One participant of a race: it either fulfils with a value at a time, or rejects. */
  datatype Settled<T> = Fulfilled(at: nat, value: T) | Rejected

  /** `Promise.any`, with time made explicit: the index of the earliest-fulfilling
      participant; participants fulfilling at the same time are ordered by position. */
  function Earliest<T>(entries: seq<Settled<T>>): (r: Option<nat>)
    ensures r.None? <==> forall j :: 0 <= j < |entries| ==> entries[j].Rejected?
    ensures r.Some? ==> r.value < |entries| && entries[r.value].Fulfilled?
    ensures r.Some? ==> forall j :: 0 <= j < |entries| && entries[j].Fulfilled? ==>
                          entries[r.value].at <= entries[j].at
    ensures r.Some? ==> forall j :: 0 <= j < r.value && entries[j].Fulfilled? ==>
                          entries[r.value].at < entries[j].at
    decreases |entries|
  {
    if entries == [] then None
    else
      var n := |entries| - 1;
      var before := Earliest(entries[..n]);
      assert forall j :: 0 <= j < n ==> entries[..n][j] == entries[j];
      var last := entries[n];
      if last.Fulfilled? && (before.None? || last.at < entries[before.value].at) then Some(n)
      else before
  }

  /** An entry that fulfils strictly before every other fulfilled entry wins, whatever its
      position in the list. */
  lemma {:induction false} EarliestIsUnique<T>(entries: seq<Settled<T>>, i: nat)
    requires i < |entries| && entries[i].Fulfilled?
    requires forall j :: 0 <= j < |entries| && j != i && entries[j].Fulfilled? ==>
               entries[i].at < entries[j].at
    ensures Earliest(entries) == Some(i)
  {
  }

  datatype Relay = Direct | CorsProxy | AllOrigins | ThingProxy

  /** One way of fetching the resource: through which relay, at which address, and the
      `AbortSignal.timeout` it carries (none for the credentialed path). */
  datatype Strategy = Strategy(relay: Relay, target: string, timeoutMs: Option<nat>)

  datatype Response = Response(ok: bool, status: int, body: string)

  /** What the network did with one request, and when it settled. */
  datatype Outcome = NetworkError | Responded(response: Response)
  datatype Attempt = Attempt(finishMs: nat, outcome: Outcome)

  datatype FetchError = RequestFailed | Exhausted(message: string)
  datatype FetchResult = Fetched(response: Response, via: Relay) | FetchFailed(error: FetchError)

  predicate IsUnreserved(c: char) {
    ('a' <= c <= 'z') || ('A' <= c <= 'Z') || ('0' <= c <= '9')
    || c == '-' || c == '_' || c == '.' || c == '!' || c == '~' || c == '*'
    || c == '\'' || c == '(' || c == ')'
  }

  predicate IsUpperHex(c: char) {
    ('0' <= c <= '9') || ('A' <= c <= 'F')
  }

  function HexDigit(d: nat): (c: char)
    requires d < 16
    ensures IsUpperHex(c)
  {
    if d < 10 then '0' + (d as char) else 'A' + ((d - 10) as char)
  }

  function PercentByte(b: nat): (r: string)
    requires b < 256
    ensures |r| == 3 && r[0] == '%' && IsUpperHex(r[1]) && IsUpperHex(r[2])
  {
    ['%', HexDigit(b / 16), HexDigit(b % 16)]
  }

  /** The UTF-8 encoding of one code point. */
  function Utf8Bytes(c: char): (bs: seq<nat>)
    ensures 1 <= |bs| <= 4
    ensures forall k :: 0 <= k < |bs| ==> bs[k] < 256
    ensures (c as int) < 0x80 ==> bs == [c as int]
  {
    var n := c as int;
    var low := n % 64;
    var mid := (n / 64) % 64;
    if n < 0x80 then [n]
    else if n < 0x800 then
      assert n / 64 < 32;
      [0xC0 + n / 64, 0x80 + low]
    else if n < 0x10000 then
      assert n / 4096 < 16;
      [0xE0 + n / 4096, 0x80 + mid, 0x80 + low]
    else
      assert n / 262144 < 8;
      [0xF0 + n / 262144, 0x80 + (n / 4096) % 64, 0x80 + mid, 0x80 + low]
  }

  /** Bytes written as `%XX` each. */
  function PercentBytes(bs: seq<nat>): (r: string)
    requires forall k :: 0 <= k < |bs| ==> bs[k] < 256
    ensures |r| == 3 * |bs|
    ensures forall k :: 0 <= k < |r| ==> r[k] == '%' || IsUpperHex(r[k])
    decreases |bs|
  {
    if bs == [] then [] else PercentByte(bs[0]) + PercentBytes(bs[1..])
  }

  function PercentUtf8(c: char): (r: string)
    ensures |r| >= 3
    ensures forall k :: 0 <= k < |r| ==> r[k] == '%' || IsUpperHex(r[k])
  {
    PercentBytes(Utf8Bytes(c))
  }

  /** `encodeURIComponent`: unreserved characters stay, every other one is percent-encoded. */
  function EncodeURIComponent(s: string): (r: string)
    ensures |r| >= |s|
    ensures forall k :: 0 <= k < |r| ==> IsUnreserved(r[k]) || r[k] == '%'
    ensures (forall k :: 0 <= k < |s| ==> IsUnreserved(s[k])) ==> r == s
    decreases |s|
  {
    if s == [] then []
    else
      var head := if IsUnreserved(s[0]) then [s[0]] else PercentUtf8(s[0]);
      head + EncodeURIComponent(s[1..])
  }

  /** The encoded address cannot leave the proxy's query parameter: it holds none of the
      characters that delimit a URL's parts. */
  lemma {:induction false} EncodedHasNoDelimiters(s: string)
    ensures forall k :: 0 <= k < |EncodeURIComponent(s)| ==>
              EncodeURIComponent(s)[k] !in "/?#&= :"
  {
  }

  /** The credential headers that make a request unsafe to race through public relays. */
  predicate HasAuth(headers: map<string, string>) {
    ("X-API-KEY" in headers && headers["X-API-KEY"] != "")
    || ("Authorization" in headers && headers["Authorization"] != "")
  }

  const CorsProxyPrefix: string := "https://corsproxy.io/?"
  const AllOriginsPrefix: string := "https://api.allorigins.win/raw?url="
  const ThingProxyPrefix: string := "https://thingproxy.freeboard.io/fetch/"

  /** The two requests of the credentialed path, tried one after the other: the address
      itself, then corsproxy with the address encoded. */
  function AuthStrategies(url: string): (r: seq<Strategy>)
    ensures |r| == 2 && r[0].relay == Direct && r[1].relay == CorsProxy
    ensures r[0].target == url && r[1].target == CorsProxyPrefix + EncodeURIComponent(url)
    ensures forall k :: 0 <= k < 2 ==> r[k].timeoutMs.None?
  {
    [ Strategy(Direct, url, None),
      Strategy(CorsProxy, CorsProxyPrefix + EncodeURIComponent(url), None) ]
  }

  /** The four raced strategies of the anonymous path, with their targets and timeouts;
      thingproxy receives the address unencoded. */
  function RaceStrategies(url: string): (r: seq<Strategy>)
    ensures |r| == 4
    ensures [r[0].relay, r[1].relay, r[2].relay, r[3].relay] == [Direct, CorsProxy, AllOrigins, ThingProxy]
    ensures [r[0].target, r[1].target, r[2].target, r[3].target]
            == [url, CorsProxyPrefix + EncodeURIComponent(url), AllOriginsPrefix + EncodeURIComponent(url),
                ThingProxyPrefix + url]
    ensures [r[0].timeoutMs, r[1].timeoutMs, r[2].timeoutMs, r[3].timeoutMs]
            == [Some(4000), Some(8000), Some(8000), Some(10000)]
  {
    var encoded := EncodeURIComponent(url);
    [ Strategy(Direct, url, Some(4000)),
      Strategy(CorsProxy, CorsProxyPrefix + encoded, Some(8000)),
      Strategy(AllOrigins, AllOriginsPrefix + encoded, Some(8000)),
      Strategy(ThingProxy, ThingProxyPrefix + url, Some(10000)) ]
  }

  /** A response wins a race unless it is a failed response with a server-error status. */
  predicate Qualifies(r: Response) {
    !(!r.ok && r.status >= 500)
  }

  /** How one raced strategy settles: fulfilled with a qualifying response that arrived
      before its timeout, rejected otherwise. */
  function Settle(s: Strategy, a: Attempt): (r: Settled<Response>)
    ensures r.Fulfilled? <==> (a.outcome.Responded? && Qualifies(a.outcome.response)
                               && (s.timeoutMs.None? || a.finishMs <= s.timeoutMs.value))
    ensures r.Fulfilled? ==> r.at == a.finishMs && r.value == a.outcome.response
  {
    if a.outcome.Responded? && Qualifies(a.outcome.response)
       && (s.timeoutMs.None? || a.finishMs <= s.timeoutMs.value)
    then Fulfilled(a.finishMs, a.outcome.response)
    else Rejected
  }

  /** Every strategy of the race, settled against what the network does. */
  function SettleAll(plan: seq<Strategy>, net: Strategy -> Attempt): (r: seq<Settled<Response>>)
    ensures |r| == |plan|
    ensures forall k :: 0 <= k < |plan| ==> r[k] == Settle(plan[k], net(plan[k]))
  {
    seq(|plan|, k requires 0 <= k < |plan| => Settle(plan[k], net(plan[k])))
  }

  function ExhaustedMessage(url: string): string {
    "All SOTA network strategies exhausted for " + url
  }

  /** `fetchWithProxies`: `net` tells, for every request the code may issue, what the
      network does with it. */
  function FetchWithProxies(url: string, headers: map<string, string>, net: Strategy -> Attempt): FetchResult
  {
    if HasAuth(headers) then
      var plan := AuthStrategies(url);
      var first := net(plan[0]);
      if first.outcome.Responded? then Fetched(first.outcome.response, Direct)
      else
        var second := net(plan[1]);
        if second.outcome.Responded? then Fetched(second.outcome.response, CorsProxy)
        else FetchFailed(RequestFailed)
    else
      var plan := RaceStrategies(url);
      var settled := SettleAll(plan, net);
      match Earliest(settled)
      case Some(k) => Fetched(settled[k].value, plan[k].relay)
      case None => FetchFailed(Exhausted(ExhaustedMessage(url)))
  }

  /** With credentials only the address itself and corsproxy are ever asked: the direct
      answer, whatever its status, is returned when there is one; otherwise corsproxy's
      answer, whatever its status; the call fails exactly when both requests fail outright. */
  lemma {:induction false} AuthUsesTrustedPathOnly(url: string, headers: map<string, string>, net: Strategy -> Attempt)
    requires HasAuth(headers)
    ensures var r := FetchWithProxies(url, headers, net);
            var direct := net(Strategy(Direct, url, None)).outcome;
            var proxied := net(Strategy(CorsProxy, CorsProxyPrefix + EncodeURIComponent(url), None)).outcome;
            && (r.Fetched? ==> r.via == Direct || r.via == CorsProxy)
            && (direct.Responded? ==> r == Fetched(direct.response, Direct))
            && (!direct.Responded? && proxied.Responded? ==> r == Fetched(proxied.response, CorsProxy))
            && (r.FetchFailed? <==> !direct.Responded? && !proxied.Responded?)
            && (r.FetchFailed? ==> r.error == RequestFailed)
  {
  }

  /** Strategy `k` of `plan` won the race and produced `r`: it fulfilled in time with
      `r`'s response, no later than any other fulfilled strategy. */
  ghost predicate WinnerAt(plan: seq<Strategy>, net: Strategy -> Attempt, k: int, r: FetchResult)
    requires r.Fetched?
  {
    && 0 <= k < |plan| && plan[k].relay == r.via
    && Settle(plan[k], net(plan[k])) == Fulfilled(net(plan[k]).finishMs, r.response)
    && forall j :: 0 <= j < |plan| && Settle(plan[j], net(plan[j])).Fulfilled? ==>
         net(plan[k]).finishMs <= net(plan[j]).finishMs
  }

  /** Without credentials the four strategies race: the result is the earliest qualifying
      in-time response, and the call fails with the exhaustion message exactly when none
      qualifies in time. */
  lemma {:induction false} AnonymousRace(url: string, headers: map<string, string>, net: Strategy -> Attempt)
    requires !HasAuth(headers)
    ensures var r := FetchWithProxies(url, headers, net);
            var plan := RaceStrategies(url);
            && (r.FetchFailed? <==> forall k :: 0 <= k < 4 ==> Settle(plan[k], net(plan[k])).Rejected?)
            && (r.FetchFailed? ==> r.error == Exhausted(ExhaustedMessage(url)))
            && (r.Fetched? ==> Qualifies(r.response))
            && (r.Fetched? ==> exists k :: WinnerAt(plan, net, k, r))
  {
    var plan := RaceStrategies(url);
    var e := Earliest(SettleAll(plan, net));
    if e.Some? {
      assert WinnerAt(plan, net, e.value, FetchWithProxies(url, headers, net));
    }
  }

  /** When the anonymous race delivers its answer: the finishing time of the strategy that
      won (0 when none did). */
  function RaceFinishMs(url: string, net: Strategy -> Attempt): nat {
    var plan := RaceStrategies(url);
    match Earliest(SettleAll(plan, net))
    case Some(k) => net(plan[k]).finishMs
    case None => 0
  }

  /** A race that delivers a response delivers it at the finishing time of its winner. */
  lemma {:induction false} RaceFinishIsWinner(url: string, net: Strategy -> Attempt)
    ensures FetchWithProxies(url, map[], net).Fetched? ==>
              exists k :: WinnerAt(RaceStrategies(url), net, k, FetchWithProxies(url, map[], net))
                          && RaceFinishMs(url, net) == net(RaceStrategies(url)[k]).finishMs
  {
    var plan := RaceStrategies(url);
    match Earliest(SettleAll(plan, net))
    case Some(k) =>
      assert WinnerAt(plan, net, k, FetchWithProxies(url, map[], net));
    case None =>
  }

  /** A client error (4xx) is a qualifying answer: it wins the race like a success would. */
  lemma {:induction false} ClientErrorsQualify(status: int, body: string)
    requires 400 <= status < 500
    ensures Qualifies(Response(false, status, body))
    ensures !Qualifies(Response(false, status + 100, body))
  {
  }
}
