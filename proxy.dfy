/**
 * The hub's local handle on one worker (RemoteControlProxy.java): identity by
 * host and port, the session-in-progress flag, the heartbeat check, the URLs it
 * talks to and how it routes a forwarded request.
 */
module Proxies {

  import opened Text
  import opened Faults
  import opened Http

  /** How many failed heartbeats are retried while a session is in progress. */
  const MaxFailedHeartbeats := 3

  /** The mode a command sets on the proxy before forwarding. Never set: `NotSet`. */
  datatype Mode = NotSet | WebDriver

  class RemoteControlProxy {
    const host: string
    const port: int
    const environment: string
    var sessionInProgress: bool
    var failedHeartbeatCount: int
    var mode: Mode
    var request: Option<Request>

    /** The constructor body once both null checks passed: the new proxy is idle. */
    constructor (host: string, port: int, environment: string)
      ensures this.host == host && this.port == port && this.environment == environment
      ensures !sessionInProgress && failedHeartbeatCount == 0
      ensures mode == NotSet && request == None
    {
      this.host := host;
      this.port := port;
      this.environment := environment;
      sessionInProgress := false;
      failedHeartbeatCount := 0;
      mode := NotSet;
      request := None;
    }

    /** `remoteControlURLFor(path)`: the worker's selenium-server address for `path`. */
    function URLFor(path: string): (url: string)
      ensures |url| > |path| && url[|url| - |path|..] == path
    {
      BaseURL() + "/selenium-server/" + path
    }

    /** `"http://" + host + ":" + port`, shared by every URL of this worker. */
    function BaseURL(): string {
      "http://" + host + ":" + IntText(port)
    }

    function PingURL(): string {
      URLFor("heartbeat")
    }

    function DriverURL(): string {
      URLFor("driver/")
    }

    /** `remoteWebDriverControlDriverURL(requestPath)`: the worker's address at the inbound path. */
    function WebDriverURL(requestPath: string): (url: string)
      ensures url == BaseURL() + requestPath
      ensures |url| >= |requestPath| && url[|url| - |requestPath|..] == requestPath
    {
      BaseURL() + requestPath
    }

    /**
     * The HTTP call `forward(request)` makes: a WebDriver request (URI under /wd/hub)
     * is relayed to the same path with its own verb, where any verb other than POST,
     * DELETE and PUT goes as a GET; anything else is a legacy form POST to driver/.
     */
    function Route(req: Request): (call: WireCall)
      ensures IsWebDriverRequest(req) <==> !call.LegacyPost?
      ensures call.LegacyPost? ==> call.url == DriverURL() && call.parameters == req.parameters
      ensures !call.LegacyPost? ==> call.url == WebDriverURL(req.uri.value) && call.request == req
      ensures call.WebDriverPost? <==> IsWebDriverRequest(req) && req.verb == "POST"
      ensures call.WebDriverDelete? <==> IsWebDriverRequest(req) && req.verb == "DELETE"
      ensures call.WebDriverPut? <==> IsWebDriverRequest(req) && req.verb == "PUT"
      ensures call.WebDriverGet? <==>
                IsWebDriverRequest(req) && req.verb != "POST" && req.verb != "DELETE" && req.verb != "PUT"
    {
      if IsWebDriverRequest(req) then
        var url := WebDriverURL(req.uri.value);
        if req.verb == "POST" then WebDriverPost(url, req)
        else if req.verb == "DELETE" then WebDriverDelete(url, req)
        else if req.verb == "PUT" then WebDriverPut(url, req)
        else WebDriverGet(url, req)
      else
        LegacyPost(DriverURL(), req.parameters)
    }

    /** `forward(request)`: the worker's reply to the routed call, or the IOException. */
    function Forward(req: Request, transport: Transport): Reply {
      transport(Route(req))
    }

    predicate CanHandleNewSession()
      reads this
    {
      !sessionInProgress
    }

    /** `toString()`, which the state errors quote. */
    function Description(): string
      reads this
    {
      "[RemoteControlProxy " + host + ":" + IntText(port) + "#" + (if sessionInProgress then "true" else "false") + "]"
    }

    /** `hashCode()`: the Java string hash of host followed by the port's digits. */
    function HashCode(): (h: int)
      ensures -0x8000_0000 <= h < 0x8000_0000
    {
      JavaStringHash(host + IntText(port))
    }

    /** idle -> in session; a second reservation is a loud failure that changes nothing. */
    method RegisterNewSession() returns (o: Outcome)
      modifies this`sessionInProgress
      ensures old(sessionInProgress) ==>
                o == Fail(IllegalState("Exceeded concurrent session max for " + old(Description()))) &&
                sessionInProgress
      ensures !old(sessionInProgress) ==> o == Pass && sessionInProgress
    {
      if sessionInProgress {
        return Fail(IllegalState("Exceeded concurrent session max for " + Description()));
      }
      sessionInProgress := true;
      return Pass;
    }

    /** in session -> idle; releasing an idle proxy is a loud failure that changes nothing. */
    method UnregisterSession() returns (o: Outcome)
      modifies this`sessionInProgress
      ensures !old(sessionInProgress) ==>
                o == Fail(IllegalState("Unregistering session on an idle remote control : " + old(Description()))) &&
                !sessionInProgress
      ensures old(sessionInProgress) ==> o == Pass && !sessionInProgress
    {
      if !sessionInProgress {
        return Fail(IllegalState("Unregistering session on an idle remote control : " + Description()));
      }
      sessionInProgress := false;
      return Pass;
    }

    /**
     * `unreliable()`: probe the ping URL; on a failure, retry while a session is in
     * progress and fewer than three retries were made. The counter is reset on every return.
     */
    method Unreliable(heartbeat: Heartbeat) returns (r: bool)
      modifies this`failedHeartbeatCount
      ensures r == Unresponsive(heartbeat, PingURL(), sessionInProgress, old(failedHeartbeatCount))
      ensures failedHeartbeatCount == 0
      decreases MaxFailedHeartbeats - failedHeartbeatCount
    {
      var probe := heartbeat(PingURL(), failedHeartbeatCount);
      if !Healthy(probe) {
        if sessionInProgress && failedHeartbeatCount < MaxFailedHeartbeats {
          failedHeartbeatCount := failedHeartbeatCount + 1;
          r := Unreliable(heartbeat);
          return;
        } else {
          failedHeartbeatCount := 0;
          return true;
        }
      }
      failedHeartbeatCount := 0;
      return false;
    }

    method SetRequest(req: Request)
      modifies this`request
      ensures request == Some(req)
    {
      request := Some(req);
    }

    method SetMode(m: Mode)
      modifies this`mode
      ensures mode == m
    {
      mode := m;
    }
  }

  /**
   * `new RemoteControlProxy(host, port, environment, client)`: a null host or
   * environment is rejected; otherwise the proxy is new and idle.
   */
  method NewRemoteControlProxy(host: Option<string>, port: int, environment: Option<string>)
    returns (r: Result<RemoteControlProxy>)
    ensures host.None? ==> r == Err(IllegalArgument("host cannot be null"))
    ensures host.Some? && environment.None? ==> r == Err(IllegalArgument("environment cannot be null"))
    ensures host.Some? && environment.Some? ==>
              r.Ok? && fresh(r.value) &&
              r.value.host == host.value && r.value.port == port && r.value.environment == environment.value &&
              !r.value.sessionInProgress && r.value.failedHeartbeatCount == 0
  {
    if host.None? {
      return Err(IllegalArgument("host cannot be null"));
    }
    if environment.None? {
      return Err(IllegalArgument("environment cannot be null"));
    }
    var p := new RemoteControlProxy(host.value, port, environment.value);
    return Ok(p);
  }

  /** `equals`: two proxies are the same worker when host and port agree; nothing else counts. */
  predicate SameRemoteControl(a: RemoteControlProxy, b: RemoteControlProxy) {
    a.host == b.host && a.port == b.port
  }

  /** A WebDriver request is one whose URI is non-null and starts with /wd/hub. */
  predicate IsWebDriverRequest(req: Request) {
    req.uri.Some? && StartsWith(req.uri.value, "/wd/hub")
  }

  /**
   * The verdict of `unreliable()` when the counter stands at `attempt`: false as soon
   * as a probe answers 200; a failed probe is retried only in session and below the bound.
   */
  function Unresponsive(heartbeat: Heartbeat, pingURL: string, inSession: bool, attempt: int): bool
    decreases MaxFailedHeartbeats - attempt
  {
    if Healthy(heartbeat(pingURL, attempt)) then false
    else if inSession && attempt < MaxFailedHeartbeats then Unresponsive(heartbeat, pingURL, inSession, attempt + 1)
    else true
  }

  /** One past the last counter value probed from `attempt` on. */
  function ProbeWindowEnd(inSession: bool, attempt: int): int {
    if inSession && attempt < MaxFailedHeartbeats then MaxFailedHeartbeats + 1 else attempt + 1
  }

  /**
   * The verdict is "unreliable" exactly when every probe in the window fails: one
   * probe for an idle proxy, the probes at counter values attempt..3 for one in session.
   */
  lemma {:induction false} UnresponsiveIff(heartbeat: Heartbeat, pingURL: string, inSession: bool, attempt: int)
    ensures Unresponsive(heartbeat, pingURL, inSession, attempt) <==>
              forall k :: attempt <= k < ProbeWindowEnd(inSession, attempt) ==> !Healthy(heartbeat(pingURL, k))
    decreases MaxFailedHeartbeats - attempt
  {
    if !Healthy(heartbeat(pingURL, attempt)) && inSession && attempt < MaxFailedHeartbeats {
      UnresponsiveIff(heartbeat, pingURL, inSession, attempt + 1);
      assert ProbeWindowEnd(inSession, attempt + 1) == ProbeWindowEnd(inSession, attempt);
    }
  }

  /**
   * From a reset counter: an idle proxy is unreliable iff its single probe fails, and
   * one in session iff all four probes (the first and three retries) fail.
   */
  lemma HeartbeatVerdict(heartbeat: Heartbeat, pingURL: string, inSession: bool)
    ensures !inSession ==>
              (Unresponsive(heartbeat, pingURL, inSession, 0) <==> !Healthy(heartbeat(pingURL, 0)))
    ensures inSession ==>
              (Unresponsive(heartbeat, pingURL, inSession, 0) <==>
                 forall k :: 0 <= k < 4 ==> !Healthy(heartbeat(pingURL, k)))
  {
    UnresponsiveIff(heartbeat, pingURL, inSession, 0);
  }

  /** Java's `String.hashCode`: s[0]*31^(n-1) + ... + s[n-1], wrapping at 32 bits. */
  function JavaStringHash(s: string): (h: int)
    ensures -0x8000_0000 <= h < 0x8000_0000
  {
    var u := UnsignedHash(s);
    if u < 0x8000_0000 then u else u - 0x1_0000_0000
  }

  function UnsignedHash(s: string): (h: nat)
    ensures h < 0x1_0000_0000
    decreases |s|
  {
    if s == [] then 0 else (UnsignedHash(s[..|s| - 1]) * 31 + (s[|s| - 1] as int)) % 0x1_0000_0000
  }

  /** Equal proxies hash alike, whatever their session state. */
  lemma SameRemoteControlSameHash(a: RemoteControlProxy, b: RemoteControlProxy)
    requires SameRemoteControl(a, b)
    ensures a.HashCode() == b.HashCode()
  {
  }

  /** A host followed by ":" and colon-free text splits back at the last colon. */
  lemma SplitAtLastColon(h1: string, d1: string, h2: string, d2: string)
    requires ':' !in d1 && ':' !in d2
    requires h1 + ":" + d1 == h2 + ":" + d2
    ensures h1 == h2 && d1 == d2
  {
    var s := h1 + ":" + d1;
    assert s[|h1|] == ':' && s[|h2|] == ':';
    assert forall i :: |h1| < i < |s| ==> s[i] == d1[i - |h1| - 1];
    assert forall i :: |h2| < i < |s| ==> s[i] == d2[i - |h2| - 1];
    assert |h1| == |h2|;
    assert h1 == s[..|h1|];
    assert h2 == s[..|h2|];
    assert d1 == s[|h1| + 1..];
  }

  /** Equal texts with a common prefix and suffix agree in the middle. */
  lemma StripAffixes(prefix: string, x: string, y: string, suffix: string)
    requires prefix + x + suffix == prefix + y + suffix
    ensures x == y
  {
    var s := prefix + x + suffix;
    assert x == s[|prefix|..|s| - |suffix|];
    assert y == (prefix + y + suffix)[|prefix|..|s| - |suffix|];
  }

  /**
   * A worker's selenium-server URL identifies it: two proxies share the URL for a
   * path exactly when they are equal by host and port. In particular the ping URL,
   * by which the heartbeat oracle is keyed, names one worker.
   */
  lemma URLIdentifiesWorker(a: RemoteControlProxy, b: RemoteControlProxy, path: string)
    ensures a.URLFor(path) == b.URLFor(path) <==> SameRemoteControl(a, b)
  {
    if a.URLFor(path) == b.URLFor(path) {
      var ta, tb := IntText(a.port), IntText(b.port);
      var x, y := a.host + ":" + ta, b.host + ":" + tb;
      URLLayout(a, path);
      URLLayout(b, path);
      StripAffixes("http://", x, y, "/selenium-server/" + path);
      SplitAtLastColon(a.host, ta, b.host, tb);
      IntTextInjective(a.port, b.port);
    }
  }

  lemma URLLayout(p: RemoteControlProxy, path: string)
    ensures p.URLFor(path) == "http://" + (p.host + ":" + IntText(p.port)) + ("/selenium-server/" + path)
  {
    var t := IntText(p.port);
    assert "http://" + p.host + ":" + t == "http://" + (p.host + ":" + t);
  }
}
