# Selenium Grid hub: worker pool and request dispatch

This project models the core of the Selenium Grid hub. The hub is a server that parses
inbound Selenium RC and WebDriver requests and hands each test session to a free
worker (a "remote control").

The model covers:

- **Per-environment provisioner.** An ordered list of worker proxies,
  with reservation of the first free, healthy worker; workers that fail their heartbeat
  are evicted on the way. It also covers release, add with replacement of a stale proxy,
  removal, and filtered snapshots of the list.
- **Global pool.** One provisioner per environment name and one session per session id.
  It covers register and unregister, reserve, session association, retrieve,
  release-for-session, recycling of idle sessions, and the sweep that evicts
  unresponsive workers.
- **Worker proxy.** Identity by host and port, the reserve/release state machine,
  the heartbeat retry counter, URL construction, and the routing of a forwarded request.
- **Session.** Its last-activity timestamp and the inclusive idle test.
- **Two command parsers.** The legacy one keys on the `cmd` parameter. The WebDriver
  one keys on the request URI and verb, and takes the session id from the URI.
- **Command executors.** New session, a command within a session, and the end of a
  session, for both protocol families.
- **Small pieces.** The response error envelope, the validation of registration
  parameters, and the environment directory.

Classes model the Java objects whose fields change: `RemoteControlProxy`,
`RemoteControlSession`, `RemoteControlProvisioner`, `GlobalRemoteControlPool`,
`EnvironmentManager` and `HttpCommandParser`. Values such as responses, requests and
parsed commands are datatypes.

A Java exception is a `Fault`, carried out of an operation in a `Result` or an
`Outcome`. A Java `null` is `Option.None`.

The environment enters only as parameters:

- **Network.** `Transport` maps each HTTP call the hub makes to a worker's reply or to
  an IOException. `Heartbeat` gives the outcome of each heartbeat probe, keyed by ping
  URL and by the value of the retry counter.
- **Clock.** The current time is passed as `now`. A command within a session takes the
  two readings `before` and `after` the forward.
- **JSON decoder.** org.json's parser is an oracle from text to an optional JSON value.
- **Parameter rendering.** `describe` stands for `HttpParameters.toString`.

A reservation that finds no free worker times out at once.

## Model

| member | source | states |
|---|---|---|
| Responses.ErrorResponse | infrastructure/core/src/main/com/thoughtworks/selenium/grid/Response.java:19-21 | the error envelope has status 200, no headers, and a body that starts with "ERROR: " followed by exactly the message |
| Responses.EmptyErrorResponse | infrastructure/core/src/main/com/thoughtworks/selenium/grid/Response.java:15-17 | `Response()` has status 200, body "ERROR: " and no headers |
| Responses.PlainResponse | infrastructure/core/src/main/com/thoughtworks/selenium/grid/Response.java:23-25 | `Response(status, body)` keeps the given status and body, with an empty header list |
| Responses.ErrorResponseRoundTrip | infrastructure/core/src/main/com/thoughtworks/selenium/grid/Response.java:19-21 | two error envelopes are equal exactly when their messages are, so the message can be read back from the body |
| Responses.GetHeader | infrastructure/core/src/main/com/thoughtworks/selenium/grid/Response.java:51-58 | returns the first header, in order, whose name is exactly the one asked for; returns null exactly when no header has that name |
| Environments.EnvironmentManager.AddEnvironment | hub/src/main/java/com/thoughtworks/selenium/grid/hub/EnvironmentManager.java:21-23 | looking up the added environment's name now finds it; an existing entry of that name is replaced; every other name finds what it found before |
| Environments.EnvironmentManager.EnvironmentNamed | hub/src/main/java/com/thoughtworks/selenium/grid/hub/EnvironmentManager.java:25-27 | found exactly when the name was added; a found environment carries the name it was looked up by |
| Environments.EnvironmentManager.Environments | hub/src/main/java/com/thoughtworks/selenium/grid/hub/EnvironmentManager.java:17-19 | the list holds exactly the stored environments, one entry per distinct name |
| Sessions.RemoteControlSession.constructor | hub/src/main/java/com/thoughtworks/selenium/grid/hub/remotecontrol/RemoteControlSession.java:13-17 | a new session keeps its id and worker and is stamped with the current time |
| Sessions.RemoteControlSession.UpdateLastActiveAt | hub/src/main/java/com/thoughtworks/selenium/grid/hub/remotecontrol/RemoteControlSession.java:31-41 | the timestamp becomes the current time and nothing else changes; id and worker are constants |
| Sessions.InnactiveSinceMonotone | hub/src/main/java/com/thoughtworks/selenium/grid/hub/remotecontrol/RemoteControlSession.java:35-37 | a session idle since `t` is idle since every later `t'` |
| Sessions.InnactiveBoundary | hub/src/main/java/com/thoughtworks/selenium/grid/hub/remotecontrol/RemoteControlSession.java:47-49 | idle for `ms` iff `now - lastActiveAt >= ms`: a session exactly `ms` old counts as idle, one a millisecond younger does not |
| Sessions.TouchedIsActive | hub/src/main/java/com/thoughtworks/selenium/grid/hub/remotecontrol/RemoteControlSession.java:31-49 | right after a stamp at a fixed clock, no positive idle limit is exceeded |
| Proxies.RemoteControlProxy.constructor | hub/src/main/java/com/thoughtworks/selenium/grid/hub/remotecontrol/RemoteControlProxy.java:42-47 | a new proxy keeps host, port and environment, is idle, and has a zero heartbeat counter |
| Proxies.NewRemoteControlProxy | hub/src/main/java/com/thoughtworks/selenium/grid/hub/remotecontrol/RemoteControlProxy.java:35-48 | a null host is rejected first, then a null environment, each with the source's IllegalArgumentException message; otherwise a fresh idle proxy with the given fields |
| Proxies.RemoteControlProxy.WebDriverURL | hub/src/main/java/com/thoughtworks/selenium/grid/hub/remotecontrol/RemoteControlProxy.java:74-76 | the worker's base URL followed by the request path, which the URL ends with |
| Proxies.RemoteControlProxy.BaseURL | hub/src/main/java/com/thoughtworks/selenium/grid/hub/remotecontrol/RemoteControlProxy.java:70-76 | `"http://" + host + ":" + port`, the prefix every URL of the worker shares |
| Proxies.RemoteControlProxy.URLFor | hub/src/main/java/com/thoughtworks/selenium/grid/hub/remotecontrol/RemoteControlProxy.java:70-72 | `remoteControlURLFor(path)`: the base URL, "/selenium-server/" and the path, which the URL ends with; by `URLIdentifiesWorker` it names exactly one worker |
| Proxies.RemoteControlProxy.PingURL | hub/src/main/java/com/thoughtworks/selenium/grid/hub/remotecontrol/RemoteControlProxy.java:62-64 | the selenium-server URL for "heartbeat", which the heartbeat oracle is asked about |
| Proxies.RemoteControlProxy.DriverURL | hub/src/main/java/com/thoughtworks/selenium/grid/hub/remotecontrol/RemoteControlProxy.java:66-68 | the selenium-server URL for "driver/", where legacy commands are posted |
| Proxies.URLIdentifiesWorker | hub/src/main/java/com/thoughtworks/selenium/grid/hub/remotecontrol/RemoteControlProxy.java:62-72 | two proxies have the same selenium-server URL for a path exactly when they are equal by host and port, so the ping URL names one worker |
| Proxies.RemoteControlProxy.Route | hub/src/main/java/com/thoughtworks/selenium/grid/hub/remotecontrol/RemoteControlProxy.java:78-101 | a WebDriver request (non-null URI starting with /wd/hub) goes to the WebDriver URL of its own path, as POST, DELETE or PUT when its verb is that, else as GET; every other request is a form POST of its parameters to the driver URL |
| Proxies.IsWebDriverRequest | hub/src/main/java/com/thoughtworks/selenium/grid/hub/remotecontrol/RemoteControlProxy.java:95-101 | a request is a WebDriver request iff its URI is non-null and starts with "/wd/hub"; `Route` sends exactly these to the WebDriver URL |
| Proxies.RemoteControlProxy.Forward | hub/src/main/java/com/thoughtworks/selenium/grid/hub/remotecontrol/RemoteControlProxy.java:78-93 | `forward(request)`: the transport's reply (or IOException) for the call `Route` chooses |
| Proxies.RemoteControlProxy.Description | hub/src/main/java/com/thoughtworks/selenium/grid/hub/remotecontrol/RemoteControlProxy.java:103-106 | `toString()`: "[RemoteControlProxy host:port#flag]", which the IllegalStateException messages quote |
| Proxies.SameRemoteControl | hub/src/main/java/com/thoughtworks/selenium/grid/hub/remotecontrol/RemoteControlProxy.java:108-119 | `equals`: same host and same port, nothing else; by `URLIdentifiesWorker` exactly when the URLs agree, and by `SameRemoteControlSameHash` consistent with `hashCode` |
| Proxies.RemoteControlProxy.CanHandleNewSession | hub/src/main/java/com/thoughtworks/selenium/grid/hub/remotecontrol/RemoteControlProxy.java:157-159 | a proxy can take a new session iff no session is in progress |
| Proxies.RemoteControlProxy.HashCode | hub/src/main/java/com/thoughtworks/selenium/grid/hub/remotecontrol/RemoteControlProxy.java:121-123 | the Java string hash of host followed by port, within the 32-bit range |
| Proxies.SameRemoteControlSameHash | hub/src/main/java/com/thoughtworks/selenium/grid/hub/remotecontrol/RemoteControlProxy.java:108-123 | proxies equal by host and port hash alike, whatever their session state |
| Proxies.RemoteControlProxy.RegisterNewSession | hub/src/main/java/com/thoughtworks/selenium/grid/hub/remotecontrol/RemoteControlProxy.java:129-134 | idle becomes in-session; a proxy already in session fails with the IllegalStateException message and stays in session |
| Proxies.RemoteControlProxy.UnregisterSession | hub/src/main/java/com/thoughtworks/selenium/grid/hub/remotecontrol/RemoteControlProxy.java:136-142 | in-session becomes idle; an idle proxy fails with the IllegalStateException message and stays idle |
| Proxies.RemoteControlProxy.Unreliable | hub/src/main/java/com/thoughtworks/selenium/grid/hub/remotecontrol/RemoteControlProxy.java:161-197 | the verdict is the heartbeat verdict from the counter's value on entry, and the counter is zero on every return |
| Proxies.Unresponsive | hub/src/main/java/com/thoughtworks/selenium/grid/hub/remotecontrol/RemoteControlProxy.java:161-197 | the verdict of `unreliable()` from a given counter value: false once a probe answers 200, a failure retried only in session below three retries; `UnresponsiveIff` characterises it |
| Proxies.UnresponsiveIff | hub/src/main/java/com/thoughtworks/selenium/grid/hub/remotecontrol/RemoteControlProxy.java:161-197 | unreliable exactly when every probe in its window fails: one probe when idle, the probes up to counter value 3 when in session |
| Proxies.HeartbeatVerdict | hub/src/main/java/com/thoughtworks/selenium/grid/hub/remotecontrol/RemoteControlProxy.java:161-197 | from a reset counter, an idle proxy is unreliable iff its one probe fails, and one in session iff all four probes (the first try and three retries) fail |
| Proxies.RemoteControlProxy.SetRequest | hub/src/main/java/com/thoughtworks/selenium/grid/hub/remotecontrol/RemoteControlProxy.java:199-201 | the proxy remembers the request |
| Proxies.RemoteControlProxy.SetMode | hub/src/main/java/com/thoughtworks/selenium/grid/hub/remotecontrol/RemoteControlProxy.java:203-205 | the proxy's mode becomes the given one |
| Provisioning.IndexOf | hub/src/main/java/com/thoughtworks/selenium/grid/hub/remotecontrol/RemoteControlProvisioner.java:103-108 | `indexOf`: the first position holding a proxy equal to `p`, or -1 exactly when none does |
| Provisioning.FirstFreeIndex | hub/src/main/java/com/thoughtworks/selenium/grid/hub/remotecontrol/RemoteControlProvisioner.java:178-185 | the first free position in list order; none exactly when no proxy is free |
| Provisioning.ReservePlan | hub/src/main/java/com/thoughtworks/selenium/grid/hub/remotecontrol/RemoteControlProvisioner.java:36-68 | reservation's outcome: the list left behind is no longer than before and holds only original proxies; a reserved proxy is still in the list and was free |
| Provisioning.ReservePlanClosedForm | hub/src/main/java/com/thoughtworks/selenium/grid/hub/remotecontrol/RemoteControlProvisioner.java:36-68 | there is a cut-off `k`: every free proxy before `k` failed its health check and was evicted; the reserved proxy is the one at `k`, free and healthy, or none when `k` is the end; the list keeps the busy proxies before `k` and everything from `k` on, in order |
| Provisioning.EvictStep | hub/src/main/java/com/thoughtworks/selenium/grid/hub/remotecontrol/RemoteControlProvisioner.java:50-61 | when the first free proxy fails its health check, reserving from the list is reserving from the list without it |
| Provisioning.ReserveHealthy | hub/src/main/java/com/thoughtworks/selenium/grid/hub/remotecontrol/RemoteControlProvisioner.java:44-64 | a first free proxy that passes its check is the one reserved, and the list is unchanged |
| Provisioning.ReserveNoneFree | hub/src/main/java/com/thoughtworks/selenium/grid/hub/remotecontrol/RemoteControlProvisioner.java:40-48 | when no proxy is free (including the empty list), nothing is reserved and nothing is evicted |
| Provisioning.SnapshotsPartition | hub/src/main/java/com/thoughtworks/selenium/grid/hub/remotecontrol/RemoteControlProvisioner.java:125-152 | the available and reserved snapshots together hold the list's proxies, each as often as the list does |
| Provisioning.FreeOfMembers | hub/src/main/java/com/thoughtworks/selenium/grid/hub/remotecontrol/RemoteControlProvisioner.java:125-135 | a proxy is in the available snapshot iff it is in the list and free |
| Provisioning.BusyOfMembers | hub/src/main/java/com/thoughtworks/selenium/grid/hub/remotecontrol/RemoteControlProvisioner.java:142-152 | a proxy is in the reserved snapshot iff it is in the list and in session |
| Provisioning.AddLeavesOneEqual | hub/src/main/java/com/thoughtworks/selenium/grid/hub/remotecontrol/RemoteControlProvisioner.java:82-94 | after `add(p)` the list still names distinct workers, `p` is last, no other element equals `p`, every other worker is still there, and the list grew by one exactly when no equal proxy was present |
| Provisioning.RemoveFirstEqualDropsOnly | hub/src/main/java/com/thoughtworks/selenium/grid/hub/remotecontrol/RemoteControlProvisioner.java:110-118 | after `remove(p)` no element equals `p`, every other worker is still there, and the workers stay distinct |
| Provisioning.RemoteControlProvisioner.TearDownExistingRemoteControl | hub/src/main/java/com/thoughtworks/selenium/grid/hub/remotecontrol/RemoteControlProvisioner.java:103-108 | the proxy equal to `p` is cut out at its index; with none, `get(-1)` fails with an index error and the list is unchanged |
| Provisioning.RemoteControlProvisioner.Add | hub/src/main/java/com/thoughtworks/selenium/grid/hub/remotecontrol/RemoteControlProvisioner.java:82-94 | the list becomes the old list without its proxy equal to `p`, with `p` appended; the list keeps naming distinct workers |
| Provisioning.RemoteControlProvisioner.Remove | hub/src/main/java/com/thoughtworks/selenium/grid/hub/remotecontrol/RemoteControlProvisioner.java:110-118 | true iff an equal proxy was present; exactly that one goes |
| Provisioning.RemoteControlProvisioner.Contains | hub/src/main/java/com/thoughtworks/selenium/grid/hub/remotecontrol/RemoteControlProvisioner.java:99-101 | `contains(p)`: true iff some proxy in the list is equal to `p` by host and port |
| Provisioning.RemoteControlProvisioner.Release | hub/src/main/java/com/thoughtworks/selenium/grid/hub/remotecontrol/RemoteControlProvisioner.java:70-80 | the proxy's session flag is cleared; releasing an idle proxy fails with the IllegalStateException message; the list is untouched |
| Provisioning.RemoteControlProvisioner.FindNextAvailableRemoteControl | hub/src/main/java/com/thoughtworks/selenium/grid/hub/remotecontrol/RemoteControlProvisioner.java:178-185 | the proxy at the first free position, or null exactly when none is free |
| Provisioning.RemoteControlProvisioner.Reserve | hub/src/main/java/com/thoughtworks/selenium/grid/hub/remotecontrol/RemoteControlProvisioner.java:36-68 | the reserved proxy and the list left behind are the reservation outcome of the list and its standings on entry; the reserved proxy was idle and is now in session; no other proxy's session flag changes |
| Provisioning.RemoteControlProvisioner.SelectReliable | hub/src/main/java/com/thoughtworks/selenium/grid/hub/remotecontrol/RemoteControlProvisioner.java:44-61 | the loop of `reserve` yields the outcome's candidate and list, and leaves the other proxies' standings alone |
| Provisioning.RemoteControlProvisioner.CheckCandidate | hub/src/main/java/com/thoughtworks/selenium/grid/hub/remotecontrol/RemoteControlProvisioner.java:50-60 | one pass: the candidate's verdict; a healthy candidate leaves the list alone; an unhealthy one is cut out and the next wait finds the new first free proxy |
| Provisioning.RemoteControlProvisioner.NextCandidate | hub/src/main/java/com/thoughtworks/selenium/grid/hub/remotecontrol/RemoteControlProvisioner.java:40-48 | null on an empty list or when no proxy is free, else the first free proxy |
| Provisioning.RemoteControlProvisioner.AvailableRemoteControls | hub/src/main/java/com/thoughtworks/selenium/grid/hub/remotecontrol/RemoteControlProvisioner.java:125-135 | the order-preserving filter of the list by "free" |
| Provisioning.RemoteControlProvisioner.ReservedRemoteControls | hub/src/main/java/com/thoughtworks/selenium/grid/hub/remotecontrol/RemoteControlProvisioner.java:142-152 | the order-preserving filter of the list by "in session" |
| Provisioning.RemoteControlProvisioner.AllRemoteControls | hub/src/main/java/com/thoughtworks/selenium/grid/hub/remotecontrol/RemoteControlProvisioner.java:209-218 | a copy of the whole list, in order |
| Pool.GlobalRemoteControlPool.IsRegistered | hub/src/main/java/com/thoughtworks/selenium/grid/hub/remotecontrol/GlobalRemoteControlPool.java:139-146 | true iff some provisioner holds a proxy equal to `p` |
| Pool.GlobalRemoteControlPool.Register | hub/src/main/java/com/thoughtworks/selenium/grid/hub/remotecontrol/GlobalRemoteControlPool.java:27-32 | a provisioner is created for `p`'s environment only when absent; existing provisioners and the other environments' lists are kept; `p` is added with stale replacement; afterwards `p` is registered |
| Pool.GlobalRemoteControlPool.ProvideProvisioner | hub/src/main/java/com/thoughtworks/selenium/grid/hub/remotecontrol/GlobalRemoteControlPool.java:28 | `putIfAbsent`: the environment gets a fresh empty provisioner only if it had none; the others stay |
| Pool.GlobalRemoteControlPool.Reserve | hub/src/main/java/com/thoughtworks/selenium/grid/hub/remotecontrol/GlobalRemoteControlPool.java:57-65 | NoSuchEnvironmentException iff the environment has no provisioner; otherwise the provisioner's reservation outcome. A reserved worker belongs to that environment, was free and is now in session, with a zero failure count. Every other worker of the list keeps its session flag, and every worker still listed other than the reserved one keeps its failure count |
| Pool.GlobalRemoteControlPool.AssociateWithSession | hub/src/main/java/com/thoughtworks/selenium/grid/hub/remotecontrol/GlobalRemoteControlPool.java:67-84 | fails iff the id is already mapped, leaving the map unchanged; otherwise exactly the new id is added, mapped to a fresh session on the worker stamped now, and the other entries are kept |
| Pool.GlobalRemoteControlPool.Retrieve | hub/src/main/java/com/thoughtworks/selenium/grid/hub/remotecontrol/GlobalRemoteControlPool.java:86-88 | the worker of the mapped session; NoSuchSessionException exactly when the id is unmapped |
| Pool.GlobalRemoteControlPool.Release | hub/src/main/java/com/thoughtworks/selenium/grid/hub/remotecontrol/GlobalRemoteControlPool.java:90-92 | with no provisioner for the environment, a NullPointerException with nothing changed; otherwise the worker is idle afterwards, and the call fails iff it was already idle |
| Pool.GlobalRemoteControlPool.ReleaseForSession | hub/src/main/java/com/thoughtworks/selenium/grid/hub/remotecontrol/GlobalRemoteControlPool.java:94-105 | an unknown id fails before anything changes; otherwise the id is unmapped first. A worker that never stored a request fails with NullPointerException in `terminateSession`, and so does one whose environment has no provisioner; either way its flag is unchanged. Otherwise the worker is released, and an idle one fails with the `Release` message |
| Pool.GlobalRemoteControlPool.UpdateSessionLastActiveAt | hub/src/main/java/com/thoughtworks/selenium/grid/hub/remotecontrol/GlobalRemoteControlPool.java:189-191 | a mapped session is stamped now and is then not idle for any positive limit; an unmapped id is a NullPointerException |
| Pool.GlobalRemoteControlPool.RemoveFromSessionMap | hub/src/main/java/com/thoughtworks/selenium/grid/hub/remotecontrol/GlobalRemoteControlPool.java:159-168 | exactly the entries whose value is that session object go |
| Pool.GlobalRemoteControlPool.Unregister | hub/src/main/java/com/thoughtworks/selenium/grid/hub/remotecontrol/GlobalRemoteControlPool.java:34-55 | true iff an equal proxy was in its environment's list, which loses exactly that proxy; on true, exactly the sessions on workers equal to it go and the others are untouched; on false the session map is unchanged; with no provisioner, a NullPointerException |
| Pool.GlobalRemoteControlPool.PurgeSessionsOf | hub/src/main/java/com/thoughtworks/selenium/grid/hub/remotecontrol/GlobalRemoteControlPool.java:49-51 | the session map loses exactly the sessions of workers equal to `p`; the rest keep their entries |
| Pool.GlobalRemoteControlPool.CollectSessionsOf | hub/src/main/java/com/thoughtworks/selenium/grid/hub/remotecontrol/GlobalRemoteControlPool.java:39-46 | the set of sessions whose worker equals `p` |
| Pool.SessionsOfOthersExact | hub/src/main/java/com/thoughtworks/selenium/grid/hub/remotecontrol/GlobalRemoteControlPool.java:38-52 | purging keeps exactly the entries on other workers, unchanged, and purging twice is purging once |
| Pool.WithoutSessionsOfWorker | hub/src/main/java/com/thoughtworks/selenium/grid/hub/remotecontrol/GlobalRemoteControlPool.java:39-51 | removing the collected session objects one by one is the same as purging the worker's sessions |
| Pool.GlobalRemoteControlPool.IteratorSafeRemoteControlSessions | hub/src/main/java/com/thoughtworks/selenium/grid/hub/remotecontrol/GlobalRemoteControlPool.java:199-209 | the copy holds exactly the sessions in the map |
| Pool.GlobalRemoteControlPool.AllRegisteredRemoteControls | hub/src/main/java/com/thoughtworks/selenium/grid/hub/remotecontrol/GlobalRemoteControlPool.java:129-137 | every registered proxy object appears, exactly once, and nothing else |
| Pool.GlobalRemoteControlPool.RegistryIsEnrolled | hub/src/main/java/com/thoughtworks/selenium/grid/hub/remotecontrol/GlobalRemoteControlPool.java:129-137 | a proxy held by any provisioner is held by its own environment's provisioner |
| Pool.GlobalRemoteControlPool.UnregisterRemoteControlIfUnreliable | hub/src/main/java/com/thoughtworks/selenium/grid/hub/remotecontrol/GlobalRemoteControlPool.java:182-187 | a worker that fails its heartbeat check loses its list entry and its sessions; a healthy one changes nothing but its counter, which is zero either way |
| Pool.GlobalRemoteControlPool.UnregisterAllUnresponsiveRemoteControls | hub/src/main/java/com/thoughtworks/selenium/grid/hub/remotecontrol/GlobalRemoteControlPool.java:176-180 | the workers unregistered are exactly the registered ones whose check, from their state on entry, fails; each list keeps its survivors in order; the session map loses exactly the dead workers' sessions; every counter ends at zero |
| Pool.UnreliablesMember | hub/src/main/java/com/thoughtworks/selenium/grid/hub/remotecontrol/GlobalRemoteControlPool.java:176-187 | a worker is found dead iff it is in the snapshot and its check fails |
| Pool.KeptMember | hub/src/main/java/com/thoughtworks/selenium/grid/hub/remotecontrol/GlobalRemoteControlPool.java:176-187 | a list after the sweep keeps a proxy iff it was there and is not dead |
| Pool.GlobalRemoteControlPool.RecycleAllSessionsIdleForTooLong | hub/src/main/java/com/thoughtworks/selenium/grid/hub/remotecontrol/GlobalRemoteControlPool.java:193-197 | the sessions released are idle ones, and the others stay. When no release throws, exactly the snapshot sessions idle for the limit (inclusive) at the one clock reading `now` are released, and each of their workers is left idle. A worker that no released session ran on keeps its session flag whether or not a release throws |
| Pool.GlobalRemoteControlPool.RecycleSessionIfIdleForTooLong | hub/src/main/java/com/thoughtworks/selenium/grid/hub/remotecontrol/GlobalRemoteControlPool.java:211-219 | a session idle for the limit is released for its id, with the failure cases of `ReleaseForSession`, including the NullPointerException for a worker without a stored request; a younger one is left alone, its worker's flag included |
| Pool.IdleKeys | hub/src/main/java/com/thoughtworks/selenium/grid/hub/remotecontrol/GlobalRemoteControlPool.java:211-219 | the ids whose session was last active at least the limit ago |
| Commands.SessionIdOf | hub/src/main/java/com/thoughtworks/selenium/grid/hub/remotecontrol/commands/selenium/NewBrowserSessionCommand.java:25-28 | a new-session command carries no session id; every other command carries the id it was built with |
| Commands.Relay | hub/src/main/java/com/thoughtworks/selenium/grid/hub/remotecontrol/commands/selenium/SeleneseCommand.java:50-55 | the answer is the worker's reply as it came, or its IOException; the session is stamped after the forward, or only before it when the forward fails |
| Commands.Admit | hub/src/main/java/com/thoughtworks/selenium/grid/hub/remotecontrol/commands/selenium/NewBrowserSessionCommand.java:41-56 | a reply with a new id leaves the worker associated under it, in session and stamped now, and is returned as it came; otherwise the worker is released and the map unchanged, with the answer "Could not retrieve a new session" or the exception's message |
| Commands.AdmitResponse | hub/src/main/java/com/thoughtworks/selenium/grid/hub/remotecontrol/commands/selenium/NewBrowserSessionCommand.java:41-56 | the answer to a new-session command: the worker's reply when it carries an id not yet in use; else the error envelope of the IOException, of "Could not retrieve a new session", or of the duplicate-id message |
| Commands.ReleaseAfter | hub/src/main/java/com/thoughtworks/selenium/grid/hub/remotecontrol/commands/selenium/NewBrowserSessionCommand.java:52-56 | the worker is released and the answer is the error envelope of the exception's message |
| SeleniumCommands.ParseNewSessionId | hub/src/main/java/com/thoughtworks/selenium/grid/hub/remotecontrol/commands/selenium/NewBrowserSessionCommand.java:59-65 | an id is found iff the body is "OK," followed by comma-free text, and the body is then "OK," plus the id |
| SeleniumCommands.ParseNewSessionIdRoundTrip | hub/src/main/java/com/thoughtworks/selenium/grid/hub/remotecontrol/commands/selenium/NewBrowserSessionCommand.java:59-65 | the id after "OK," reads back as itself for every comma-free id, so "OK," gives "" rather than null |
| SeleniumCommands.ParseNewSessionIdRejects | hub/src/main/java/com/thoughtworks/selenium/grid/hub/remotecontrol/commands/selenium/NewBrowserSessionCommand.java:21 | null iff the body is not "OK," plus some comma-free text |
| SeleniumCommands.ExecuteNewBrowserSession | hub/src/main/java/com/thoughtworks/selenium/grid/hub/remotecontrol/commands/selenium/NewBrowserSessionCommand.java:30-57 | NoSuchEnvironmentException iff the environment is unknown; with no worker reserved, nothing is forwarded or filed and the answer is "No available remote control for environment '<name>'"; otherwise the reserved worker ends up associated under the id in its reply, or released |
| SeleniumCommands.ExecuteSelenese | hub/src/main/java/com/thoughtworks/selenium/grid/hub/remotecontrol/commands/selenium/SeleneseCommand.java:43-56 | without an id, the "No sessionId provided for command" envelope and no pool call; an unknown id is NoSuchSessionException; otherwise the relay of the worker's reply, stamped before and after |
| WebDriverCommands.ParseSessionId | hub/src/main/java/com/thoughtworks/selenium/grid/hub/remotecontrol/commands/webdriver/WebDriverCommand.java:66-74 | an id is found iff the text decodes to an object with a "sessionId" leaf, and it is that leaf's text |
| WebDriverCommands.ParseSessionIdReadsOnlyItsMember | hub/src/main/java/com/thoughtworks/selenium/grid/hub/remotecontrol/commands/webdriver/WebDriverCommand.java:66-74 | two object texts that agree on "sessionId" yield the same id |
| WebDriverCommands.ExecuteWebDriverCommand | hub/src/main/java/com/thoughtworks/selenium/grid/hub/remotecontrol/commands/webdriver/WebDriverCommand.java:49-64 | as the legacy relay, and the session's worker is in WebDriver mode and holds the request |
| WebDriverCommands.ExecuteNewBrowserSession | hub/src/main/java/com/thoughtworks/selenium/grid/hub/remotecontrol/commands/webdriver/NewBrowserSessionCommand.java:28-57 | as the legacy new session, with the reserved worker set to WebDriver mode and holding the request before the forward, and the id taken from the JSON reply |
| WebDriverCommands.OpenSessionOn | hub/src/main/java/com/thoughtworks/selenium/grid/hub/remotecontrol/commands/webdriver/NewBrowserSessionCommand.java:39-56 | the reserved worker is set up, the reply forwarded and admitted: associated and stamped, or released |
| WebDriverCommands.ExecuteTestComplete | hub/src/main/java/com/thoughtworks/selenium/grid/hub/remotecontrol/commands/webdriver/TestCompleteCommand.java:18-24 | the relay, then the release of the session in any case: a null id is NoSuchSessionException; a known id is unmapped, its worker set to WebDriver mode with the request and released; an exception from the release replaces the relay's answer, and a clean release lets it stand |
| WebDriverCommands.ReleaseFinally | hub/src/main/java/com/thoughtworks/selenium/grid/hub/remotecontrol/commands/webdriver/TestCompleteCommand.java:21-23 | `releaseForSession(sessionId())`: a null or unknown id is NoSuchSessionException; otherwise the id is unmapped. A worker without a stored request, or whose environment has no provisioner, is NullPointerException with its flag unchanged; otherwise the worker is released |
| LegacyParsing.EnvironmentFor | hub/src/main/java/com/thoughtworks/selenium/grid/hub/HttpCommandParser.java:36-37 | a missing name is a NullPointerException (the directory's map does not take a null key); otherwise found iff the name is known, and the environment carries that name |
| LegacyParsing.RetrieveSessionId | hub/src/main/java/com/thoughtworks/selenium/grid/hub/HttpCommandParser.java:54-60 | the "sessionId" parameter iff present, else the "No sessionId provided" CommandParsingException |
| LegacyParsing.HttpCommandParser.constructor | hub/src/main/java/com/thoughtworks/selenium/grid/hub/HttpCommandParser.java:21-28 | the parser's parameters start as the request's |
| LegacyParsing.HttpCommandParser.Parse | hub/src/main/java/com/thoughtworks/selenium/grid/hub/HttpCommandParser.java:30-48 | no "cmd" is a NullPointerException; "getNewBrowserSession" without parameter "1" is a NullPointerException with nothing changed; with it, the new-session command for the environment named there, with "1" rewritten to its browser, or the "Unknown environment" error with nothing changed; "testComplete" and any other command carry the "sessionId" parameter or fail |
| WebDriverParsing.BreakAt | hub/src/main/java/com/thoughtworks/selenium/grid/hub/WebDriverHttpCommandParser.java:69 | the first line break at or after a position, or the end |
| WebDriverParsing.Lines | hub/src/main/java/com/thoughtworks/selenium/grid/hub/WebDriverHttpCommandParser.java:64-77 | the lines `readLine` returns until null: none exactly for an empty body, and no line holds "\n" or "\r"; `LinesJoinUnbroken` shows they join to the body without its terminators |
| WebDriverParsing.LinesJoinUnbroken | hub/src/main/java/com/thoughtworks/selenium/grid/hub/WebDriverHttpCommandParser.java:64-77 | joining the lines `readLine` returns gives the body with every "\n" and "\r" dropped |
| WebDriverParsing.ReadBody | hub/src/main/java/com/thoughtworks/selenium/grid/hub/WebDriverHttpCommandParser.java:64-77 | the body read line by line and appended is the body without its line breaks |
| WebDriverParsing.EnvironmentNameIn | hub/src/main/java/com/thoughtworks/selenium/grid/hub/WebDriverHttpCommandParser.java:48-62 | the name is lower(browserName) + " on " + lower(platform) of the "desiredCapabilities" object exactly when those exist; otherwise the "Error parsing JSON" CommandParsingException |
| WebDriverParsing.DigitRun | hub/src/main/java/com/thoughtworks/selenium/grid/hub/WebDriverHttpCommandParser.java:109 | the maximal run of digits the greedy `(\d+)` group takes |
| WebDriverParsing.SessionIdInUri | hub/src/main/java/com/thoughtworks/selenium/grid/hub/WebDriverHttpCommandParser.java:106-115 | `GetSessionId`: a found id is a non-empty run of digits standing right after the "/wd/hub/session/" prefix; `SessionIdInUriSound` and `SessionIdInUriComplete` give both directions of the match |
| WebDriverParsing.SessionIdInUriSound | hub/src/main/java/com/thoughtworks/selenium/grid/hub/WebDriverHttpCommandParser.java:106-115 | a found id is the whole digit run right after a case-insensitive prefix, and what follows it matches `.*` |
| WebDriverParsing.SessionIdInUriComplete | hub/src/main/java/com/thoughtworks/selenium/grid/hub/WebDriverHttpCommandParser.java:106-115 | whenever the URI splits as the pattern requires, an id is found, beginning with that split's digits |
| WebDriverParsing.SessionIdRoundTrip | hub/src/main/java/com/thoughtworks/selenium/grid/hub/WebDriverHttpCommandParser.java:106-115 | a URI built from the prefix, an id and a path not starting with a digit names that id |
| WebDriverParsing.IsTestCompleteRequest | hub/src/main/java/com/thoughtworks/selenium/grid/hub/WebDriverHttpCommandParser.java:86-92 | the verb is DELETE and the whole URI is "/wd/hub/session/" (case matters) followed by one or more digits |
| WebDriverParsing.TestCompleteNamesSession | hub/src/main/java/com/thoughtworks/selenium/grid/hub/WebDriverHttpCommandParser.java:86-115 | an end-session URI names the session of all its trailing digits |
| WebDriverParsing.RequiredSessionId | hub/src/main/java/com/thoughtworks/selenium/grid/hub/WebDriverHttpCommandParser.java:98-104 | the id found in the URI, else the "No sessionId provided" CommandParsingException |
| WebDriverParsing.Parse | hub/src/main/java/com/thoughtworks/selenium/grid/hub/WebDriverHttpCommandParser.java:30-46 | a null URI is a NullPointerException; the exact new-session path, whatever the verb, yields the new-session command for the environment named in the body, or the JSON or "Unknown environment" error; otherwise DELETE of `/wd/hub/session/<digits>` ends that session; anything else is a generic command on the URI's session id, or the "No sessionId provided" error |
| Registration.ParseInt | hub/src/main/java/com/thoughtworks/selenium/grid/hub/management/RemoteControlParser.java:26 | `Integer.parseInt`: a parsed value lies in the 32-bit range, and every failure is a NumberFormatException naming the input; `ParseIntAccepts` states which texts parse and to what |
| Registration.ParseIntRoundTrip | hub/src/main/java/com/thoughtworks/selenium/grid/hub/management/RemoteControlParser.java:26 | the decimal text of every 32-bit integer parses back to it |
| Registration.ParseIntRejectsPadding | hub/src/main/java/com/thoughtworks/selenium/grid/hub/management/RemoteControlParser.java:23-26 | text holding any character at or below U+0020 fails to parse, so a padded port that passes the blank test is still rejected |
| Registration.ParseIntAccepts | hub/src/main/java/com/thoughtworks/selenium/grid/hub/management/RemoteControlParser.java:26 | parsing succeeds exactly on an optional sign and one or more ASCII digits whose value fits in 32 bits, and yields that value, negated after '-'; any other text is a NumberFormatException |
| Registration.ParseIntRejectsTrailingText | hub/src/main/java/com/thoughtworks/selenium/grid/hub/management/RemoteControlParser.java:26 | "12a" fails with a NumberFormatException |
| Registration.ReadWorker | hub/src/main/java/com/thoughtworks/selenium/grid/hub/management/RemoteControlParser.java:18-30 | the checks in order: host, port, the port's number, environment, each with its own message; success iff all pass, with host and environment untrimmed |
| Registration.ReadWorkerRoundTrip | hub/src/main/java/com/thoughtworks/selenium/grid/hub/management/RemoteControlParser.java:18-32 | the parameters a worker sends about itself read back as that worker, whatever other parameters are present |
| Registration.Parse | hub/src/main/java/com/thoughtworks/selenium/grid/hub/management/RemoteControlParser.java:11-35 | fails iff the checks fail, with their fault; otherwise a fresh idle proxy with the given host, port and environment |
| Text.IntText | hub/src/main/java/com/thoughtworks/selenium/grid/hub/remotecontrol/RemoteControlProxy.java:71 | the decimal text of the port in a URL: a sign only for negatives, digits otherwise, no colon |
| Text.IntTextInjective | hub/src/main/java/com/thoughtworks/selenium/grid/hub/remotecontrol/RemoteControlProxy.java:71 | distinct ports have distinct texts |
| Text.TrimEmptyIff | hub/src/main/java/com/thoughtworks/selenium/grid/hub/management/RemoteControlParser.java:19 | `"".equals(s.trim())` iff every character is at most U+0020 |
| Text.Lower | hub/src/main/java/com/thoughtworks/selenium/grid/hub/WebDriverHttpCommandParser.java:55-57 | `toLowerCase` letter by letter, for ASCII letters |

## Left out

- Locking, `Condition.await`/`signalAll`, the interrupt loop and the configured
  maximum wait of the provisioner. A reservation that finds no free worker times out
  at once. `synchronized (sessions)` in the pool is concurrency only. The model is
  sequential.
- HttpClient and the real network. `forward` and the heartbeat GET are the `Transport`
  and `Heartbeat` oracles. The `Response(HttpMethod)` constructor reads a live HTTP
  method, so it is not modelled.
- `terminateSession` forwards the worker's stored request again and swallows an
  IOException. For a worker that never stored one it throws NullPointerException, which
  `ReleaseForSession` models. For a worker with a stored request, the repeated forward's
  effect on the network is not modelled; the call changes nothing in the model.
- The clock. `new Date().getTime()` is the `now`, `before` and `after` parameters.
  Each parameter stands for one reading, even where the source reads the clock more
  than once (see the recycling line below).
- The `double` seconds-to-`int` milliseconds conversion in recycling. The model takes
  the idle limit as a whole number of milliseconds.
- org.json. The decoder is an oracle. A leaf value stands for any non-object value with
  the text `getString` renders for it. `getString` on an object member counts as absent.
- `GetRequestBody`'s IOException branch. Reading a body given as text cannot fail.
- `WebDriverParsing.EnvironmentNameIn`: the "Error parsing JSON: " message is modelled
  as quoting an empty body. The source re-reads a request body that has already been
  read and closed, so the second read yields nothing. This depends on the servlet
  container's reader.
- `Commands.AdmitResponse`: the duplicate-id message ends at "is already asssociated
  with ". The `toString` of the existing session that the source appends is left out,
  because that session class has no `toString` of its own.
- `Text.Lower`: only ASCII letters are lower-cased. The full Unicode case mapping of
  `toLowerCase` is not modelled. `Text.SameIgnoringCase` and `Text.IsDigit` are exact
  for the session-id patterns. Java's `CASE_INSENSITIVE` folds only ASCII letters
  without `UNICODE_CASE`, and `\d` means only `[0-9]` without
  `UNICODE_CHARACTER_CLASS`. Those patterns use neither flag.
- `Registration.ParseInt`: only ASCII digits are accepted. `Integer.parseInt` reads each
  digit with `Character.digit`, which also accepts the decimal digits of other scripts,
  such as U+0660 to U+0669.
- `Proxies.RemoteControlProxy.HashCode`: the hash runs over Unicode scalar values, while
  Java's `String.hashCode` runs over UTF-16 code units. They differ for a host or port
  text with a character above U+FFFF.
- `Registration.ParseInt` follows `Integer.parseInt` from JDK 7 on, which accepts a
  leading '+'.
- `Provisioning.RemoteControlProvisioner.Reserve`: the ensures about other proxies'
  health counters covers only proxies still in the list. For proxies evicted on the
  way, only membership is stated; their counter is reset to zero but the contract does
  not say so.
- `SeleniumCommands.ExecuteNewBrowserSession` does not restate that the reserved worker
  was free with a zero failure count, or that the other workers keep their flags and
  counters. `Pool.GlobalRemoteControlPool.Reserve`, which it calls first, states those
  facts.
- `WebDriverCommands.ExecuteNewBrowserSession` leaves out the same reservation facts,
  for the same reason.
- `Pool.GlobalRemoteControlPool.RecycleAllSessionsIdleForTooLong` judges the whole sweep
  by one clock reading, `now`. The source reads the clock again for each session it
  visits (`innactiveForMoreThan`), and each release before the next reading forwards a
  request over the network. A session whose last activity falls between `now - ms` and
  a later reading minus `ms` crosses the limit during the sweep. The source releases it
  and the model does not. The contract's "exactly the sessions idle for the limit"
  means idle at the one reading `now`.
- `Pool.GlobalRemoteControlPool.RecycleAllSessionsIdleForTooLong` iterates the keys of
  a copy of the session map, not a `HashSet` of session objects. Each key maps to its
  own session, so the set visited is the same; the visiting order is unspecified in
  both.
- `GlobalRemoteControlPool.availableRemoteControls` and `reservedRemoteControls`
  (GlobalRemoteControlPool.java:107-127) are iterations that concatenate the
  provisioners' snapshots. They are not modelled; the per-provisioner snapshots are.
- `logSessionMap` and all logging.
- A null request object, and the null `parameters` field the command constructors
  keep for one. Every inbound request is present and has a parameter map.
- `HttpParameters` is a map from name to first value. Its `toString` is the `describe`
  parameter.
- `SeleneseCommand.parseSessionId` always returns null and is not called by any modelled
  code. It has no member.
- The Selenium RC `TestCompleteCommand` class is not part of this model. The legacy
  parser builds `SeleniumTestComplete` carrying the id, and its `execute` is not
  modelled.
- The `IRemoteControlProxy`, `IDriverCommand` and `DynamicRemoteControlPool` interfaces
  are signatures only. The model uses the concrete classes directly.
