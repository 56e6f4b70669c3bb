/**
 * HttpCommandParser: which Selenium RC command an inbound request is. The "cmd"
 * parameter decides; a new-session command names its environment in parameter "1",
 * which the parser then rewrites to the environment's browser string.
 */
module LegacyParsing {

  import opened Faults
  import opened Http
  import opened Environments
  import opened Commands

  const NewBrowserSession := "getNewBrowserSession"
  const TestComplete := "testComplete"

  /**
   * `environmentManager.environment(name)`: the environment of that name, or null when
   * there is none. The directory is a ConcurrentHashMap, whose `get(null)` throws
   * NullPointerException, so a null name is a fault rather than "not found".
   */
  function EnvironmentFor(environments: EnvironmentManager, name: Option<string>): (r: Result<Option<Environment>>)
    requires environments.Valid()
    reads environments
    ensures r.Err? <==> name.None?
    ensures r.Err? ==> r == Err(NullPointer)
    ensures r.Ok? ==> (r.value.Some? <==> name.value in environments.environmentMap)
    ensures r.Ok? && r.value.Some? ==> r.value.value.name == name.value
  {
    if name.Some? then Ok(environments.EnvironmentNamed(name.value)) else Err(NullPointer)
  }

  /** `retrieveSessionId()`: the "sessionId" parameter, or a CommandParsingException. */
  function RetrieveSessionId(parameters: map<string, string>): (r: Result<string>)
    ensures r.Ok? <==> "sessionId" in parameters
    ensures r.Ok? ==> r.value == parameters["sessionId"]
    ensures r.Err? ==> r == Err(CommandParsing(NoSessionIdProvided))
  {
    if "sessionId" in parameters then Ok(parameters["sessionId"]) else Err(CommandParsing(NoSessionIdProvided))
  }

  class HttpCommandParser {
    const request: Request
    var parameters: map<string, string>

    /** `new HttpCommandParser(request)`: the parameters start as the request's own. */
    constructor (request: Request)
      ensures this.request == request && parameters == request.parameters
    {
      this.request := request;
      parameters := request.parameters;
    }

    /**
     * `parse(environmentManager)`. A request without "cmd" is a NullPointerException.
     * A new session must name a known environment in parameter "1" (a missing one is
     * null, and looking null up throws NullPointerException); parameter "1" then holds
     * the environment's browser. Any other
     * command must carry a "sessionId" parameter. Only a new session changes the
     * parameters.
     */
    method Parse(environments: EnvironmentManager) returns (r: Result<DriverCommand>)
      requires environments.Valid()
      modifies this`parameters
      ensures "cmd" !in old(parameters) ==> r == Err(NullPointer)
      ensures ParameterOf(old(parameters), "cmd") == Some(NewBrowserSession) ==>
                match ParameterOf(old(parameters), "1")
                case None => r == Err(NullPointer) && parameters == old(parameters)
                case Some(name) =>
                  match environments.EnvironmentNamed(name)
                  case None =>
                    && r == Err(CommandParsing("ERROR: Unknown environment '" + name + "'"))
                    && parameters == old(parameters)
                  case Some(environment) =>
                    && r == Ok(SeleniumNewBrowserSession(environment, request))
                    && environment.name == name
                    && parameters == old(parameters)["1" := environment.browser]
      ensures ParameterOf(old(parameters), "cmd") == Some(TestComplete) ==>
                && r == (match RetrieveSessionId(old(parameters))
                         case Ok(id) => Ok(SeleniumTestComplete(id, request))
                         case Err(fault) => Err(fault))
                && parameters == old(parameters)
      ensures "cmd" in old(parameters) && old(parameters)["cmd"] !in {NewBrowserSession, TestComplete} ==>
                && r == (match RetrieveSessionId(old(parameters))
                         case Ok(id) => Ok(Selenese(Some(id), request))
                         case Err(fault) => Err(fault))
                && parameters == old(parameters)
    {
      var command := ParameterOf(parameters, "cmd");
      if command.None? {
        return Err(NullPointer);
      }
      if command.value == NewBrowserSession {
        var name := ParameterOf(parameters, "1");
        var found := EnvironmentFor(environments, name);
        if found.Err? {
          return Err(found.fault);
        }
        if found.value.None? {
          return Err(CommandParsing("ERROR: Unknown environment '" + name.value + "'"));
        }
        var environment := found.value.value;
        parameters := parameters["1" := environment.browser];
        return Ok(SeleniumNewBrowserSession(environment, request));
      } else if command.value == TestComplete {
        var sessionId := RetrieveSessionId(parameters);
        if sessionId.Err? {
          return Err(sessionId.fault);
        }
        return Ok(SeleniumTestComplete(sessionId.value, request));
      } else {
        var sessionId := RetrieveSessionId(parameters);
        if sessionId.Err? {
          return Err(sessionId.fault);
        }
        return Ok(Selenese(Some(sessionId.value), request));
      }
    }
  }
}
