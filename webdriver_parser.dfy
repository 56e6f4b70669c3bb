/**
 * WebDriverHttpCommandParser: which WebDriver command an inbound request is. The
 * request URI decides: the new-session path, a DELETE of a session, or any other
 * call within a session, whose id is the digits after "/wd/hub/session/".
 */
module WebDriverParsing {

  import opened Text
  import opened Faults
  import opened Http
  import opened Environments
  import opened Json
  import opened Commands

  const NewBrowserSessionPath := "/wd/hub/session"
  const SessionPathPrefix := "/wd/hub/session/"

  // ---------------------------------------------------------------------------
  // The request body, read line by line

  predicate IsLineBreak(c: char) {
    c == '\n' || c == '\r'
  }

  /** The index of the first line break at or after `i`, or `|s|`. */
  function BreakAt(s: string, i: nat): (k: nat)
    requires i <= |s|
    ensures i <= k <= |s|
    ensures k < |s| ==> IsLineBreak(s[k])
    ensures forall j :: i <= j < k ==> !IsLineBreak(s[j])
    decreases |s| - i
  {
    if i == |s| || IsLineBreak(s[i]) then i else BreakAt(s, i + 1)
  }

  /**
   * What `BufferedReader.readLine` returns, call after call, until it returns null: a
   * line ends at "\n", at "\r", or at "\r\n", and the terminator is not part of it.
   */
  function Lines(s: string): (r: seq<string>)
    ensures r == [] <==> s == []
    ensures forall i :: 0 <= i < |r| ==> NoLineBreak(r[i])
    decreases |s|
  {
    if s == [] then []
    else
      var k := BreakAt(s, 0);
      if k == |s| then [s]
      else
        [s[..k]] + Lines(s[AfterTerminator(s, k)..])
  }

  predicate NoLineBreak(line: string) {
    forall j :: 0 <= j < |line| ==> !IsLineBreak(line[j])
  }

  /** Where the next line starts, past the terminator at `k`: "\r\n" is one terminator. */
  function AfterTerminator(s: string, k: nat): (next: nat)
    requires k < |s|
    ensures k < next <= |s|
  {
    if s[k] == '\r' && k + 1 < |s| && s[k + 1] == '\n' then k + 2 else k + 1
  }

  /** The text with every "\n" and "\r" removed. */
  function Unbroken(s: string): string
    decreases |s|
  {
    if s == [] then []
    else (if IsLineBreak(s[0]) then [] else [s[0]]) + Unbroken(s[1..])
  }

  function Concat(lines: seq<string>): string
    decreases |lines|
  {
    if lines == [] then [] else Concat(lines[..|lines| - 1]) + lines[|lines| - 1]
  }

  lemma {:induction false} ConcatPrepend(line: string, lines: seq<string>)
    ensures Concat([line] + lines) == line + Concat(lines)
    decreases |lines|
  {
    if lines == [] {
      assert [line][..0] == [];
    } else {
      var all := [line] + lines;
      assert all[..|all| - 1] == [line] + lines[..|lines| - 1];
      ConcatPrepend(line, lines[..|lines| - 1]);
    }
  }

  lemma {:induction false} UnbrokenAppend(a: string, b: string)
    ensures Unbroken(a + b) == Unbroken(a) + Unbroken(b)
    decreases |a|
  {
    if a == [] {
      assert a + b == b;
    } else {
      assert (a + b)[0] == a[0];
      assert (a + b)[1..] == a[1..] + b;
      UnbrokenAppend(a[1..], b);
    }
  }

  lemma {:induction false} UnbrokenOfLine(s: string, i: nat, k: nat)
    requires i <= k <= |s|
    requires forall j :: i <= j < k ==> !IsLineBreak(s[j])
    ensures Unbroken(s[i..k]) == s[i..k]
    decreases k - i
  {
    if i < k {
      assert s[i..k][1..] == s[i + 1..k];
      UnbrokenOfLine(s, i + 1, k);
    }
  }

  /** A line terminator, one or two characters long, leaves nothing behind. */
  lemma UnbrokenOfTerminator(t: string)
    requires |t| == 1 || |t| == 2
    requires IsLineBreak(t[0]) && (|t| == 2 ==> IsLineBreak(t[1]))
    ensures Unbroken(t) == []
  {
    if |t| == 2 {
      assert t[1..][1..] == [];
    } else {
      assert t[1..] == [];
    }
  }

  /** Joining what `readLine` returns gives the body without its line breaks. */
  lemma {:induction false} LinesJoinUnbroken(s: string)
    ensures Concat(Lines(s)) == Unbroken(s)
    decreases |s|
  {
    if s != [] {
      var k := BreakAt(s, 0);
      if k == |s| {
        UnbrokenOfLine(s, 0, k);
        assert s[0..k] == s;
        ConcatPrepend(s, []);
      } else {
        var next := AfterTerminator(s, k);
        LinesStep(s);
        UnbrokenStep(s);
        LinesJoinUnbroken(s[next..]);
      }
    }
  }

  /** One call of `readLine` on a body holding a line break: the line, then the lines after the terminator. */
  lemma LinesStep(s: string)
    requires s != [] && BreakAt(s, 0) < |s|
    ensures Concat(Lines(s)) == s[..BreakAt(s, 0)] + Concat(Lines(s[AfterTerminator(s, BreakAt(s, 0))..]))
  {
    var k := BreakAt(s, 0);
    var more := s[AfterTerminator(s, k)..];
    assert Lines(s) == [s[..k]] + Lines(more);
    ConcatPrepend(s[..k], Lines(more));
  }

  /** The same split seen by `Unbroken`: the line is kept, the terminator dropped. */
  lemma UnbrokenStep(s: string)
    requires s != [] && BreakAt(s, 0) < |s|
    ensures Unbroken(s) == s[..BreakAt(s, 0)] + Unbroken(s[AfterTerminator(s, BreakAt(s, 0))..])
  {
    var k := BreakAt(s, 0);
    var next := AfterTerminator(s, k);
    var line, separator, more := s[..k], s[k..next], s[next..];
    SplitThree(s, k, next);
    UnbrokenOfLine(s, 0, k);
    assert s[0..k] == line;
    UnbrokenOfPieces(line, separator, more);
  }

  lemma SplitThree(s: string, k: nat, next: nat)
    requires k <= next <= |s|
    ensures s == s[..k] + (s[k..next] + s[next..])
  {
    assert s[k..] == s[k..next] + s[next..];
  }

  /** The break-free line, its terminator and the rest: only the line and the rest's text remain. */
  lemma UnbrokenOfPieces(line: string, separator: string, more: string)
    requires Unbroken(line) == line
    requires |separator| == 1 || |separator| == 2
    requires IsLineBreak(separator[0]) && (|separator| == 2 ==> IsLineBreak(separator[1]))
    ensures Unbroken(line + (separator + more)) == line + Unbroken(more)
  {
    UnbrokenOfTerminator(separator);
    UnbrokenAppend(separator, more);
    assert Unbroken(separator + more) == Unbroken(more);
    UnbrokenAppend(line, separator + more);
  }

  /** `GetRequestBody(request)`: every line of the body, appended in order. */
  method ReadBody(body: string) returns (text: string)
    ensures text == Unbroken(body)
  {
    var lines := Lines(body);
    text := "";
    var i := 0;
    while i < |lines|
      invariant i <= |lines|
      invariant text == Concat(lines[..i])
    {
      assert lines[..i + 1][..i] == lines[..i];
      text := text + lines[i];
      i := i + 1;
    }
    assert lines[..i] == lines;
    LinesJoinUnbroken(body);
  }

  // ---------------------------------------------------------------------------
  // The environment a new session asks for

  /**
   * `GetEnvironmentName(request)` once the body is read: the browser name and the
   * platform of the "desiredCapabilities" object, lower-cased and joined by " on ".
   * Any JSONException becomes a CommandParsingException quoting the body read a
   * second time, which finds the reader exhausted and so is empty.
   */
  function EnvironmentNameIn(decode: JsonDecoder, text: string): (r: Result<string>)
    ensures r.Err? ==> r == Err(CommandParsing("Error parsing JSON: "))
    ensures r.Ok? <==>
              exists fields, capabilities, browserName, platform ::
                && decode(text) == Some(JObject(fields))
                && "desiredCapabilities" in fields && fields["desiredCapabilities"] == JObject(capabilities)
                && "browserName" in capabilities && capabilities["browserName"] == JText(browserName)
                && "platform" in capabilities && capabilities["platform"] == JText(platform)
                && r == Ok(Lower(browserName) + " on " + Lower(platform))
  {
    match DecodeObject(decode, text)
    case None => Err(CommandParsing("Error parsing JSON: "))
    case Some(fields) =>
      match GetObject(fields, "desiredCapabilities")
      case None => Err(CommandParsing("Error parsing JSON: "))
      case Some(capabilities) =>
        match (GetString(capabilities, "browserName"), GetString(capabilities, "platform"))
        case (Some(browserName), Some(platform)) => Ok(Lower(browserName) + " on " + Lower(platform))
        case _ => Err(CommandParsing("Error parsing JSON: "))
  }

  // ---------------------------------------------------------------------------
  // The session id in the URI

  /** The leading run of ASCII digits. */
  function DigitRun(s: string): (r: string)
    ensures |r| <= |s| && r == s[..|r|] && AllDigits(r)
    ensures |r| < |s| ==> !IsDigit(s[|r|])
    decreases |s|
  {
    if s != [] && IsDigit(s[0]) then [s[0]] + DigitRun(s[1..]) else []
  }

  predicate NoLineTerminator(s: string) {
    forall i :: 0 <= i < |s| ==> !IsLineTerminator(s[i])
  }

  /**
   * `GetSessionId(request)`: the group of a whole-URI match of `/wd/hub/session/(\d+).*`,
   * ignoring ASCII case. The greedy group takes every digit after the prefix, and `.*`
   * covers the rest exactly when the rest holds no line terminator.
   */
  function SessionIdInUri(uri: string): (r: Option<string>)
    ensures r.Some? ==> && |r.value| > 0 && AllDigits(r.value)
                        && |SessionPathPrefix| + |r.value| <= |uri|
                        && r.value == uri[|SessionPathPrefix|..|SessionPathPrefix| + |r.value|]
  {
    if |uri| >= |SessionPathPrefix| && SameIgnoringCase(uri[..|SessionPathPrefix|], SessionPathPrefix) then
      var run := DigitRun(uri[|SessionPathPrefix|..]);
      if |run| > 0 && NoLineTerminator(uri[|SessionPathPrefix| + |run|..]) then Some(run) else None
    else None
  }

  /** A found id is the maximal digit run right after the prefix, and the text after it matches `.*`. */
  lemma SessionIdInUriSound(uri: string)
    requires SessionIdInUri(uri).Some?
    ensures var id := SessionIdInUri(uri).value;
            var rest := uri[|SessionPathPrefix| + |id|..];
            && SameIgnoringCase(uri[..|SessionPathPrefix|], SessionPathPrefix)
            && uri == uri[..|SessionPathPrefix|] + id + rest
            && |id| > 0 && AllDigits(id)
            && (rest != [] ==> !IsDigit(rest[0]))
            && NoLineTerminator(rest)
  {
    var id := SessionIdInUri(uri).value;
    var n := |SessionPathPrefix|;
    assert uri[n..][..|id|] == uri[n..n + |id|];
    assert uri == uri[..n] + uri[n..n + |id|] + uri[n + |id|..];
  }

  /** Whenever the pattern matches some split of the URI, an id is found, and the split's digits begin it. */
  lemma SessionIdInUriComplete(prefix: string, digits: string, rest: string)
    requires SameIgnoringCase(prefix, SessionPathPrefix)
    requires |digits| > 0 && AllDigits(digits)
    requires NoLineTerminator(rest)
    ensures var r := SessionIdInUri(prefix + digits + rest);
            r.Some? && |digits| <= |r.value| && r.value[..|digits|] == digits
  {
    var uri := prefix + digits + rest;
    var n := |SessionPathPrefix|;
    assert uri[..n] == prefix;
    var tail := uri[n..];
    assert tail == digits + rest;
    var run := DigitRun(tail);
    DigitRunCoversDigits(digits, rest);
    assert uri[n + |run|..] == rest[|run| - |digits|..];
  }

  lemma {:induction false} DigitRunCoversDigits(digits: string, rest: string)
    requires AllDigits(digits)
    ensures |DigitRun(digits + rest)| >= |digits|
    ensures DigitRun(digits + rest)[..|digits|] == digits
    decreases |digits|
  {
    if digits != [] {
      assert (digits + rest)[1..] == digits[1..] + rest;
      DigitRunCoversDigits(digits[1..], rest);
    }
  }

  lemma {:induction false} DigitRunStopsAt(digits: string, rest: string)
    requires AllDigits(digits) && (rest != [] ==> !IsDigit(rest[0]))
    ensures DigitRun(digits + rest) == digits
    decreases |digits|
  {
    if digits == [] {
      assert digits + rest == rest;
    } else {
      assert (digits + rest)[1..] == digits[1..] + rest;
      DigitRunStopsAt(digits[1..], rest);
    }
  }

  /** The URIs a client sends within a session name that session's id. */
  lemma SessionIdRoundTrip(sessionId: string, path: string)
    requires |sessionId| > 0 && AllDigits(sessionId)
    requires NoLineTerminator(path) && (path != [] ==> !IsDigit(path[0]))
    ensures SessionIdInUri(SessionPathPrefix + sessionId + path) == Some(sessionId)
  {
    var uri := SessionPathPrefix + sessionId + path;
    var n := |SessionPathPrefix|;
    assert uri[..n] == SessionPathPrefix;
    assert uri[n..] == sessionId + path;
    DigitRunStopsAt(sessionId, path);
    assert uri[n + |sessionId|..] == path;
  }

  /** `IsTestCompleteRequest`: the whole URI is `/wd/hub/session/\d+` (case matters) and the verb is DELETE. */
  predicate IsTestCompleteRequest(verb: string, uri: string) {
    && |uri| > |SessionPathPrefix| && uri[..|SessionPathPrefix|] == SessionPathPrefix
    && AllDigits(uri[|SessionPathPrefix|..])
    && verb == "DELETE"
  }

  /** A test-complete URI names the session it ends: all of its digits. */
  lemma TestCompleteNamesSession(verb: string, uri: string)
    requires IsTestCompleteRequest(verb, uri)
    ensures SessionIdInUri(uri) == Some(uri[|SessionPathPrefix|..])
  {
    var n := |SessionPathPrefix|;
    assert uri == SessionPathPrefix + uri[n..] + [];
    SessionIdRoundTrip(uri[n..], []);
  }

  /** `getSessionId()`: the id in the URI, or a CommandParsingException. */
  function RequiredSessionId(uri: string): (r: Result<string>)
    ensures r.Ok? <==> SessionIdInUri(uri).Some?
    ensures r.Ok? ==> r.value == SessionIdInUri(uri).value
    ensures r.Err? ==> r == Err(CommandParsing(NoSessionIdProvided))
  {
    match SessionIdInUri(uri)
    case Some(id) => Ok(id)
    case None => Err(CommandParsing(NoSessionIdProvided))
  }

  // ---------------------------------------------------------------------------
  // parse

  /**
   * `parse(environmentManager)`. A request without a URI is a NullPointerException.
   * The new-session path names an environment in the JSON body, which must be known;
   * a DELETE of a session ends it; anything else is relayed within the session whose id
   * the URI holds. The body is read only for a new session.
   */
  method Parse(environments: EnvironmentManager, request: Request, decode: JsonDecoder)
    returns (r: Result<DriverCommand>)
    requires environments.Valid()
    ensures request.uri.None? ==> r == Err(NullPointer)
    ensures request.uri == Some(NewBrowserSessionPath) ==>
              match EnvironmentNameIn(decode, Unbroken(request.body))
              case Err(fault) => r == Err(fault)
              case Ok(name) =>
                match environments.EnvironmentNamed(name)
                case None => r == Err(CommandParsing("ERROR: Unknown environment '" + name + "'"))
                case Some(environment) =>
                  r == Ok(WebDriverNewBrowserSession(environment, request)) && environment.name == name
    ensures request.uri.Some? && request.uri != Some(NewBrowserSessionPath) &&
            IsTestCompleteRequest(request.verb, request.uri.value) ==>
              r == Ok(WebDriverTestComplete(Some(request.uri.value[|SessionPathPrefix|..]), request))
    ensures request.uri.Some? && request.uri != Some(NewBrowserSessionPath) &&
            !IsTestCompleteRequest(request.verb, request.uri.value) ==>
              match SessionIdInUri(request.uri.value)
              case None => r == Err(CommandParsing(NoSessionIdProvided))
              case Some(id) => r == Ok(WebDriverGeneric(Some(id), request))
  {
    if request.uri.None? {
      return Err(NullPointer);
    }
    var uri := request.uri.value;
    if uri == NewBrowserSessionPath {
      var text := ReadBody(request.body);
      var name := EnvironmentNameIn(decode, text);
      if name.Err? {
        return Err(name.fault);
      }
      var environment := environments.EnvironmentNamed(name.value);
      if environment.None? {
        return Err(CommandParsing("ERROR: Unknown environment '" + name.value + "'"));
      }
      return Ok(WebDriverNewBrowserSession(environment.value, request));
    } else if IsTestCompleteRequest(request.verb, uri) {
      TestCompleteNamesSession(request.verb, uri);
      var sessionId := RequiredSessionId(uri);
      return Ok(WebDriverTestComplete(Some(sessionId.value), request));
    } else {
      var sessionId := RequiredSessionId(uri);
      if sessionId.Err? {
        return Err(sessionId.fault);
      }
      return Ok(WebDriverGeneric(Some(sessionId.value), request));
    }
  }
}
