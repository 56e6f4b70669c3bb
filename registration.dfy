/**
 * RemoteControlParser: the worker a registration request describes, read from its
 * "host", "port" and "environment" parameters.
 */
module Registration {

  import opened Text
  import opened Faults
  import opened Http
  import opened Proxies

  const IntMin := -0x8000_0000
  const IntMax := 0x7fff_ffff

  /**
   * `Integer.parseInt(s)` (JDK 7 and later): an optional sign, then one or more ASCII
   * digits, whose value must fit in 32 bits; anything else is a NumberFormatException.
   */
  function ParseInt(s: string): (r: Result<int>)
    ensures r.Ok? ==> IntMin <= r.value <= IntMax
    ensures r.Err? ==> r == Err(NumberFormat(s))
  {
    var signed := |s| > 0 && (s[0] == '-' || s[0] == '+');
    var digits := if signed then s[1..] else s;
    if digits == [] || !AllDigits(digits) then Err(NumberFormat(s))
    else
      var magnitude: int := DigitsValue(digits);
      var value: int := if signed && s[0] == '-' then -magnitude else magnitude;
      if IntMin <= value <= IntMax then Ok(value) else Err(NumberFormat(s))
  }

  /** What `Integer.toString` writes, `parseInt` reads back. */
  lemma ParseIntRoundTrip(n: int)
    requires IntMin <= n <= IntMax
    ensures ParseInt(IntText(n)) == Ok(n)
  {
    var text := IntText(n);
    var magnitude: nat := if n < 0 then -n else n;
    var digits := NatText(magnitude);
    assert IsDigit(digits[0]);
    assert text[SignLength(text)..] == digits;
    NatTextValue(magnitude);
    assert Numeral(text) && NumeralValue(text) == n;
    ParseIntAccepts(text);
  }

  /** `parseInt` accepts no white space, so a port that passes the blank test may still be refused. */
  lemma ParseIntRejectsPadding(s: string)
    requires exists i :: 0 <= i < |s| && IsTrimmed(s[i])
    ensures ParseInt(s).Err?
  {
  }

  /** How many leading characters of `s` are a sign, '+' or '-'. */
  function SignLength(s: string): nat {
    if |s| > 0 && (s[0] == '-' || s[0] == '+') then 1 else 0
  }

  /** An optional sign followed by at least one ASCII digit. */
  predicate Numeral(s: string) {
    |s| > SignLength(s) && AllDigits(s[SignLength(s)..])
  }

  /** The value a numeral denotes: its digits' value, negated after a '-'. */
  function NumeralValue(s: string): int
    requires Numeral(s)
  {
    var magnitude: int := DigitsValue(s[SignLength(s)..]);
    if s[0] == '-' then -magnitude else magnitude
  }

  /**
   * `parseInt` succeeds exactly on a numeral whose value fits in 32 bits, and returns
   * that value. Text such as "12a", "", "+" or "0x1F" is a NumberFormatException.
   */
  lemma ParseIntAccepts(s: string)
    ensures ParseInt(s).Ok? <==> Numeral(s) && IntMin <= NumeralValue(s) <= IntMax
    ensures ParseInt(s).Ok? ==> ParseInt(s).value == NumeralValue(s)
    ensures !Numeral(s) ==> ParseInt(s) == Err(NumberFormat(s))
  {
  }

  /** A digit followed by a letter is not a number: `parseInt("12a")` throws. */
  lemma ParseIntRejectsTrailingText()
    ensures ParseInt("12a") == Err(NumberFormat("12a"))
  {
    assert !IsDigit("12a"[2]);
    ParseIntAccepts("12a");
  }

  /** `null == s || "".equals(s.trim())`. */
  predicate Blank(value: Option<string>) {
    value.None? || Trim(value.value) == []
  }

  datatype Worker = Worker(host: string, port: int, environment: string)

  /**
   * The checks of `parse(request)`, in order: a host, a port that parses as an int, and
   * an environment, each present and not blank. Host and environment are kept as
   * given, untrimmed.
   */
  function ReadWorker(parameters: map<string, string>): (r: Result<Worker>)
    ensures Blank(ParameterOf(parameters, "host")) ==>
              r == Err(IllegalState("You must specify a 'host' parameter"))
    ensures !Blank(ParameterOf(parameters, "host")) && Blank(ParameterOf(parameters, "port")) ==>
              r == Err(IllegalState("You must specify a 'port' parameter"))
    ensures !Blank(ParameterOf(parameters, "host")) && !Blank(ParameterOf(parameters, "port")) &&
            ParseInt(parameters["port"]).Err? ==>
              r == Err(NumberFormat(parameters["port"]))
    ensures !Blank(ParameterOf(parameters, "host")) && !Blank(ParameterOf(parameters, "port")) &&
            ParseInt(parameters["port"]).Ok? && Blank(ParameterOf(parameters, "environment")) ==>
              r == Err(IllegalState("You must specify an 'environment' parameter"))
    ensures r.Ok? <==>
              && !Blank(ParameterOf(parameters, "host")) && !Blank(ParameterOf(parameters, "port"))
              && ParseInt(parameters["port"]).Ok? && !Blank(ParameterOf(parameters, "environment"))
    ensures r.Ok? ==>
              r.value == Worker(parameters["host"], ParseInt(parameters["port"]).value, parameters["environment"])
  {
    var host := ParameterOf(parameters, "host");
    var port := ParameterOf(parameters, "port");
    var environment := ParameterOf(parameters, "environment");
    if Blank(host) then Err(IllegalState("You must specify a 'host' parameter"))
    else if Blank(port) then Err(IllegalState("You must specify a 'port' parameter"))
    else match ParseInt(port.value)
      case Err(fault) => Err(fault)
      case Ok(number) =>
        if Blank(environment) then Err(IllegalState("You must specify an 'environment' parameter"))
        else Ok(Worker(host.value, number, environment.value))
  }

  /** A registration a worker sends about itself is read back as that worker. */
  lemma ReadWorkerRoundTrip(host: string, port: int, environment: string, others: map<string, string>)
    requires !Blank(Some(host)) && !Blank(Some(environment)) && IntMin <= port <= IntMax
    ensures ReadWorker(others["host" := host]["port" := IntText(port)]["environment" := environment]) ==
              Ok(Worker(host, port, environment))
  {
    var parameters := others["host" := host]["port" := IntText(port)]["environment" := environment];
    assert ParameterOf(parameters, "host") == Some(host);
    assert ParameterOf(parameters, "port") == Some(IntText(port));
    assert ParameterOf(parameters, "environment") == Some(environment);
    ParseIntRoundTrip(port);
    TextIsNotBlank(IntText(port));
  }

  lemma TextIsNotBlank(t: string)
    requires t != [] && !IsTrimmed(t[0])
    ensures !Blank(Some(t))
  {
    TrimEmptyIff(t);
  }

  /** `parse(request)`: the proxy for the worker the parameters describe, new and idle. */
  method Parse(parameters: map<string, string>) returns (r: Result<RemoteControlProxy>)
    ensures r.Ok? <==> ReadWorker(parameters).Ok?
    ensures r.Err? ==> r.fault == ReadWorker(parameters).fault
    ensures r.Ok? ==>
              var worker := ReadWorker(parameters).value;
              && fresh(r.value)
              && r.value.host == worker.host && r.value.port == worker.port && r.value.environment == worker.environment
              && !r.value.sessionInProgress && r.value.failedHeartbeatCount == 0
  {
    var worker := ReadWorker(parameters);
    if worker.Err? {
      return Err(worker.fault);
    }
    r := NewRemoteControlProxy(Some(worker.value.host), worker.value.port, Some(worker.value.environment));
  }
}
