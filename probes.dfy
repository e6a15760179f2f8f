/** The two probe drivers, check_http_health and check_docker_health, with
    the network and container-runtime calls replaced by the outcome they
    produced. */
module Probes {
  import opened Base

  datatype Status = Up | Down | Degraded | Unknown

  /** The (status, response_time_ms, error_message) triple a check yields. */
  datatype Verdict = Verdict(status: Status, responseTimeMs: Option<int>, error: Option<string>)

  /** The (status, error_message) pair the container probe yields. */
  datatype DockerReport = DockerReport(status: Status, error: Option<string>)

  /** HTTP_TIMEOUT, in seconds. */
  const HttpTimeoutSeconds: int := 5

  /** What the GET request did: answered with a status code after the
      measured number of milliseconds, timed out, could not connect, or
      raised some other exception with the given text. */
  datatype HttpOutcome =
    | Response(code: nat, elapsedMs: int)
    | Timeout
    | ConnectionError
    | HttpFailure(message: string)

  /** What the container lookup did: the docker library is missing, the
      container was found in the given state, it was not found, or the
      lookup raised some other exception with the given text. */
  datatype DockerOutcome =
    | Unavailable
    | Found(state: string)
    | NotFound
    | DockerFailure(message: string)

  predicate IsSuccessCode(code: nat)
  {
    code == 200 || code == 302
  }

  function CheckHttpHealth(o: HttpOutcome): (r: Verdict)
    // only 200 and 302 answers are healthy; every other outcome is down
    ensures r.status == Up <==> o.Response? && IsSuccessCode(o.code)
    ensures r.status == Up || r.status == Down
    // a healthy probe carries no error, an unhealthy one always says why
    ensures r.error.None? <==> r.status == Up
    ensures o.Response? ==> r.responseTimeMs == Some(o.elapsedMs)
    ensures o.Response? && !IsSuccessCode(o.code) ==> r.error == Some("HTTP " + NatToString(o.code))
    ensures o.Timeout? ==> r == Verdict(Down, Some(HttpTimeoutSeconds * 1000), Some("Timeout"))
    ensures o.ConnectionError? ==> r == Verdict(Down, None, Some("Connection refused"))
    ensures o.HttpFailure? ==> r == Verdict(Down, None, Some(o.message))
  {
    match o
    case Response(code, elapsedMs) =>
      if IsSuccessCode(code) then Verdict(Up, Some(elapsedMs), None)
      else Verdict(Down, Some(elapsedMs), Some("HTTP " + NatToString(code)))
    case Timeout => Verdict(Down, Some(HttpTimeoutSeconds * 1000), Some("Timeout"))
    case ConnectionError => Verdict(Down, None, Some("Connection refused"))
    case HttpFailure(message) => Verdict(Down, None, Some(message))
  }

  /** Two answers with different unhealthy codes give different error
      texts: the "HTTP {code}" message names the code it came from. */
  lemma HttpErrorNamesCode(a: HttpOutcome, b: HttpOutcome)
    requires a.Response? && b.Response? && !IsSuccessCode(a.code) && !IsSuccessCode(b.code)
    requires CheckHttpHealth(a).error == CheckHttpHealth(b).error
    ensures a.code == b.code
  {
    var sa, sb := NatToString(a.code), NatToString(b.code);
    assert ("HTTP " + sa)[5..] == sa;
    assert ("HTTP " + sb)[5..] == sb;
    ParseNatToString(a.code);
    ParseNatToString(b.code);
  }

  function CheckDockerHealth(o: DockerOutcome): (r: DockerReport)
    ensures r.status == Up <==> o == Found("running")
    ensures r.status == Unknown <==> o.Unavailable?
    ensures r.status == Up || r.status == Down || r.status == Unknown
    ensures r.error.None? <==> r.status == Up
    ensures o.Unavailable? ==> r.error == Some("Docker library not available")
    ensures o.Found? && o.state != "running" ==> r.error == Some("Container status: " + o.state)
    ensures o.NotFound? ==> r == DockerReport(Down, Some("Container not found"))
    ensures o.DockerFailure? ==> r == DockerReport(Down, Some(o.message))
  {
    match o
    case Unavailable => DockerReport(Unknown, Some("Docker library not available"))
    case Found(state) =>
      if state == "running" then DockerReport(Up, None)
      else DockerReport(Down, Some("Container status: " + state))
    case NotFound => DockerReport(Down, Some("Container not found"))
    case DockerFailure(message) => DockerReport(Down, Some(message))
  }
}
