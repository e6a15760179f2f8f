/** check_service_health: how a service's check_type combines the HTTP and
    the container probe into one verdict. */
module Evaluator {
  import opened Base
  import opened Probes
  import opened Registry

  /** How the check_type text is read: "http", "docker", "both", or any
      other text, which neither probe applies to. */
  datatype CheckMode = HttpMode | DockerMode | BothMode | OtherMode

  function ModeOf(checkType: string): CheckMode
  {
    if checkType == "http" then HttpMode
    else if checkType == "docker" then DockerMode
    else if checkType == "both" then BothMode
    else OtherMode
  }

  /** The probes a call can consult. */
  datatype Probe = HttpProbe | DockerProbe

  /** The result dict before any probe has run. */
  const Initial := Verdict(Unknown, None, None)

  /** Python truthiness of an optional text column: None and "" are false. */
  predicate Truthy(o: Option<string>)
  {
    o.Some? && o.value != ""
  }

  predicate HttpApplies(svc: ServiceRow)
  {
    ModeOf(svc.checkType) in {HttpMode, BothMode} && Truthy(svc.url)
  }

  predicate DockerApplies(svc: ServiceRow)
  {
    ModeOf(svc.checkType) in {DockerMode, BothMode} && Truthy(svc.dockerContainer)
  }

  /** The verdict of a service, per check mode, when the HTTP probe would
      yield `h` and the container probe `d`. */
  function Evaluate(svc: ServiceRow, h: HttpOutcome, d: DockerOutcome): Verdict
  {
    var hv := CheckHttpHealth(h);
    var dv := CheckDockerHealth(d);
    match ModeOf(svc.checkType)
    case HttpMode => if Truthy(svc.url) then hv else Initial
    case DockerMode =>
      if Truthy(svc.dockerContainer) then Verdict(dv.status, None, dv.error) else Initial
    case BothMode =>
      if !Truthy(svc.url) then Initial
      else if hv.status != Up || !Truthy(svc.dockerContainer) || dv.status == Up then hv
      else Verdict(Degraded, hv.responseTimeMs, dv.error)
    case OtherMode => Initial
  }

  /** The probes Evaluate's verdict depends on, in the order they are asked. */
  function Consulted(svc: ServiceRow, h: HttpOutcome): seq<Probe>
  {
    match ModeOf(svc.checkType)
    case HttpMode => if Truthy(svc.url) then [HttpProbe] else []
    case DockerMode => if Truthy(svc.dockerContainer) then [DockerProbe] else []
    case BothMode =>
      if !Truthy(svc.url) then []
      else if CheckHttpHealth(h).status == Up && Truthy(svc.dockerContainer) then [HttpProbe, DockerProbe]
      else [HttpProbe]
    case OtherMode => []
  }

  /** What each check mode yields, and which probes it asks. */
  lemma EvaluateByMode(svc: ServiceRow, h: HttpOutcome, d: DockerOutcome)
    ensures var result, probed := Evaluate(svc, h, d), Consulted(svc, h);
      // http mode: the HTTP verdict verbatim, or the initial one without a url; never the container
      && (ModeOf(svc.checkType) == HttpMode ==>
            result == (if Truthy(svc.url) then CheckHttpHealth(h) else Initial) && DockerProbe !in probed)
      // docker mode: the container's status and error, and never a response time
      && (ModeOf(svc.checkType) == DockerMode ==>
            HttpProbe !in probed && result.responseTimeMs == None
            && (Truthy(svc.dockerContainer) ==>
                  result.status == CheckDockerHealth(d).status && result.error == CheckDockerHealth(d).error)
            && (!Truthy(svc.dockerContainer) ==> result == Initial))
      // both mode without a url: nothing runs and the result stays unknown
      && (ModeOf(svc.checkType) == BothMode && !Truthy(svc.url) ==> result == Initial && probed == [])
      // both mode, endpoint not up: the HTTP verdict verbatim and the container is not asked
      && (ModeOf(svc.checkType) == BothMode && Truthy(svc.url) && CheckHttpHealth(h).status != Up ==>
            result == CheckHttpHealth(h) && probed == [HttpProbe])
      // both mode, endpoint up: up if the container is up, otherwise degraded with the container's error
      && ((ModeOf(svc.checkType) == BothMode && Truthy(svc.url) && Truthy(svc.dockerContainer)
           && CheckHttpHealth(h).status == Up) ==>
            probed == [HttpProbe, DockerProbe]
            && result.responseTimeMs == CheckHttpHealth(h).responseTimeMs
            && (CheckDockerHealth(d).status == Up ==> result.status == Up && result.error == None)
            && (CheckDockerHealth(d).status != Up ==>
                  result.status == Degraded && result.error == CheckDockerHealth(d).error))
      // both mode with a url but no container: the HTTP verdict verbatim, and the container is not asked
      && (ModeOf(svc.checkType) == BothMode && Truthy(svc.url) && !Truthy(svc.dockerContainer) ==>
            result == CheckHttpHealth(h) && probed == [HttpProbe])
      // any other check_type: the initial verdict
      && (ModeOf(svc.checkType) == OtherMode ==> result == Initial && probed == [])
  {
  }

  /** check_service_health, updating the result step by step. `h` and `d`
      are what the two probes would observe; `probed` lists the probes it
      actually asked. */
  method CheckServiceHealth(svc: ServiceRow, h: HttpOutcome, d: DockerOutcome)
    returns (result: Verdict, probed: seq<Probe>)
    ensures result == Evaluate(svc, h, d) && probed == Consulted(svc, h)
  {
    var mode := ModeOf(svc.checkType);
    var status, responseTimeMs, error := Unknown, None, None;
    probed := [];

    if HttpApplies(svc) {
      var hv := CheckHttpHealth(h);
      probed := probed + [HttpProbe];
      status, responseTimeMs, error := hv.status, hv.responseTimeMs, hv.error;
    }

    if DockerApplies(svc) {
      if mode == DockerMode || status == Up {
        var dv := CheckDockerHealth(d);
        probed := probed + [DockerProbe];
        if mode == DockerMode {
          status, error := dv.status, dv.error;
        } else if dv.status != Up {
          status, error := Degraded, dv.error;
        }
      }
    }

    result := Verdict(status, responseTimeMs, error);
  }
}
