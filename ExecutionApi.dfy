/**
 * The invoke operation of the execution API: find the named agents and their
 * deployment of the given name, run each found deployment now and wait until
 * its execution is done, then summarise the last such execution; and the
 * HTTP status chosen for an exception.
 *
 * The agent set is a sequence in its iteration order. The agent runtime and
 * the execution service are the functions of a Services value: the execution
 * id scheduleNow returns for a deployment, the successive answers
 * findExecution gives for an id (None for null), whether a status is done,
 * and the steps and logs the service finds.
 */
module ExecutionApi {
  import opened Common

  /** ExecutionStatus: ERROR is the only status tested by name here. */
  datatype ExecutionStatus = ErrorStatus | OtherStatus(name: string)

  /** LogLevel: ERROR is the only level tested by name here. */
  datatype LogLevel = ErrorLevel | OtherLevel(name: string)

  datatype Execution = Execution(id: string, status: ExecutionStatus, startTime: Option<int>, endTime: Option<int>)

  datatype AgentDeployment = AgentDeployment(id: string, name: string)

  datatype Agent = Agent(id: string, name: string, deployments: seq<AgentDeployment>)

  datatype ExecutionStep = ExecutionStep(id: string, status: ExecutionStatus)

  datatype ExecutionStepLog = ExecutionStepLog(level: LogLevel, text: string)

  datatype ExecutionResults = ExecutionResults(
    executionId: string,
    status: ExecutionStatus,
    startTime: Option<int>,
    endTime: Option<int>,
    message: Option<string>)

  /** What invoke returns, or the CouldNotFindDeploymentException it throws. */
  datatype InvokeOutcome =
    | Returned(results: ExecutionResults)
    | CouldNotFindDeployment(message: string)

  datatype Services = Services(
    scheduleNow: (Agent, AgentDeployment) -> string,
    findExecutionAnswers: string -> seq<Option<Execution>>,
    isDone: ExecutionStatus -> bool,
    findExecutionSteps: string -> seq<ExecutionStep>,
    findExecutionStepLogs: string -> seq<ExecutionStepLog>)

  /** The polling loop's exit test: an execution was found and its status is done. */
  predicate IsDone(svc: Services, e: Option<Execution>)
  {
    e.Some? && svc.isDone(e.value.status)
  }

  /** The run with this id is eventually reported done. */
  predicate EventuallyDone(svc: Services, executionId: string)
  {
    exists k :: 0 <= k < |svc.findExecutionAnswers(executionId)| && IsDone(svc, svc.findExecutionAnswers(executionId)[k])
  }

  /** The number of the first answer that is done. */
  function FirstDone(svc: Services, answers: seq<Option<Execution>>): (k: nat)
    requires exists j :: 0 <= j < |answers| && IsDone(svc, answers[j])
    ensures k < |answers| && IsDone(svc, answers[k])
    ensures forall j :: 0 <= j < k ==> !IsDone(svc, answers[j])
  {
    if IsDone(svc, answers[0]) then 0
    else
      var j :| 0 <= j < |answers| && IsDone(svc, answers[j]);
      assert answers[1..][j - 1] == answers[j];
      1 + FirstDone(svc, answers[1..])
  }

  /** The execution the polling loop ends with for a run. */
  function Awaited(svc: Services, executionId: string): (e: Execution)
    requires EventuallyDone(svc, executionId)
    ensures svc.isDone(e.status)
  {
    var answers := svc.findExecutionAnswers(executionId);
    answers[FirstDone(svc, answers)].value
  }

  /** The first deployment with the given name. */
  function FirstNamed(deployments: seq<AgentDeployment>, name: string): (r: Option<AgentDeployment>)
    ensures r.None? <==> forall j :: 0 <= j < |deployments| ==> deployments[j].name != name
    ensures r.Some? ==> r.value.name == name && r.value in deployments
    ensures r.Some? ==> exists i :: 0 <= i < |deployments| && deployments[i] == r.value
                                    && forall j :: 0 <= j < i ==> deployments[j].name != name
  {
    if deployments == [] then None
    else if deployments[0].name == name then Some(deployments[0])
    else
      var r := FirstNamed(deployments[1..], name);
      assert forall j :: 1 <= j < |deployments| ==> deployments[j] == deployments[1..][j - 1];
      if r.None? then r
      else
        var i :| 0 <= i < |deployments[1..]| && deployments[1..][i] == r.value
                 && forall j :: 0 <= j < i ==> deployments[1..][j].name != name;
        assert deployments[i + 1] == r.value;
        r
  }

  /** The runs invoke starts: for each agent with the name, in order, its first
      deployment with the deployment name. */
  function Runs(agents: seq<Agent>, agentName: string, deploymentName: string): seq<(Agent, AgentDeployment)>
  {
    if agents == [] then []
    else
      var a := agents[|agents| - 1];
      Runs(agents[..|agents| - 1], agentName, deploymentName)
      + (if a.name == agentName && FirstNamed(a.deployments, deploymentName).Some?
         then [(a, FirstNamed(a.deployments, deploymentName).value)] else [])
  }

  /** Every run invoke starts is eventually reported done: the polling loop
      of each agent with the name that has the deployment ends. */
  predicate RunsTerminate(agents: seq<Agent>, agentName: string, deploymentName: string, svc: Services)
  {
    forall j :: 0 <= j < |agents| && agents[j].name == agentName && FirstNamed(agents[j].deployments, deploymentName).Some?
      ==> EventuallyDone(svc, svc.scheduleNow(agents[j], FirstNamed(agents[j].deployments, deploymentName).value))
  }

  predicate HasAgentNamed(agents: seq<Agent>, agentName: string)
  {
    exists j :: 0 <= j < |agents| && agents[j].name == agentName
  }

  /** The message of the not-found exception, chosen from the two search flags. */
  function NotFoundMessage(foundAgent: bool, foundDeployment: bool, agentName: string, deploymentName: string): string
  {
    if !foundAgent then "Could not find an agent named '" + agentName + "'"
    else if !foundDeployment then "Could not find a deployment name '" + deploymentName + "'"
    else "Unexpected error"
  }

  /** The text of the first ERROR-level log. */
  function FirstErrorLog(logs: seq<ExecutionStepLog>): (r: Option<string>)
    ensures r.None? <==> forall j :: 0 <= j < |logs| ==> logs[j].level != ErrorLevel
    ensures r.Some? ==> exists i :: 0 <= i < |logs| && logs[i].level == ErrorLevel && logs[i].text == r.value
                                    && forall j :: 0 <= j < i ==> logs[j].level != ErrorLevel
  {
    if logs == [] then None
    else if logs[0].level == ErrorLevel then Some(logs[0].text)
    else
      var r := FirstErrorLog(logs[1..]);
      assert forall j :: 1 <= j < |logs| ==> logs[j] == logs[1..][j - 1];
      if r.None? then r
      else
        var i :| 0 <= i < |logs[1..]| && logs[1..][i].level == ErrorLevel && logs[1..][i].text == r.value
                 && forall j :: 0 <= j < i ==> logs[1..][j].level != ErrorLevel;
        assert logs[i + 1] == logs[1..][i];
        r
  }

  /** The message a failed step contributes: its first ERROR-level log, if it
      is in ERROR state. */
  function StepMessage(svc: Services, step: ExecutionStep): Option<string>
  {
    if step.status == ErrorStatus then FirstErrorLog(svc.findExecutionStepLogs(step.id)) else None
  }

  /** The result message after going through the steps in order: each ERROR
      step with an ERROR-level log overwrites what earlier steps set. */
  function StepsMessage(svc: Services, steps: seq<ExecutionStep>): Option<string>
  {
    if steps == [] then None
    else
      var m := StepMessage(svc, steps[|steps| - 1]);
      if m.Some? then m else StepsMessage(svc, steps[..|steps| - 1])
  }

  /** invoke as a function of the agents, the two names and the services. */
  function InvokeSpec(agents: seq<Agent>, agentName: string, deploymentName: string, svc: Services): InvokeOutcome
    requires RunsTerminate(agents, agentName, deploymentName, svc)
  {
    var runs := Runs(agents, agentName, deploymentName);
    if runs == [] then
      CouldNotFindDeployment(NotFoundMessage(HasAgentNamed(agents, agentName), false, agentName, deploymentName))
    else
      var (agent, deployment) := runs[|runs| - 1];
      RunsMatch(agents, agentName, deploymentName);
      assert runs[|runs| - 1] in runs;
      var j :| 0 <= j < |agents| && agents[j] == agent;
      var e := Awaited(svc, svc.scheduleNow(agent, deployment));
      Returned(ExecutionResults(e.id, e.status, e.startTime, e.endTime,
                                if e.status == ErrorStatus then StepsMessage(svc, svc.findExecutionSteps(e.id)) else None))
  }

  // ---- Properties of the specification ----

  /** Some run is started exactly when some agent with the name has a
      deployment with the deployment name; every run is such a pair. */
  lemma RunsExactlyMatching(agents: seq<Agent>, agentName: string, deploymentName: string)
    ensures Runs(agents, agentName, deploymentName) == [] <==>
              forall j :: 0 <= j < |agents| && agents[j].name == agentName ==>
                            FirstNamed(agents[j].deployments, deploymentName).None?
    ensures forall r :: r in Runs(agents, agentName, deploymentName) ==>
              r.0 in agents && r.0.name == agentName && Some(r.1) == FirstNamed(r.0.deployments, deploymentName)
  {
    RunsEmpty(agents, agentName, deploymentName);
    RunsMatch(agents, agentName, deploymentName);
  }

  lemma {:induction false} RunsEmpty(agents: seq<Agent>, agentName: string, deploymentName: string)
    ensures Runs(agents, agentName, deploymentName) == [] <==>
              forall j :: 0 <= j < |agents| && agents[j].name == agentName ==>
                            FirstNamed(agents[j].deployments, deploymentName).None?
    decreases |agents|
  {
    if agents != [] {
      var init := agents[..|agents| - 1];
      RunsEmpty(init, agentName, deploymentName);
      assert forall j :: 0 <= j < |init| ==> agents[j] == init[j];
    }
  }

  lemma {:induction false} RunsMatch(agents: seq<Agent>, agentName: string, deploymentName: string)
    ensures forall r :: r in Runs(agents, agentName, deploymentName) ==>
              r.0 in agents && r.0.name == agentName && Some(r.1) == FirstNamed(r.0.deployments, deploymentName)
    decreases |agents|
  {
    if agents != [] {
      var init := agents[..|agents| - 1];
      RunsMatch(init, agentName, deploymentName);
      assert agents == init + [agents[|agents| - 1]];
    }
  }

  /** The runs of two stretches of agents are the runs of the first followed
      by those of the second: the agents are visited in order. */
  lemma {:induction false} RunsAppend(agents: seq<Agent>, more: seq<Agent>, agentName: string, deploymentName: string)
    ensures Runs(agents + more, agentName, deploymentName)
            == Runs(agents, agentName, deploymentName) + Runs(more, agentName, deploymentName)
    decreases |more|
  {
    if more != [] {
      var init := more[..|more| - 1];
      assert (agents + more)[..|agents + more| - 1] == agents + init;
      assert (agents + more)[|agents + more| - 1] == more[|more| - 1];
      RunsAppend(agents, init, agentName, deploymentName);
    } else {
      assert agents + more == agents;
    }
  }

  /** Every agent with the name that has a deployment with the deployment
      name gets a run, of its first such deployment. */
  lemma {:induction false} RunsComplete(agents: seq<Agent>, agentName: string, deploymentName: string, j: int)
    requires 0 <= j < |agents| && agents[j].name == agentName
    requires FirstNamed(agents[j].deployments, deploymentName).Some?
    ensures (agents[j], FirstNamed(agents[j].deployments, deploymentName).value) in Runs(agents, agentName, deploymentName)
    decreases |agents|
  {
    var init := agents[..|agents| - 1];
    if j < |init| {
      assert init[j] == agents[j];
      RunsComplete(init, agentName, deploymentName, j);
    }
  }

  /** The exception is thrown exactly when no run was started. Its message
      names the agent when no agent has the name, and the deployment otherwise;
      "Unexpected error" is never the message. */
  lemma InvokeNotFound(agents: seq<Agent>, agentName: string, deploymentName: string, svc: Services)
    requires RunsTerminate(agents, agentName, deploymentName, svc)
    ensures InvokeSpec(agents, agentName, deploymentName, svc).CouldNotFindDeployment?
            <==> Runs(agents, agentName, deploymentName) == []
    ensures var r := InvokeSpec(agents, agentName, deploymentName, svc);
            r.CouldNotFindDeployment? ==>
              && (!HasAgentNamed(agents, agentName) ==> r.message == "Could not find an agent named '" + agentName + "'")
              && (HasAgentNamed(agents, agentName) ==> r.message == "Could not find a deployment name '" + deploymentName + "'")
              && r.message != "Unexpected error"
  {
    var r := InvokeSpec(agents, agentName, deploymentName, svc);
    if r.CouldNotFindDeployment? {
      assert r.message[0] == 'C';
    }
  }

  /** A returned result always carries a done status, and the execution of the
      last run started. */
  lemma InvokeReturnsDone(agents: seq<Agent>, agentName: string, deploymentName: string, svc: Services)
    requires RunsTerminate(agents, agentName, deploymentName, svc)
    ensures var r := InvokeSpec(agents, agentName, deploymentName, svc);
            var runs := Runs(agents, agentName, deploymentName);
            r.Returned? ==>
              && svc.isDone(r.results.status)
              && r.results.executionId
                 == Awaited(svc, svc.scheduleNow(runs[|runs| - 1].0, runs[|runs| - 1].1)).id
              && (r.results.status != ErrorStatus ==> r.results.message.None?)
  {
  }

  /** The result message is null exactly when no step is an ERROR step with
      an ERROR-level log. */
  lemma {:induction false} StepsMessageNoneIff(svc: Services, steps: seq<ExecutionStep>)
    ensures StepsMessage(svc, steps).None? <==> forall j :: 0 <= j < |steps| ==> StepMessage(svc, steps[j]).None?
    decreases |steps|
  {
    if steps != [] {
      var init := steps[..|steps| - 1];
      StepsMessageNoneIff(svc, init);
      assert forall j :: 0 <= j < |init| ==> steps[j] == init[j];
    }
  }

  /** Step `i` is an ERROR step whose message is the result message, and no
      later step has one. */
  predicate IsLastFailure(svc: Services, steps: seq<ExecutionStep>, i: nat)
    requires i < |steps|
  {
    && StepMessage(svc, steps[i]) == StepsMessage(svc, steps)
    && steps[i].status == ErrorStatus
    && forall j :: i < j < |steps| ==> StepMessage(svc, steps[j]).None?
  }

  /** A result message comes from the last ERROR step that has an ERROR-level
      log, and is that step's first such log. */
  lemma {:induction false} StepsMessageIsLastFailure(svc: Services, steps: seq<ExecutionStep>)
    ensures StepsMessage(svc, steps).Some? ==> exists i :: 0 <= i < |steps| && IsLastFailure(svc, steps, i)
    decreases |steps|
  {
    if steps != [] && StepsMessage(svc, steps).Some? {
      var last := |steps| - 1;
      if StepMessage(svc, steps[last]).Some? {
        assert IsLastFailure(svc, steps, last);
      } else {
        var init := steps[..last];
        assert StepsMessage(svc, steps) == StepsMessage(svc, init);
        StepsMessageIsLastFailure(svc, init);
        var i :| 0 <= i < |init| && IsLastFailure(svc, init, i);
        assert steps[i] == init[i];
        assert forall j :: i < j < last ==> steps[j] == init[j];
        assert IsLastFailure(svc, steps, i);
      }
    }
  }

  // ---- The operations ----

  /** The do/while polling loop: asks for the execution until it is found and
      done (the five-second sleep between polls is left out). */
  method AwaitExecution(svc: Services, executionId: string) returns (execution: Execution)
    requires EventuallyDone(svc, executionId)
    ensures execution == Awaited(svc, executionId)
  {
    var answers := svc.findExecutionAnswers(executionId);
    ghost var w :| 0 <= w < |answers| && IsDone(svc, answers[w]);
    var k := 0;
    var found := answers[0];
    var done := found.Some? && svc.isDone(found.value.status);
    while !done
      invariant 0 <= k <= w && found == answers[k]
      invariant done == IsDone(svc, found)
      invariant forall j :: 0 <= j < k ==> !IsDone(svc, answers[j])
      decreases w - k
    {
      k := k + 1;
      found := answers[k];
      done := found.Some? && svc.isDone(found.value.status);
    }
    assert FirstDone(svc, answers) == k;
    execution := found.value;
  }

  /** The loop over the steps of a failed execution: each ERROR step's first
      ERROR-level log overwrites the message. */
  method SummariseErrors(svc: Services, steps: seq<ExecutionStep>) returns (message: Option<string>)
    ensures message == StepsMessage(svc, steps)
  {
    message := None;
    var i := 0;
    while i < |steps|
      invariant 0 <= i <= |steps|
      invariant message == StepsMessage(svc, steps[..i])
    {
      var step := steps[i];
      assert steps[..i + 1][..i] == steps[..i];
      if step.status == ErrorStatus {
        var logs := svc.findExecutionStepLogs(step.id);
        var k := 0;
        while k < |logs|
          invariant 0 <= k <= |logs|
          invariant FirstErrorLog(logs) == FirstErrorLog(logs[k..])
          invariant message == StepsMessage(svc, steps[..i])
        {
          if logs[k].level == ErrorLevel {
            message := Some(logs[k].text);
            break;
          }
          assert logs[k..][1..] == logs[k + 1..];
          k := k + 1;
        }
      }
      i := i + 1;
    }
    assert steps[..i] == steps;
  }

  /** invoke: runs the deployment on every agent with the name, waits for each
      run, and summarises the last; throws when no run was started. Also
      returns the runs started, in order. */
  method Invoke(agents: seq<Agent>, agentName: string, deploymentName: string, svc: Services)
    returns (outcome: InvokeOutcome, runs: seq<(Agent, AgentDeployment)>)
    requires RunsTerminate(agents, agentName, deploymentName, svc)
    ensures runs == Runs(agents, agentName, deploymentName)
    ensures outcome == InvokeSpec(agents, agentName, deploymentName, svc)
  {
    var execution: Option<Execution> := None;
    var foundAgent := false;
    var foundDeployment := false;
    runs := [];
    var i := 0;
    while i < |agents|
      invariant 0 <= i <= |agents|
      invariant runs == Runs(agents[..i], agentName, deploymentName)
      invariant foundAgent == HasAgentNamed(agents[..i], agentName)
      invariant foundDeployment == (runs != [])
      invariant runs != [] ==> EventuallyDone(svc, svc.scheduleNow(runs[|runs| - 1].0, runs[|runs| - 1].1))
      invariant execution == if runs == [] then None
                             else Some(Awaited(svc, svc.scheduleNow(runs[|runs| - 1].0, runs[|runs| - 1].1)))
    {
      var agent := agents[i];
      assert agents[..i + 1] == agents[..i] + [agent];
      assert agents[..i + 1][..i] == agents[..i];
      if agent.name == agentName {
        foundAgent := true;
        var agentDeployment := FindDeployment(agent.deployments, deploymentName);
        if agentDeployment.Some? {
          foundDeployment := true;
          var executionId := svc.scheduleNow(agent, agentDeployment.value);
          var e := AwaitExecution(svc, executionId);
          execution := Some(e);
          runs := runs + [(agent, agentDeployment.value)];
        }
      }
      i := i + 1;
    }
    assert agents[..i] == agents;

    if execution.Some? {
      var results := Summarise(svc, execution.value);
      outcome := Returned(results);
    } else {
      outcome := CouldNotFindDeployment(NotFoundMessage(foundAgent, foundDeployment, agentName, deploymentName));
    }
  }

  /** The results invoke returns for the awaited execution: the message is
      looked up only for an execution in ERROR state. */
  method Summarise(svc: Services, e: Execution) returns (results: ExecutionResults)
    ensures results.executionId == e.id && results.status == e.status
    ensures results.startTime == e.startTime && results.endTime == e.endTime
    ensures results.message == if e.status == ErrorStatus then StepsMessage(svc, svc.findExecutionSteps(e.id)) else None
  {
    var message: Option<string> := None;
    if e.status == ErrorStatus {
      var steps := svc.findExecutionSteps(e.id);
      message := SummariseErrors(svc, steps);
    }
    results := ExecutionResults(e.id, e.status, e.startTime, e.endTime, message);
  }

  /** invoke's inner loop: the first of an agent's deployments with the
      name, found by a linear search that stops there. */
  method FindDeployment(deployments: seq<AgentDeployment>, deploymentName: string)
    returns (found: Option<AgentDeployment>)
    ensures found == FirstNamed(deployments, deploymentName)
  {
    var k := 0;
    while k < |deployments|
      invariant 0 <= k <= |deployments|
      invariant FirstNamed(deployments, deploymentName) == FirstNamed(deployments[k..], deploymentName)
    {
      if deployments[k].name == deploymentName {
        return Some(deployments[k]);
      }
      assert deployments[k..][1..] == deployments[k + 1..];
      k := k + 1;
    }
    return None;
  }

  /** An exception as handleError sees it: its class, its message, and the
      status code of a @ResponseStatus annotation on its class, if any. */
  datatype ApiException = ApiException(className: string, message: string, responseStatus: Option<int>)

  datatype RestError = RestError(exception: ApiException, httpErrorCode: int)

  /** handleError: the error body carries the exception and its class's
      annotated status, or 500 when the class has no @ResponseStatus. */
  function HandleError(ex: ApiException): (r: RestError)
    ensures r.exception == ex
    ensures ex.responseStatus.None? ==> r.httpErrorCode == 500
    ensures ex.responseStatus.Some? ==> r.httpErrorCode == ex.responseStatus.value
  {
    var httpErrorCode := if ex.responseStatus.Some? then ex.responseStatus.value else 500;
    RestError(ex, httpErrorCode)
  }
}
