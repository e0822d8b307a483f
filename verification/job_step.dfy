/**
 * A job step: one command of a job, run in parallel as one execution per
 * node allocated to the job.
 */
module JobSteps {
  import opened Wrappers
  import opened Values
  import opened Nodes
  import Jobs

  const ExecutionStates: seq<string> := ["INITIALIZING", "RUNNING", "COMPLETED", "FAILED"]

  const HashMessage: string := "must be a hash"

  /**
   * An execution of a step on one node. `hasJobStep` stands for the
   * back-reference to the owning step; `port` is whatever the node reported.
   */
  datatype Execution = Execution(id: string, hasJobStep: bool, node: Option<Node>, port: Value, state: Option<string>)

  datatype JobStep = JobStep(
    arguments: Value,
    executions: seq<Execution>,
    id: Option<string>,
    job: Option<Jobs.Job>,
    path: Option<string>,
    pty: Value,
    envs: Value)

  /** `JobStep.new`: a missing list of executions becomes the empty list. */
  function NewStep(arguments: Value, executions: Option<seq<Execution>>, id: Option<string>,
                   job: Option<Jobs.Job>, path: Option<string>, pty: Value, envs: Value): (s: JobStep)
    ensures s.executions == executions.GetOr([])
    ensures executions.None? ==> Submitted(s.executions)
  {
    JobStep(arguments, executions.GetOr([]), id, job, path, pty, envs)
  }

  /** `pty?`: the truthiness of the `pty` setting. */
  predicate IsPty(step: JobStep) {
    Truthy(step.pty)
  }

  /** Only `nil` and `false` switch the terminal off. */
  lemma PtyOnlyOffWhenFalsy(step: JobStep)
    ensures !IsPty(step) <==> step.pty == Nil || step.pty == Bool(false)
  {
  }

  /** `submitted?`: every execution has reported a port. */
  function Submitted(executions: seq<Execution>): (r: bool)
    ensures r <==> forall e :: e in executions ==> Truthy(e.port)
  {
    if |executions| == 0 then true
    else
      assert forall e :: e in executions <==> e == executions[0] || e in executions[1..];
      Truthy(executions[0].port) && Submitted(executions[1..])
  }

  /** The id `add_execution` gives: `<job id>.<step id>.<node name>`. */
  function ExecutionId(jobId: Option<string>, stepId: Option<string>, nodeName: string): string {
    Jobs.IdText(jobId) + "." + Jobs.IdText(stepId) + "." + nodeName
  }

  /**
   * `add_execution(node)`: a new execution on the node, owned by the step,
   * with no port and no state yet, appended to the step's executions.
   */
  function AddExecution(step: JobStep, node: Node): (r: (JobStep, Execution))
    requires step.job.Some?
    ensures r.0.executions == step.executions + [r.1]
    ensures r.0.(executions := step.executions) == step
    ensures r.1.node == Some(node) && r.1.hasJobStep
    ensures r.1.port == Nil && r.1.state == None
    ensures r.1.id == ExecutionId(step.job.value.id, step.id, node.name)
  {
    var e := Execution(ExecutionId(step.job.value.id, step.id, node.name), true, Some(node), Nil, None);
    (step.(executions := step.executions + [e]), e)
  }

  /** A step that has just gained an execution is not submitted. */
  lemma AddExecutionUnsubmits(step: JobStep, node: Node)
    requires step.job.Some?
    ensures !Submitted(AddExecution(step, node).0.executions)
  {
    var r := AddExecution(step, node);
    assert r.1 in r.0.executions;
  }

  /** The position of the first `.` of a text. */
  function FirstDot(s: string): (r: nat)
    requires '.' in s
    ensures r < |s| && s[r] == '.' && '.' !in s[..r]
  {
    if s[0] == '.' then 0
    else
      assert '.' in s[1..] by {
        var k :| 0 <= k < |s| && s[k] == '.';
        assert s[1..][k - 1] == '.';
      }
      var k := FirstDot(s[1..]);
      assert s[..k + 1] == [s[0]] + s[1..][..k];
      k + 1
  }

  /** The first `.` of `a.b`, with `a` free of dots, ends `a`. */
  lemma FirstDotAfter(a: string, b: string)
    requires '.' !in a
    ensures '.' in a + "." + b && FirstDot(a + "." + b) == |a|
  {
    var s := a + "." + b;
    assert s[|a|] == '.';
  }

  /** Two texts free of `.` joined by `.` can be split apart again. */
  lemma SplitAtDot(a: string, b: string, c: string, d: string)
    requires '.' !in a && '.' !in c
    requires a + "." + b == c + "." + d
    ensures a == c && b == d
  {
    var s := a + "." + b;
    FirstDotAfter(a, b);
    FirstDotAfter(c, d);
    assert a == s[..|a|] == c;
    assert b == s[|a| + 1..] == d;
  }

  /** Execution ids are unique when job and step ids contain no `.`. */
  lemma ExecutionIdInjective(j1: Option<string>, s1: Option<string>, n1: string,
                             j2: Option<string>, s2: Option<string>, n2: string)
    requires '.' !in Jobs.IdText(j1) && '.' !in Jobs.IdText(j2)
    requires '.' !in Jobs.IdText(s1) && '.' !in Jobs.IdText(s2)
    requires ExecutionId(j1, s1, n1) == ExecutionId(j2, s2, n2)
    ensures Jobs.IdText(j1) == Jobs.IdText(j2) && Jobs.IdText(s1) == Jobs.IdText(s2) && n1 == n2
  {
    var a1, a2 := Jobs.IdText(j1), Jobs.IdText(j2);
    var b1, b2 := Jobs.IdText(s1), Jobs.IdText(s2);
    assert a1 + "." + (b1 + "." + n1) == ExecutionId(j1, s1, n1);
    assert a2 + "." + (b2 + "." + n2) == ExecutionId(j2, s2, n2);
    SplitAtDot(a1, b1 + "." + n1, a2, b2 + "." + n2);
    SplitAtDot(b1, n1, b2, n2);
  }

  /** `display_id`: the job's display id, a `.`, then the step id; the job's display id is a parameter. */
  function DisplayId(jobDisplayId: string, step: JobStep): (r: string)
    requires step.job.Some?
    ensures |r| == |jobDisplayId| + 1 + |Jobs.IdText(step.id)|
    ensures r[..|jobDisplayId|] == jobDisplayId && r[|jobDisplayId|] == '.'
    ensures r[|jobDisplayId| + 1..] == Jobs.IdText(step.id)
  {
    jobDisplayId + "." + Jobs.IdText(step.id)
  }

  /** Within one job, display ids tell steps apart exactly by their ids. */
  lemma DisplayIdDistinguishesSteps(jobDisplayId: string, a: JobStep, b: JobStep)
    requires a.job.Some? && b.job.Some?
    ensures DisplayId(jobDisplayId, a) == DisplayId(jobDisplayId, b) <==> Jobs.IdText(a.id) == Jobs.IdText(b.id)
  {
    var p := jobDisplayId + ".";
    if DisplayId(jobDisplayId, a) == DisplayId(jobDisplayId, b) {
      assert Jobs.IdText(a.id) == DisplayId(jobDisplayId, a)[|p|..];
      assert Jobs.IdText(b.id) == DisplayId(jobDisplayId, b)[|p|..];
    }
  }

  /**
   * Whether every execution `detect` reads is on a node: the scan stops at
   * the first execution on `nodeName`, so later ones may be unplaced.
   */
  predicate ScanPlaced(executions: seq<Execution>, nodeName: string)
    decreases |executions|
  {
    || |executions| == 0
    || (executions[0].node.Some?
        && (executions[0].node.value.name == nodeName || ScanPlaced(executions[1..], nodeName)))
  }

  /** The first execution on the named node: the reference `execution_for` is held to. */
  function FirstOn(executions: seq<Execution>, nodeName: string): (r: Option<Execution>)
    requires ScanPlaced(executions, nodeName)
    ensures r.Some? ==> r.value in executions && r.value.node.Some? && r.value.node.value.name == nodeName
    ensures r.Some? ==> exists k :: (0 <= k < |executions| && executions[k] == r.value
      && forall j :: 0 <= j < k ==> executions[j].node.Some? && executions[j].node.value.name != nodeName)
    ensures r.None? <==> forall i :: 0 <= i < |executions| ==>
      executions[i].node.Some? && executions[i].node.value.name != nodeName
  {
    if |executions| == 0 then None
    else if executions[0].node.value.name == nodeName then Some(executions[0])
    else
      var r := FirstOn(executions[1..], nodeName);
      assert forall i :: 0 < i < |executions| ==> executions[i] == executions[1..][i - 1];
      r
  }

  /** `execution_for(node_name)`: scans the executions in order for the first on that node. */
  method ExecutionFor(step: JobStep, nodeName: string) returns (r: Option<Execution>)
    requires ScanPlaced(step.executions, nodeName)
    ensures r == FirstOn(step.executions, nodeName)
    ensures r.None? <==> forall e :: e in step.executions ==> e.node.Some? && e.node.value.name != nodeName
  {
    var i := 0;
    while i < |step.executions|
      invariant 0 <= i <= |step.executions|
      invariant ScanPlaced(step.executions[i..], nodeName)
      invariant FirstOn(step.executions, nodeName) == FirstOn(step.executions[i..], nodeName)
    {
      var e := step.executions[i];
      assert step.executions[i..][0] == e;
      if e.node.value.name == nodeName {
        return Some(e);
      }
      assert step.executions[i..][1..] == step.executions[i + 1..];
      i := i + 1;
    }
    return None;
  }

  /** When no execution is on the named node and all are placed, the scan reads them all and finds none. */
  lemma {:induction false} NoneOnScansAll(executions: seq<Execution>, nodeName: string)
    requires forall e :: e in executions ==> e.node.Some? && e.node.value.name != nodeName
    ensures ScanPlaced(executions, nodeName)
    ensures FirstOn(executions, nodeName) == None
    decreases |executions|
  {
    if |executions| > 0 {
      assert executions[0] in executions;
      assert forall e :: e in executions[1..] ==> e in executions;
      NoneOnScansAll(executions[1..], nodeName);
    }
  }

  /** Earlier executions on a node shadow later ones; a new node's execution is found. */
  lemma {:induction false} FirstOnAfterAppend(executions: seq<Execution>, e: Execution, nodeName: string)
    requires ScanPlaced(executions, nodeName) && e.node.Some?
    ensures ScanPlaced(executions + [e], nodeName)
    ensures FirstOn(executions + [e], nodeName) ==
      if FirstOn(executions, nodeName).Some? then FirstOn(executions, nodeName)
      else if e.node.value.name == nodeName then Some(e) else None
    decreases |executions|
  {
    if |executions| > 0 {
      assert (executions + [e])[0] == executions[0];
      assert (executions + [e])[1..] == executions[1..] + [e];
      if executions[0].node.value.name != nodeName {
        FirstOnAfterAppend(executions[1..], e, nodeName);
      }
    } else {
      assert [e][1..] == [];
    }
  }

  /** After `add_execution(node)` on a node the step had no execution on, `execution_for` finds it. */
  lemma AddedExecutionIsFound(step: JobStep, node: Node)
    requires step.job.Some?
    requires forall e :: e in step.executions ==> e.node.Some? && e.node.value.name != node.name
    ensures ScanPlaced(AddExecution(step, node).0.executions, node.name)
    ensures FirstOn(AddExecution(step, node).0.executions, node.name) == Some(AddExecution(step, node).1)
  {
    var r := AddExecution(step, node);
    NoneOnScansAll(step.executions, node.name);
    FirstOnAfterAppend(step.executions, r.1, node.name);
  }

  // ---------------------------------------------------------------------------
  // Validation

  /** `validates :job, presence: true`: any job object is present. */
  function JobErrors(step: JobStep): (errors: seq<ValidationError>)
    ensures errors == [] <==> step.job.Some?
  {
    if step.job.None? then [AttrError("job", BlankMessage)] else []
  }

  /**
   * The validations of a step as written. The `envs` check passes the value
   * of `envs`, not the attribute name, to `errors.add`, which turns it into
   * a symbol with `to_sym`: a String or Symbol `envs` files the message
   * under that symbol, and any other non-hash value (`nil`, a number, a
   * list, a boolean) has no `to_sym`, so `valid?` raises (`None`).
   */
  function StepErrorsAsWritten(step: JobStep): (r: Option<seq<ValidationError>>)
    ensures r.None? <==> !IsHash(step.envs) && !step.envs.Str? && !step.envs.Sym?
    ensures r.Some? ==> (r.value == [] <==> step.job.Some? && step.path.Some? && !IsBlank(step.path.value) && IsHash(step.envs))
    ensures step.envs.Str? ==> r.Some? && ValidationError(Sym(step.envs.s), HashMessage) in r.value
    ensures step.envs.Sym? ==> r.Some? && ValidationError(step.envs, HashMessage) in r.value
  {
    var rest := JobErrors(step) + Jobs.PresenceErrors("path", step.path);
    match step.envs
    case Hash(_) => Some(rest)
    case Str(text) => Some(rest + [ValidationError(Sym(text), HashMessage)])
    case Sym(name) => Some(rest + [ValidationError(Sym(name), HashMessage)])
    case _ => None
  }

  /** The step validations with the `envs` error filed under `envs`. */
  function StepErrors(step: JobStep): (errors: seq<ValidationError>)
    ensures errors == [] <==> step.job.Some? && step.path.Some? && !IsBlank(step.path.value) && IsHash(step.envs)
    ensures !IsHash(step.envs) <==> AttrError("envs", HashMessage) in errors
    ensures forall e :: e in errors ==> e.attribute in [Sym("job"), Sym("path"), Sym("envs")]
  {
    JobErrors(step)
    + Jobs.PresenceErrors("path", step.path)
    + (if IsHash(step.envs) then [] else [AttrError("envs", HashMessage)])
  }

  /** With `envs` left unset, `valid?` raises as written; the corrected rule rejects the step under `envs`. */
  lemma UnsetEnvsRaisesAsWritten(step: JobStep)
    requires step.envs == Nil
    ensures StepErrorsAsWritten(step).None?
    ensures AttrError("envs", HashMessage) in StepErrors(step)
  {
  }

  /**
   * A String `envs` other than "envs" is rejected as written, yet no error
   * is filed under `envs`: the message goes under the key the text names.
   */
  lemma EnvsErrorMisfiled(step: JobStep)
    requires step.envs.Str? && step.envs.s != "envs"
    ensures StepErrorsAsWritten(step).Some? && StepErrorsAsWritten(step).value != []
    ensures ValidationError(Sym(step.envs.s), HashMessage) in StepErrorsAsWritten(step).value
    ensures forall e :: e in StepErrorsAsWritten(step).value ==> e.attribute != Sym("envs")
    ensures AttrError("envs", HashMessage) in StepErrors(step)
  {
  }

  /** The `envs` text "PATH=/bin" is filed under the key `:"PATH=/bin"` as written. */
  lemma EnvsErrorMisfiledExample(job: Jobs.Job)
    ensures var step := NewStep(Nil, None, Some("1"), Some(job), Some("run.sh"), Nil, Str("PATH=/bin"));
      StepErrorsAsWritten(step) == Some([ValidationError(Sym("PATH=/bin"), HashMessage)])
      && StepErrors(step) == [AttrError("envs", HashMessage)]
  {
    var step := NewStep(Nil, None, Some("1"), Some(job), Some("run.sh"), Nil, Str("PATH=/bin"));
    assert !IsSpace("run.sh"[0]);
    var rest := JobErrors(step) + Jobs.PresenceErrors("path", step.path);
    assert rest == [];
    var misfiled := [ValidationError(Sym("PATH=/bin"), HashMessage)];
    assert rest + misfiled == misfiled;
    assert StepErrorsAsWritten(step) == Some(rest + misfiled);
  }

  /**
   * Where the written rule reaches a verdict, both versions accept and
   * reject the same steps and differ only in where the message is filed;
   * where it raises, the corrected rule rejects the step instead.
   */
  lemma CorrectionKeepsVerdict(step: JobStep)
    ensures StepErrorsAsWritten(step).Some? ==> (StepErrors(step) == [] <==> StepErrorsAsWritten(step).value == [])
    ensures StepErrorsAsWritten(step).None? ==> StepErrors(step) != []
  {
  }

  /** The `initializing?`, `running?`, `completed?` and `failed?` predicates. */
  predicate InState(e: Execution, s: string) {
    e.state == Some(s)
  }

  /** No execution state name is blank. */
  lemma ExecutionStatesNotBlank()
    ensures forall s :: s in ExecutionStates ==> !IsBlank(s)
  {
    forall s | s in ExecutionStates
      ensures !IsBlank(s)
    {
      assert !IsSpace(s[0]);
    }
  }

  /** The presence and inclusion rules on an execution's state. */
  function ExecutionStateErrors(state: Option<string>): (errors: seq<ValidationError>)
    ensures errors == [] <==> state.Some? && state.value in ExecutionStates
    ensures state.None? ==> errors == [AttrError("state", BlankMessage), AttrError("state", InclusionMessage)]
  {
    ExecutionStatesNotBlank();
    Jobs.PresenceErrors("state", state) + Jobs.InclusionErrors("state", state, ExecutionStates, false)
  }

  /** The validations of an execution. */
  function ExecutionErrors(e: Execution): (errors: seq<ValidationError>)
    ensures errors == [] <==> e.hasJobStep && e.node.Some? && e.state.Some? && e.state.value in ExecutionStates
    ensures e.state.None? ==> |errors| >= 2 && errors[|errors| - 2..] == [AttrError("state", BlankMessage), AttrError("state", InclusionMessage)]
  {
    var owners := (if e.hasJobStep then [] else [AttrError("job_step", BlankMessage)])
      + (if e.node.Some? then [] else [AttrError("node", BlankMessage)]);
    var states := ExecutionStateErrors(e.state);
    assert (owners + states)[|owners|..] == states;
    owners + states
  }

  /** A valid execution answers exactly one of the four state predicates. */
  lemma ValidExecutionHasOneState(e: Execution)
    requires ExecutionErrors(e) == []
    ensures exists s :: s in ExecutionStates && InState(e, s)
    ensures forall s, t :: s in ExecutionStates && t in ExecutionStates && InState(e, s) && InState(e, t) ==> s == t
  {
    assert e.state.value in ExecutionStates && InState(e, e.state.value);
  }
}
