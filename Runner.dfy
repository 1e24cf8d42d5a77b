/** The benchmark runner: for every task and then every agent, run the agent,
    check the response against the task's hard gates, ask the judge for a
    soft score, and append one result row. Agents and the judge are given
    as functions from a prompt to an outcome. */
module Runner {
  import opened Wrappers
  import opened Text
  import opened HardGates
  import opened Scoring
  import Cross

  /** A loaded task: its `name`, `input_prompt` and `eval_rules`. */
  datatype Task = Task(name: string, inputPrompt: string, evalRules: EvalRules)

  /** What `agent.run(prompt)` does: return a response, or raise an exception with a message. */
  datatype AgentOutcome = Returned(response: string) | Raised(message: string)

  /** An entry of the runner's agent table: its name and its `run` operation. */
  datatype Agent = Agent(name: string, run: string -> AgentOutcome)

  /** One logged result. `durationSeconds` is the measured time of the agent call. */
  datatype Row = Row(
    taskName: string,
    agent: string,
    passed: bool,
    qualityScore: int,
    durationSeconds: real,
    failReasons: string,
    error: bool)

  const ReasonSeparator := "; "

  /** The text that is evaluated: the agent's response, or `str(e)` of the exception it raised. */
  function ResponseText(outcome: AgentOutcome): string
  {
    match outcome
    case Returned(r) => r
    case Raised(m) => m
  }

  /** `eval_rules.get('soft_rubric', 'Is it helpful?')`. */
  function Rubric(rules: EvalRules): string
  {
    rules.softRubric.GetOr(DefaultRubric)
  }

  /** The row logged for one (task, agent) pair. */
  function PairRow(task: Task, agent: Agent, judge: string -> JudgeReply, seconds: real): Row
  {
    var outcome := agent.run(task.inputPrompt);
    var response := ResponseText(outcome);
    var verdict := VerdictOf(response, task.evalRules);
    Row(task.name, agent.name, verdict.passed,
        ParseScore(judge(GradePrompt(task.inputPrompt, response, Rubric(task.evalRules)))),
        seconds, Join(verdict.failedReasons, ReasonSeparator), outcome.Raised?)
  }

  /** What a row records: the pair's names, `error` exactly when the agent raised (the message
      then being the evaluated text), `passed` exactly when every required term occurs and no
      forbidden one does, the joined reasons (empty exactly when passed), and the judge's score. */
  lemma PairRowSpec(task: Task, agent: Agent, judge: string -> JudgeReply, seconds: real)
    ensures var r := PairRow(task, agent, judge, seconds);
      var outcome := agent.run(task.inputPrompt);
      var response := ResponseText(outcome);
      var reasons := GateReasons(MustContain(task.evalRules), ForbiddenTerms(task.evalRules), response);
      && r.taskName == task.name && r.agent == agent.name && r.durationSeconds == seconds
      && (r.error <==> outcome.Raised?)
      && (outcome.Raised? ==> response == outcome.message)
      && (r.passed <==>
            (forall t :: t in MustContain(task.evalRules) ==> Occurs(t, response)) &&
            (forall t :: t in ForbiddenTerms(task.evalRules) ==> !Occurs(t, response)))
      && r.failReasons == Join(reasons, ReasonSeparator)
      && (r.failReasons == [] <==> r.passed)
      && r.qualityScore == ParseScore(judge(GradePrompt(task.inputPrompt, response, Rubric(task.evalRules))))
  {
    var response := ResponseText(agent.run(task.inputPrompt));
    var must, forbidden := MustContain(task.evalRules), ForbiddenTerms(task.evalRules);
    var ms, fs := MissingReasons(must, response), ForbiddenReasons(forbidden, response);
    PassedIff(must, forbidden, response);
    MissingReasonsTagged(must, response);
    ForbiddenReasonsTagged(forbidden, response);
    forall k | 0 <= k < |ms + fs| ensures (ms + fs)[k] != [] {
      if k < |ms| { assert IsMissingReason(ms[k]); } else { assert IsForbiddenReason(fs[k - |ms|]); }
    }
    JoinEmptyIff(ms + fs, ReasonSeparator);
  }

  /** The row of the pair (task `i`, agent `j`), timed by `elapsed`. */
  function RowMaker(judge: string -> JudgeReply, elapsed: (nat, nat) -> real): (Task, Agent, nat, nat) -> Row
  {
    (task: Task, agent: Agent, i: nat, j: nat) => PairRow(task, agent, judge, elapsed(i, j))
  }

  /** The rows of one full run over the task × agent matrix. */
  function Matrix(tasks: seq<Task>, agents: seq<Agent>, judge: string -> JudgeReply,
                  elapsed: (nat, nat) -> real): seq<Row>
  {
    Cross.Product(tasks, agents, RowMaker(judge, elapsed))
  }

  /** A full run has one row per (task, agent) pair. */
  lemma MatrixLength(tasks: seq<Task>, agents: seq<Agent>, judge: string -> JudgeReply, elapsed: (nat, nat) -> real)
    ensures |Matrix(tasks, agents, judge, elapsed)| == |tasks| * |agents|
  {
    Cross.OuterLength(tasks, agents, RowMaker(judge, elapsed), |tasks|);
  }

  /** Row `i * |agents| + j` of a full run is the row of task `i` and agent `j`: task-major
      order, agents in table order within each task. */
  lemma MatrixAt(tasks: seq<Task>, agents: seq<Agent>, judge: string -> JudgeReply,
                 elapsed: (nat, nat) -> real, i: nat, j: nat)
    requires i < |tasks| && j < |agents|
    ensures i * |agents| + j < |Matrix(tasks, agents, judge, elapsed)|
    ensures Matrix(tasks, agents, judge, elapsed)[i * |agents| + j] == PairRow(tasks[i], agents[j], judge, elapsed(i, j))
  {
    Cross.ProductAt(tasks, agents, RowMaker(judge, elapsed), i, j);
  }

  /** The runner's state once its configuration, agents and tasks are loaded. */
  class BenchmarkRunner {
    const tasks: seq<Task>
    const agents: seq<Agent>
    const judge: string -> JudgeReply
    var results: seq<Row>

    /** A runner over the given tasks, agents and judge, with an empty result log. */
    constructor (tasks: seq<Task>, agents: seq<Agent>, judge: string -> JudgeReply)
      ensures this.tasks == tasks && this.agents == agents && this.judge == judge
      ensures results == []
    {
      this.tasks := tasks;
      this.agents := agents;
      this.judge := judge;
      results := [];
    }

    /** The hard-gate check: one "Missing" reason per required term that does not occur,
        then one "Forbidden" reason per forbidden term that does; passed exactly when no reason. */
    method EvaluateHardGates(response: string, rules: EvalRules) returns (verdict: Verdict)
      ensures verdict == VerdictOf(response, rules)
      ensures verdict.passed <==> verdict.failedReasons == []
      ensures MustContain(rules) == [] && ForbiddenTerms(rules) == [] ==> verdict == Verdict(true, [])
    {
      var gates := rules.hardGates.GetOr(GateLists(None, None));
      var mustContain := gates.mustContain.GetOr([]);
      var forbiddenTerms := gates.forbiddenTerms.GetOr([]);
      var passed := true;
      var failedReasons: seq<string> := [];
      for k := 0 to |mustContain|
        invariant failedReasons == MissingReasons(mustContain[..k], response)
        invariant passed <==> failedReasons == []
      {
        var term := mustContain[k];
        MissingReasonsPrefix(mustContain, response, k);
        if !Contains(Lower(response), Lower(term)) {
          passed := false;
          failedReasons := failedReasons + [MissingReason(term)];
        }
      }
      assert mustContain[..|mustContain|] == mustContain;
      ghost var missing := failedReasons;
      for k := 0 to |forbiddenTerms|
        invariant failedReasons == missing + ForbiddenReasons(forbiddenTerms[..k], response)
        invariant passed <==> failedReasons == []
      {
        var term := forbiddenTerms[k];
        ForbiddenReasonsPrefix(forbiddenTerms, response, k);
        if Contains(Lower(response), Lower(term)) {
          assert (missing + ForbiddenReasons(forbiddenTerms[..k], response)) + [ForbiddenReason(term)]
              == missing + (ForbiddenReasons(forbiddenTerms[..k], response) + [ForbiddenReason(term)]);
          passed := false;
          failedReasons := failedReasons + [ForbiddenReason(term)];
        }
      }
      assert forbiddenTerms[..|forbiddenTerms|] == forbiddenTerms;
      verdict := Verdict(passed, failedReasons);
    }

    /** The soft grade: the judge's reply to the grading prompt, parsed; 3 when the call fails. */
    method GradeQuality(taskInput: string, agentResponse: string, rubric: string) returns (score: int)
      ensures score == ParseScore(judge(GradePrompt(taskInput, agentResponse, rubric)))
      ensures judge(GradePrompt(taskInput, agentResponse, rubric)).JudgeFailed? ==> score == DefaultScore
    {
      var reply := judge(GradePrompt(taskInput, agentResponse, rubric));
      score := ParseScore(reply);
    }

    /** One pass of the inner loop body: run the agent, absorbing an exception into the
        response text and the error flag, grade the response, and build the row. */
    method RunPair(task: Task, agent: Agent, seconds: real) returns (row: Row)
      ensures row == PairRow(task, agent, judge, seconds)
      ensures row.error <==> agent.run(task.inputPrompt).Raised?
    {
      var response: string, error: bool;
      match agent.run(task.inputPrompt) {
        case Returned(r) => response, error := r, false;
        case Raised(m) => response, error := m, true;
      }
      var hardScore := EvaluateHardGates(response, task.evalRules);
      var qualityScore := GradeQuality(task.inputPrompt, response, Rubric(task.evalRules));
      row := Row(task.name, agent.name, hardScore.passed, qualityScore, seconds,
                 Join(hardScore.failedReasons, ReasonSeparator), error);
    }

    /** The inner loop for task `i`: every agent in table order, one row each. */
    method RunTask(i: nat, elapsed: (nat, nat) -> real)
      requires i < |tasks|
      modifies this
      ensures results == old(results) + Cross.Inner(tasks[i], i, agents, RowMaker(judge, elapsed), |agents|)
    {
      ghost var rowOf := RowMaker(judge, elapsed);
      var task := tasks[i];
      for j := 0 to |agents|
        invariant results == old(results) + Cross.Inner(task, i, agents, rowOf, j)
      {
        var row := RunPair(task, agents[j], elapsed(i, j));
        Cross.InnerStep(task, i, agents, rowOf, j, row);
        assert (old(results) + Cross.Inner(task, i, agents, rowOf, j)) + [row]
            == old(results) + (Cross.Inner(task, i, agents, rowOf, j) + [row]);
        results := results + [row];
      }
    }

    /** Task `i`'s block appended to the log of the blocks before it. */
    method RunNextTask(i: nat, elapsed: (nat, nat) -> real, ghost start: seq<Row>)
      requires i < |tasks|
      requires results == start + Cross.Outer(tasks, agents, RowMaker(judge, elapsed), i)
      modifies this
      ensures results == start + Cross.Outer(tasks, agents, RowMaker(judge, elapsed), i + 1)
    {
      RunTask(i, elapsed);
      Cross.OuterExtend(start, tasks, agents, RowMaker(judge, elapsed), i, old(results));
    }

    /** One run over every task and, within each task, every agent; `elapsed(i, j)` is the
        measured duration of agent `j` on task `i`. Appends exactly one row per pair. */
    method RunBenchmark(elapsed: (nat, nat) -> real)
      modifies this
      ensures results == old(results) + Matrix(tasks, agents, judge, elapsed)
    {
      for i := 0 to |tasks|
        invariant results == old(results) + Cross.Outer(tasks, agents, RowMaker(judge, elapsed), i)
      {
        RunNextTask(i, elapsed, old(results));
      }
    }
  }
}
