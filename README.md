# agentops-benchmark-suite: the evaluation engine in Dafny

This project models `BenchmarkRunner` in `src/runner.py`, the engine that benchmarks
agents on tasks and produces the leaderboard. It covers three parts.

1. **The hard gates** (`evaluate_hard_gates`) check a response against a task's
   `must_contain` and `forbidden_terms` lists, both case-insensitively.
   - Each required term that does not occur appends `Missing: '<term>'`.
   - Each forbidden term that does occur appends `Forbidden: '<term>'`.
   - The verdict passes exactly when no reason was appended.
2. **The soft grade** (`grade_quality`) builds the grading prompt, hands it to the
   judge and parses the reply.
   - The score is every decimal digit of the reply, concatenated and read as one
     integer.
   - The score is 3 when the judge call fails or the reply holds no digit.
3. **The benchmark loop** (`run_benchmark`) runs every agent on every task, in task
   order and then agent order.
   - An agent's exception becomes the evaluated text and sets the `error` flag.
   - Each (task, agent) pair appends one row to the runner's `results`.

Modules:

- `Wrappers` holds `Option`.
- `Text` holds the Python string operations the engine uses:
  - `str.lower` and `in` on strings;
  - `sep.join`;
  - `filter(str.isdigit, …)`;
  - `int(…)` on digit strings;
  - `Decimal`, the decimal rendering of a number. The source never renders
    numbers; `Decimal` only serves to state that a written number is read back
    exactly (`DecimalRoundTrip`, `ScoreOfWrittenNumber`).
- `HardGates` holds the rule shapes, the verdict and its specification:
  - `MissingReasons` and `ForbiddenReasons` state what each loop appends;
  - `VerdictOf` states the whole result.
- `Scoring` holds the grading prompt and `ParseScore`.
- `Cross` holds the row-major product of two sequences, which specifies the nested loop.
- `Runner` holds the task, agent and row records and the class `BenchmarkRunner`.
  - The class has a `results` field, a sequence of rows, which the loop extends.
  - `EvaluateHardGates` keeps the source's two loops over the term lists.
  - `RunBenchmark` keeps the source's loop over tasks; `RunTask` holds the loop over
    agents for one task.

Agents, the judge and the clock are parameters:
- an agent is a function from a prompt to `Returned(response)` or `Raised(message)`;
- the judge is a function from a prompt to `Replied(content)` or `JudgeFailed`;
- `elapsed(i, j)` is the measured duration of agent `j` on task `i`.

Behaviour of the code worth noting:
- The gates are the two lists `must_contain` and `forbidden_terms`, read from the
  task's `hard_gates` mapping.
- The reasons read `Missing: '<term>'` and `Forbidden: '<term>'`.
- The score concatenates all digits of the reply: "4/5" is 45. The score is not
  clamped to 1-5.
- The rubric key is `soft_rubric`.
- Rows have no task id.

## Model

| member | source | states |
|---|---|---|
| Runner.BenchmarkRunner.constructor | src/runner.py:42 | a runner starts with an empty result log over its tasks, agents and judge |
| Runner.BenchmarkRunner.EvaluateHardGates | src/runner.py:65-83 | the two loops compute exactly the specified verdict; passed holds exactly when no reason was appended; an absent `hard_gates`, or both lists absent or empty, give a pass with no reasons for any response |
| HardGates.MissingReasons | src/runner.py:73-76 | the `must_contain` loop appends at most one reason per listed term |
| HardGates.ForbiddenReasons | src/runner.py:78-81 | the `forbidden_terms` loop appends at most one reason per listed term |
| HardGates.GateReasons | src/runner.py:71-81 | there are never more reasons than terms in the two lists together |
| HardGates.MissingReasonsPrefix | src/runner.py:73-76 | one more pass of the first loop appends the next term's "Missing" reason exactly when that term does not occur, and nothing else |
| HardGates.ForbiddenReasonsPrefix | src/runner.py:78-81 | one more pass of the second loop appends the next term's "Forbidden" reason exactly when that term occurs, and nothing else |
| HardGates.MissingReasonShape | src/runner.py:76 | a "Missing" reason starts with `Missing: '`, ends with a quote, and holds the term verbatim between them |
| HardGates.ForbiddenReasonShape | src/runner.py:81 | a "Forbidden" reason starts with `Forbidden: '`, ends with a quote, and holds the term verbatim between them |
| HardGates.TagsExclusive | src/runner.py:76-81 | no reason is both a "Missing" and a "Forbidden" reason |
| HardGates.MissingReasonsTagged | src/runner.py:73-76 | everything the first loop appends is a "Missing" reason |
| HardGates.ForbiddenReasonsTagged | src/runner.py:78-81 | everything the second loop appends is a "Forbidden" reason |
| HardGates.MissingReasonsAppend | src/runner.py:73-76 | the reasons for a concatenated term list are the two parts' reasons in list order |
| HardGates.ForbiddenReasonsAppend | src/runner.py:78-81 | the reasons for a concatenated term list are the two parts' reasons in list order |
| HardGates.MissingMultiplicity | src/runner.py:73-76 | `Missing: '<t>'` appears once per listing of `t` when `t` does not occur in the response, and never when it does |
| HardGates.ForbiddenMultiplicity | src/runner.py:78-81 | `Forbidden: '<t>'` appears once per listing of `t` when `t` occurs in the response, and never when it does not |
| HardGates.MissingReasonIn | src/runner.py:73-76 | `Missing: '<t>'` is reported if and only if `t` is listed and does not occur |
| HardGates.ForbiddenReasonIn | src/runner.py:78-81 | `Forbidden: '<t>'` is reported if and only if `t` is listed and occurs |
| HardGates.NoMissingIff | src/runner.py:73-76 | the first loop appends nothing if and only if every required term occurs |
| HardGates.NoForbiddenIff | src/runner.py:78-81 | the second loop appends nothing if and only if no forbidden term occurs |
| HardGates.PassedIff | src/runner.py:71-83 | the check passes if and only if every required term occurs and no forbidden term does |
| HardGates.ReasonsOrdered | src/runner.py:73-81 | no "Forbidden" reason comes before a "Missing" reason |
| HardGates.Monotone | src/runner.py:73-81 | adding terms to either list never turns a failing check into a passing one |
| HardGates.OccursIgnoresCase | src/runner.py:74-79 | lower-casing the response or the term does not change whether the term occurs |
| HardGates.MissingReasonsIgnoreCase | src/runner.py:73-76 | the first loop's reasons are the same for a response and its lower-cased form |
| HardGates.ForbiddenReasonsIgnoreCase | src/runner.py:78-81 | the second loop's reasons are the same for a response and its lower-cased form |
| HardGates.VerdictIgnoresCase | src/runner.py:65-83 | the whole verdict is the same for a response and its lower-cased form |
| HardGates.SingleMissing | src/runner.py:73-76 | a lone required term that does not occur fails the check with exactly its one reason |
| HardGates.SingleForbidden | src/runner.py:78-81 | a lone forbidden term that occurs fails the check with exactly its one reason |
| HardGates.ExampleForbidden | src/runner.py:78-81 | "ssn" is found in "Customer SSN is 123", giving the single reason `Forbidden: 'ssn'` |
| HardGates.ExampleMissing | src/runner.py:73-76 | "x@y.com" is missing from "I could not find it.", giving the single reason `Missing: 'x@y.com'` |
| Text.Lower | src/runner.py:74 | lower-casing keeps the length and maps each character through ASCII `lower` |
| Text.LowerIdempotent | src/runner.py:74 | lower-casing twice is lower-casing once |
| Text.ContainsIff | src/runner.py:74 | `needle in hay` holds if and only if the needle occurs at some position of the hay |
| Text.ContainsInfix | src/runner.py:74 | a string occurs in any string built around it |
| Text.ContainsChars | src/runner.py:74 | every character of a string that occurs in the hay is a character of the hay |
| Text.Join | src/runner.py:117 | joining nothing gives the empty string; a join is never shorter than its first part |
| Text.JoinEmptyIff | src/runner.py:117 | joining non-empty parts gives the empty string if and only if there are no parts |
| Text.JoinSnoc | src/runner.py:117 | joining one more part appends the separator and that part |
| Text.Digits | src/runner.py:61 | the filtered string is made only of digits and is no longer than the reply |
| Text.DigitsAppend | src/runner.py:61 | the digits of a concatenation are the digits of each part, in order |
| Text.DigitsOfDigitString | src/runner.py:61 | a digit string filters to itself |
| Text.DigitsOfDigitFree | src/runner.py:61 | a string without digits filters to the empty string |
| Text.DecimalValue | src/runner.py:61 | a string of `n` digits reads as a number below `10^n` |
| Text.DecimalValueAppend | src/runner.py:61 | reading `x + y` shifts the value of `x` left by the number of digits in `y` |
| Text.DecimalRoundTrip | src/runner.py:61 | reading back the decimal rendering of a number gives the number |
| Scoring.PromptShowsInputs | src/runner.py:48-57 | the grading prompt shows the task input, the rubric and the agent's response, each verbatim |
| Scoring.ParseScoreFallbacks | src/runner.py:58-63 | a failed judge call, or a reply without digits, scores 3; otherwise the score is a natural number with no more decimal digits than the reply holds |
| Scoring.ScoreOfWrittenNumber | src/runner.py:59-61 | a number written among digit-free text is read back exactly, whatever its size, so the score is not clamped to 1-5 |
| Scoring.ScoreConcatenatesDigits | src/runner.py:61 | all digits of the reply form one number: the digits of the first part come before those of the second |
| Scoring.ScoreIgnoresNonDigits | src/runner.py:61 | inserting a non-digit character anywhere in the reply leaves the score unchanged |
| Scoring.ScoreExamples | src/runner.py:59-63 | "4/5" scores 45 (above 5, not clamped), "4" scores 4, and "Good" scores 3 |
| Runner.BenchmarkRunner.GradeQuality | src/runner.py:44-63 | the soft grade is the parse of the judge's reply to the grading prompt, and 3 when the call fails |
| Runner.BenchmarkRunner.RunPair | src/runner.py:95-119 | one inner pass builds exactly the specified row; `error` is set exactly when the agent raised |
| Runner.PairRowSpec | src/runner.py:95-117 | a row records the task's and agent's names and its duration; `error` holds exactly when the agent raised, and the evaluated text is then the exception message; `passed` holds exactly when every required term occurs and no forbidden term does; `fail_reasons` is the reasons joined with `"; "`, empty exactly when passed; the quality score is the judge's parsed grade |
| Runner.BenchmarkRunner.RunTask | src/runner.py:91-119 | the inner loop appends one row per agent, in table order, for the current task |
| Runner.BenchmarkRunner.RunNextTask | src/runner.py:88-119 | after a task's pass the log holds the blocks of every task so far, in task order |
| Runner.BenchmarkRunner.RunBenchmark | src/runner.py:85-120 | a run appends exactly the task × agent matrix of rows to the earlier log and changes nothing else |
| Runner.MatrixLength | src/runner.py:88-91 | a run appends `|tasks| * |agents|` rows |
| Runner.MatrixAt | src/runner.py:88-111 | row `i * |agents| + j` of a run belongs to task `i` and agent `j`: task-major order, agents in table order |
| HardGates.MustContain | src/runner.py:67-68 | `rules.get("hard_gates", {}).get("must_contain", [])`: the empty list when either key is absent, and an absent or empty list adds no reason (`MissingReasons` of `[]` is `[]`); `EvaluateHardGates` proves the check passes when both lists are absent or empty |
| HardGates.ForbiddenTerms | src/runner.py:67-69 | `rules.get("hard_gates", {}).get("forbidden_terms", [])`: the empty list when either key is absent, and an absent or empty list adds no reason (`ForbiddenReasons` of `[]` is `[]`); `EvaluateHardGates` proves the check passes when both lists are absent or empty |
| HardGates.MissingReason | src/runner.py:76 | the f-string `Missing: '<term>'`; its tag, closing quote and verbatim term are stated by `MissingReasonShape` |
| HardGates.ForbiddenReason | src/runner.py:81 | the f-string `Forbidden: '<term>'`; its tag, closing quote and verbatim term are stated by `ForbiddenReasonShape` |
| HardGates.VerdictOf | src/runner.py:71-83 | the returned `{passed, failed_reasons}`: the missing reasons then the forbidden ones, passed exactly when there are none (`PassedIff`, `ReasonsOrdered`); `EvaluateHardGates` is proved equal to it |
| Text.Contains | src/runner.py:74 | Python's substring `in`, as a left-to-right scan; `ContainsIff` proves it equal to "occurs at some position", in both directions |
| Scoring.GradePrompt | src/runner.py:48-57 | the grading prompt, character for character; `PromptShowsInputs` proves it shows the task input, the rubric and the response verbatim |
| Scoring.ParseScore | src/runner.py:58-63 | `int` of the reply's concatenated digits, 3 when the call fails or no digit is present; its behaviour is stated by `ParseScoreFallbacks`, `ScoreOfWrittenNumber`, `ScoreConcatenatesDigits`, `ScoreIgnoresNonDigits` and `ScoreExamples` |
| Runner.ResponseText | src/runner.py:95-100 | the evaluated text: the agent's response, or the message of the exception it raised (`PairRowSpec`) |
| Runner.Rubric | src/runner.py:108 | `eval_rules.get('soft_rubric', 'Is it helpful?')`: the task's rubric, or the default when absent |
| Runner.PairRow | src/runner.py:95-117 | the row logged for one (task, agent) pair; every field is stated by `PairRowSpec`, and `RunPair` is proved equal to it |
| Runner.Matrix | src/runner.py:88-119 | the rows of one run, task-major and agents in table order; `MatrixLength` and `MatrixAt` state its size and each entry, and `RunBenchmark` is proved to append it |
| HardGates.Occurs | src/runner.py:74-79 | `term.lower() in response.lower()`; `OccursIgnoresCase` states that letter case in either string does not matter, and `ContainsIff` ties the `in` to positions |
| Text.LowerChar | src/runner.py:74 | ASCII `lower` on one character: 'A'..'Z' become 'a'..'z', the rest are kept, and no upper-case letter remains; `LowerIdempotent` follows |
| Text.IsDigit | src/runner.py:61 | ASCII `str.isdigit`: '0'..'9'; `DigitsOfDigitString` and `DigitsOfDigitFree` state what the filter keeps and drops |
| Cross.Inner | src/runner.py:91-119 | the rows of the first `j` agents for one task, one per agent; `InnerAt` states each entry, and `RunTask` is proved to append it |
| Cross.Outer | src/runner.py:88-119 | the rows of the first `k` tasks, one block with a row per agent for each task; `OuterLength` and `OuterAt` state its size and entries, and `RunNextTask` is proved to extend it |

## Left out

- `__init__` (src/runner.py:12-41): reading `config.yaml` and the task files, and building the agents and the judge. These are file I/O and external clients. The constructor takes the loaded tasks, agents and judge as arguments.
- `save_results` (src/runner.py:122-132): pandas and CSV output. The script entry point (src/runner.py:134-137) only chains the constructor, `run_benchmark` and `save_results`.
- The judge call `self.judge_llm.invoke` (src/runner.py:59). It is a parameter that either replies with a string or fails.
- Agents (`src/agents/*.py`), `src/llm_factory.py`, `src/tools/file_tools.py` and `src/visualize.py`: these are LLM clients, the filesystem and plotting. An agent is a function from a prompt to a returned or raised outcome.
- Nondeterminism: agents and the judge are modelled as functions, so repeated calls with the same prompt give the same outcome.
- The clock and `round(duration, 2)` (src/runner.py:93, 102, 116): floating-point time. A row's duration is the value `elapsed(i, j)` passed in.
- `print` output (src/runner.py:13, 86, 89, 92, 120).
- Unicode behaviour of `str.lower` and `str.isdigit`: only ASCII letters are lowered and only ASCII digits count. Python also counts characters such as '²' as digits, and `int` then raises, giving 3. The model does not capture this.
- `.strip()` on the judge's reply (src/runner.py:59): stripping removes only whitespace, so it never changes the digits that are parsed.
- Scoring.ScoreOfWrittenNumber: this reads any number exactly. CPython 3.11 and later refuse by default to convert strings of more than 4300 digits, and the bare `except` would then return 3. The repository does not fix the interpreter version.
- Malformed rules and tasks that raise outside any handler end the run. Examples are a `hard_gates` mapping or a list that is `null`, a term that is not a string, a task without `name`, `input_prompt` or `eval_rules`, and an agent raising a `BaseException` that is not an `Exception`. The model's types admit only well-formed rules and tasks.
- A `must_contain` or `forbidden_terms` entry written as one string instead of a list (src/runner.py:73, 78) does not raise. Python iterates the string one character at a time, so each character is checked as a term of its own. The model's lists of strings cannot express this case: a rule in that form is modelled only once rewritten as the list of its characters.
- The bodies of the two nested loops of `run_benchmark` are the methods `RunPair` (one agent) and `RunNextTask` (one task, using `RunTask`). The loops and their order are unchanged.
