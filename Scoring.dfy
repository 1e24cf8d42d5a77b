/** The soft grade: the prompt sent to the judge and the parse of its reply
    into an integer score, with the fallback score for every failure. */
module Scoring {
  import opened Text

  /** The outcome of the judge call: the reply's content, or any exception. */
  datatype JudgeReply = Replied(content: string) | JudgeFailed

  /** The score used when the judge call fails or its reply holds no digit. */
  const DefaultScore := 3

  /** The rubric used when a task's rules give none. */
  const DefaultRubric := "Is it helpful?"

  const Rule := "--------------------------------------------------"

  const PromptHead := "You are a strict Teacher grading an AI Agent's homework.\nOriginal Task: "
  const PromptRubric := "\nGrading Rubric: "
  const PromptResponse := "\n" + Rule + "\nAgent Response:\n"
  const PromptTail := "\n" + Rule + "\nGrade this response from 1 to 5 based strictly on the rubric.\nReturn ONLY the number (e.g., 4)."

  /** The grading prompt built from the task input, the rubric and the agent's response. */
  function GradePrompt(taskInput: string, agentResponse: string, rubric: string): string
  {
    PromptHead + taskInput + PromptRubric + rubric + PromptResponse + agentResponse + PromptTail
  }

  /** The judge is shown the task input, the rubric and the response, each verbatim. */
  lemma PromptShowsInputs(taskInput: string, agentResponse: string, rubric: string)
    ensures var p := GradePrompt(taskInput, agentResponse, rubric);
      Contains(p, taskInput) && Contains(p, rubric) && Contains(p, agentResponse)
  {
    InterleavedContains(PromptHead, taskInput, PromptRubric, rubric, PromptResponse, agentResponse, PromptTail);
  }

  lemma InterleavedContains(h: string, x: string, r: string, y: string, s: string, z: string, t: string)
    ensures Contains(h + x + r + y + s + z + t, x)
    ensures Contains(h + x + r + y + s + z + t, y)
    ensures Contains(h + x + r + y + s + z + t, z)
  {
    var p := h + x + r + y + s + z + t;
    assert p == h + x + (r + y + s + z + t);
    ContainsInfix(h, x, r + y + s + z + t);
    assert p == (h + x + r) + y + (s + z + t);
    ContainsInfix(h + x + r, y, s + z + t);
    assert p == (h + x + r + y + s) + z + t;
    ContainsInfix(h + x + r + y + s, z, t);
  }

  /** `int(''.join(filter(str.isdigit, reply)))`, or the default score when the call
      failed or the filtered string is empty (`int('')` raises). No range check. */
  function ParseScore(reply: JudgeReply): int
  {
    match reply
    case JudgeFailed => DefaultScore
    case Replied(content) =>
      var ds := Digits(content);
      if ds == [] then DefaultScore else DecimalValue(ds)
  }

  /** A failed call and a reply without digits both give the default score; otherwise the
      score is a natural number with at most as many decimal digits as the reply holds. */
  lemma ParseScoreFallbacks(reply: JudgeReply)
    ensures reply.JudgeFailed? ==> ParseScore(reply) == DefaultScore
    ensures reply.Replied? && Digits(reply.content) == [] ==> ParseScore(reply) == DefaultScore
    ensures reply.Replied? && Digits(reply.content) != [] ==> 0 <= ParseScore(reply) < Pow10(|Digits(reply.content)|)
  {
  }

  /** A number written among digit-free text is read back exactly, whatever its size. */
  lemma ScoreOfWrittenNumber(prefix: string, n: nat, suffix: string)
    requires Digits(prefix) == [] && Digits(suffix) == []
    ensures ParseScore(Replied(prefix + Decimal(n) + suffix)) == n
  {
    var s := Decimal(n);
    assert Digits(prefix + s + suffix) == s by {
      DigitsAppend(prefix, s);
      DigitsAppend(prefix + s, suffix);
      DigitsOfDigitString(s);
    }
    DecimalRoundTrip(n);
  }

  /** The digits of the whole reply are read as one number: splitting a reply in two
      shifts the first part's number left by the second part's digit count. */
  lemma ScoreConcatenatesDigits(a: string, b: string)
    requires Digits(a) != [] && Digits(b) != []
    ensures ParseScore(Replied(a + b))
         == ParseScore(Replied(a)) * Pow10(|Digits(b)|) + ParseScore(Replied(b))
  {
    DigitsAppend(a, b);
    DecimalValueAppend(Digits(a), Digits(b));
  }

  /** Inserting a non-digit character anywhere leaves the score unchanged. */
  lemma ScoreIgnoresNonDigits(a: string, c: char, b: string)
    requires !IsDigit(c)
    ensures ParseScore(Replied(a + [c] + b)) == ParseScore(Replied(a + b))
  {
    DigitsAppend(a, [c]);
    DigitsAppend(a + [c], b);
    DigitsAppend(a, b);
    DigitsOfDigitFree([c]);
    assert Digits(a + [c] + b) == Digits(a + b);
  }

  /** "4/5" is read as 45, "4" as 4, and a reply without digits as the default. */
  lemma ScoreExamples()
    ensures ParseScore(Replied("4/5")) == 45
    ensures ParseScore(Replied("4")) == 4
    ensures ParseScore(Replied("Good")) == DefaultScore
  {
    DigitsOfDigitString("4");
    DigitsOfDigitString("5");
    DigitsOfDigitFree("/");
    DigitsAppend("4", "/");
    assert "4" + "/" == "4/";
    ScoreConcatenatesDigits("4/", "5");
    assert "4/" + "5" == "4/5";
    DigitsOfDigitFree("Good");
  }
}
