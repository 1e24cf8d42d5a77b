/** The hard gates of a task: two lists of terms, `must_contain` and
    `forbidden_terms`, checked case-insensitively against a response.
    This module holds the rule shapes, the verdict, and the specification
    of the failure reasons; the method that computes a verdict with two
    loops is `BenchmarkRunner.EvaluateHardGates` in module Runner. */
module HardGates {
  import opened Wrappers
  import opened Text

  /** The `hard_gates` mapping: either list may be absent. */
  datatype GateLists = GateLists(mustContain: Option<seq<string>>, forbiddenTerms: Option<seq<string>>)

  /** A task's `eval_rules`: an optional `hard_gates` mapping and an optional `soft_rubric`. */
  datatype EvalRules = EvalRules(hardGates: Option<GateLists>, softRubric: Option<string>)

  /** The `{passed, failed_reasons}` dictionary returned by the hard-gate check. */
  datatype Verdict = Verdict(passed: bool, failedReasons: seq<string>)

  /** `rules.get("hard_gates", {})`, then `.get("must_contain", [])`. */
  function MustContain(rules: EvalRules): seq<string>
  {
    rules.hardGates.GetOr(GateLists(None, None)).mustContain.GetOr([])
  }

  /** `rules.get("hard_gates", {})`, then `.get("forbidden_terms", [])`. */
  function ForbiddenTerms(rules: EvalRules): seq<string>
  {
    rules.hardGates.GetOr(GateLists(None, None)).forbiddenTerms.GetOr([])
  }

  /** `term.lower() in response.lower()`. */
  predicate Occurs(term: string, response: string)
  {
    Contains(Lower(response), Lower(term))
  }

  const MissingTag := "Missing: '"
  const ForbiddenTag := "Forbidden: '"

  predicate IsMissingReason(s: string)
  {
    |s| > |MissingTag| && s[..|MissingTag|] == MissingTag && s[|s| - 1] == '\''
  }

  predicate IsForbiddenReason(s: string)
  {
    |s| > |ForbiddenTag| && s[..|ForbiddenTag|] == ForbiddenTag && s[|s| - 1] == '\''
  }

  /** No reason is both a "Missing" and a "Forbidden" reason. */
  lemma TagsExclusive(s: string)
    ensures !(IsMissingReason(s) && IsForbiddenReason(s))
  {
    if IsMissingReason(s) {
      assert s[0] == s[..|MissingTag|][0] == 'M';
      assert ForbiddenTag[0] == 'F';
    }
  }

  /** The reason `f"Missing: '{term}'"`. */
  function MissingReason(term: string): string
  {
    MissingTag + term + "'"
  }

  /** A "Missing" reason carries its tag, and the term can be read back from it. */
  lemma MissingReasonShape(term: string)
    ensures IsMissingReason(MissingReason(term))
    ensures MissingReason(term)[|MissingTag|..|MissingReason(term)| - 1] == term
  {
    var s := MissingReason(term);
    assert s[..|MissingTag|] == MissingTag;
    assert s[|MissingTag|..|s| - 1] == term;
  }

  /** The reason `f"Forbidden: '{term}'"`. */
  function ForbiddenReason(term: string): string
  {
    ForbiddenTag + term + "'"
  }

  /** A "Forbidden" reason carries its tag, and the term can be read back from it. */
  lemma ForbiddenReasonShape(term: string)
    ensures IsForbiddenReason(ForbiddenReason(term))
    ensures ForbiddenReason(term)[|ForbiddenTag|..|ForbiddenReason(term)| - 1] == term
  {
    var s := ForbiddenReason(term);
    assert s[..|ForbiddenTag|] == ForbiddenTag;
    assert s[|ForbiddenTag|..|s| - 1] == term;
  }

  /** The reasons the `must_contain` loop appends: one per term that does not occur, in list order. */
  function MissingReasons(terms: seq<string>, response: string): (rs: seq<string>)
    ensures |rs| <= |terms|
  {
    if terms == [] then []
    else
      var last := terms[|terms| - 1];
      MissingReasons(terms[..|terms| - 1], response)
        + (if !Occurs(last, response) then [MissingReason(last)] else [])
  }

  /** The reasons the `forbidden_terms` loop appends: one per term that occurs, in list order. */
  function ForbiddenReasons(terms: seq<string>, response: string): (rs: seq<string>)
    ensures |rs| <= |terms|
  {
    if terms == [] then []
    else
      var last := terms[|terms| - 1];
      ForbiddenReasons(terms[..|terms| - 1], response)
        + (if Occurs(last, response) then [ForbiddenReason(last)] else [])
  }

  /** One more pass of the `must_contain` loop appends at most the next term's reason. */
  lemma MissingReasonsPrefix(terms: seq<string>, response: string, k: nat)
    requires k < |terms|
    ensures MissingReasons(terms[..k + 1], response)
         == MissingReasons(terms[..k], response)
            + (if !Occurs(terms[k], response) then [MissingReason(terms[k])] else [])
  {
    assert terms[..k + 1][..k] == terms[..k];
  }

  /** One more pass of the `forbidden_terms` loop appends at most the next term's reason. */
  lemma ForbiddenReasonsPrefix(terms: seq<string>, response: string, k: nat)
    requires k < |terms|
    ensures ForbiddenReasons(terms[..k + 1], response)
         == ForbiddenReasons(terms[..k], response)
            + (if Occurs(terms[k], response) then [ForbiddenReason(terms[k])] else [])
  {
    assert terms[..k + 1][..k] == terms[..k];
  }

  /** Every reason the `must_contain` loop appends is a "Missing" reason. */
  lemma {:induction false} MissingReasonsTagged(terms: seq<string>, response: string)
    ensures forall k :: 0 <= k < |MissingReasons(terms, response)| ==> IsMissingReason(MissingReasons(terms, response)[k])
  {
    if terms != [] {
      var init, last := terms[..|terms| - 1], terms[|terms| - 1];
      MissingReasonsTagged(init, response);
      var done := MissingReasons(init, response);
      var added := if !Occurs(last, response) then [MissingReason(last)] else [];
      forall k | 0 <= k < |done + added| ensures IsMissingReason((done + added)[k]) {
        if k < |done| {
          assert (done + added)[k] == done[k];
        } else {
          MissingReasonShape(last);
          assert (done + added)[k] == added[k - |done|];
        }
      }
    }
  }

  /** Every reason the `forbidden_terms` loop appends is a "Forbidden" reason. */
  lemma {:induction false} ForbiddenReasonsTagged(terms: seq<string>, response: string)
    ensures forall k :: 0 <= k < |ForbiddenReasons(terms, response)| ==> IsForbiddenReason(ForbiddenReasons(terms, response)[k])
  {
    if terms != [] {
      var init, last := terms[..|terms| - 1], terms[|terms| - 1];
      ForbiddenReasonsTagged(init, response);
      var done := ForbiddenReasons(init, response);
      var added := if Occurs(last, response) then [ForbiddenReason(last)] else [];
      forall k | 0 <= k < |done + added| ensures IsForbiddenReason((done + added)[k]) {
        if k < |done| {
          assert (done + added)[k] == done[k];
        } else {
          ForbiddenReasonShape(last);
          assert (done + added)[k] == added[k - |done|];
        }
      }
    }
  }

  /** All failure reasons of a response: the missing terms' reasons, then the forbidden terms'. */
  function GateReasons(must: seq<string>, forbidden: seq<string>, response: string): (rs: seq<string>)
    ensures |rs| <= |must| + |forbidden|
  {
    MissingReasons(must, response) + ForbiddenReasons(forbidden, response)
  }

  /** The verdict the hard-gate check is specified to return for `response` under `rules`. */
  function VerdictOf(response: string, rules: EvalRules): Verdict
  {
    var rs := GateReasons(MustContain(rules), ForbiddenTerms(rules), response);
    Verdict(rs == [], rs)
  }

  /** The `must_contain` reasons of a concatenated list are the reasons of each part, in order. */
  lemma {:induction false} MissingReasonsAppend(a: seq<string>, b: seq<string>, response: string)
    ensures MissingReasons(a + b, response) == MissingReasons(a, response) + MissingReasons(b, response)
  {
    if b == [] {
      assert a + b == a;
    } else {
      var b' := b[..|b| - 1];
      assert (a + b)[..|a + b| - 1] == a + b';
      MissingReasonsAppend(a, b', response);
    }
  }

  /** The `forbidden_terms` reasons of a concatenated list are the reasons of each part, in order. */
  lemma {:induction false} ForbiddenReasonsAppend(a: seq<string>, b: seq<string>, response: string)
    ensures ForbiddenReasons(a + b, response) == ForbiddenReasons(a, response) + ForbiddenReasons(b, response)
  {
    if b == [] {
      assert a + b == a;
    } else {
      var b' := b[..|b| - 1];
      assert (a + b)[..|a + b| - 1] == a + b';
      ForbiddenReasonsAppend(a, b', response);
    }
  }

  /** A missing term is reported once per occurrence of it in the list; a present term never. */
  lemma {:induction false} MissingMultiplicity(terms: seq<string>, response: string, t: string)
    ensures multiset(MissingReasons(terms, response))[MissingReason(t)]
         == if Occurs(t, response) then 0 else multiset(terms)[t]
  {
    if terms != [] {
      var init, last := terms[..|terms| - 1], terms[|terms| - 1];
      assert terms == init + [last];
      MissingMultiplicity(init, response, t);
      if last != t {
        MissingReasonShape(last);
        MissingReasonShape(t);
      }
    }
  }

  /** A forbidden term is reported once per occurrence of it in the list when it occurs in the response, else never. */
  lemma {:induction false} ForbiddenMultiplicity(terms: seq<string>, response: string, t: string)
    ensures multiset(ForbiddenReasons(terms, response))[ForbiddenReason(t)]
         == if Occurs(t, response) then multiset(terms)[t] else 0
  {
    if terms != [] {
      var init, last := terms[..|terms| - 1], terms[|terms| - 1];
      assert terms == init + [last];
      ForbiddenMultiplicity(init, response, t);
      if last != t {
        ForbiddenReasonShape(last);
        ForbiddenReasonShape(t);
      }
    }
  }

  /** "Missing: '<t>'" is among the reasons exactly when `t` is a listed term that does not occur. */
  lemma MissingReasonIn(terms: seq<string>, response: string, t: string)
    ensures MissingReason(t) in MissingReasons(terms, response) <==> t in terms && !Occurs(t, response)
  {
    MissingMultiplicity(terms, response, t);
  }

  /** "Forbidden: '<t>'" is among the reasons exactly when `t` is a listed term that occurs. */
  lemma ForbiddenReasonIn(terms: seq<string>, response: string, t: string)
    ensures ForbiddenReason(t) in ForbiddenReasons(terms, response) <==> t in terms && Occurs(t, response)
  {
    ForbiddenMultiplicity(terms, response, t);
  }

  /** No term is reported missing exactly when every listed term occurs. */
  lemma {:induction false} NoMissingIff(terms: seq<string>, response: string)
    ensures MissingReasons(terms, response) == [] <==> forall t :: t in terms ==> Occurs(t, response)
  {
    if terms != [] {
      var init := terms[..|terms| - 1];
      NoMissingIff(init, response);
      assert terms == init + [terms[|terms| - 1]];
    }
  }

  /** No term is reported forbidden exactly when no listed term occurs. */
  lemma {:induction false} NoForbiddenIff(terms: seq<string>, response: string)
    ensures ForbiddenReasons(terms, response) == [] <==> forall t :: t in terms ==> !Occurs(t, response)
  {
    if terms != [] {
      var init := terms[..|terms| - 1];
      NoForbiddenIff(init, response);
      assert terms == init + [terms[|terms| - 1]];
    }
  }

  /** The gates pass (no reasons) exactly when every required term occurs and no forbidden term does. */
  lemma PassedIff(must: seq<string>, forbidden: seq<string>, response: string)
    ensures GateReasons(must, forbidden, response) == [] <==>
      (forall t :: t in must ==> Occurs(t, response)) &&
      (forall t :: t in forbidden ==> !Occurs(t, response))
  {
    NoMissingIff(must, response);
    NoForbiddenIff(forbidden, response);
  }

  /** Every "Missing" reason comes before every "Forbidden" reason. */
  lemma ReasonsOrdered(must: seq<string>, forbidden: seq<string>, response: string)
    ensures var rs := GateReasons(must, forbidden, response);
      forall i, j :: 0 <= i < j < |rs| ==> !(IsForbiddenReason(rs[i]) && IsMissingReason(rs[j]))
  {
    var ms, fs := MissingReasons(must, response), ForbiddenReasons(forbidden, response);
    var rs := ms + fs;
    MissingReasonsTagged(must, response);
    ForbiddenReasonsTagged(forbidden, response);
    forall i, j | 0 <= i < j < |rs|
      ensures !(IsForbiddenReason(rs[i]) && IsMissingReason(rs[j]))
    {
      if i < |ms| {
        assert rs[i] == ms[i];
        TagsExclusive(rs[i]);
      } else {
        assert rs[j] == fs[j - |ms|];
        TagsExclusive(rs[j]);
      }
    }
  }

  /** Adding terms to either list never turns a failing check into a passing one. */
  lemma Monotone(must: seq<string>, forbidden: seq<string>, must': seq<string>, forbidden': seq<string>, response: string)
    requires forall t :: t in must ==> t in must'
    requires forall t :: t in forbidden ==> t in forbidden'
    requires GateReasons(must, forbidden, response) != []
    ensures GateReasons(must', forbidden', response) != []
  {
    PassedIff(must, forbidden, response);
    PassedIff(must', forbidden', response);
  }

  /** Lower-casing the response never changes whether a term occurs in it. */
  lemma OccursIgnoresCase(term: string, response: string)
    ensures Occurs(term, Lower(response)) == Occurs(term, response)
    ensures Occurs(Lower(term), response) == Occurs(term, response)
  {
    LowerIdempotent(response);
    LowerIdempotent(term);
  }

  /** The `must_contain` reasons do not depend on the response's letter case. */
  lemma {:induction false} MissingReasonsIgnoreCase(terms: seq<string>, response: string)
    ensures MissingReasons(terms, Lower(response)) == MissingReasons(terms, response)
  {
    if terms != [] {
      MissingReasonsIgnoreCase(terms[..|terms| - 1], response);
      OccursIgnoresCase(terms[|terms| - 1], response);
    }
  }

  /** The `forbidden_terms` reasons do not depend on the response's letter case. */
  lemma {:induction false} ForbiddenReasonsIgnoreCase(terms: seq<string>, response: string)
    ensures ForbiddenReasons(terms, Lower(response)) == ForbiddenReasons(terms, response)
  {
    if terms != [] {
      ForbiddenReasonsIgnoreCase(terms[..|terms| - 1], response);
      OccursIgnoresCase(terms[|terms| - 1], response);
    }
  }

  /** The whole verdict is the same for a response and its lower-cased form. */
  lemma VerdictIgnoresCase(response: string, rules: EvalRules)
    ensures VerdictOf(Lower(response), rules) == VerdictOf(response, rules)
  {
    MissingReasonsIgnoreCase(MustContain(rules), response);
    ForbiddenReasonsIgnoreCase(ForbiddenTerms(rules), response);
  }

  /** A single forbidden term that occurs gives exactly its one reason. */
  lemma SingleForbidden(term: string, response: string)
    requires Occurs(term, response)
    ensures VerdictOf(response, EvalRules(Some(GateLists(None, Some([term]))), None))
         == Verdict(false, [ForbiddenReason(term)])
  {
    assert [term][..0] == [];
  }

  /** A single required term that does not occur gives exactly its one reason. */
  lemma SingleMissing(term: string, response: string)
    requires !Occurs(term, response)
    ensures VerdictOf(response, EvalRules(Some(GateLists(Some([term]), None)), None))
         == Verdict(false, [MissingReason(term)])
  {
    assert [term][..0] == [];
  }

  /** A forbidden term is found whatever its case in the response: "ssn" in "Customer SSN is 123". */
  lemma ExampleForbidden()
    ensures var rules := EvalRules(Some(GateLists(None, Some(["ssn"]))), None);
      VerdictOf("Customer SSN is 123", rules) == Verdict(false, ["Forbidden: 'ssn'"])
  {
    var response, term := "Customer SSN is 123", "ssn";
    var hay := Lower(response);
    assert Lower(term) == term;
    assert hay[9..12] == term;
    ContainsAt(hay, term, 9);
    SingleForbidden(term, response);
    assert ForbiddenReason(term) == "Forbidden: 'ssn'";
  }

  /** A required address absent from the response is reported: "x@y.com" in "I could not find it.". */
  lemma ExampleMissing()
    ensures var rules := EvalRules(Some(GateLists(Some(["x@y.com"]), None)), None);
      VerdictOf("I could not find it.", rules) == Verdict(false, ["Missing: 'x@y.com'"])
  {
    var response, term := "I could not find it.", "x@y.com";
    var hay, needle := Lower(response), Lower(term);
    assert needle[1] == '@';
    assert '@' !in response;
    LowerKeepsAbsent(response, '@');
    if Contains(hay, needle) {
      ContainsChars(hay, needle, 1);
    }
    SingleMissing(term, response);
    AddressReason();
  }

  lemma AddressReason()
    ensures MissingReason("x@y.com") == "Missing: 'x@y.com'"
  {
  }
}
