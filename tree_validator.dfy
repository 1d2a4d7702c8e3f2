/**
 * Tree validation: one language-model call scores the graph against a
 * checklist, and the verdict is that the graph is valid exactly when no
 * score is 2 or lower. The decoded reply is otherwise handed as it is to the
 * response constructor, so its scores and comments pass through unchanged.
 */
module TreeValidator {
  import opened Wrappers
  import opened Seqs
  import opened Dicts
  import opened Dialog
  import opened Llm

  /** The input of validation: who the character is, what the player is after, the graph and its limits. */
  datatype TreeValidationRequest = TreeValidationRequest(
    character: Character, goal: Goal, dialogTree: DialogTree, constraints: Option<Constraints>)

  /**
   * The decoded reply: "scores" and "comments", each possibly absent, and
   * whether the reply also carries an "is_valid" key of its own.
   */
  datatype Evaluation = Evaluation(scores: Option<Dict<int>>, comments: Option<Dict<string>>, hasIsValid: bool)

  /** The output of validation: the checklist scores, the comments, and the verdict. */
  datatype TreeValidationResponse = TreeValidationResponse(scores: Dict<int>, comments: Dict<string>, isValid: Option<bool>)

  /** `min(xs)` of a non-empty list. */
  function Min(xs: seq<int>): (m: int)
    requires |xs| > 0
    ensures m in xs
    ensures forall i :: 0 <= i < |xs| ==> m <= xs[i]
  {
    if |xs| == 1 then xs[0]
    else
      var rest := Min(xs[1..]);
      assert forall i :: 1 <= i < |xs| ==> xs[i] == xs[1..][i - 1];
      if xs[0] <= rest then xs[0] else rest
  }

  /** `False if min(scores.values()) <= 2. else True`; `min` of no values is a `ValueError`. */
  function Judge(scores: Dict<int>): (r: Result<bool>)
    ensures r.Err? <==> |Values(scores)| == 0
    ensures r.Ok? ==> (r.value <==> forall i :: 0 <= i < |Values(scores)| ==> Values(scores)[i] > 2)
  {
    var vs := Values(scores);
    if |vs| == 0 then Err(ValueError("min() arg is an empty sequence"))
    else Ok(!(Min(vs) <= 2))
  }

  /**
   * `validate` once the reply is in: an absent "scores" has no `values`, no
   * scores have no minimum, a reply with its own "is_valid" gives that
   * keyword twice, and an absent "comments" is rejected by the response
   * record; otherwise the reply is the response, with the verdict added.
   */
  function Verdict(e: Evaluation): (r: Result<TreeValidationResponse>)
    ensures r.Ok? ==> e.scores.Some? && e.comments.Some? && !e.hasIsValid
    ensures r.Ok? ==> r.value.scores == e.scores.value && r.value.comments == e.comments.value && r.value.isValid.Some?
  {
    if e.scores.None? then Err(AttributeError("'NoneType' object has no attribute 'values'"))
    else
      match Judge(e.scores.value)
      case Err(err) => Err(err)
      case Ok(valid) =>
        if e.hasIsValid then Err(TypeError("got multiple values for keyword argument 'is_valid'"))
        else if e.comments.None? then Err(ValidationError("comments"))
        else Ok(TreeValidationResponse(e.scores.value, e.comments.value, Some(valid)))
  }

  /** The verdict is "invalid" exactly when some score is 2 or lower, and an empty score map has none. */
  lemma JudgeSpec(scores: Dict<int>)
    ensures scores.entries == map[] <==> Judge(scores).Err?
    ensures Judge(scores).Err? ==> Judge(scores).error == ValueError("min() arg is an empty sequence")
    ensures Judge(scores) == Ok(false) <==> exists k :: k in scores.entries && scores.entries[k] <= 2
    ensures Judge(scores) == Ok(true) <==> scores.entries != map[] && forall k :: k in scores.entries ==> scores.entries[k] > 2
  {
  }

  /**
   * What `validate` fails with, in the order it finds out: no scores, no
   * score at all, a second "is_valid", no comments; and when it succeeds, the
   * response holds the reply's scores and comments unchanged and the verdict.
   */
  lemma VerdictSpec(e: Evaluation)
    ensures Verdict(e).Ok? <==> e.scores.Some? && e.scores.value.entries != map[] && !e.hasIsValid && e.comments.Some?
    ensures e.scores.None? ==> Verdict(e).Err? && Verdict(e).error.AttributeError?
    ensures e.scores.Some? && e.scores.value.entries == map[] ==> Verdict(e) == Err(ValueError("min() arg is an empty sequence"))
    ensures e.scores.Some? && e.scores.value.entries != map[] && e.hasIsValid ==> Verdict(e).Err? && Verdict(e).error.TypeError?
    ensures e.scores.Some? && e.scores.value.entries != map[] && !e.hasIsValid && e.comments.None? ==>
      Verdict(e) == Err(ValidationError("comments"))
    ensures Verdict(e).Ok? ==>
      && Verdict(e).value.scores == e.scores.value
      && Verdict(e).value.comments == e.comments.value
      && Verdict(e).value.isValid == Some(forall k :: k in e.scores.value.entries ==> e.scores.value.entries[k] > 2)
  {
  }

  /** Scores 3, 2 and 5 make the graph invalid; scores 3 and 4 make it valid, whatever the checklist items are called. */
  lemma JudgeExamples(bad: Dict<int>, good: Dict<int>)
    requires Values(bad) == [3, 2, 5] && Values(good) == [3, 4]
    ensures Judge(bad) == Ok(false) && Judge(good) == Ok(true)
  {
    assert Min([3, 2, 5]) == Min([2, 5]) == 2;
    assert Min([3, 4]) == 3;
  }

  /** The tree validator: it owns the language-model client for validation. */
  class TreeValidator {
    const llm: Oracle<TreeValidationRequest, Evaluation>

    constructor (llm: Oracle<TreeValidationRequest, Evaluation>)
      ensures this.llm == llm
    {
      this.llm := llm;
    }

    /** `_gen_eval(request)`: one call of the model with the request. */
    method GenEval(request: TreeValidationRequest) returns (r: Result<Evaluation>)
      modifies llm
      ensures llm.log == old(llm.log) + [request]
      ensures r == llm.answer(|old(llm.log)|, request)
    {
      r := llm.Generate(request);
    }

    /**
     * `validate(request)`: exactly one call of the model, whose failure
     * passes through, and then the verdict on its reply. The request is a
     * value, so its graph cannot change.
     */
    method Validate(request: TreeValidationRequest) returns (r: Result<TreeValidationResponse>)
      modifies llm
      ensures llm.log == old(llm.log) + [request]
      ensures var answer := llm.answer(|old(llm.log)|, request);
        && (answer.Err? ==> r == Err(answer.error))
        && (answer.Ok? ==> r == Verdict(answer.value))
    {
      var e := GenEval(request);
      if e.Err? {
        return Err(e.error);
      }
      r := Verdict(e.value);
    }
  }
}
