/**
  Riddle puzzles: a question, its expected answer kept in lower case, and the
  fixed texts every riddle shows. Nothing in a riddle changes once built.
*/
module Riddles {
  import opened Wrappers
  import opened JavaLang

  datatype RiddlePuzzle = RiddlePuzzle(
    question: string,
    answer: string,
    description: string,
    successMessage: string,
    failureMessage: string,
    hint: string)

  const DescriptionPrefix: string := "A mysterious voice poses a riddle: \""
  const SuccessText: string := "The voice speaks: \"You have answered wisely.\""
  const FailureText: string := "The voice speaks: \"That is not the answer I seek.\""
  const HintText: string := "Think carefully about the properties described in the riddle."

  /** The constructor: the description quotes the question, and the answer is stored lower-cased. */
  function NewRiddlePuzzle(question: string, answer: string): (p: RiddlePuzzle)
    ensures p.question == question
    ensures p.answer == ToLower(answer) && ToLower(p.answer) == p.answer
    ensures p.description == DescriptionPrefix + question + "\""
    ensures StartsWith(p.description, DescriptionPrefix)
    ensures p.description[|DescriptionPrefix|..|DescriptionPrefix| + |question|] == question
    ensures p.successMessage == SuccessText && p.failureMessage == FailureText && p.hint == HintText
  {
    ToLowerIdempotent(answer);
    var d := DescriptionPrefix + question + "\"";
    assert d[..|DescriptionPrefix|] == DescriptionPrefix;
    assert d[|DescriptionPrefix|..|DescriptionPrefix| + |question|] == question;
    RiddlePuzzle(question, ToLower(answer), d, SuccessText, FailureText, HintText)
  }

  /**
    `attemptSolution`: a missing (`null`) or empty attempt fails; otherwise the
    attempt is folded to lower case, trimmed, and compared with the answer.
  */
  function AttemptSolution(p: RiddlePuzzle, solution: Option<string>): (ok: bool)
    ensures solution == None || solution == Some([]) ==> !ok
    ensures ok ==> Trim(ToLower(solution.value)) == p.answer && IsTrimmed(p.answer)
  {
    match solution
    case None => false
    case Some(s) => s != [] && Trim(ToLower(s)) == p.answer
  }

  /**
    For a riddle built from `answer`, a non-empty attempt is accepted exactly
    when its trimmed text equals `answer` ignoring case: the same test the
    player's trap riddle uses.
  */
  lemma AcceptedIffEqualsIgnoreCase(question: string, answer: string, s: string)
    requires s != []
    ensures AttemptSolution(NewRiddlePuzzle(question, answer), Some(s)) <==> EqualsIgnoreCase(Trim(s), answer)
  {
    TrimToLower(s);
    EqualsIgnoreCaseIsLowerEquality(Trim(s), answer);
  }

  /** Surrounding whitespace and letter case do not matter: ` Echo  ` answers `echo`. */
  lemma AcceptsPaddedAnyCase(p: RiddlePuzzle, pre: string, w: string, post: string)
    requires AllSpace(pre) && AllSpace(post) && IsTrimmed(w) && w != []
    requires ToLower(w) == p.answer
    ensures AttemptSolution(p, Some(pre + w + post))
  {
    var s := pre + w + post;
    ToLowerAppend(pre + w, post);
    ToLowerAppend(pre, w);
    assert ToLower(s) == ToLower(pre) + ToLower(w) + ToLower(post);
    assert AllSpace(ToLower(pre)) && AllSpace(ToLower(post));
    assert IsTrimmed(ToLower(w));
    TrimPadded(ToLower(pre), ToLower(w), ToLower(post));
  }

  /** An attempt made only of whitespace trims to nothing and never answers a real riddle. */
  lemma RejectsBlank(p: RiddlePuzzle, s: string)
    requires AllSpace(s) && p.answer != []
    ensures !AttemptSolution(p, Some(s))
  {
    assert AllSpace(ToLower(s));
  }
}
