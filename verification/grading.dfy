/**
  Grading a submitted quiz: each question's answer key and the user's
  selected option indices are both put in sorted form and compared as
  sequences; the score counts the matches, and one detail record per
  question carries the option texts for the results page.
 */
module Grading {
  import opened QuestionBank
  import opened JsOrder
  import opened Distinct

  /**
    `q.options[i]`: the option's text, or JavaScript's `undefined` when
    the index names no option.
   */
  datatype OptionText = Text(text: string) | Missing

  /** One entry of a result's `details`. */
  datatype Detail = Detail(
    question: string,
    userAnswer: seq<OptionText>,
    correctAnswer: seq<OptionText>,
    explanation: string,
    isCorrect: bool)

  /**
    One graded attempt as appended to the history log. `date` is the
    submission instant, an opaque value here; `quizType` is the session
    label, `"daily"` or `"Class - Subject - Topic"`.
   */
  datatype QuizResult = QuizResult(
    date: string,
    score: nat,
    total: nat,
    quizType: string,
    details: seq<Detail>)

  /** The user's selections per question index. */
  type Answers = map<nat, seq<nat>>

  function OptionAt(options: seq<string>, i: nat): OptionText {
    if i < |options| then Text(options[i]) else Missing
  }

  /** `indices.map(i => options[i])`. */
  function Texts(options: seq<string>, indices: seq<nat>): (r: seq<OptionText>)
    ensures |r| == |indices|
    ensures forall k :: 0 <= k < |r| ==> r[k] == OptionAt(options, indices[k])
  {
    if |indices| == 0 then [] else [OptionAt(options, indices[0])] + Texts(options, indices[1..])
  }

  lemma TextsAppend(options: seq<string>, a: seq<nat>, b: seq<nat>)
    ensures Texts(options, a + b) == Texts(options, a) + Texts(options, b)
  {
  }

  /** Dropping index position `j` drops that one text. */
  lemma TextsDropAt(options: seq<string>, b: seq<nat>, j: nat)
    requires j < |b|
    ensures multiset(Texts(options, b)) ==
      multiset(Texts(options, b[..j] + b[j + 1..])) + multiset{OptionAt(options, b[j])}
  {
    assert b == b[..j] + [b[j]] + b[j + 1..];
    TextsAppend(options, b[..j] + [b[j]], b[j + 1..]);
    TextsAppend(options, b[..j], [b[j]]);
    TextsAppend(options, b[..j], b[j + 1..]);
  }

  /** The first index contributes its own text. */
  lemma TextsHead(options: seq<string>, a: seq<nat>)
    requires |a| > 0
    ensures multiset(Texts(options, a)) == multiset(Texts(options, a[1..])) + multiset{OptionAt(options, a[0])}
  {
  }

  /** Rearranging the indices rearranges their texts the same way. */
  lemma {:induction false} TextsPermute(options: seq<string>, a: seq<nat>, b: seq<nat>)
    requires multiset(a) == multiset(b)
    ensures multiset(Texts(options, a)) == multiset(Texts(options, b))
    decreases |a|
  {
    if |a| > 0 {
      var j := PositionOf(b, a[0]);
      DropHeadMultiset(a);
      DropAtMultiset(b, j);
      TextsPermute(options, a[1..], b[..j] + b[j + 1..]);
      TextsDropAt(options, b, j);
      TextsHead(options, a);
    }
  }

  /** The key in comparable form: a scalar is wrapped, an array is sorted. */
  function NormalizeKey(k: Key): (r: seq<nat>)
    ensures multiset(r) == multiset(KeyIndices(k))
    ensures Sorted(r)
  {
    match k
    case Single(i) =>
      SortSingleton(i);
      [i]
    case Several(s) => Sort(s)
  }

  /** `currentAnswers[i]`, or `[]` when nothing was recorded for question `i`. */
  function AnswerFor(answers: Answers, i: nat): seq<nat> {
    if i in answers then answers[i] else []
  }

  /**
    Comparing the sorted forms is comparing multisets: the order in which
    options were ticked is irrelevant, but how often an index occurs is not.
   */
  lemma NormalizedEqualIffSameMultiset(k: Key, answer: seq<nat>)
    ensures NormalizeKey(k) == Sort(answer) <==> multiset(KeyIndices(k)) == multiset(answer)
  {
    SortEqualIffSameMultiset(KeyIndices(k), answer);
    SortIsCanonical(KeyIndices(k), NormalizeKey(k));
  }

  /** Grades one question against the selected option indices. */
  function GradeQuestion(q: Question, answer: seq<nat>): Detail {
    var correct := NormalizeKey(q.correct);
    var user := Sort(answer);
    Detail(q.text, Texts(q.options, user), Texts(q.options, correct), q.explanation, correct == user)
  }

  /**
    What a graded question records: correct exactly when the selection and
    the key hold the same indices the same number of times; the question and
    explanation copied; one text per selected index and per key index.
   */
  lemma GradeQuestionFacts(q: Question, answer: seq<nat>)
    ensures GradeQuestion(q, answer).isCorrect <==> multiset(answer) == multiset(KeyIndices(q.correct))
    ensures GradeQuestion(q, answer).question == q.text
    ensures GradeQuestion(q, answer).explanation == q.explanation
    ensures multiset(GradeQuestion(q, answer).userAnswer) == multiset(Texts(q.options, answer))
    ensures multiset(GradeQuestion(q, answer).correctAnswer) == multiset(Texts(q.options, KeyIndices(q.correct)))
  {
    NormalizedEqualIffSameMultiset(q.correct, answer);
    TextsPermute(q.options, Sort(answer), answer);
    TextsPermute(q.options, NormalizeKey(q.correct), KeyIndices(q.correct));
  }

  /** The texts shown are in the order the default sort puts their indices. */
  lemma GradeQuestionTextOrder(q: Question, answer: seq<nat>)
    ensures GradeQuestion(q, answer).userAnswer == Texts(q.options, Sort(answer))
    ensures GradeQuestion(q, answer).correctAnswer == Texts(q.options, NormalizeKey(q.correct))
  {
  }

  /** Grading depends on which options were selected, not on the order of selection. */
  lemma GradeIgnoresSelectionOrder(q: Question, a: seq<nat>, b: seq<nat>)
    requires multiset(a) == multiset(b)
    ensures GradeQuestion(q, a) == GradeQuestion(q, b)
  {
    SortEqualIffSameMultiset(a, b);
  }

  /** Against a key without repeats, selecting an index twice is graded wrong. */
  lemma RepeatedSelectionIsWrong(q: Question, answer: seq<nat>, i: nat, j: nat)
    requires NoRepeats(KeyIndices(q.correct))
    requires i < j < |answer| && answer[i] == answer[j]
    ensures !GradeQuestion(q, answer).isCorrect
  {
    GradeQuestionFacts(q, answer);
    RepeatCountsTwice(answer, i, j);
    NoRepeatsCountsAtMostOne(KeyIndices(q.correct), answer[i]);
  }

  /** An unanswered question is wrong unless its key names no option at all. */
  lemma UnansweredIsWrong(q: Question)
    ensures !GradeQuestion(q, []).isCorrect <==> |KeyIndices(q.correct)| > 0
  {
    GradeQuestionFacts(q, []);
    var key := KeyIndices(q.correct);
    if |key| > 0 {
      assert key[0] in multiset(key);
    }
  }

  /** Indices that all name options map to texts that are all present. */
  lemma TextsPresent(options: seq<string>, indices: seq<nat>)
    requires forall k :: 0 <= k < |indices| ==> indices[k] < |options|
    ensures forall k :: 0 <= k < |Texts(options, indices)| ==> Texts(options, indices)[k].Text?
  {
  }

  /** When every index is a real option, no detail shows `undefined`. */
  lemma GradeQuestionTextsPresent(q: Question, answer: seq<nat>)
    requires KeyInRange(q)
    requires forall k :: 0 <= k < |answer| ==> answer[k] < |q.options|
    ensures forall t :: t in GradeQuestion(q, answer).userAnswer ==> t.Text?
    ensures forall t :: t in GradeQuestion(q, answer).correctAnswer ==> t.Text?
  {
    var user, correct := Sort(answer), NormalizeKey(q.correct);
    forall k | 0 <= k < |user|
      ensures user[k] < |q.options|
    {
      assert user[k] in multiset(answer);
    }
    forall k | 0 <= k < |correct|
      ensures correct[k] < |q.options|
    {
      assert correct[k] in multiset(KeyIndices(q.correct));
    }
    TextsPresent(q.options, user);
    TextsPresent(q.options, correct);
    GradeQuestionTextOrder(q, answer);
  }

  /** How many details are marked correct. */
  function CorrectCount(ds: seq<Detail>): (n: nat)
    ensures n <= |ds|
  {
    if |ds| == 0 then 0
    else CorrectCount(ds[..|ds| - 1]) + (if ds[|ds| - 1].isCorrect then 1 else 0)
  }

  lemma CorrectCountAppend(ds: seq<Detail>, d: Detail)
    ensures CorrectCount(ds + [d]) == CorrectCount(ds) + (if d.isCorrect then 1 else 0)
  {
    assert (ds + [d])[..|ds|] == ds;
  }

  /** Full marks exactly when every detail is correct. */
  lemma {:induction false} FullScoreIffAllCorrect(ds: seq<Detail>)
    ensures CorrectCount(ds) == |ds| <==> forall k :: 0 <= k < |ds| ==> ds[k].isCorrect
  {
    if |ds| > 0 {
      var front := ds[..|ds| - 1];
      FullScoreIffAllCorrect(front);
      assert forall k :: 0 <= k < |front| ==> front[k] == ds[k];
    }
  }

  /** No marks exactly when no detail is correct. */
  lemma {:induction false} ZeroScoreIffNoneCorrect(ds: seq<Detail>)
    ensures CorrectCount(ds) == 0 <==> forall k :: 0 <= k < |ds| ==> !ds[k].isCorrect
  {
    if |ds| > 0 {
      var front := ds[..|ds| - 1];
      ZeroScoreIffNoneCorrect(front);
      assert forall k :: 0 <= k < |front| ==> front[k] == ds[k];
    }
  }

  /** The details of a quiz, one per question in quiz order. */
  function Details(quiz: seq<Question>, answers: Answers): (ds: seq<Detail>)
    ensures |ds| == |quiz|
  {
    if |quiz| == 0 then []
    else
      var n := |quiz| - 1;
      Details(quiz[..n], answers) + [GradeQuestion(quiz[n], AnswerFor(answers, n))]
  }

  /** The last detail grades the last question. */
  lemma DetailsLast(quiz: seq<Question>, answers: Answers)
    requires 0 < |quiz|
    ensures Details(quiz, answers)[|quiz| - 1] == GradeQuestion(quiz[|quiz| - 1], AnswerFor(answers, |quiz| - 1))
  {
  }

  /** The details before the last are those of the quiz without its last question. */
  lemma DetailsFront(quiz: seq<Question>, answers: Answers, i: nat)
    requires i < |quiz| - 1
    ensures Details(quiz, answers)[i] == Details(quiz[..|quiz| - 1], answers)[i]
  {
  }

  /** Question `i` of the shortened quiz is question `i` of the quiz. */
  lemma GradeFrontQuestion(quiz: seq<Question>, answers: Answers, i: nat)
    requires i < |quiz| - 1
    ensures GradeQuestion(quiz[..|quiz| - 1][i], AnswerFor(answers, i)) == GradeQuestion(quiz[i], AnswerFor(answers, i))
  {
  }

  /** Detail `i` grades question `i` against the answer recorded for it. */
  lemma {:induction false} DetailsAt(quiz: seq<Question>, answers: Answers, i: nat)
    requires i < |quiz|
    ensures Details(quiz, answers)[i] == GradeQuestion(quiz[i], AnswerFor(answers, i))
  {
    if i < |quiz| - 1 {
      DetailsAt(quiz[..|quiz| - 1], answers, i);
      DetailsFront(quiz, answers, i);
      GradeFrontQuestion(quiz, answers, i);
    } else {
      DetailsLast(quiz, answers);
    }
  }

  /** The submit handler's grading loop: one detail per question, one point per correct one. */
  method Grade(quiz: seq<Question>, answers: Answers, quizType: string, date: string)
    returns (r: QuizResult)
    ensures r.details == Details(quiz, answers)
    ensures r.score == CorrectCount(r.details)
    ensures r.total == |quiz| && r.score <= r.total
    ensures r.quizType == quizType && r.date == date
  {
    var score := 0;
    var details := [];
    for i := 0 to |quiz|
      invariant details == Details(quiz[..i], answers)
      invariant score == CorrectCount(details)
    {
      var d := GradeQuestion(quiz[i], AnswerFor(answers, i));
      if d.isCorrect {
        score := score + 1;
      }
      CorrectCountAppend(details, d);
      assert quiz[..i + 1][..i] == quiz[..i];
      details := details + [d];
    }
    assert quiz[..|quiz|] == quiz;
    r := QuizResult(date, score, |quiz|, quizType, details);
  }

  /** Answering every question with exactly its key earns full marks. */
  lemma FullMarks(quiz: seq<Question>, answers: Answers)
    requires forall i :: 0 <= i < |quiz| ==>
      multiset(AnswerFor(answers, i)) == multiset(KeyIndices(quiz[i].correct))
    ensures CorrectCount(Details(quiz, answers)) == |quiz|
  {
    forall i | 0 <= i < |quiz|
      ensures Details(quiz, answers)[i].isCorrect
    {
      DetailsAt(quiz, answers, i);
      GradeQuestionFacts(quiz[i], AnswerFor(answers, i));
    }
    FullScoreIffAllCorrect(Details(quiz, answers));
  }
}
