/** Concrete questions graded by hand-checkable cases, and one topic quiz followed from selection to storage. */
module WorkedCases {
  import opened Wrappers
  import opened QuestionBank
  import opened QuizSelector
  import opened Grading
  import opened History
  import opened Distinct

  function Choice(key: Key): Question {
    Question("q", ["a", "b", "c"], key, key.Several?, "why")
  }

  /** A single-choice question with key 1: only the selection `[1]` is right. */
  lemma SingleChoiceCases()
    ensures GradeQuestion(Choice(Single(1)), [1]).isCorrect
    ensures !GradeQuestion(Choice(Single(1)), [0]).isCorrect
    ensures !GradeQuestion(Choice(Single(1)), []).isCorrect
  {
  }

  /** The multiple-choice question with key `[0, 2]`. */
  function PickTwo(): Question {
    Choice(Several([0, 2]))
  }

  lemma EitherOrderIsRight()
    ensures GradeQuestion(PickTwo(), [2, 0]).isCorrect
  {
    GradeQuestionFacts(PickTwo(), [2, 0]);
    assert multiset([2, 0]) == multiset([0, 2]);
  }

  lemma MissingOneIsWrong()
    ensures !GradeQuestion(PickTwo(), [0]).isCorrect
  {
    GradeQuestionFacts(PickTwo(), [0]);
    assert multiset([0])[2] == 0;
  }

  lemma ExtraOneIsWrong()
    ensures !GradeQuestion(PickTwo(), [0, 1, 2]).isCorrect
  {
    GradeQuestionFacts(PickTwo(), [0, 1, 2]);
    assert multiset([0, 1, 2])[1] == 1;
  }

  lemma RepeatIsWrong()
    ensures !GradeQuestion(PickTwo(), [0, 0, 2]).isCorrect
  {
    assert NoRepeats(KeyIndices(PickTwo().correct));
    RepeatedSelectionIsWrong(PickTwo(), [0, 0, 2], 0, 1);
  }

  /** A multiple-choice question with key `[0, 2]`: order is free, extras, gaps and repeats are wrong. */
  lemma MultipleChoiceCases()
    ensures GradeQuestion(PickTwo(), [2, 0]).isCorrect
    ensures !GradeQuestion(PickTwo(), [0]).isCorrect
    ensures !GradeQuestion(PickTwo(), [0, 1, 2]).isCorrect
    ensures !GradeQuestion(PickTwo(), [0, 0, 2]).isCorrect
  {
    EitherOrderIsRight();
    MissingOneIsWrong();
    ExtraOneIsWrong();
    RepeatIsWrong();
  }

  /** The two-question bank of one class, one subject and one topic. */
  function SmallBank(): Bank {
    Bank([Class("C", [Subject("S", [Topic("T", [Choice(Single(0)), Choice(Several([2, 1]))])])])])
  }

  /** Taking that topic's quiz, answering both questions right, and storing the result. */
  method TopicQuizRun(st: Storage) returns (st': Storage, r: QuizResult)
    ensures r.score == 2 && r.total == 2
    ensures r.quizType == "C - S - T"
    ensures Latest(Log(st')) == Some(r)
    ensures st'.dailyQuizTaken == st.dailyQuizTaken
  {
    var bank := SmallBank();
    var selection := SelectTopic(bank, 0, 0, 0);
    assert TopicExists(bank, 0, 0, 0);
    var session := selection.session;
    var quiz := session.questions;
    assert quiz == [Choice(Single(0)), Choice(Several([2, 1]))];
    assert session.quizType == "C - S - T";
    var answers := map[0 := [0], 1 := [1, 2]];
    assert AnswerFor(answers, 0) == [0] && AnswerFor(answers, 1) == [1, 2];
    assert multiset([1, 2]) == multiset([2, 1]);
    FullMarks(quiz, answers);
    st', r := Submit(st, session, answers, "2024-01-01T00:00:00.000Z", "Mon Jan 01 2024");
    assert "C - S - T" != DailyTag;
  }
}
