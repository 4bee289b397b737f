/**
  Choosing the questions of a quiz: a daily quiz takes the first ten
  questions of a shuffled pool of the whole bank; a topic quiz takes one
  topic's questions as stored and is labelled with its place in the bank.
 */
module QuizSelector {
  import opened QuestionBank
  import opened Distinct

  /** The quiz the quiz page renders and grades, with its `quizType` label. */
  datatype Session = Session(questions: seq<Question>, quizType: string)

  /** The outcome of picking a topic by class, subject and topic index. */
  datatype Selection = Selected(session: Session) | OutOfRange

  /** The label that marks a daily quiz. */
  const DailyTag: string := "daily"

  /** How many questions a daily quiz draws. */
  const DailySize: nat := 10

  function Min(a: nat, b: nat): nat {
    if a <= b then a else b
  }

  /**
    `shuffled.slice(0, 10)`, where `shuffled` is the pool after the
    random-comparator sort: some rearrangement of the pool, which one
    is left open.
   */
  function DailyQuiz(pool: seq<Question>, shuffled: seq<Question>): (quiz: seq<Question>)
    requires multiset(shuffled) == multiset(pool)
    ensures |quiz| == Min(DailySize, |pool|)
    ensures multiset(quiz) <= multiset(pool)
    ensures quiz <= shuffled
  {
    assert |shuffled| == |multiset(shuffled)| == |pool|;
    var n := Min(DailySize, |shuffled|);
    assert shuffled == shuffled[..n] + shuffled[n..];
    shuffled[..n]
  }

  /** The session the home page's start button creates. */
  function SelectDaily(bank: Bank, shuffled: seq<Question>): (r: Session)
    requires multiset(shuffled) == multiset(Pool(bank))
    ensures r.quizType == DailyTag
    ensures |r.questions| == Min(DailySize, ClassesCount(bank.classes))
    ensures forall q :: q in r.questions ==> exists c, s, t :: StoredAt(bank, c, s, t, q)
  {
    var quiz := DailyQuiz(Pool(bank), shuffled);
    PoolLength(bank);
    forall q | q in quiz
      ensures exists c, s, t :: StoredAt(bank, c, s, t, q)
    {
      assert q in multiset(quiz);
      PoolMembers(bank, q);
    }
    Session(quiz, DailyTag)
  }

  /** A bank that stores no question twice yields a daily quiz without repeats. */
  lemma DailyHasNoRepeats(bank: Bank, shuffled: seq<Question>)
    requires multiset(shuffled) == multiset(Pool(bank))
    requires NoRepeats(Pool(bank))
    ensures NoRepeats(SelectDaily(bank, shuffled).questions)
  {
    SubMultisetKeepsNoRepeats(DailyQuiz(Pool(bank), shuffled), Pool(bank));
  }

  /** The `quizType` of a topic quiz. */
  function TopicLabel(c: Class, s: Subject, t: Topic): string {
    c.name + " - " + s.name + " - " + t.name
  }

  /** A topic label holds the separator right after the class name, so it is never the daily tag. */
  lemma TopicLabelNeverDaily(c: Class, s: Subject, t: Topic)
    ensures TopicLabel(c, s, t)[|c.name|..|c.name| + 3] == " - "
    ensures TopicLabel(c, s, t) != DailyTag
  {
    var name := TopicLabel(c, s, t);
    assert name[|c.name| + 1] == '-';
  }

  /** The indices name a topic of the bank. */
  predicate TopicExists(bank: Bank, c: int, s: int, t: int) {
    && 0 <= c < |bank.classes|
    && 0 <= s < |bank.classes[c].subjects|
    && 0 <= t < |bank.classes[c].subjects[s].topics|
  }

  /**
    Clicking a topic card: the topic's questions and label. Indices from
    the page address that name no class or subject make the page fail
    before any quiz is stored, which is `OutOfRange` here.
   */
  function SelectTopic(bank: Bank, c: int, s: int, t: int): (r: Selection)
    ensures r.Selected? <==> TopicExists(bank, c, s, t)
    ensures r.Selected? ==>
      var cls := bank.classes[c];
      var sub := cls.subjects[s];
      var top := sub.topics[t];
      && r.session.questions == top.questions
      && r.session.quizType == TopicLabel(cls, sub, top)
      && r.session.quizType != DailyTag
  {
    if TopicExists(bank, c, s, t) then
      var cls := bank.classes[c];
      var sub := cls.subjects[s];
      var top := sub.topics[t];
      TopicLabelNeverDaily(cls, sub, top);
      Selected(Session(top.questions, TopicLabel(cls, sub, top)))
    else
      OutOfRange
  }

  /** Every question of a topic quiz is stored in the bank at the chosen place. */
  lemma TopicQuestionsStored(bank: Bank, c: int, s: int, t: int)
    requires SelectTopic(bank, c, s, t).Selected?
    ensures forall q :: q in SelectTopic(bank, c, s, t).session.questions ==> StoredAt(bank, c, s, t, q)
  {
  }
}
