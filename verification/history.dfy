/**
  What a submission leaves behind in local storage: the history log of
  results, which only ever grows, and the date of the last daily quiz,
  which decides whether the home page lets another daily quiz start.
  Dates are opaque values compared for equality (`toDateString` output).
 */
module History {
  import opened Wrappers
  import opened Grading
  import opened QuizSelector

  /**
    The two storage keys the core uses: `results`, the serialized log,
    and `dailyQuizTaken`, the day of the last daily submission. `None`
    is a key that was never written.
   */
  datatype Storage = Storage(results: Option<seq<QuizResult>>, dailyQuizTaken: Option<string>)

  /** The log as read back: an absent key reads as an empty log. */
  function Log(st: Storage): (log: seq<QuizResult>)
    ensures st.results.None? ==> log == []
    ensures st.results.Some? ==> log == st.results.value
  {
    st.results.GetOr([])
  }

  /** Reads the log, pushes `r` and writes the whole log back. */
  function AppendResult(st: Storage, r: QuizResult): (st': Storage)
    ensures |Log(st')| == |Log(st)| + 1
    ensures Log(st')[..|Log(st)|] == Log(st)
    ensures Log(st')[|Log(st)|] == r
    ensures st'.dailyQuizTaken == st.dailyQuizTaken
  {
    Storage(Some(Log(st) + [r]), st.dailyQuizTaken)
  }

  /** Records `today` as the daily-quiz day, but only for a daily result. */
  function MarkDaily(st: Storage, r: QuizResult, today: string): (st': Storage)
    ensures st'.results == st.results
    ensures r.quizType == DailyTag ==> st'.dailyQuizTaken == Some(today)
    ensures r.quizType != DailyTag ==> st' == st
  {
    if r.quizType == DailyTag then Storage(st.results, Some(today)) else st
  }

  /** Everything the submit handler stores once the result is built. */
  function Record(st: Storage, r: QuizResult, today: string): Storage {
    MarkDaily(AppendResult(st, r), r, today)
  }

  /** The home page refuses a daily quiz when the stored day is today. */
  predicate DailyBlocked(st: Storage, today: string) {
    st.dailyQuizTaken == Some(today)
  }

  /** Recording a result grows the log by exactly that result at the end. */
  lemma RecordAppends(st: Storage, r: QuizResult, today: string)
    ensures Log(Record(st, r, today)) == Log(st) + [r]
  {
  }

  /** After a daily submission the daily quiz is blocked that day and no other. */
  lemma DailySubmissionBlocksToday(st: Storage, r: QuizResult, today: string, day: string)
    requires r.quizType == DailyTag
    ensures DailyBlocked(Record(st, r, today), day) <==> day == today
  {
  }

  /** Any other submission leaves the gate as it was, for every day. */
  lemma OtherSubmissionKeepsGate(st: Storage, r: QuizResult, today: string, day: string)
    requires r.quizType != DailyTag
    ensures DailyBlocked(Record(st, r, today), day) == DailyBlocked(st, day)
  {
  }

  /** Recording results one after another, as successive submissions do. */
  function RecordAll(st: Storage, rs: seq<QuizResult>, today: string): Storage
    decreases |rs|
  {
    if |rs| == 0 then st else RecordAll(Record(st, rs[0], today), rs[1..], today)
  }

  /** After N submissions the log has grown by those N results, oldest first. */
  lemma {:induction false} RecordAllAppends(st: Storage, rs: seq<QuizResult>, today: string)
    ensures Log(RecordAll(st, rs, today)) == Log(st) + rs
    decreases |rs|
  {
    if |rs| > 0 {
      RecordAllAppends(Record(st, rs[0], today), rs[1..], today);
      assert rs == [rs[0]] + rs[1..];
    }
  }

  /** `results[results.length - 1]`: the latest result, if there is one. */
  function Latest(log: seq<QuizResult>): (r: Option<QuizResult>)
    ensures r.None? <==> |log| == 0
    ensures r.Some? ==> r.value == log[|log| - 1]
  {
    if |log| == 0 then None else Some(log[|log| - 1])
  }

  function Reverse<T>(s: seq<T>): (r: seq<T>)
    ensures |r| == |s|
    ensures forall k :: 0 <= k < |s| ==> r[k] == s[|s| - 1 - k]
  {
    if |s| == 0 then [] else [s[|s| - 1]] + Reverse(s[..|s| - 1])
  }

  /** `results.slice(0, -1).reverse()`: every earlier result, newest first. */
  function Previous(log: seq<QuizResult>): (p: seq<QuizResult>)
    ensures |p| == if |log| == 0 then 0 else |log| - 1
    ensures forall k :: 0 <= k < |p| ==> p[k] == log[|log| - 2 - k]
  {
    if |log| == 0 then [] else Reverse(log[..|log| - 1])
  }

  /** The latest result and the earlier ones, reversed back, are the whole log. */
  lemma ViewCoversLog(log: seq<QuizResult>)
    requires |log| > 0
    ensures Reverse(Previous(log)) + [Latest(log).value] == log
  {
  }

  /** After a submission the results page shows it as latest, and the old log, newest first, below it. */
  lemma ViewAfterRecord(st: Storage, r: QuizResult, today: string)
    ensures Latest(Log(Record(st, r, today))) == Some(r)
    ensures Previous(Log(Record(st, r, today))) == Reverse(Log(st))
  {
  }

  /**
    The quiz page's submit handler: grade the session with the recorded
    answers, then store the result. `now` and `today` are the clock's
    readings at submission.
   */
  method Submit(st: Storage, session: Session, answers: Answers, now: string, today: string)
    returns (st': Storage, r: QuizResult)
    ensures r.details == Details(session.questions, answers)
    ensures r.score == CorrectCount(r.details)
    ensures r.total == |session.questions| && r.score <= r.total
    ensures r.quizType == session.quizType && r.date == now
    ensures Log(st') == Log(st) + [r]
    ensures session.quizType != DailyTag ==> st'.dailyQuizTaken == st.dailyQuizTaken
    ensures forall day :: DailyBlocked(st', day) <==>
      if session.quizType == DailyTag then day == today else DailyBlocked(st, day)
  {
    r := Grade(session.questions, answers, session.quizType, now);
    st' := Record(st, r, today);
  }
}
