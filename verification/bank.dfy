/**
  The question bank: classes hold subjects, subjects hold topics, topics
  hold questions. It is loaded once and never changed, so it is a plain
  value here.
 */
module QuestionBank {

  /**
    A question's answer key, `correct` in the bank: either one option
    index or an array of them.
   */
  datatype Key = Single(index: nat) | Several(indices: seq<nat>)

  /**
    `multiple` only chooses checkboxes over radio buttons when the question
    is shown; grading never reads it.
   */
  datatype Question = Question(
    text: string,
    options: seq<string>,
    correct: Key,
    multiple: bool,
    explanation: string)

  datatype Topic = Topic(name: string, questions: seq<Question>)

  datatype Subject = Subject(name: string, topics: seq<Topic>)

  datatype Class = Class(name: string, subjects: seq<Subject>)

  datatype Bank = Bank(classes: seq<Class>)

  /** The option indices a key names, as stored. */
  function KeyIndices(k: Key): (r: seq<nat>)
    ensures k.Single? ==> |r| == 1
  {
    match k
    case Single(i) => [i]
    case Several(s) => s
  }

  /** Every index the key names picks an existing option. */
  ghost predicate KeyInRange(q: Question) {
    forall k :: 0 <= k < |KeyIndices(q.correct)| ==> KeyIndices(q.correct)[k] < |q.options|
  }

  // The pool is built by three nested `forEach` loops that push each
  // topic's questions in turn; these three functions give the content
  // after the first |ts| (|ss|, |cs|) iterations of each loop.

  function TopicsPool(ts: seq<Topic>): seq<Question> {
    if |ts| == 0 then [] else TopicsPool(ts[..|ts| - 1]) + ts[|ts| - 1].questions
  }

  function SubjectsPool(ss: seq<Subject>): seq<Question> {
    if |ss| == 0 then [] else SubjectsPool(ss[..|ss| - 1]) + TopicsPool(ss[|ss| - 1].topics)
  }

  function ClassesPool(cs: seq<Class>): seq<Question> {
    if |cs| == 0 then [] else ClassesPool(cs[..|cs| - 1]) + SubjectsPool(cs[|cs| - 1].subjects)
  }

  /** Every question of the bank in class, subject, topic order. */
  function Pool(bank: Bank): seq<Question> {
    ClassesPool(bank.classes)
  }

  /** The daily quiz's pool, collected as the home page does, one push per topic. */
  method CollectPool(bank: Bank) returns (all: seq<Question>)
    ensures all == Pool(bank)
  {
    var classes := bank.classes;
    all := [];
    for c := 0 to |classes|
      invariant all == ClassesPool(classes[..c])
    {
      var subjects := classes[c].subjects;
      for s := 0 to |subjects|
        invariant all == ClassesPool(classes[..c]) + SubjectsPool(subjects[..s])
      {
        var topics := subjects[s].topics;
        for t := 0 to |topics|
          invariant all == ClassesPool(classes[..c]) + SubjectsPool(subjects[..s]) + TopicsPool(topics[..t])
        {
          assert topics[..t + 1][..t] == topics[..t];
          all := all + topics[t].questions;
        }
        assert topics[..|topics|] == topics;
        assert subjects[..s + 1][..s] == subjects[..s];
      }
      assert subjects[..|subjects|] == subjects;
      assert classes[..c + 1][..c] == classes[..c];
    }
    assert classes[..|classes|] == classes;
  }

  /** How many questions the topics hold between them. */
  function TopicsCount(ts: seq<Topic>): nat {
    if |ts| == 0 then 0 else |ts[0].questions| + TopicsCount(ts[1..])
  }

  function SubjectsCount(ss: seq<Subject>): nat {
    if |ss| == 0 then 0 else TopicsCount(ss[0].topics) + SubjectsCount(ss[1..])
  }

  function ClassesCount(cs: seq<Class>): nat {
    if |cs| == 0 then 0 else SubjectsCount(cs[0].subjects) + ClassesCount(cs[1..])
  }

  lemma {:induction false} TopicsCountSplit(ts: seq<Topic>)
    requires |ts| > 0
    ensures TopicsCount(ts) == TopicsCount(ts[..|ts| - 1]) + |ts[|ts| - 1].questions|
  {
    if |ts| > 1 {
      assert ts[1..][..|ts| - 2] == ts[..|ts| - 1][1..];
      TopicsCountSplit(ts[1..]);
    }
  }

  lemma {:induction false} SubjectsCountSplit(ss: seq<Subject>)
    requires |ss| > 0
    ensures SubjectsCount(ss) == SubjectsCount(ss[..|ss| - 1]) + TopicsCount(ss[|ss| - 1].topics)
  {
    if |ss| > 1 {
      assert ss[1..][..|ss| - 2] == ss[..|ss| - 1][1..];
      SubjectsCountSplit(ss[1..]);
    }
  }

  lemma {:induction false} ClassesCountSplit(cs: seq<Class>)
    requires |cs| > 0
    ensures ClassesCount(cs) == ClassesCount(cs[..|cs| - 1]) + SubjectsCount(cs[|cs| - 1].subjects)
  {
    if |cs| > 1 {
      assert cs[1..][..|cs| - 2] == cs[..|cs| - 1][1..];
      ClassesCountSplit(cs[1..]);
    }
  }

  lemma {:induction false} TopicsPoolLength(ts: seq<Topic>)
    ensures |TopicsPool(ts)| == TopicsCount(ts)
  {
    if |ts| > 0 {
      TopicsPoolLength(ts[..|ts| - 1]);
      TopicsCountSplit(ts);
    }
  }

  lemma {:induction false} SubjectsPoolLength(ss: seq<Subject>)
    ensures |SubjectsPool(ss)| == SubjectsCount(ss)
  {
    if |ss| > 0 {
      SubjectsPoolLength(ss[..|ss| - 1]);
      TopicsPoolLength(ss[|ss| - 1].topics);
      SubjectsCountSplit(ss);
    }
  }

  lemma {:induction false} ClassesPoolLength(cs: seq<Class>)
    ensures |ClassesPool(cs)| == ClassesCount(cs)
  {
    if |cs| > 0 {
      ClassesPoolLength(cs[..|cs| - 1]);
      SubjectsPoolLength(cs[|cs| - 1].subjects);
      ClassesCountSplit(cs);
    }
  }

  /** The pool holds as many questions as all the topics together. */
  lemma PoolLength(bank: Bank)
    ensures |Pool(bank)| == ClassesCount(bank.classes)
  {
    ClassesPoolLength(bank.classes);
  }

  /** `q` is one of the questions of topic `t` of subject `s` of class `c`. */
  ghost predicate StoredAt(bank: Bank, c: int, s: int, t: int, q: Question) {
    && 0 <= c < |bank.classes|
    && 0 <= s < |bank.classes[c].subjects|
    && 0 <= t < |bank.classes[c].subjects[s].topics|
    && q in bank.classes[c].subjects[s].topics[t].questions
  }

  ghost predicate InTopics(ts: seq<Topic>, t: int, q: Question) {
    0 <= t < |ts| && q in ts[t].questions
  }

  ghost predicate InSubjects(ss: seq<Subject>, s: int, t: int, q: Question) {
    0 <= s < |ss| && InTopics(ss[s].topics, t, q)
  }

  ghost predicate InClasses(cs: seq<Class>, c: int, s: int, t: int, q: Question) {
    0 <= c < |cs| && InSubjects(cs[c].subjects, s, t, q)
  }

  lemma {:induction false} TopicsPoolMembers(ts: seq<Topic>, q: Question)
    ensures q in TopicsPool(ts) <==> exists t :: InTopics(ts, t, q)
  {
    if |ts| > 0 {
      var front := ts[..|ts| - 1];
      TopicsPoolMembers(front, q);
      if exists t :: InTopics(front, t, q) {
        var t :| InTopics(front, t, q);
        assert InTopics(ts, t, q);
      }
      if exists t :: InTopics(ts, t, q) {
        var t :| InTopics(ts, t, q);
        if t < |ts| - 1 {
          assert InTopics(front, t, q);
        }
      }
      if q in ts[|ts| - 1].questions {
        assert InTopics(ts, |ts| - 1, q);
      }
    }
  }

  lemma {:induction false} SubjectsPoolMembers(ss: seq<Subject>, q: Question)
    ensures q in SubjectsPool(ss) <==> exists s, t :: InSubjects(ss, s, t, q)
  {
    if |ss| > 0 {
      var front, last := ss[..|ss| - 1], ss[|ss| - 1];
      SubjectsPoolMembers(front, q);
      TopicsPoolMembers(last.topics, q);
      if exists s, t :: InSubjects(front, s, t, q) {
        var s, t :| InSubjects(front, s, t, q);
        assert InSubjects(ss, s, t, q);
      }
      if exists t :: InTopics(last.topics, t, q) {
        var t :| InTopics(last.topics, t, q);
        assert InSubjects(ss, |ss| - 1, t, q);
      }
      if exists s, t :: InSubjects(ss, s, t, q) {
        var s, t :| InSubjects(ss, s, t, q);
        if s < |ss| - 1 {
          assert InSubjects(front, s, t, q);
        } else {
          assert InTopics(last.topics, t, q);
        }
      }
    }
  }

  lemma {:induction false} ClassesPoolMembers(cs: seq<Class>, q: Question)
    ensures q in ClassesPool(cs) <==> exists c, s, t :: InClasses(cs, c, s, t, q)
  {
    if |cs| > 0 {
      var front, last := cs[..|cs| - 1], cs[|cs| - 1];
      ClassesPoolMembers(front, q);
      SubjectsPoolMembers(last.subjects, q);
      if exists c, s, t :: InClasses(front, c, s, t, q) {
        var c, s, t :| InClasses(front, c, s, t, q);
        assert InClasses(cs, c, s, t, q);
      }
      if exists s, t :: InSubjects(last.subjects, s, t, q) {
        var s, t :| InSubjects(last.subjects, s, t, q);
        assert InClasses(cs, |cs| - 1, s, t, q);
      }
      if exists c, s, t :: InClasses(cs, c, s, t, q) {
        var c, s, t :| InClasses(cs, c, s, t, q);
        if c < |cs| - 1 {
          assert InClasses(front, c, s, t, q);
        } else {
          assert InSubjects(last.subjects, s, t, q);
        }
      }
    }
  }

  /** A question is in the pool exactly when some topic of the bank stores it. */
  lemma PoolMembers(bank: Bank, q: Question)
    ensures q in Pool(bank) <==> exists c, s, t :: StoredAt(bank, c, s, t, q)
  {
    ClassesPoolMembers(bank.classes, q);
    if exists c, s, t :: StoredAt(bank, c, s, t, q) {
      var c, s, t :| StoredAt(bank, c, s, t, q);
      assert InClasses(bank.classes, c, s, t, q);
    }
    if exists c, s, t :: InClasses(bank.classes, c, s, t, q) {
      var c, s, t :| InClasses(bank.classes, c, s, t, q);
      assert StoredAt(bank, c, s, t, q);
    }
  }
}
