# Quiz selection, grading and history — a Dafny model

This project models the logic of a browser quiz application (`script.js`).
The question bank is a hierarchy of classes, subjects, topics and questions.
From it the application builds a quiz in one of two ways:

- a **daily quiz**: the first ten questions of a shuffled pool of the whole bank;
- a **topic quiz**: one topic's questions, labelled `"Class - Subject - Topic"`.

When the user submits, each question is graded. The answer key and the
selected option indices are both put in sorted form and compared. A result
holds the score, the total and one detail record per question. The result
is appended to a history log in local storage. A daily submission also
stores the day, and the home page refuses a second daily quiz on that day.
The results page shows the newest result and then the earlier ones, newest
first.

Modules, one per component:

- `JsOrder` (`js_order.dfy`): the order used by `Array.prototype.sort()`
  when no comparator is given. It compares the decimal spellings of the
  indices as strings. The module proves this is a total order on `nat`. It
  defines the sort and proves that a sorted rearrangement is unique, so the
  model agrees with any correct sorting algorithm, V8's included.
- `QuestionBank` (`bank.dfy`): the bank datatypes and the flattened pool.
- `QuizSelector` (`selection.dfy`): daily and topic selection, and the session label.
- `Grading` (`grading.dfy`): key and answer normalisation, per-question
  verdicts and detail records, the score, and the grading loop.
- `History` (`history.dfy`): the log, the daily marker, the daily gate, the
  results view and the submit handler.
- `Distinct` (`distinct.dfy`) and `Wrappers` (`wrappers.dfy`): helpers.
- `WorkedCases` (`worked_cases.dfy`): worked grading cases, and one topic
  quiz taken from selection to storage.

Four behaviours of the code that the model keeps as written:

- **Shuffle.** The code shuffles by sorting with a random comparator. The
  model takes the shuffled pool as an argument. The argument may be any
  rearrangement of the pool.
- **Sort order.** The code's `.sort()` compares indices as strings, not as
  numbers. For example, `[10, 9]` stays in that order. The model uses that
  string order. Grading is unaffected, because both sides are sorted the
  same way. Only the displayed option texts come out in string order.
- **Invalid topic.** The code does not validate class or subject indices. A
  bad index makes the page throw before any quiz is stored. The model
  reports this as `OutOfRange`.
- **Empty topic.** A topic with no questions gives a result with total 0.
  The code does not forbid this.

## Model

| member | source | states |
|---|---|---|
| JsOrder.JsLeTotal | script.js:181-182 | Any two indices are comparable under the default sort order. |
| JsOrder.JsLeAntisymmetric | script.js:181-182 | Two indices that each sort no later than the other are equal, because decimal spellings are distinct. |
| JsOrder.JsLeTransitive | script.js:181-182 | The default sort order is transitive. |
| JsOrder.TenBeforeNine | script.js:181-182 | The order is on spellings: 10 sorts before 9. |
| JsOrder.Sort | script.js:181-182 | `.sort()` returns a rearrangement of its input that is sorted under the default order. |
| JsOrder.SortIsCanonical | script.js:181-182 | Every sorted rearrangement of a sequence equals `Sort` of it, so the choice of sorting algorithm does not matter. |
| JsOrder.SortEqualIffSameMultiset | script.js:181-183 | Two sequences sort to the same sequence exactly when they hold the same multiset. |
| QuestionBank.CollectPool | script.js:58-65 | The three nested loops push every topic's questions in class, subject, topic order. |
| QuestionBank.PoolLength | script.js:58-65 | The pool is as long as the question counts of all topics added together. |
| QuestionBank.PoolMembers | script.js:58-65 | A question is in the pool exactly when some topic of the bank holds it. |
| QuizSelector.DailyQuiz | script.js:66-67 | The daily quiz is a prefix of the shuffled pool. It has `min(10, pool size)` questions, and its multiset is contained in the pool's. |
| QuizSelector.SelectDaily | script.js:58-68 | The daily session is labelled `"daily"`, has `min(10, bank size)` questions, and each question is stored in some topic. |
| QuizSelector.DailyHasNoRepeats | script.js:66-67 | If the bank stores no question twice, no question appears twice in the daily quiz. |
| QuizSelector.TopicLabelNeverDaily | script.js:136 | A topic label has `" - "` right after the class name, so it is never `"daily"`. |
| QuizSelector.SelectTopic | script.js:123-136 | Selection succeeds exactly when the indices name a topic. On success the session is that topic's questions in stored order, with the composed label, which is not `"daily"`. |
| QuizSelector.TopicQuestionsStored | script.js:135 | Every question of a topic session is stored at the chosen class, subject and topic. |
| Grading.NormalizeKey | script.js:181 | A scalar key becomes a one-element sequence. An array key is sorted. Either way the result is sorted and keeps the key's multiset. |
| Grading.NormalizedEqualIffSameMultiset | script.js:181-183 | The normalised key equals the sorted answer exactly when the key and the answer hold the same multiset. |
| Grading.GradeQuestionFacts | script.js:180-191 | The verdict is correct iff the answer and the key are the same multiset. The question and explanation are copied. The shown texts are, up to order, the texts of the selected indices and of the key's indices. |
| Grading.GradeQuestionTextOrder | script.js:187-188 | The displayed texts follow the sorted order of their indices. |
| Grading.TextsPermute | script.js:187-188 | Rearranging indices rearranges their option texts the same way. |
| Grading.GradeQuestionTextsPresent | script.js:187-188 | When every index names an option, no displayed text is `undefined`. |
| Grading.GradeIgnoresSelectionOrder | script.js:182-183 | Two answers with the same multiset get identical detail records. |
| Grading.RepeatedSelectionIsWrong | script.js:181-183 | If the key has no repeated index, an answer that repeats an index is wrong. |
| Grading.UnansweredIsWrong | script.js:182-183 | An empty answer is wrong exactly when the key names at least one option. |
| Grading.CorrectCount | script.js:178-184 | The number of correct details never exceeds the number of details. |
| Grading.FullScoreIffAllCorrect | script.js:178-184 | Full marks exactly when every detail is correct. |
| Grading.ZeroScoreIffNoneCorrect | script.js:178-184 | Zero exactly when no detail is correct. |
| Grading.Details | script.js:180-192 | There is one detail per quiz question. |
| Grading.DetailsAt | script.js:180-192 | Detail `i` grades question `i` against the answer recorded for question `i`, so details keep quiz order. |
| Grading.Grade | script.js:177-199 | The grading loop gives those details. Its score is their number of correct entries, so `0 <= score <= total`. Its total is the quiz length, and it keeps the label and date. |
| Grading.FullMarks | script.js:180-184 | If every answer holds the same multiset as its key, the score equals the number of questions. |
| History.Log | script.js:200 | A log that was never stored reads as empty. A stored log reads back as stored. |
| History.AppendResult | script.js:200-202 | The log grows by one. The old entries are unchanged, the new last entry is the result, and the daily marker is untouched. |
| History.MarkDaily | script.js:203-205 | The marker becomes today exactly for a `"daily"` result. Otherwise storage is unchanged, and the log is never touched. |
| History.RecordAppends | script.js:200-205 | Storing a submission appends exactly that result to the log. |
| History.RecordAllAppends | script.js:200-202 | After a run of submissions, the log is the old log followed by those results in order. |
| History.DailySubmissionBlocksToday | script.js:49-55 | After a daily submission, the daily quiz is blocked on that day and on no other. |
| History.OtherSubmissionKeepsGate | script.js:203-205 | A non-daily submission leaves the gate unchanged for every day. |
| History.Latest | script.js:217 | The latest result is absent exactly for an empty log. Otherwise it is the log's last entry. |
| History.Previous | script.js:267 | The earlier results come newest first: entry `k` is the log's entry `n-2-k`. |
| History.ViewCoversLog | script.js:267 | The earlier results, reversed back, followed by the latest, rebuild the whole log. |
| History.ViewAfterRecord | script.js:216-267 | After a submission, the results page shows it as latest and the old log, newest first, below it. |
| History.Submit | script.js:171-207 | Submitting grades the session and appends the result. The marker becomes today for a daily quiz; otherwise the gate is unchanged for every day. |
| WorkedCases.SingleChoiceCases | script.js:181-184 | With key `1`, the selection `[1]` is right, while `[0]` and `[]` are wrong. |
| WorkedCases.MultipleChoiceCases | script.js:181-184 | With key `[0, 2]`, the selection `[2, 0]` is right, while `[0]`, `[0, 1, 2]` and `[0, 0, 2]` are wrong. |
| WorkedCases.TopicQuizRun | script.js:135-207 | In a one-topic bank of two questions, answering both correctly scores 2 of 2. The result is stored as latest, and the daily marker is untouched. |

## Left out

- Page rendering, event listeners, HTML templating and dispatch on the page path: presentation only.
- Reading the checked inputs and radio-button exclusivity: the browser's behaviour. Answers are given as a map from question index to selected option indices. An absent entry reads as empty.
- Fetching and parsing the question bank, and the JSON round trips through local storage: storage is modelled as plain values. `JSON.stringify` equality of two index arrays is modelled as sequence equality.
- `Math.random` and the distribution of the shuffle: the shuffle is modelled as any rearrangement. No uniformity is claimed.
- `Date`, `toISOString` and `toDateString`: timestamps and days are opaque strings compared for equality. The `date.slice(0, 10)` chart label is left out.
- Score percentages, the charts, typesetting and the theme setting: floating point and presentation.
- Query-string parsing and `parseInt`: indices arrive as integers. Topic selection rejects any that name no topic.
- The in-place sort of the stored key: it does not change any grade.
- Thumbnails of classes, subjects and topics: used only for display.
- Negative or non-integer entries in an answer key: keys and selections are natural-number option indices.
