/** Values of the live-polling coordinator: questions, students, the active
    question record, the result snapshot, and the state of one poll. The
    helpers here are the pure computations of server/server.js (default time
    limit, option-id maps, the connected-student filter, the early-termination
    rule, the end-of-question snapshot); the lemmas state the invariants the
    handlers keep. */
module PollData {

  datatype Option<T> = None | Some(value: T)

  /** Time limit used when a question gives none (or a falsy one). */
  const DefaultTimeLimitSec: int := 60
  const MillisPerSecond: int := 1000

  /** One answer choice; `id` comes from the id generator. */
  datatype Choice = Choice(id: string, text: string)

  datatype Question = Question(id: string, text: string, options: seq<Choice>, timeLimitSec: int)

  /** A question as it arrives in a request body. `options` is None when the
      field is not an array; `timeLimitSec` is None when it is absent. A
      missing `text` is modelled as the empty string (both are falsy). */
  datatype QuestionInput = QuestionInput(text: string, options: Option<seq<string>>, timeLimitSec: Option<int>)

  /** Identifiers the id generator hands out for one question and its options. */
  datatype QuestionIds = QuestionIds(id: string, optionIds: seq<string>)

  datatype Student = Student(name: string, connected: bool)

  /** The record behind `poll.activeQuestion`: answers maps a session id to
      the option id it chose, counts maps an option id to its running count. */
  datatype ActiveQuestion = ActiveQuestion(
    questionIndex: int,
    answers: map<string, string>,
    counts: map<string, nat>,
    endsAt: int)

  datatype PollResult = PollResult(
    questionIndex: int,
    counts: map<string, nat>,
    totalAnswers: nat,
    totalStudents: nat,
    question: Question)

  /** Everything about a poll that the handlers change. `timerArmed` stands for
      the pending host timer (`active._timeout`). */
  datatype PollState = PollState(
    questions: seq<Question>,
    currentQuestionIndex: Option<int>,
    activeQuestion: Option<ActiveQuestion>,
    students: map<string, Student>,
    lastResult: Option<PollResult>,
    timerArmed: bool)

  // ---------------------------------------------------------------- questions

  /** `timeLimitSec || 60`: an absent or zero limit becomes the default. */
  function TimeLimitOrDefault(t: Option<int>): (r: int)
    ensures r != 0
    ensures t.Some? && t.value != 0 ==> r == t.value
    ensures t.None? || t.value == 0 ==> r == DefaultTimeLimitSec
  {
    if t.Some? && t.value != 0 then t.value else DefaultTimeLimitSec
  }

  /** `options.map((o) => ({ id: nanoid(6), text: o }))`, the ids supplied. */
  function Choices(texts: seq<string>, ids: seq<string>): (r: seq<Choice>)
    requires |ids| == |texts|
    ensures |r| == |texts|
    ensures forall i | 0 <= i < |r| :: r[i].id == ids[i] && r[i].text == texts[i]
  {
    if texts == [] then [] else [Choice(ids[0], texts[0])] + Choices(texts[1..], ids[1..])
  }

  function OptionIds(cs: seq<Choice>): (r: seq<string>)
    ensures |r| == |cs| && forall i | 0 <= i < |cs| :: r[i] == cs[i].id
  {
    seq(|cs|, i requires 0 <= i < |cs| => cs[i].id)
  }

  function OptionTexts(cs: seq<Choice>): (r: seq<string>)
    ensures |r| == |cs| && forall i | 0 <= i < |cs| :: r[i] == cs[i].text
  {
    seq(|cs|, i requires 0 <= i < |cs| => cs[i].text)
  }

  function OptionIdSet(q: Question): set<string> {
    set i | 0 <= i < |q.options| :: q.options[i].id
  }

  /** Option ids come from the id generator, which never yields "". */
  ghost predicate WellFormed(q: Question) {
    forall i | 0 <= i < |q.options| :: q.options[i].id != ""
  }

  /** The generator supplies one non-empty id per option of the input. */
  predicate IdsFit(input: QuestionInput, ids: QuestionIds) {
    && (forall i | 0 <= i < |ids.optionIds| :: ids.optionIds[i] != "")
    && (input.options.Some? ==> |ids.optionIds| == |input.options.value|)
  }

  predicate IdsFitAll(inputs: seq<QuestionInput>, ids: seq<QuestionIds>) {
    |ids| == |inputs| && forall i | 0 <= i < |inputs| :: IdsFit(inputs[i], ids[i])
  }

  /** The question built from a request body: fresh ids, the text as given,
      the options in their order, and the time limit defaulted. */
  function BuildQuestion(input: QuestionInput, ids: QuestionIds): (q: Question)
    requires input.options.Some? && IdsFit(input, ids)
    ensures q.id == ids.id && q.text == input.text
    ensures OptionTexts(q.options) == input.options.value
    ensures OptionIds(q.options) == ids.optionIds
    ensures q.timeLimitSec == TimeLimitOrDefault(input.timeLimitSec)
    ensures WellFormed(q)
  {
    Question(ids.id, input.text, Choices(input.options.value, ids.optionIds),
             TimeLimitOrDefault(input.timeLimitSec))
  }

  /** `questions.map(...)` in createPoll: a question whose options are not an
      array makes `q.options.map` throw, so nothing is built (None). */
  function BuildQuestions(inputs: seq<QuestionInput>, ids: seq<QuestionIds>): (r: Option<seq<Question>>)
    requires IdsFitAll(inputs, ids)
    ensures r.Some? <==> forall i | 0 <= i < |inputs| :: inputs[i].options.Some?
    ensures r.Some? ==> |r.value| == |inputs|
    ensures r.Some? ==> forall i | 0 <= i < |inputs| ::
              inputs[i].options.Some? && r.value[i] == BuildQuestion(inputs[i], ids[i])
  {
    if inputs == [] then Some([])
    else if inputs[0].options.None? then None
    else
      match BuildQuestions(inputs[1..], ids[1..])
      case None => None
      case Some(rest) => Some([BuildQuestion(inputs[0], ids[0])] + rest)
  }

  /** Reading the options back out of a built question gives the request's
      option texts, in order, under the supplied ids. */
  lemma {:induction false} BuildQuestionsKeepOptions(inputs: seq<QuestionInput>, ids: seq<QuestionIds>, i: int)
    requires IdsFitAll(inputs, ids) && BuildQuestions(inputs, ids).Some?
    requires 0 <= i < |inputs|
    ensures var q := BuildQuestions(inputs, ids).value[i];
            OptionTexts(q.options) == inputs[i].options.value
            && OptionIds(q.options) == ids[i].optionIds
            && q.timeLimitSec == TimeLimitOrDefault(inputs[i].timeLimitSec)
            && q.timeLimitSec != 0
  {
  }

  // ------------------------------------------------------------------ counts

  /** Sum of the counts over the keys in `keys`. */
  ghost function SumOver(m: map<string, nat>, keys: set<string>): nat
    requires keys <= m.Keys
    decreases keys
  {
    if keys == {} then 0
    else
      var k :| k in keys;
      m[k] + SumOver(m, keys - {k})
  }

  /** `sum(counts.values())`. */
  ghost function SumCounts(m: map<string, nat>): nat {
    SumOver(m, m.Keys)
  }

  /** SumOver does not depend on which key the definition happens to pick. */
  lemma {:induction false} SumOverRemove(m: map<string, nat>, keys: set<string>, k: string)
    requires keys <= m.Keys && k in keys
    ensures SumOver(m, keys) == m[k] + SumOver(m, keys - {k})
    decreases keys
  {
    var j :| j in keys && SumOver(m, keys) == m[j] + SumOver(m, keys - {j});
    if j != k {
      SumOverRemove(m, keys - {j}, k);
      SumOverRemove(m, keys - {k}, j);
      assert keys - {j} - {k} == keys - {k} - {j};
    }
  }

  lemma {:induction false} SumOverAgree(m1: map<string, nat>, m2: map<string, nat>, keys: set<string>)
    requires keys <= m1.Keys && keys <= m2.Keys
    requires forall k | k in keys :: m1[k] == m2[k]
    ensures SumOver(m1, keys) == SumOver(m2, keys)
    decreases keys
  {
    if keys != {} {
      var k :| k in keys;
      SumOverRemove(m1, keys, k);
      SumOverRemove(m2, keys, k);
      SumOverAgree(m1, m2, keys - {k});
    }
  }

  /** `counts[optionId] += 1` raises the sum of the counts by exactly one. */
  lemma SumCountsIncrement(m: map<string, nat>, k: string)
    requires k in m
    ensures SumCounts(m[k := m[k] + 1]) == SumCounts(m) + 1
  {
    var m' := m[k := m[k] + 1];
    assert m'.Keys == m.Keys;
    SumOverRemove(m, m.Keys, k);
    SumOverRemove(m', m.Keys, k);
    SumOverAgree(m, m', m.Keys - {k});
  }

  lemma {:induction false} SumOverZero(m: map<string, nat>, keys: set<string>)
    requires keys <= m.Keys
    requires forall k | k in keys :: m[k] == 0
    ensures SumOver(m, keys) == 0
    decreases keys
  {
    if keys != {} {
      var k :| k in keys;
      SumOverRemove(m, keys, k);
      SumOverZero(m, keys - {k});
    }
  }

  /** `Object.fromEntries(ids.map((id) => [id, 0]))`: every id a key, every
      count zero, nothing else. */
  function ZeroCounts(ids: seq<string>): (m: map<string, nat>)
    ensures forall k :: k in m <==> k in ids
    ensures forall k | k in m :: m[k] == 0
    ensures SumCounts(m) == 0
  {
    var m := map k | k in ids :: 0;
    SumOverZero(m, m.Keys);
    m
  }

  // ----------------------------------------------------------------- answers

  /** Number of sessions that chose option `o`. */
  function Tally(answers: map<string, string>, o: string): nat {
    |set s | s in answers && answers[s] == o|
  }

  /** The active question record agrees with its question and its answers:
      the count keys are exactly the question's option ids, every answer names
      one of them, each count is the number of answers for that option, and
      the counts add up to the number of answers. */
  ghost predicate Tallied(a: ActiveQuestion, q: Question) {
    && a.counts.Keys == OptionIdSet(q)
    && AnswersNameOptions(a)
    && CountsAreTallies(a)
    && SumCounts(a.counts) == |a.answers|
  }

  ghost predicate AnswersNameOptions(a: ActiveQuestion) {
    forall s | s in a.answers :: a.answers[s] in a.counts
  }

  ghost predicate CountsAreTallies(a: ActiveQuestion) {
    forall o | o in a.counts :: a.counts[o] == Tally(a.answers, o)
  }

  /** The fresh record built by `teacher:start`. */
  function Activate(q: Question, index: int, now: int): (a: ActiveQuestion)
    ensures Tallied(a, q) && a.answers == map[]
    ensures a.questionIndex == index
    ensures a.endsAt == now + q.timeLimitSec * MillisPerSecond
    ensures forall o | o in a.counts :: a.counts[o] == 0
  {
    var ids := OptionIds(q.options);
    var a := ActiveQuestion(index, map[], ZeroCounts(ids), now + q.timeLimitSec * MillisPerSecond);
    assert a.counts.Keys == OptionIdSet(q) by {
      forall o ensures o in a.counts <==> o in OptionIdSet(q) {
        if o in a.counts {
          var i :| 0 <= i < |ids| && ids[i] == o;
          assert q.options[i].id == o;
        }
      }
    }
    a
  }

  /** `if (active.answers[sessionId])`: JavaScript truthiness of the stored
      option id, not mere presence. */
  predicate HasAnswered(a: ActiveQuestion, sessionId: string): (b: bool)
    ensures b ==> sessionId in a.answers
  {
    sessionId in a.answers && a.answers[sessionId] != ""
  }

  /** Under the invariant the truthiness test is exactly presence: option ids
      are never empty, so a recorded answer is always seen. */
  lemma AnsweredIffPresent(a: ActiveQuestion, q: Question, sessionId: string)
    requires Tallied(a, q) && WellFormed(q)
    ensures HasAnswered(a, sessionId) <==> sessionId in a.answers
  {
    if sessionId in a.answers {
      var o := a.answers[sessionId];
      assert o in OptionIdSet(q);
      var i :| 0 <= i < |q.options| && q.options[i].id == o;
    }
  }

  /** `active.answers[sessionId] = optionId; active.counts[optionId] += 1`. */
  function Record(a: ActiveQuestion, sessionId: string, optionId: string): (r: ActiveQuestion)
    requires optionId in a.counts
    ensures r.questionIndex == a.questionIndex && r.endsAt == a.endsAt
    ensures r.answers.Keys == a.answers.Keys + {sessionId} && r.answers[sessionId] == optionId
    ensures r.counts.Keys == a.counts.Keys
  {
    a.(answers := a.answers[sessionId := optionId],
       counts := a.counts[optionId := a.counts[optionId] + 1])
  }

  /** Recording a first answer for a session keeps the record tallied: one
      more answer, and exactly one count one higher. */
  lemma RecordKeepsTallied(a: ActiveQuestion, q: Question, sessionId: string, optionId: string)
    requires Tallied(a, q)
    requires sessionId !in a.answers && optionId in a.counts
    ensures Tallied(Record(a, sessionId, optionId), q)
    ensures |Record(a, sessionId, optionId).answers| == |a.answers| + 1
    ensures forall o | o in a.counts ::
              Record(a, sessionId, optionId).counts[o] == a.counts[o] + (if o == optionId then 1 else 0)
  {
    var r := Record(a, sessionId, optionId);
    SumCountsIncrement(a.counts, optionId);
    RecordKeepsTallies(a, sessionId, optionId);
    RecordNamesOptions(a, sessionId, optionId);
  }

  lemma RecordKeepsTallies(a: ActiveQuestion, sessionId: string, optionId: string)
    requires CountsAreTallies(a)
    requires sessionId !in a.answers && optionId in a.counts
    ensures CountsAreTallies(Record(a, sessionId, optionId))
  {
    var r := Record(a, sessionId, optionId);
    forall o | o in r.counts ensures r.counts[o] == Tally(r.answers, o) {
      TallyAfterAnswer(a.answers, sessionId, optionId, o);
    }
  }

  lemma RecordNamesOptions(a: ActiveQuestion, sessionId: string, optionId: string)
    requires AnswersNameOptions(a) && optionId in a.counts
    ensures AnswersNameOptions(Record(a, sessionId, optionId))
  {
    var r := Record(a, sessionId, optionId);
    forall s | s in r.answers ensures r.answers[s] in r.counts {
      if s != sessionId {
        assert r.answers[s] == a.answers[s];
      }
    }
  }

  /** A first answer for a session adds one to its option's tally only. */
  lemma TallyAfterAnswer(answers: map<string, string>, sessionId: string, optionId: string, o: string)
    requires sessionId !in answers
    ensures Tally(answers[sessionId := optionId], o) == Tally(answers, o) + (if o == optionId then 1 else 0)
  {
    var after := answers[sessionId := optionId];
    var before := set s | s in answers && answers[s] == o;
    if o == optionId {
      assert (set s | s in after && after[s] == o) == before + {sessionId};
    } else {
      assert (set s | s in after && after[s] == o) == before;
    }
  }

  // ---------------------------------------------------------------- students

  function ConnectedSessions(students: map<string, Student>): (c: set<string>)
    ensures c <= students.Keys
  {
    set s | s in students && students[s].connected
  }

  lemma SubsetCard(a: set<string>, b: set<string>)
    requires a <= b
    ensures |a| <= |b|
  {
    assert b == a + (b - a);
  }

  /** `Object.values(poll.students).filter((s) => s.connected).length`. */
  function ConnectedCount(students: map<string, Student>): (n: nat)
    ensures n <= |students|
  {
    SubsetCard(ConnectedSessions(students), students.Keys);
    |ConnectedSessions(students)|
  }

  /** A (re)join marks the session connected: one more connected student
      unless that session was already connected. */
  lemma JoinConnectedCount(students: map<string, Student>, sessionId: string, name: string)
    ensures ConnectedCount(students[sessionId := Student(name, true)])
            == ConnectedCount(students)
               + (if sessionId in students && students[sessionId].connected then 0 else 1)
  {
    var st := students[sessionId := Student(name, true)];
    if sessionId in students && students[sessionId].connected {
      assert ConnectedSessions(st) == ConnectedSessions(students);
    } else {
      assert ConnectedSessions(st) == ConnectedSessions(students) + {sessionId};
    }
  }

  /** A disconnect keeps the record and drops it from the connected count iff
      it was connected. */
  lemma DisconnectConnectedCount(students: map<string, Student>, sessionId: string)
    requires sessionId in students
    ensures var st := students[sessionId := students[sessionId].(connected := false)];
            st.Keys == students.Keys
            && ConnectedCount(st) == ConnectedCount(students) - (if students[sessionId].connected then 1 else 0)
  {
    var st := students[sessionId := students[sessionId].(connected := false)];
    if students[sessionId].connected {
      assert ConnectedSessions(students) == ConnectedSessions(st) + {sessionId};
    } else {
      assert ConnectedSessions(st) == ConnectedSessions(students);
    }
  }

  /** Removing a student lowers the connected count iff it was connected. */
  lemma RemoveConnectedCount(students: map<string, Student>, sessionId: string)
    requires sessionId in students
    ensures ConnectedCount(students - {sessionId})
            == ConnectedCount(students) - (if students[sessionId].connected then 1 else 0)
  {
    var st := students - {sessionId};
    if students[sessionId].connected {
      assert ConnectedSessions(students) == ConnectedSessions(st) + {sessionId};
    } else {
      assert ConnectedSessions(st) == ConnectedSessions(students);
    }
  }

  /** The early-termination rule: at least as many answers as connected
      students. */
  predicate QuorumReached(answerCount: nat, students: map<string, Student>): (b: bool)
    ensures answerCount >= |students| ==> b
    ensures answerCount == 0 ==> (b <==> ConnectedSessions(students) == {})
  {
    answerCount >= ConnectedCount(students)
  }

  /** When every connected student has answered, the question ends. */
  lemma AllConnectedAnsweredEnds(answers: map<string, string>, students: map<string, Student>)
    requires ConnectedSessions(students) <= answers.Keys
    ensures QuorumReached(|answers|, students)
  {
    SubsetCard(ConnectedSessions(students), answers.Keys);
  }

  /** The rule compares counts, not sessions: an answer from a session that
      is disconnected (or not a student at all) counts toward the quorum, so a
      question can end while a connected student has not answered. */
  lemma QuorumCountsAnswersNotStudents()
    ensures var students := map["s1" := Student("A", true), "s2" := Student("B", false)];
            var answers := map["s2" := "o1"];
            QuorumReached(|answers|, students)
            && "s1" in ConnectedSessions(students) && "s1" !in answers
  {
    var students := map["s1" := Student("A", true), "s2" := Student("B", false)];
    assert ConnectedSessions(students) == {"s1"};
  }

  // ------------------------------------------------------------------- polls

  /** The invariant of one poll: well-formed questions; the timer is armed
      exactly while a question is active; an active question points at an
      existing question, is the current one, is tallied, and coexists with
      no stored result; a stored result is internally consistent. */
  ghost predicate Consistent(s: PollState) {
    && (forall i | 0 <= i < |s.questions| :: WellFormed(s.questions[i]))
    && s.timerArmed == s.activeQuestion.Some?
    && (s.activeQuestion.Some? ==>
          var a := s.activeQuestion.value;
          && 0 <= a.questionIndex < |s.questions|
          && s.currentQuestionIndex == Some(a.questionIndex)
          && s.lastResult.None?
          && Tallied(a, s.questions[a.questionIndex]))
    && (s.lastResult.Some? ==>
          var r := s.lastResult.value;
          && r.counts.Keys == OptionIdSet(r.question)
          && SumCounts(r.counts) == r.totalAnswers)
  }

  predicate IndexInRange(s: PollState) {
    s.activeQuestion.Some? ==> 0 <= s.activeQuestion.value.questionIndex < |s.questions|
  }

  /** Recording an accepted answer keeps the poll consistent: under the
      invariant, "not answered yet" means the session has no entry, so the
      answer is counted exactly once. */
  lemma AnswerKeepsConsistent(s: PollState, sessionId: string, optionId: string)
    requires Consistent(s) && s.activeQuestion.Some?
    requires !HasAnswered(s.activeQuestion.value, sessionId)
    requires optionId in s.activeQuestion.value.counts
    ensures sessionId !in s.activeQuestion.value.answers
    ensures Consistent(s.(activeQuestion := Some(Record(s.activeQuestion.value, sessionId, optionId))))
  {
    var a := s.activeQuestion.value;
    var q := s.questions[a.questionIndex];
    AnsweredIffPresent(a, q, sessionId);
    RecordKeepsTallied(a, q, sessionId, optionId);
  }

  /** The snapshot stored by endQuestion. */
  function ResultOf(q: Question, a: ActiveQuestion, students: map<string, Student>): (r: PollResult)
    ensures Tallied(a, q) ==>
              r.counts.Keys == OptionIdSet(r.question) && SumCounts(r.counts) == r.totalAnswers
    ensures ConnectedCount(students) <= r.totalStudents
  {
    PollResult(a.questionIndex, a.counts, |a.answers|, |students|, q)
  }

  /** endQuestion: nothing when no question is active; otherwise store the
      snapshot, cancel the timer and leave the Active state. */
  function Finish(s: PollState): (r: PollState)
    requires IndexInRange(s)
    ensures s.activeQuestion.None? ==> r == s
    ensures s.activeQuestion.Some? ==>
              var a := s.activeQuestion.value;
              && r.activeQuestion.None? && !r.timerArmed
              && r.lastResult == Some(ResultOf(s.questions[a.questionIndex], a, s.students))
              && r.questions == s.questions && r.students == s.students
              && r.currentQuestionIndex == s.currentQuestionIndex
  {
    match s.activeQuestion
    case None => s
    case Some(a) =>
      s.(lastResult := Some(ResultOf(s.questions[a.questionIndex], a, s.students)),
         activeQuestion := None,
         timerArmed := false)
  }

  /** Ending twice is ending once: the second trigger finds the poll idle. */
  lemma FinishIdempotent(s: PollState)
    requires IndexInRange(s)
    ensures IndexInRange(Finish(s)) && Finish(Finish(s)) == Finish(s)
  {
  }

  /** Ending a question keeps the poll consistent, and the stored result's
      counts are the final tallies, summing to the number of answers. */
  lemma FinishKeepsConsistent(s: PollState)
    requires Consistent(s)
    ensures Consistent(Finish(s))
    ensures s.activeQuestion.Some? ==>
              var a := s.activeQuestion.value;
              var r := Finish(s).lastResult.value;
              && SumCounts(r.counts) == r.totalAnswers
              && r.counts.Keys == OptionIdSet(s.questions[a.questionIndex])
              && (forall o | o in r.counts :: r.counts[o] == Tally(a.answers, o))
  {
  }
}
