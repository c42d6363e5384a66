/** The poll session coordinator of server/server.js: the process-wide
    registry of polls and its REST and socket handlers. Each handler runs to
    completion before the next one (the event loop serialises them), so each
    is one method. Broadcasts are recorded in a ghost event log; the host
    timer is the poll's `timerArmed` flag, and its expiry is a call to
    EndQuestion. Fresh identifiers and the current time are parameters. */
module Server {
  import opened PollData

  datatype Error =
    | Invalid              // 400 "invalid"
    | MalformedQuestion    // createPoll throws: a question's options is not an array
    | NotFound             // "not_found" (GET /api/polls/:id only)
    | PollNotFound         // "poll_not_found"
    | ActiveQuestionExists // "active_question_exists"
    | QuestionNotFound     // "question_not_found"
    | NoActiveQuestion     // "no_active_question"
    | AlreadyAnswered      // "already_answered"
    | InvalidOption        // "invalid_option"
    | StudentNotFound      // "student_not_found"

  datatype Result<T> = Ok(value: T) | Fail(error: Error)

  /** What a socket remembers about itself (`socket.data`). */
  datatype SocketData =
    | Unbound
    | TeacherOf(pollId: string)
    | StudentOf(pollId: string, sessionId: string)

  /** Broadcasts to a poll's room. */
  datatype Event =
    | StudentsChanged(pollId: string, students: map<string, Student>)
    | QuestionStarted(pollId: string, question: Question, endsAt: int)
    | QuestionUpdated(pollId: string, counts: map<string, nat>, totalAnswers: nat)
    | QuestionEnded(pollId: string, result: PollResult)

  predicate CreateRequestValid(title: string, questions: Option<seq<QuestionInput>>) {
    title != "" && questions.Some? && |questions.value| > 0
  }

  predicate AppendRequestValid(text: string, options: Option<seq<string>>) {
    text != "" && options.Some? && |options.value| > 0
  }

  /** `sessionId || nanoid()`: the session a joining student is stored
      under, which is empty only when both candidates are. */
  function SessionFor(requested: string, freshId: string): (sid: string)
    ensures sid == "" <==> requested == "" && freshId == ""
  {
    if requested != "" then requested else freshId
  }

  /** One poll record; the handlers update its fields in place. */
  class Poll {
    const id: string
    const title: string
    var questions: seq<Question>
    var currentQuestionIndex: Option<int>
    var activeQuestion: Option<ActiveQuestion>
    var students: map<string, Student>
    var lastResult: Option<PollResult>
    var timerArmed: bool

    function State(): PollState
      reads this
    {
      PollState(questions, currentQuestionIndex, activeQuestion, students, lastResult, timerArmed)
    }

    ghost predicate Valid()
      reads this
    {
      Consistent(State())
    }

    constructor (id: string, title: string, questions: seq<Question>)
      requires forall i | 0 <= i < |questions| :: WellFormed(questions[i])
      ensures this.id == id && this.title == title
      ensures State() == PollState(questions, None, None, map[], None, false)
      ensures Valid()
    {
      this.id := id;
      this.title := title;
      this.questions := questions;
      currentQuestionIndex := None;
      activeQuestion := None;
      students := map[];
      lastResult := None;
      timerArmed := false;
    }
  }

  /** The `polls` map and the handlers that work on it. */
  class Registry {
    var polls: map<string, Poll>
    ghost var events: seq<Event>

    /** Every stored poll is consistent and filed under its own id (so two
        ids never share a poll object). */
    ghost predicate Valid()
      reads this, polls.Values
    {
      forall pid | pid in polls :: polls[pid].id == pid && polls[pid].Valid()
    }

    /** The poll a handler for `pollId` may change. */
    function At(pollId: string): set<Poll>
      reads this
    {
      if pollId in polls then {polls[pollId]} else {}
    }

    constructor ()
      ensures Valid() && polls == map[] && events == []
    {
      polls := map[];
      events := [];
    }

    /** createPoll: build the questions and store a fresh, idle poll under
        `pollId` (replacing any poll already there, as Map.set does). */
    method CreatePoll(title: string, inputs: seq<QuestionInput>, pollId: string, ids: seq<QuestionIds>)
      returns (r: Result<Poll>)
      requires Valid() && IdsFitAll(inputs, ids)
      modifies this
      ensures Valid() && events == old(events)
      ensures BuildQuestions(inputs, ids).None? ==> r == Fail(MalformedQuestion) && polls == old(polls)
      ensures BuildQuestions(inputs, ids).Some? ==>
                && r.Ok? && fresh(r.value)
                && polls == old(polls)[pollId := r.value]
                && r.value.id == pollId && r.value.title == title
                && r.value.State() == PollState(BuildQuestions(inputs, ids).value, None, None, map[], None, false)
    {
      var built := BuildQuestions(inputs, ids);
      if built.None? {
        return Fail(MalformedQuestion);
      }
      var poll := new Poll(pollId, title, built.value);
      polls := polls[pollId := poll];
      r := Ok(poll);
    }

    /** POST /api/polls: reject a falsy title or a question list that is not
        a non-empty array, then create the poll. */
    method PostPoll(title: string, questions: Option<seq<QuestionInput>>, pollId: string, ids: seq<QuestionIds>)
      returns (r: Result<Poll>)
      requires Valid()
      requires questions.Some? ==> IdsFitAll(questions.value, ids)
      modifies this
      ensures Valid() && events == old(events)
      ensures !CreateRequestValid(title, questions) ==> r == Fail(Invalid) && polls == old(polls)
      ensures CreateRequestValid(title, questions) && BuildQuestions(questions.value, ids).None? ==>
                r == Fail(MalformedQuestion) && polls == old(polls)
      ensures CreateRequestValid(title, questions) && BuildQuestions(questions.value, ids).Some? ==>
                && r.Ok? && fresh(r.value)
                && polls == old(polls)[pollId := r.value]
                && r.value.id == pollId && r.value.title == title
                && r.value.State() == PollState(BuildQuestions(questions.value, ids).value, None, None, map[], None, false)
    {
      if !CreateRequestValid(title, questions) {
        return Fail(Invalid);
      }
      r := CreatePoll(title, questions.value, pollId, ids);
    }

    /** GET /api/polls/:id. */
    function Get(pollId: string): (r: Result<Poll>)
      requires Valid()
      reads this, polls.Values
      ensures r.Ok? <==> pollId in polls
      ensures r.Ok? ==> r.value in polls.Values && r.value.id == pollId
      ensures r.Fail? ==> r.error == NotFound
    {
      if pollId in polls then Ok(polls[pollId]) else Fail(NotFound)
    }

    /** POST /api/polls/:id/questions: append one question at the end. */
    method AppendQuestion(pollId: string, text: string, options: Option<seq<string>>,
                          timeLimitSec: Option<int>, ids: QuestionIds)
      returns (r: Result<Question>)
      requires Valid() && IdsFit(QuestionInput(text, options, timeLimitSec), ids)
      modifies At(pollId)
      ensures Valid() && polls == old(polls) && events == old(events)
      ensures pollId !in polls ==> r == Fail(PollNotFound)
      ensures pollId in polls ==>
                var s := old(polls[pollId].State());
                if !AppendRequestValid(text, options) then
                  r == Fail(Invalid) && polls[pollId].State() == s
                else
                  var q := BuildQuestion(QuestionInput(text, options, timeLimitSec), ids);
                  r == Ok(q) && polls[pollId].State() == s.(questions := s.questions + [q])
    {
      if pollId !in polls {
        return Fail(PollNotFound);
      }
      var poll := polls[pollId];
      if !AppendRequestValid(text, options) {
        return Fail(Invalid);
      }
      var q := BuildQuestion(QuestionInput(text, options, timeLimitSec), ids);
      poll.questions := poll.questions + [q];
      r := Ok(q);
      forall pid | pid in polls ensures polls[pid].id == pid && polls[pid].Valid() {
        if pid != pollId { assert polls[pid] != poll; }
      }
    }

    /** teacher:join: look the poll up and bind the socket to it as teacher. */
    method TeacherJoin(socket: SocketData, pollId: string) returns (r: Result<Poll>, socket': SocketData)
      requires Valid()
      ensures pollId !in polls ==> r == Fail(PollNotFound) && socket' == socket
      ensures pollId in polls ==> r == Ok(polls[pollId]) && r.value.id == pollId && socket' == TeacherOf(pollId)
    {
      if pollId !in polls {
        return Fail(PollNotFound), socket;
      }
      r, socket' := Ok(polls[pollId]), TeacherOf(pollId);
    }

    /** student:join: store `{name, connected: true}` under the supplied
        session id (overwriting a stored record) or under a fresh one. */
    method StudentJoin(socket: SocketData, pollId: string, name: string, sessionId: string, freshId: string)
      returns (r: Result<string>, socket': SocketData)
      requires Valid()
      modifies this, At(pollId)
      ensures Valid() && polls == old(polls)
      ensures pollId !in polls ==> r == Fail(PollNotFound) && socket' == socket && events == old(events)
      ensures pollId in polls ==>
                var sid := SessionFor(sessionId, freshId);
                var s := old(polls[pollId].State());
                var students := s.students[sid := Student(name, true)];
                && r == Ok(sid) && socket' == StudentOf(pollId, sid)
                && polls[pollId].State() == s.(students := students)
                && events == old(events) + [StudentsChanged(pollId, students)]
    {
      if pollId !in polls {
        return Fail(PollNotFound), socket;
      }
      var poll := polls[pollId];
      var sid := SessionFor(sessionId, freshId);
      poll.students := poll.students[sid := Student(name, true)];
      events := events + [StudentsChanged(pollId, poll.students)];
      r, socket' := Ok(sid), StudentOf(pollId, sid);
      forall pid | pid in polls ensures polls[pid].id == pid && polls[pid].Valid() {
        if pid != pollId { assert polls[pid] != poll; }
      }
    }

    /** teacher:start: Idle to Active, refused while a question is active or
        for an index that names no question. */
    method Start(pollId: string, questionIndex: int, now: int) returns (r: Result<()>)
      requires Valid()
      modifies this, At(pollId)
      ensures Valid() && polls == old(polls)
      ensures pollId !in polls ==> r == Fail(PollNotFound) && events == old(events)
      ensures pollId in polls ==>
                var s := old(polls[pollId].State());
                if s.activeQuestion.Some? then
                  r == Fail(ActiveQuestionExists) && polls[pollId].State() == s && events == old(events)
                else if !(0 <= questionIndex < |s.questions|) then
                  r == Fail(QuestionNotFound) && polls[pollId].State() == s && events == old(events)
                else
                  var q := s.questions[questionIndex];
                  var a := Activate(q, questionIndex, now);
                  && r == Ok(())
                  && polls[pollId].State() == s.(currentQuestionIndex := Some(questionIndex),
                                                 activeQuestion := Some(a),
                                                 lastResult := None,
                                                 timerArmed := true)
                  && events == old(events) + [QuestionStarted(pollId, q, a.endsAt)]
    {
      if pollId !in polls {
        return Fail(PollNotFound);
      }
      var poll := polls[pollId];
      if poll.activeQuestion.Some? {
        return Fail(ActiveQuestionExists);
      }
      if !(0 <= questionIndex < |poll.questions|) {
        return Fail(QuestionNotFound);
      }
      var q := poll.questions[questionIndex];
      var a := Activate(q, questionIndex, now);
      poll.activeQuestion := Some(a);
      poll.currentQuestionIndex := Some(questionIndex);
      poll.lastResult := None;
      poll.timerArmed := true;
      events := events + [QuestionStarted(pollId, q, a.endsAt)];
      r := Ok(());
      forall pid | pid in polls ensures polls[pid].id == pid && polls[pid].Valid() {
        if pid != pollId { assert polls[pid] != poll; }
      }
    }

    /** student:answer: one answer per session; refused with no active
        question, for a session that already answered, or for an option the
        question does not have. The session need not be a student of the
        poll. Once the answers reach the number of connected students the
        question ends at once. */
    method Answer(pollId: string, sessionId: string, optionId: string) returns (r: Result<()>)
      requires Valid()
      modifies this, At(pollId)
      ensures Valid() && polls == old(polls)
      ensures pollId !in polls ==> r == Fail(PollNotFound) && events == old(events)
      ensures pollId in polls ==>
                var s := old(polls[pollId].State());
                if s.activeQuestion.None? then
                  r == Fail(NoActiveQuestion) && polls[pollId].State() == s && events == old(events)
                else if HasAnswered(s.activeQuestion.value, sessionId) then
                  r == Fail(AlreadyAnswered) && polls[pollId].State() == s && events == old(events)
                else if optionId !in s.activeQuestion.value.counts then
                  r == Fail(InvalidOption) && polls[pollId].State() == s && events == old(events)
                else
                  var a := Record(s.activeQuestion.value, sessionId, optionId);
                  var recorded := s.(activeQuestion := Some(a));
                  var update := QuestionUpdated(pollId, a.counts, |a.answers|);
                  && r == Ok(())
                  && IndexInRange(recorded)
                  && if QuorumReached(|a.answers|, s.students) then
                       && polls[pollId].State() == Finish(recorded)
                       && events == old(events) + [update] + [QuestionEnded(pollId, Finish(recorded).lastResult.value)]
                     else
                       && polls[pollId].State() == recorded
                       && events == old(events) + [update]
    {
      if pollId !in polls {
        return Fail(PollNotFound);
      }
      var poll := polls[pollId];
      if poll.activeQuestion.None? {
        return Fail(NoActiveQuestion);
      }
      var active := poll.activeQuestion.value;
      if HasAnswered(active, sessionId) {
        return Fail(AlreadyAnswered);
      }
      if optionId !in active.counts {
        return Fail(InvalidOption);
      }
      ghost var s := poll.State();
      AnswerKeepsConsistent(s, sessionId, optionId);
      var a := Record(active, sessionId, optionId);
      ghost var recorded := s.(activeQuestion := Some(a));
      poll.activeQuestion := Some(a);
      events := events + [QuestionUpdated(pollId, a.counts, |a.answers|)];
      ghost var logged := events;
      assert poll.State() == recorded;
      forall pid | pid in polls ensures polls[pid].id == pid && polls[pid].Valid() {
        if pid != pollId { assert polls[pid] != poll; }
      }
      if |a.answers| >= ConnectedCount(poll.students) {
        // The handler's own clearTimeout is the one EndQuestion performs.
        EndQuestion(pollId);
        assert poll.State() == Finish(recorded);
        assert events == logged + [QuestionEnded(pollId, Finish(recorded).lastResult.value)];
      }
      r := Ok(());
    }

    /** teacher:remove_student: delete the record; the answers already given
        stay in the active question. */
    method RemoveStudent(pollId: string, sessionId: string) returns (r: Result<()>)
      requires Valid()
      modifies this, At(pollId)
      ensures Valid() && polls == old(polls)
      ensures pollId !in polls ==> r == Fail(StudentNotFound) && events == old(events)
      ensures pollId in polls ==>
                var s := old(polls[pollId].State());
                if sessionId !in s.students then
                  r == Fail(StudentNotFound) && polls[pollId].State() == s && events == old(events)
                else
                  && r == Ok(())
                  && polls[pollId].State() == s.(students := s.students - {sessionId})
                  && events == old(events) + [StudentsChanged(pollId, s.students - {sessionId})]
    {
      if pollId !in polls || sessionId !in polls[pollId].students {
        return Fail(StudentNotFound);
      }
      var poll := polls[pollId];
      poll.students := poll.students - {sessionId};
      events := events + [StudentsChanged(pollId, poll.students)];
      r := Ok(());
      forall pid | pid in polls ensures polls[pid].id == pid && polls[pid].Valid() {
        if pid != pollId { assert polls[pid] != poll; }
      }
    }

    /** The polls a disconnect may touch. */
    function Bound(socket: SocketData): set<Poll>
      reads this
    {
      if socket.StudentOf? then At(socket.pollId) else {}
    }

    /** disconnect: a student socket marks its record disconnected (the record
        stays); any other socket changes nothing. */
    method Disconnect(socket: SocketData)
      requires Valid()
      modifies this, Bound(socket)
      ensures Valid() && polls == old(polls)
      ensures if socket.StudentOf? && socket.pollId != "" && socket.pollId in polls
                 && socket.sessionId in old(polls[socket.pollId].students) then
                var s := old(polls[socket.pollId].State());
                var students := s.students[socket.sessionId := s.students[socket.sessionId].(connected := false)];
                && polls[socket.pollId].State() == s.(students := students)
                && events == old(events) + [StudentsChanged(socket.pollId, students)]
              else
                && events == old(events)
                && (socket.StudentOf? && socket.pollId in polls ==>
                      polls[socket.pollId].State() == old(polls[socket.pollId].State()))
    {
      if socket.StudentOf? && socket.pollId != "" && socket.pollId in polls {
        var poll := polls[socket.pollId];
        if socket.sessionId in poll.students {
          var sid := socket.sessionId;
          poll.students := poll.students[sid := poll.students[sid].(connected := false)];
          events := events + [StudentsChanged(socket.pollId, poll.students)];
          forall pid | pid in polls ensures polls[pid].id == pid && polls[pid].Valid() {
            if pid != socket.pollId { assert polls[pid] != poll; }
          }
        }
      }
    }

    /** endQuestion, also what the timer runs when it expires: a no-op on an
        idle poll, otherwise store the result, cancel the timer, go Idle. */
    method EndQuestion(pollId: string)
      requires Valid()
      modifies this, At(pollId)
      ensures Valid() && polls == old(polls)
      ensures pollId !in polls ==> events == old(events)
      ensures pollId in polls ==>
                var s := old(polls[pollId].State());
                && IndexInRange(s)
                && polls[pollId].State() == Finish(s)
                && events == old(events) + (if s.activeQuestion.Some? then [QuestionEnded(pollId, Finish(s).lastResult.value)] else [])
    {
      if pollId !in polls {
        return;
      }
      var poll := polls[pollId];
      if poll.activeQuestion.None? {
        return;
      }
      var active := poll.activeQuestion.value;
      ghost var s := poll.State();
      FinishKeepsConsistent(s);
      var result := ResultOf(poll.questions[active.questionIndex], active, poll.students);
      assert Finish(s) == s.(lastResult := Some(result), activeQuestion := None, timerArmed := false);
      poll.lastResult := Some(result);
      poll.timerArmed := false;
      poll.activeQuestion := None;
      events := events + [QuestionEnded(pollId, result)];
      assert poll.State() == Finish(s);
      forall pid | pid in polls ensures polls[pid].id == pid && polls[pid].Valid() {
        if pid != pollId {
          assert polls[pid] != poll;
        }
      }
    }
  }
}
