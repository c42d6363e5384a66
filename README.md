# Live-polling session coordinator

A model of the server side of a classroom live-polling application. A teacher
creates a poll, students join it, the teacher starts one question at a time,
students answer it, and the question ends when its time runs out or when
enough students have answered. The coordinator is an in-memory registry of
polls. Each poll holds:

- a question list that only grows;
- a table of students (session id to name and connection flag);
- at most one active question, with its answers and running counts;
- the result of the last question that ended.

The REST and socket handlers are small state transitions on that registry.

The model has three modules:

- `PollData` (`poll_data.dfy`): the values (questions, students, the active
  question record, the result, the state of one poll) and the pure
  computations of the handlers:
  - the default time limit;
  - building a question from a request;
  - zero counts per option;
  - recording an answer;
  - counting connected students;
  - the early-termination rule;
  - the end-of-question transition `Finish`.

  It also states the per-poll invariant `Consistent` and proves it is kept:
  - the timer is armed exactly while a question is active;
  - the count keys are the active question's option ids;
  - each count is the number of answers for its option;
  - the counts add up to the number of answers.
- `Server` (`server.dfy`):
  - class `Poll`, one poll record whose fields the handlers update in place;
  - class `Registry`, the `polls` map with one method per handler. Each
    method's contract gives the error it returns and the poll's new state as
    a function of its old state. Every rejected call leaves the state and the
    event log unchanged.
  - a ghost event log standing for the broadcasts to a poll's room.
- `Scenarios` (`scenario.dfy`): one question round on concrete values. Two
  connected students answer a two-option question, and the question ends
  early with one vote per option. The round is stated twice: once on the
  pure functions, and once driven through the `Registry` handlers (create,
  two joins, start, two answers), using only their contracts.

JavaScript truthiness is modelled literally:

- A missing title, text or session id is the empty string.
- `timeLimitSec` is `Option<int>`, and `None` or `0` becomes 60.
- "Is an array" is `Option<seq<…>>`.
- The already-answered test is truthiness of the stored option id. The lemma
  `AnsweredIffPresent` shows that, under the invariant, this is the same as
  the session having an entry.

The event loop runs each handler to completion, so each handler is one method.

The model follows the code in these places where its behaviour is
surprising:

- createPoll does not check question texts and accepts a question with an
  empty option list.
- A question whose options are not an array makes createPoll throw: the
  request fails and nothing is stored. The model returns `MalformedQuestion`
  for this case; there is no separate validation error.
- The early-termination rule compares the number of answers with the number
  of connected students. It does not check who answered. An answer from a
  disconnected session, or from a session that never joined, counts toward
  the quorum (`QuorumCountsAnswersNotStudents`).

## Model

| member | source | states |
|---|---|---|
| Server.Registry.constructor | server/server.js:14 | the registry starts with no polls and an empty event log, and is valid |
| Server.Poll.constructor | server/server.js:18-31 | a new poll has the given id, title and questions, no current question, no active question, no students, no last result and no timer; it satisfies the poll invariant |
| Server.Registry.CreatePoll | server/server.js:16-34 | if a question's options is not an array, nothing is stored and the call fails; otherwise a fresh idle poll is filed under the new id, holding exactly the built questions; the registry stays valid |
| Server.Registry.PostPoll | server/server.js:39-46 | a falsy title, or questions that are absent, not an array or empty, give `invalid` and leave the registry alone; otherwise the result of CreatePoll |
| Server.Registry.Get | server/server.js:49-53 | succeeds iff the id is registered, returning the poll filed under that id; otherwise `NotFound` (`not_found`, the only handler that does not answer `poll_not_found`) |
| Server.Registry.AppendQuestion | server/server.js:56-72 | unknown poll gives `poll_not_found`; falsy text or missing or empty options give `invalid` with the poll unchanged; otherwise the built question is appended at the end, with every other field and every earlier question unchanged |
| Server.Registry.TeacherJoin | server/server.js:80-86 | unknown poll fails and leaves the socket as it was; otherwise returns that poll and binds the socket to it as teacher |
| Server.Registry.StudentJoin | server/server.js:89-107 | unknown poll fails; otherwise `{name, connected: true}` is stored under the given session id, or under the fresh id when none is given, overwriting a stored record; only the student table changes; the socket is bound as that student and the new table is broadcast |
| Server.Registry.Start | server/server.js:110-139 | an active question gives `active_question_exists` and an index outside the list gives `question_not_found`, both with no change; otherwise the poll becomes active on that question, with a fresh record, the current index set, the last result cleared and the timer armed; nothing else changes and `question:started` is broadcast |
| Server.Registry.Answer | server/server.js:142-175 | no active question, an already-answered session, or an option id that is not a count key each give their error with no change; otherwise the answer is recorded and one `question:update` is broadcast; when the answers reach the number of connected students the poll is ended with `Finish` and `question:ended` is broadcast; the registry stays valid |
| Server.Registry.RemoveStudent | server/server.js:178-185 | an unknown poll or session gives `student_not_found` with no change; otherwise only that student's record is deleted, and the active question's answers stay as they were |
| Server.Registry.Disconnect | server/server.js:187-196 | a student socket whose record exists gets `connected = false` and the record stays; in every other case no poll and no event changes |
| Server.Registry.EndQuestion | server/server.js:199-224 | the poll's new state is `Finish` of its old state: nothing on an idle poll, otherwise the result is stored, the timer cleared and the poll idle; `question:ended` is broadcast only in the second case; the registry stays valid |
| PollData.TimeLimitOrDefault | server/server.js:25 | an absent or zero time limit becomes 60 and any other is kept, so the result is never zero |
| PollData.Choices | server/server.js:24 | one choice per option text, in order, under the supplied ids |
| PollData.BuildQuestion | server/server.js:63-68 | the question has the fresh id and the given text; its options read back as the request's texts, in order, under the fresh ids; its time limit is defaulted and its option ids are non-empty |
| PollData.BuildQuestions | server/server.js:21-26 | builds iff every question's options is an array; then one question per input, in order, each equal to BuildQuestion of its input |
| PollData.BuildQuestionsKeepOptions | server/server.js:21-26 | in every question of a created poll, the options read back as the request's option texts in their order, under the supplied ids, and the time limit is the defaulted one, never zero |
| PollData.ZeroCounts | server/server.js:124 | the keys are exactly the given ids, every count is zero, and the counts sum to zero |
| PollData.Activate | server/server.js:118-126 | the new record has no answers, a zero count for every option id of the question and no other key, the given index, and `endsAt = now + timeLimitSec * 1000`; it satisfies the tally invariant |
| PollData.Record | server/server.js:153-154 | the answer is stored under the session, the answer keys gain that session only, and the count keys are unchanged |
| PollData.SumCountsIncrement | server/server.js:154 | raising one count by one raises the sum of the counts by exactly one |
| PollData.TallyAfterAnswer | server/server.js:153 | a session's first answer adds one to the tally of its option and leaves every other tally unchanged |
| PollData.RecordKeepsTallied | server/server.js:153-154 | recording a first answer keeps the tally invariant, so the counts still sum to the number of answers; there is one more answer and exactly the chosen count is one higher |
| PollData.AnsweredIffPresent | server/server.js:148 | under the tally invariant, the truthiness test for "already answered" holds iff the session has an entry |
| PollData.AnswerKeepsConsistent | server/server.js:145-154 | an answer that passes the guards comes from a session with no entry, and recording it keeps the poll invariant |
| PollData.ConnectedCount | server/server.js:162-164 | the number of connected students never exceeds the number of students |
| PollData.JoinConnectedCount | server/server.js:94 | a join or rejoin adds one connected student unless that session was already connected |
| PollData.DisconnectConnectedCount | server/server.js:192 | a disconnect keeps every record and lowers the connected count by one iff the student was connected |
| PollData.RemoveConnectedCount | server/server.js:182 | removing a student lowers the connected count by one iff the student was connected |
| PollData.AllConnectedAnsweredEnds | server/server.js:161-166 | when every connected student has answered, the early-termination rule fires |
| PollData.QuorumCountsAnswersNotStudents | server/server.js:161-166 | the rule can fire while a connected student has not answered, if a disconnected session has answered |
| PollData.HasAnswered | server/server.js:148 | the already-answered test only holds for a session that has an entry |
| PollData.QuorumReached | server/server.js:162-166 | the early-termination rule always fires once there are at least as many answers as students; with no answers it fires exactly when no student is connected |
| PollData.ResultOf | server/server.js:206-212 | for a tallied active question the stored counts are keyed by the question's option ids and sum to `totalAnswers`; `totalStudents` counts every student, so it is never below the connected count |
| PollData.Finish | server/server.js:199-221 | on an idle poll nothing changes; otherwise the result of the active question is stored, the timer is disarmed and the poll is idle, with the questions, students and current index unchanged |
| PollData.FinishIdempotent | server/server.js:199-201 | ending a question twice has the same effect as ending it once |
| PollData.FinishKeepsConsistent | server/server.js:203-221 | ending keeps the poll invariant; the stored counts are the final tallies over the question's option ids and sum to `totalAnswers` |
| Scenarios.BuildTwoOptions | server/server.js:21-26 | the request `{text: "Q1", options: ["A", "B"], timeLimitSec: 5}` with ids q1, a, b builds the two-option question |
| Scenarios.StartTwoOptions | server/server.js:118-126 | starting a two-option question with a 5-second limit at time 1000 gives no answers, zero counts for both options and `endsAt = 6000` |
| Scenarios.TwoAnswers | server/server.js:153-154 | two sessions answering different options give one vote per option |
| Scenarios.QuorumOfTwo | server/server.js:162-166 | with two connected students, one answer is not a quorum and two are |
| Scenarios.QuestionRound | server/server.js:110-175 | the whole round: after the first answer the question stays open and only that student has answered; after the second the quorum is reached and the result shows one vote per option, two answers and two students |
| Scenarios.SetUp | server/server.js:39-46 | POST of the two-option poll followed by two student joins gives one idle poll with both students connected |
| Scenarios.StartStep | server/server.js:110-139 | teacher:start on that poll at time 1000 makes question 0 active with zero counts, `endsAt = 6000` and the timer armed |
| Scenarios.FirstAnswerStep | server/server.js:142-175 | the first of two connected students answers: one vote is counted and the question stays open |
| Scenarios.SecondAnswerStep | server/server.js:142-175 | the second answer reaches the quorum: the question ends without the timer and the stored result has one vote per option, two answers and two students |
| Scenarios.HandlerRound | server/server.js:39-175 | the round driven through the handlers ends with no active question and that result stored |

## Left out

- HTTP and socket plumbing are not modelled: routing, status codes, `cb` acknowledgements, room membership (`socket.join`) and the connection log line. Broadcasts are recorded as entries in a ghost event log. Serialising a whole poll while a question is active (the GET response, the `teacher:join` and `student:join` acknowledgements) also serialises the live timer handle in the active record. That handle is circular, so the source likely fails there with a server error; in `student:join` the record would already be stored and the `poll:students` broadcast skipped. The model's `Get`, `TeacherJoin` and `StudentJoin` answer normally in that case.
- `Date.now()` is a parameter (`now`) of `Start`.
- The host timer is the poll's `timerArmed` flag. Its expiry is a call to `EndQuestion`. The answer handler's own `clearTimeout` is the one `EndQuestion` performs, so it is not modelled separately.
- `nanoid` is not modelled. Poll, question, option and fresh session ids are parameters. The only requirement on them is that option ids are non-empty; distinctness is not required because no property depends on it. A new poll filed under an existing id replaces the old one, as `Map.set` does.
- JSON bodies are typed. A missing title, text or session id is the empty string; an absent time limit is `None`; non-array options are `None`. Values of other JSON types (a numeric title, an option text that is not a string) are not modelled.
- Time limits are integers. A fractional `timeLimitSec` such as `2.5` is truthy, so the source keeps it and ends the question after 2.5 seconds; the model cannot represent it.
- Server.Registry.AppendQuestion: options that are not an array but have a truthy `length` (a string such as `"AB"`, an object `{length: 1}`) pass the source's `options?.length` test and then make `options.map` throw, so the request fails with a server error and nothing is appended. The model represents every non-array value as `None` and answers `Invalid` for it; the poll is unchanged in both.
- A question built with a missing text stores `""` rather than `undefined`.
- Keys inherited from the JavaScript object prototype are not modelled: a session id or option id such as `constructor` behaves like any other string.
- `totalAnswers` in the `question:update` broadcast is the number of answers, read the same way as in the handler. The emitted payload objects are the model's values, not aliases of the live records.
- The React client and the Redux store are not part of this model.
