/** A whole question round, stated on the functions the handler contracts
    are written in (Activate for teacher:start, Record and QuorumReached for
    student:answer, ResultOf for endQuestion): two connected students, a
    two-option question, both answer, and the question ends early. */
module Scenarios {
  import opened PollData
  import Server

  function TwoOptionQuestion(): Question {
    Question("q1", "Q1", [Choice("a", "A"), Choice("b", "B")], 5)
  }

  function TwoStudents(): map<string, Student> {
    map["s1" := Student("Ann", true), "s2" := Student("Bob", true)]
  }

  /** The request body `{text: "Q1", options: ["A", "B"], timeLimitSec: 5}`
      with ids q1, a, b builds the two-option question. */
  lemma BuildTwoOptions()
    ensures BuildQuestions([QuestionInput("Q1", Some(["A", "B"]), Some(5))], [QuestionIds("q1", ["a", "b"])])
            == Some([TwoOptionQuestion()])
  {
    var input := QuestionInput("Q1", Some(["A", "B"]), Some(5));
    var ids := QuestionIds("q1", ["a", "b"]);
    assert ["A", "B"][1..] == ["B"] && ["a", "b"][1..] == ["b"];
    assert Choices(["A", "B"], ["a", "b"]) == [Choice("a", "A"), Choice("b", "B")];
    assert BuildQuestion(input, ids) == TwoOptionQuestion();
    assert [input][1..] == [] && [ids][1..] == [];
    assert [BuildQuestion(input, ids)] + [] == [TwoOptionQuestion()];
  }

  /** teacher:start on the two-option question at time 1000: no answers,
      a zero count per option, ending five seconds later. */
  lemma StartTwoOptions()
    ensures Activate(TwoOptionQuestion(), 0, 1000) == ActiveQuestion(0, map[], map["a" := 0, "b" := 0], 6000)
  {
    var q := TwoOptionQuestion();
    assert OptionIds(q.options) == ["a", "b"];
    assert ZeroCounts(["a", "b"]) == map["a" := 0, "b" := 0];
  }

  /** Two answers for different options from different sessions. */
  lemma TwoAnswers()
    ensures var a0 := ActiveQuestion(0, map[], map["a" := 0, "b" := 0], 6000);
            var a1 := Record(a0, "s1", "a");
            && a1 == ActiveQuestion(0, map["s1" := "a"], map["a" := 1, "b" := 0], 6000)
            && Record(a1, "s2", "b") == ActiveQuestion(0, map["s1" := "a", "s2" := "b"], map["a" := 1, "b" := 1], 6000)
  {
    assert "a" != "b";
  }

  /** With both students connected, one answer is not a quorum and two are. */
  lemma QuorumOfTwo()
    ensures !QuorumReached(1, TwoStudents()) && QuorumReached(2, TwoStudents())
  {
    assert ConnectedSessions(TwoStudents()) == {"s1", "s2"};
  }

  /** The whole round: the first answer (1 of 2 connected students) leaves
      the question open and marks that student as answered; the second
      reaches the quorum, and the stored result has one vote per option, two
      answers and two students. */
  lemma QuestionRound()
    ensures Activate(TwoOptionQuestion(), 0, 1000) == ActiveQuestion(0, map[], map["a" := 0, "b" := 0], 6000)
    ensures var a1 := Record(ActiveQuestion(0, map[], map["a" := 0, "b" := 0], 6000), "s1", "a");
            && !QuorumReached(|a1.answers|, TwoStudents())
            && HasAnswered(a1, "s1") && !HasAnswered(a1, "s2")
            && var a2 := Record(a1, "s2", "b");
               && QuorumReached(|a2.answers|, TwoStudents())
               && ResultOf(TwoOptionQuestion(), a2, TwoStudents())
                  == PollResult(0, map["a" := 1, "b" := 1], 2, 2, TwoOptionQuestion())
  {
    StartTwoOptions();
    TwoAnswers();
    QuorumOfTwo();
    var a1 := Record(ActiveQuestion(0, map[], map["a" := 0, "b" := 0], 6000), "s1", "a");
    assert |a1.answers| == 1;
    var a2 := Record(a1, "s2", "b");
    assert a2.answers == map["s1" := "a", "s2" := "b"];
    assert |a2.answers| == 2;
    assert |TwoStudents()| == 2;
  }

  /** POST /api/polls with the two-option question, then two students join:
      one poll, idle, with both students connected. */
  method SetUp() returns (registry: Server.Registry, poll: Server.Poll)
    ensures fresh(registry) && fresh(poll) && registry.Valid() && registry.polls == map["p1" := poll]
    ensures poll.State() == Idle()
  {
    registry := new Server.Registry();
    BuildTwoOptions();
    var created := registry.PostPoll("Poll", Some([QuestionInput("Q1", Some(["A", "B"]), Some(5))]), "p1",
                                     [QuestionIds("q1", ["a", "b"])]);
    poll := created.value;
    var joined1, socket1 := registry.StudentJoin(Server.Unbound, "p1", "Ann", "s1", "x1");
    var joined2, socket2 := registry.StudentJoin(Server.Unbound, "p1", "Bob", "s2", "x2");
  }

  function Idle(): PollState {
    PollState([TwoOptionQuestion()], None, None, TwoStudents(), None, false)
  }

  /** teacher:start at time 1000 makes the idle poll active on question 0. */
  method StartStep(registry: Server.Registry, poll: Server.Poll)
    requires registry.Valid() && registry.polls == map["p1" := poll] && poll.State() == Idle()
    modifies registry, poll
    ensures registry.Valid() && registry.polls == map["p1" := poll]
    ensures poll.State() == Idle().(currentQuestionIndex := Some(0),
                                     activeQuestion := Some(ActiveQuestion(0, map[], map["a" := 0, "b" := 0], 6000)),
                                     timerArmed := true)
  {
    StartTwoOptions();
    var started := registry.Start("p1", 0, 1000);
  }

  /** The first of two connected students answers: the question stays open. */
  method FirstAnswerStep(registry: Server.Registry, poll: Server.Poll)
    requires registry.Valid() && registry.polls == map["p1" := poll]
    requires poll.State() == Idle().(currentQuestionIndex := Some(0),
                                     activeQuestion := Some(ActiveQuestion(0, map[], map["a" := 0, "b" := 0], 6000)),
                                     timerArmed := true)
    modifies registry, poll
    ensures registry.Valid() && registry.polls == map["p1" := poll]
    ensures poll.State() == Idle().(currentQuestionIndex := Some(0),
                                     activeQuestion := Some(ActiveQuestion(0, map["s1" := "a"], map["a" := 1, "b" := 0], 6000)),
                                     timerArmed := true)
  {
    TwoAnswers();
    QuorumOfTwo();
    var answered := registry.Answer("p1", "s1", "a");
  }

  /** The second student answers: the quorum is reached, the question ends
      and the result is stored. */
  method SecondAnswerStep(registry: Server.Registry, poll: Server.Poll)
    requires registry.Valid() && registry.polls == map["p1" := poll]
    requires poll.State() == Idle().(currentQuestionIndex := Some(0),
                                     activeQuestion := Some(ActiveQuestion(0, map["s1" := "a"], map["a" := 1, "b" := 0], 6000)),
                                     timerArmed := true)
    modifies registry, poll
    ensures poll.activeQuestion.None? && !poll.timerArmed
    ensures poll.lastResult == Some(PollResult(0, map["a" := 1, "b" := 1], 2, 2, TwoOptionQuestion()))
  {
    TwoAnswers();
    QuorumOfTwo();
    ghost var before := poll.State();
    ghost var a2 := ActiveQuestion(0, map["s1" := "a", "s2" := "b"], map["a" := 1, "b" := 1], 6000);
    var answered := registry.Answer("p1", "s2", "b");
    assert |a2.answers| == 2 && |TwoStudents()| == 2;
    assert poll.State() == Finish(before.(activeQuestion := Some(a2)));
  }

  /** The same round driven through the handlers: create the poll, two
      students join, the teacher starts the question, both answer. The
      question has ended and its result is stored without any timer firing. */
  method HandlerRound() returns (active: Option<ActiveQuestion>, result: Option<PollResult>)
    ensures active.None?
    ensures result == Some(PollResult(0, map["a" := 1, "b" := 1], 2, 2, TwoOptionQuestion()))
  {
    var registry, poll := SetUp();
    StartStep(registry, poll);
    FirstAnswerStep(registry, poll);
    SecondAnswerStep(registry, poll);
    active, result := poll.activeQuestion, poll.lastResult;
  }
}
