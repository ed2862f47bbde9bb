/**
 * The `App` component as an object: five mutable fields, one method per
 * callback.  Each method sets the fields in the order the callback calls
 * the setters and promises the new state that the corresponding function
 * of `QuizSession` gives; the properties of those functions are proved
 * there.  The question list and the initial time are fixed at construction.
 */
module App {
  import opened Wrappers
  import opened QuizSession
  import QuestionCard

  class Controller {
    const questions: seq<Question>
    const initialTime: nat
    var gameState: GameState
    var selectedAnswer: Option<int>
    var currentQuestion: nat
    var score: nat
    var timeLeft: nat

    /** The five fields as one value. */
    function State(): Session
      reads this
    {
      Session(gameState, selectedAnswer, currentQuestion, score, timeLeft)
    }

    ghost predicate Valid()
      reads this
    {
      ValidQuiz(questions) && initialTime > 0 && Consistent(State(), initialTime)
    }

    /** Mounting the component: the start screen, nothing answered, the full time on the clock. */
    constructor (questions: seq<Question>, initialTime: nat)
      requires ValidQuiz(questions) && initialTime > 0
      ensures Valid()
      ensures this.questions == questions && this.initialTime == initialTime
      ensures State() == Initial(initialTime)
    {
      this.questions := questions;
      this.initialTime := initialTime;
      gameState := Start;
      selectedAnswer := None;
      currentQuestion := 0;
      score := 0;
      timeLeft := initialTime;
    }

    /** The start timeout; `captured` is the game state the Start click saw. */
    method HandleStart(captured: GameState)
      requires Valid()
      modifies this
      ensures Valid()
      ensures State() == Started(old(State()), captured, initialTime)
    {
      if captured == Start {
        gameState := Playing;
        timeLeft := initialTime;
        score := 0;
        currentQuestion := 0;
        selectedAnswer := None;
      }
    }

    /** The restart handler: back to the start screen with everything reset. */
    method HandleRestart()
      requires Valid()
      modifies this
      ensures Valid()
      ensures State() == Restarted(old(State()), initialTime)
    {
      gameState := Start;
      score := 0;
      currentQuestion := 0;
      selectedAnswer := None;
      timeLeft := initialTime;
    }

    /**
     * The answer handler.  `scheduled` is the advance it schedules, by the
     * question index that advance captured: none when it returns early, one
     * for the question on screen otherwise.
     */
    method HandleAnswer(index: int) returns (scheduled: Option<nat>)
      requires Valid()
      requires selectedAnswer.Some? || currentQuestion < |questions|
      modifies this
      ensures Valid()
      ensures State() == Answered(old(State()), questions, index)
      ensures scheduled == (if old(selectedAnswer).Some? then None else Some(old(currentQuestion)))
    {
      if selectedAnswer.Some? {
        return None;
      }
      selectedAnswer := Some(index);
      var isCorrect := index == questions[currentQuestion].correct;
      if isCorrect {
        score := score + 1;
      }
      scheduled := Some(currentQuestion);
    }

    /** The advance timeout; `captured` is the question index the answer saw. */
    method Advance(captured: int)
      requires Valid()
      modifies this
      ensures Valid()
      ensures State() == Advanced(old(State()), captured, |questions|)
    {
      if captured < |questions| - 1 {
        currentQuestion := currentQuestion + 1;
        selectedAnswer := None;
      } else {
        gameState := End;
      }
    }

    /** One firing of the one-second interval. */
    method Tick()
      requires Valid()
      modifies this
      ensures Valid()
      ensures State() == Ticked(old(State()))
    {
      if gameState == Playing && timeLeft > 0 {
        if timeLeft <= 1 {
          gameState := End;
          timeLeft := 0;
        } else {
          timeLeft := timeLeft - 1;
        }
      }
    }
  }

  /**
   * An answer to the question on screen followed, once the feedback delay
   * is over, by the advance it scheduled.
   */
  method AnswerThenAdvance(c: Controller, index: int)
    requires c.Valid() && c.selectedAnswer.None? && c.currentQuestion < |c.questions|
    modifies c
    ensures c.Valid()
    ensures c.State() == Advanced(Answered(old(c.State()), c.questions, index), old(c.currentQuestion), |c.questions|)
  {
    var scheduled := c.HandleAnswer(index);
    c.Advance(scheduled.value);
  }

  /**
   * A press and click through the card: the card's guard decides whether the
   * answer callback is called, and with which index; `scheduled` is the
   * advance the answer handler then schedules.
   */
  method ClickOption(c: Controller, g: QuestionCard.CommitGuard, index: nat)
    returns (call: Option<int>, scheduled: Option<nat>)
    requires c.Valid() && g.Valid() && c.currentQuestion < |c.questions|
    modifies c, g
    ensures c.Valid() && g.Valid()
    ensures call == (if old(c.selectedAnswer).Some? || old(g.submitted) then None else Some(index))
    ensures c.State() == (if call.Some? then Answered(old(c.State()), c.questions, index) else old(c.State()))
    ensures scheduled == (if call.Some? then Some(old(c.currentQuestion)) else None)
    ensures call.Some? ==> g.Calls == old(g.Calls) + [index] && g.submitted && g.committedIndex == Some(index)
    ensures call.None? ==> unchanged(g)
  {
    g.PointerDown(index, c.selectedAnswer);
    call := g.DispatchClick(index, c.selectedAnswer);
    scheduled := None;
    if call.Some? {
      scheduled := c.HandleAnswer(call.value);
    }
  }

  /** Five questions whose correct options are 0, 1, 1, 0, 0. */
  function SampleQuiz(): (qs: seq<Question>)
    ensures ValidQuiz(qs) && |qs| == 5
    ensures qs[0].correct == 0 && qs[1].correct == 1 && qs[2].correct == 1
    ensures qs[3].correct == 0 && qs[4].correct == 0
  {
    var options := ["A", "B", "C", "D"];
    [Question("Q1", options, 0), Question("Q2", options, 1), Question("Q3", options, 1),
     Question("Q4", options, 0), Question("Q5", options, 0)]
  }

  /** How many of `answers` match the correct option of the question at the same position. */
  function CorrectCount(qs: seq<Question>, answers: seq<int>): nat
    requires |answers| <= |qs|
    decreases |answers|
  {
    if |answers| == 0 then 0
    else
      var last := |answers| - 1;
      CorrectCount(qs, answers[..last]) + (if answers[last] == qs[last].correct then 1 else 0)
  }

  /**
   * Starts a new game and answers every question in turn with `answers`,
   * letting each advance fire before the next answer and no tick in between.
   * The game ends on the last question with one point per correct answer.
   */
  method PlayQuiz(qs: seq<Question>, initialTime: nat, answers: seq<int>) returns (c: Controller)
    requires ValidQuiz(qs) && initialTime > 0 && |answers| == |qs|
    ensures c.Valid() && c.questions == qs
    ensures c.gameState == End && c.currentQuestion == |qs| - 1 && c.timeLeft == initialTime
    ensures c.score == CorrectCount(qs, answers)
  {
    c := new Controller(qs, initialTime);
    c.HandleStart(c.gameState);
    var i := 0;
    while i < |qs|
      invariant 0 <= i <= |qs|
      invariant c.Valid() && c.questions == qs && c.timeLeft == initialTime
      invariant i < |qs| ==> c.gameState == Playing && c.currentQuestion == i && c.selectedAnswer.None?
      invariant i == |qs| ==> c.gameState == End && c.currentQuestion == |qs| - 1
      invariant c.score == CorrectCount(qs, answers[..i])
      modifies c
    {
      assert answers[..i + 1][..i] == answers[..i];
      AnswerThenAdvance(c, answers[i]);
      i := i + 1;
    }
    assert answers[..i] == answers;
  }

  /** All five sample answers correct: five points. */
  method AllCorrect() returns (score: nat, state: GameState)
    ensures score == 5 && state == End
  {
    var c := PlayQuiz(SampleQuiz(), 30, [0, 1, 1, 0, 0]);
    ghost var qs, a := SampleQuiz(), [0, 1, 1, 0, 0];
    assert CorrectCount(qs, a[..0]) == 0;
    assert a[..1][..0] == a[..0];
    assert CorrectCount(qs, a[..1]) == 1;
    assert a[..2][..1] == a[..1];
    assert CorrectCount(qs, a[..2]) == 2;
    assert a[..3][..2] == a[..2];
    assert CorrectCount(qs, a[..3]) == 3;
    assert a[..4][..3] == a[..3];
    assert CorrectCount(qs, a[..4]) == 4;
    assert a[..5][..4] == a[..4];
    assert CorrectCount(qs, a[..5]) == 5;
    assert a[..5] == a;
    score, state := c.score, c.gameState;
  }

  /** Answers 0, 0, 1, 1, 0 against 0, 1, 1, 0, 0: three points. */
  method MixedAnswers() returns (score: nat, state: GameState)
    ensures score == 3 && state == End
  {
    var c := PlayQuiz(SampleQuiz(), 30, [0, 0, 1, 1, 0]);
    ghost var qs, a := SampleQuiz(), [0, 0, 1, 1, 0];
    assert CorrectCount(qs, a[..0]) == 0;
    assert a[..1][..0] == a[..0];
    assert CorrectCount(qs, a[..1]) == 1;
    assert a[..2][..1] == a[..1];
    assert CorrectCount(qs, a[..2]) == 1;
    assert a[..3][..2] == a[..2];
    assert CorrectCount(qs, a[..3]) == 2;
    assert a[..4][..3] == a[..3];
    assert CorrectCount(qs, a[..4]) == 2;
    assert a[..5][..4] == a[..4];
    assert CorrectCount(qs, a[..5]) == 3;
    assert a[..5] == a;
    score, state := c.score, c.gameState;
  }

  /** Answers 1, 0, 0, 1, 1 against 0, 1, 1, 0, 0: no point. */
  method AllWrong() returns (score: nat, state: GameState)
    ensures score == 0 && state == End
  {
    var c := PlayQuiz(SampleQuiz(), 30, [1, 0, 0, 1, 1]);
    ghost var qs, a := SampleQuiz(), [1, 0, 0, 1, 1];
    assert CorrectCount(qs, a[..0]) == 0;
    assert a[..1][..0] == a[..0];
    assert CorrectCount(qs, a[..1]) == 0;
    assert a[..2][..1] == a[..1];
    assert CorrectCount(qs, a[..2]) == 0;
    assert a[..3][..2] == a[..2];
    assert CorrectCount(qs, a[..3]) == 0;
    assert a[..4][..3] == a[..3];
    assert CorrectCount(qs, a[..4]) == 0;
    assert a[..5][..4] == a[..4];
    assert CorrectCount(qs, a[..5]) == 0;
    assert a[..5] == a;
    score, state := c.score, c.gameState;
  }

  /**
   * A click on the first option, then clicks on the other three during the
   * feedback delay: one point, the first option stays selected, and the
   * advance moves on to the second question.
   */
  method RapidAnswerClicks() returns (selected: Option<int>, score: nat, question: nat)
    ensures selected == Some(0) && score == 1 && question == 1
  {
    var c := new Controller(SampleQuiz(), 30);
    var g := new QuestionCard.CommitGuard();
    c.HandleStart(c.gameState);
    var call, scheduled := ClickOption(c, g, 0);
    var later, none := ClickOption(c, g, 1);
    later, none := ClickOption(c, g, 2);
    later, none := ClickOption(c, g, 3);
    selected := c.selectedAnswer;
    c.Advance(scheduled.value);
    g.ResetForQuestion();
    score, question := c.score, c.currentQuestion;
  }

  /**
   * The time runs out while an answer's feedback is showing; restart brings
   * back the start screen with everything reset, and a start gives a fresh
   * first question.
   */
  method RestartAfterGame() returns (over: Session, restarted: Session, again: Session)
    ensures over.gameState == End && over.timeLeft == 0 && over.selectedAnswer == Some(2)
    ensures restarted == Session(Start, None, 0, 0, 1)
    ensures again == Session(Playing, None, 0, 0, 1)
  {
    var c := new Controller(SampleQuiz(), 1);
    c.HandleStart(c.gameState);
    var pending := c.HandleAnswer(2);
    c.Tick();
    over := c.State();
    c.HandleRestart();
    restarted := c.State();
    c.HandleStart(c.gameState);
    again := c.State();
  }

  /**
   * Five answers with the first option each, every advance in between, then
   * restart: the game ends with three points, and restart brings back the
   * start screen, not the first question.
   */
  method RestartAfterFullQuiz() returns (over: Session, restarted: Session)
    ensures over == Session(End, Some(0), 4, 3, 30)
    ensures restarted == Session(Start, None, 0, 0, 30)
  {
    var c := new Controller(SampleQuiz(), 30);
    c.HandleStart(c.gameState);
    AnswerThenAdvance(c, 0);
    AnswerThenAdvance(c, 0);
    AnswerThenAdvance(c, 0);
    AnswerThenAdvance(c, 0);
    AnswerThenAdvance(c, 0);
    over := c.State();
    c.HandleRestart();
    restarted := c.State();
  }
}
