/**
 * The quiz session state of `App` as a value, and the transitions that the
 * component's callbacks apply to it.  Each callback of the component reads
 * the state, calls setters on the five state variables, and returns; here
 * each becomes a function from the old state to the new one.  Values a
 * deferred callback captured when it was scheduled (the game state read by
 * the start timeout, the question index read by the advance timeout) are
 * explicit arguments.
 */
module QuizSession {
  import opened Wrappers

  /** Every question offers four options. */
  const OptionCount := 4

  /** A question record: its prompt, its options in display order, and the index of the correct option. */
  datatype Question = Question(text: string, options: seq<string>, correct: int)

  predicate WellFormed(q: Question) {
    |q.options| == OptionCount && 0 <= q.correct < OptionCount
  }

  /** The fixed question list: non-empty, every record well formed. */
  predicate ValidQuiz(qs: seq<Question>) {
    |qs| > 0 && forall k :: 0 <= k < |qs| ==> WellFormed(qs[k])
  }

  /** The three screens of the game. */
  datatype GameState = Start | Playing | End

  /** The five pieces of state `App` keeps. */
  datatype Session = Session(
    gameState: GameState,
    selectedAnswer: Option<int>,
    currentQuestion: nat,
    score: nat,
    timeLeft: nat)

  /** The state right after the component mounts. */
  function Initial(initialTime: nat): (s: Session)
    ensures s.gameState == Start && s.selectedAnswer == None
    ensures s.currentQuestion == 0 && s.score == 0 && s.timeLeft == initialTime
  {
    Session(Start, None, 0, 0, initialTime)
  }

  /** The body of the start timeout, which reads the game state captured when Start was clicked. */
  function Started(s: Session, captured: GameState, initialTime: nat): (r: Session)
    ensures captured == Start ==> r == Session(Playing, None, 0, 0, initialTime)
    ensures captured != Start ==> r == s
  {
    if captured == Start then
      s.(gameState := Playing, timeLeft := initialTime, score := 0, currentQuestion := 0, selectedAnswer := None)
    else
      s
  }

  /** The restart handler: every field is overwritten, so the old state does not matter. */
  function Restarted(s: Session, initialTime: nat): (r: Session)
    ensures r == Initial(initialTime)
  {
    s.(gameState := Start, score := 0, currentQuestion := 0, selectedAnswer := None, timeLeft := initialTime)
  }

  /**
   * The answer handler's effect on the state.  It looks up the current
   * question only when no answer is selected yet; that lookup needs the
   * index to be in range (otherwise the source throws).  The advance it
   * schedules is given by `Scheduled`.
   */
  function Answered(s: Session, qs: seq<Question>, index: int): (r: Session)
    requires s.selectedAnswer.Some? || s.currentQuestion < |qs|
    ensures s.selectedAnswer.Some? ==> r == s
    ensures s.selectedAnswer.None? ==>
      && r.selectedAnswer == Some(index)
      && r.gameState == s.gameState
      && r.currentQuestion == s.currentQuestion
      && r.timeLeft == s.timeLeft
      && (r.score == s.score || r.score == s.score + 1)
      && (r.score == s.score + 1 <==> index == qs[s.currentQuestion].correct)
  {
    if s.selectedAnswer.Some? then s
    else
      var isCorrect := index == qs[s.currentQuestion].correct;
      s.(selectedAnswer := Some(index), score := if isCorrect then s.score + 1 else s.score)
  }

  /**
   * The advances a callback schedules, by the question index each captured:
   * the answer handler schedules one, for the question on screen, unless it
   * returned early; no other callback schedules any.
   */
  function Scheduled(s: Session, e: Event): (r: multiset<int>)
    ensures |r| <= 1
    ensures r != multiset{} <==> e.Answer? && s.selectedAnswer.None?
    ensures r != multiset{} ==> r == multiset{s.currentQuestion as int}
  {
    if e.Answer? && s.selectedAnswer.None? then multiset{s.currentQuestion as int} else multiset{}
  }

  /**
   * The body of the advance timeout.  `captured` is the question index read
   * when the answer was given; the increment itself works on the current
   * index.  Nothing here looks at the game state.
   */
  function Advanced(s: Session, captured: int, count: nat): (r: Session)
    ensures r.score == s.score && r.timeLeft == s.timeLeft
    ensures captured < count - 1 ==>
      && r.currentQuestion == s.currentQuestion + 1
      && r.selectedAnswer == None
      && r.gameState == s.gameState
    ensures captured >= count - 1 ==>
      && r.gameState == End
      && r.currentQuestion == s.currentQuestion
      && r.selectedAnswer == s.selectedAnswer
  {
    if captured < count - 1 then
      s.(currentQuestion := s.currentQuestion + 1, selectedAnswer := None)
    else
      s.(gameState := End)
  }

  /** One firing of the one-second interval; the interval only exists while playing with time left. */
  function Ticked(s: Session): (r: Session)
    ensures r.score == s.score && r.currentQuestion == s.currentQuestion
    ensures r.selectedAnswer == s.selectedAnswer
    ensures !(s.gameState == Playing && s.timeLeft > 0) ==> r == s
    ensures s.gameState == Playing && s.timeLeft > 1 ==>
      r.gameState == Playing && r.timeLeft == s.timeLeft - 1
    ensures s.gameState == Playing && s.timeLeft == 1 ==>
      r.gameState == End && r.timeLeft == 0
  {
    if s.gameState == Playing && s.timeLeft > 0 then
      if s.timeLeft <= 1 then s.(gameState := End, timeLeft := 0)
      else s.(timeLeft := s.timeLeft - 1)
    else
      s
  }

  /** `k` firings of the interval in a row. */
  function Ticks(s: Session, k: nat): Session
    decreases k
  {
    if k == 0 then s else Ticks(Ticked(s), k - 1)
  }

  /**
   * What holds in every state a session can reach: the score never exceeds the
   * questions answered so far, the timer stays within its initial value, and
   * the playing screen always has time left.
   */
  ghost predicate Consistent(s: Session, initialTime: nat) {
    && s.score <= s.currentQuestion + (if s.selectedAnswer.Some? then 1 else 0)
    && s.timeLeft <= initialTime
    && (s.gameState == Playing ==> s.timeLeft > 0)
  }

  // ---------------------------------------------------------------------
  // Single transitions

  /** A start fired twice in a row (rapid repeated clicks) leaves the state of a single start. */
  lemma StartIsIdempotent(s: Session, initialTime: nat)
    ensures Started(Started(s, Start, initialTime), Start, initialTime) == Started(s, Start, initialTime)
    ensures Started(s, Start, initialTime).gameState == Playing
  {
  }

  /** Restarting, from any state, and then starting gives exactly the fresh playing state. */
  lemma RestartThenStart(s: Session, initialTime: nat)
    ensures Started(Restarted(s, initialTime), Start, initialTime) == Started(Initial(initialTime), Start, initialTime)
    ensures Started(Restarted(s, initialTime), Start, initialTime) == Session(Playing, None, 0, 0, initialTime)
  {
  }

  /**
   * Once an answer is selected, further answers change nothing, whatever
   * index they carry, including the one already selected.
   */
  lemma SecondAnswerIsIgnored(s: Session, qs: seq<Question>, first: int, second: int)
    requires s.selectedAnswer.None? && s.currentQuestion < |qs|
    ensures Answered(Answered(s, qs, first), qs, second) == Answered(s, qs, first)
    ensures Answered(Answered(s, qs, first), qs, second).selectedAnswer == Some(first)
  {
  }

  /**
   * An advance keeps the index within the question list exactly when it is
   * not at the last question or its captured index tells it the quiz is over.
   * The advance scheduled for the question on screen captured that index, so
   * it always keeps the bound.
   */
  lemma AdvanceKeepsIndexInRange(s: Session, captured: int, count: nat)
    requires 0 < count && s.currentQuestion < count
    ensures Advanced(s, captured, count).currentQuestion < count
        <==> (s.currentQuestion < count - 1 || captured >= count - 1)
    ensures captured == s.currentQuestion ==> Advanced(s, captured, count).currentQuestion < count
    ensures captured == s.currentQuestion && captured == count - 1 ==>
      Advanced(s, captured, count).gameState == End
  {
  }

  /** From playing with `n` seconds left, `n` ticks end the game at whatever question it is on. */
  lemma {:induction false} TicksExpire(s: Session, n: nat)
    requires s.gameState == Playing && s.timeLeft == n && n > 0
    ensures Ticks(s, n) == s.(gameState := End, timeLeft := 0)
    decreases n
  {
    if n == 1 {
      assert Ticks(s, 1) == Ticks(Ticked(s), 0);
    } else {
      var s' := Ticked(s);
      assert s' == s.(timeLeft := n - 1);
      TicksExpire(s', n - 1);
    }
  }

  /** Once the game is over, any number of further ticks changes nothing. */
  lemma {:induction false} TicksAfterEndChangeNothing(s: Session, k: nat)
    requires s.gameState != Playing
    ensures Ticks(s, k) == s
    decreases k
  {
    if k > 0 {
      TicksAfterEndChangeNothing(Ticked(s), k - 1);
    }
  }

  /**
   * With thirty seconds and no answer at all, thirty ticks after the start
   * end the game on the first question with score zero.
   */
  lemma ExpiryPreemptsProgress()
    ensures Ticks(Started(Initial(30), Start, 30), 30) == Session(End, None, 0, 0, 0)
  {
    TicksExpire(Started(Initial(30), Start, 30), 30);
  }

  // ---------------------------------------------------------------------
  // Runs: any interleaving of the callbacks, in an order the caller chooses

  /** One callback invocation. */
  datatype Event =
    | StartFires(capturedState: GameState)
    | Answer(index: int)
    | AdvanceFires(capturedIndex: int)
    | Tick
    | Restart

  /** An answer needs the current question to exist unless it is ignored anyway. */
  predicate Enabled(qs: seq<Question>, s: Session, e: Event) {
    e.Answer? ==> s.selectedAnswer.Some? || s.currentQuestion < |qs|
  }

  function Step(qs: seq<Question>, initialTime: nat, s: Session, e: Event): Session
    requires Enabled(qs, s, e)
  {
    match e
    case StartFires(c) => Started(s, c, initialTime)
    case Answer(i) => Answered(s, qs, i)
    case AdvanceFires(c) => Advanced(s, c, |qs|)
    case Tick => Ticked(s)
    case Restart => Restarted(s, initialTime)
  }

  /** The state after a sequence of callbacks, or None if an answer meets an index past the list. */
  function Run(qs: seq<Question>, initialTime: nat, s: Session, es: seq<Event>): Option<Session>
    decreases |es|
  {
    if es == [] then Some(s)
    else if !Enabled(qs, s, es[0]) then None
    else Run(qs, initialTime, Step(qs, initialTime, s, es[0]), es[1..])
  }

  /** Every callback keeps the session consistent. */
  lemma StepKeepsConsistent(qs: seq<Question>, initialTime: nat, s: Session, e: Event)
    requires initialTime > 0 && Consistent(s, initialTime) && Enabled(qs, s, e)
    ensures Consistent(Step(qs, initialTime, s, e), initialTime)
  {
  }

  /** A selection is never replaced by another one: it stays, or it is cleared. */
  lemma SelectionIsNeverReplaced(qs: seq<Question>, initialTime: nat, s: Session, e: Event)
    requires Enabled(qs, s, e) && s.selectedAnswer.Some?
    ensures Step(qs, initialTime, s, e).selectedAnswer in {s.selectedAnswer, None}
  {
  }

  /** Only a reset lowers the score or the index. */
  lemma OnlyResetsGoBack(qs: seq<Question>, initialTime: nat, s: Session, e: Event)
    requires Enabled(qs, s, e) && !e.Restart? && e != StartFires(Start)
    ensures Step(qs, initialTime, s, e).score >= s.score
    ensures Step(qs, initialTime, s, e).currentQuestion >= s.currentQuestion
  {
  }

  /** Every state reachable from a consistent one is consistent. */
  lemma {:induction false} RunKeepsConsistent(qs: seq<Question>, initialTime: nat, s: Session, es: seq<Event>)
    requires initialTime > 0 && Consistent(s, initialTime)
    ensures Run(qs, initialTime, s, es).Some? ==> Consistent(Run(qs, initialTime, s, es).value, initialTime)
    decreases |es|
  {
    if es != [] && Enabled(qs, s, es[0]) {
      StepKeepsConsistent(qs, initialTime, s, es[0]);
      RunKeepsConsistent(qs, initialTime, Step(qs, initialTime, s, es[0]), es[1..]);
    }
  }

  /**
   * Every advance in the run carries the index on screen when it fires.
   * This only compares the two indices: an advance from an earlier session
   * whose index happens to match passes it.
   */
  ghost predicate AdvancesCurrent(qs: seq<Question>, initialTime: nat, s: Session, es: seq<Event>)
    decreases |es|
  {
    es != [] ==>
      && (es[0].AdvanceFires? ==> es[0].capturedIndex == s.currentQuestion)
      && (Enabled(qs, s, es[0]) ==> AdvancesCurrent(qs, initialTime, Step(qs, initialTime, s, es[0]), es[1..]))
  }

  /**
   * When each advance fires for the question it was scheduled on, the index
   * never leaves the question list, so no answer ever meets a missing question.
   */
  lemma {:induction false} CurrentAdvancesStayInRange(qs: seq<Question>, initialTime: nat, s: Session, es: seq<Event>)
    requires |qs| > 0 && s.currentQuestion < |qs|
    requires AdvancesCurrent(qs, initialTime, s, es)
    ensures Run(qs, initialTime, s, es).Some?
    ensures Run(qs, initialTime, s, es).value.currentQuestion < |qs|
    decreases |es|
  {
    if es != [] {
      assert Enabled(qs, s, es[0]);
      var s' := Step(qs, initialTime, s, es[0]);
      if es[0].AdvanceFires? {
        AdvanceKeepsIndexInRange(s, es[0].capturedIndex, |qs|);
      }
      CurrentAdvancesStayInRange(qs, initialTime, s', es[1..]);
    }
  }

  /** Running two sequences of callbacks one after the other is running their concatenation. */
  lemma {:induction false} RunAppend(qs: seq<Question>, initialTime: nat, s: Session, a: seq<Event>, b: seq<Event>)
    ensures Run(qs, initialTime, s, a + b)
         == (match Run(qs, initialTime, s, a)
             case None => None
             case Some(s') => Run(qs, initialTime, s', b))
    decreases |a|
  {
    if a == [] {
      assert a + b == b;
    } else {
      assert (a + b)[0] == a[0];
      if Enabled(qs, s, a[0]) {
        assert (a + b)[1..] == a[1..] + b;
        RunAppend(qs, initialTime, Step(qs, initialTime, s, a[0]), a[1..], b);
      }
    }
  }

  /**
   * The advance is not cancelled by a restart.  If the timer runs out while
   * an answer's feedback is showing and the player restarts and starts again
   * before the advance fires, the new session moves to its second question
   * without any answer having been given in it.
   */
  lemma StaleAdvanceSkipsQuestion(qs: seq<Question>)
    requires |qs| == 2
    ensures Run(qs, 1, Initial(1), RestartRun()) == Some(Session(Playing, None, 1, 0, 1))
  {
    var p1, p2, p3 := [StartFires(Start), Answer(0)], [Tick, Restart], [StartFires(Start), AdvanceFires(0)];
    var s2 := Answered(Started(Initial(1), Start, 1), qs, 0);
    var s4 := Restarted(Ticked(s2), 1);
    assert Run(qs, 1, Initial(1), p1) == Some(s2);
    assert Run(qs, 1, s2, p2) == Some(s4);
    assert Run(qs, 1, s4, p3) == Some(Session(Playing, None, 1, 0, 1));
    RunAppend(qs, 1, Initial(1), p1, p2);
    RunAppend(qs, 1, Initial(1), p1 + p2, p3);
    assert p1 + p2 + p3 == RestartRun();
  }

  /** The eight callbacks of the run below: an answer, expiry, restart, start, a new answer, two advances. */
  function StaleRun(): seq<Event> {
    [StartFires(Start), Answer(0), Tick, Restart, StartFires(Start), Answer(0), AdvanceFires(0), AdvanceFires(0)]
  }

  /**
   * With two questions, the stale advance and the advance of the new
   * session's first answer together move the index past the list.
   */
  lemma StaleAdvanceLeavesList(qs: seq<Question>)
    requires |qs| == 2
    ensures var r := Run(qs, 1, Initial(1), StaleRun());
      r.Some? && r.value.gameState == Playing && r.value.currentQuestion == 2 && r.value.selectedAnswer == None
  {
    var p1, p2, p3, p4 := [StartFires(Start), Answer(0)], [Tick, Restart],
                          [StartFires(Start), Answer(0)], [AdvanceFires(0), AdvanceFires(0)];
    var s2 := Answered(Started(Initial(1), Start, 1), qs, 0);
    var s4 := Restarted(Ticked(s2), 1);
    var s6 := Answered(Started(s4, Start, 1), qs, 0);
    var s8 := Advanced(Advanced(s6, 0, 2), 0, 2);
    assert Run(qs, 1, Initial(1), p1) == Some(s2);
    assert Run(qs, 1, s2, p2) == Some(s4);
    assert Run(qs, 1, s4, p3) == Some(s6);
    assert Run(qs, 1, s6, p4) == Some(s8);
    RunAppend(qs, 1, Initial(1), p1, p2);
    RunAppend(qs, 1, Initial(1), p1 + p2, p3);
    RunAppend(qs, 1, Initial(1), p1 + p2 + p3, p4);
    assert p1 + p2 + p3 + p4 == StaleRun();
  }

  /**
   * After that run the playing screen would show the question at index 2,
   * which does not exist; in the component its render fails first.  In the
   * model the next answer is where the run stops with None.
   */
  lemma StaleAdvanceBreaksAnswer(qs: seq<Question>)
    requires |qs| == 2
    ensures Run(qs, 1, Initial(1), StaleRun() + [Answer(1)]) == None
  {
    StaleAdvanceLeavesList(qs);
    var r := Run(qs, 1, Initial(1), StaleRun());
    assert Run(qs, 1, r.value, [Answer(1)]) == None;
    RunAppend(qs, 1, Initial(1), StaleRun(), [Answer(1)]);
  }

  // ---------------------------------------------------------------------
  // Runs in which only scheduled advances fire

  /** The advances still pending after `e`: a firing one is used up, and the answer may add one. */
  function PendingAfter(s: Session, pending: multiset<int>, e: Event): multiset<int> {
    (if e.AdvanceFires? then pending - multiset{e.capturedIndex} else pending) + Scheduled(s, e)
  }

  /** Every advance in the run is one that an earlier answer scheduled and that has not fired yet. */
  ghost predicate FiresScheduled(qs: seq<Question>, initialTime: nat, s: Session, pending: multiset<int>, es: seq<Event>)
    decreases |es|
  {
    es != [] ==>
      && (es[0].AdvanceFires? ==> es[0].capturedIndex in pending)
      && (Enabled(qs, s, es[0]) ==>
            FiresScheduled(qs, initialTime, Step(qs, initialTime, s, es[0]), PendingAfter(s, pending, es[0]), es[1..]))
  }

  /** No restart and no start that resets the session comes while an advance is pending. */
  ghost predicate ResetsWhenIdle(qs: seq<Question>, initialTime: nat, s: Session, pending: multiset<int>, es: seq<Event>)
    decreases |es|
  {
    es != [] ==>
      && ((es[0].Restart? || es[0] == StartFires(Start)) ==> pending == multiset{})
      && (Enabled(qs, s, es[0]) ==>
            ResetsWhenIdle(qs, initialTime, Step(qs, initialTime, s, es[0]), PendingAfter(s, pending, es[0]), es[1..]))
  }

  /** Nothing is pending, or one advance is, for the question on screen, whose answer is in. */
  ghost predicate PendingMatches(s: Session, pending: multiset<int>) {
    pending == multiset{} || (pending == multiset{s.currentQuestion as int} && s.selectedAnswer.Some?)
  }

  /** Every callback keeps the pending advances matched to the question on screen when no reset comes while one is pending. */
  lemma StepKeepsPendingMatched(qs: seq<Question>, initialTime: nat, s: Session, pending: multiset<int>, e: Event)
    requires Enabled(qs, s, e) && PendingMatches(s, pending)
    requires e.AdvanceFires? ==> e.capturedIndex in pending
    requires (e.Restart? || e == StartFires(Start)) ==> pending == multiset{}
    ensures PendingMatches(Step(qs, initialTime, s, e), PendingAfter(s, pending, e))
    ensures e.AdvanceFires? ==> e.capturedIndex == s.currentQuestion
  {
    if e.AdvanceFires? {
      assert pending == multiset{s.currentQuestion as int};
      assert PendingAfter(s, pending, e) == multiset{};
    }
  }

  /**
   * When only scheduled advances fire and no reset comes while one is
   * pending, the index never leaves the question list, so no answer ever
   * meets a missing question.
   */
  lemma {:induction false} ScheduledAdvancesStayInRange(qs: seq<Question>, initialTime: nat, s: Session,
                                                        pending: multiset<int>, es: seq<Event>)
    requires |qs| > 0 && s.currentQuestion < |qs| && PendingMatches(s, pending)
    requires FiresScheduled(qs, initialTime, s, pending, es) && ResetsWhenIdle(qs, initialTime, s, pending, es)
    ensures Run(qs, initialTime, s, es).Some?
    ensures Run(qs, initialTime, s, es).value.currentQuestion < |qs|
    decreases |es|
  {
    if es != [] {
      var e := es[0];
      assert Enabled(qs, s, e);
      StepKeepsPendingMatched(qs, initialTime, s, pending, e);
      if e.AdvanceFires? {
        AdvanceKeepsIndexInRange(s, e.capturedIndex, |qs|);
      }
      ScheduledAdvancesStayInRange(qs, initialTime, Step(qs, initialTime, s, e), PendingAfter(s, pending, e), es[1..]);
    }
  }

  /** An advance that no answer scheduled is not part of a scheduled run. */
  lemma UnscheduledAdvanceIsExcluded(qs: seq<Question>)
    ensures !FiresScheduled(qs, 1, Session(Playing, None, 0, 0, 1), multiset{}, [AdvanceFires(0), AdvanceFires(1)])
  {
  }

  /** The six callbacks of `StaleAdvanceSkipsQuestion`. */
  function RestartRun(): seq<Event> {
    [StartFires(Start), Answer(0), Tick, Restart, StartFires(Start), AdvanceFires(0)]
  }

  /** The run of `StaleAdvanceSkipsQuestion` fires only the advance its first answer scheduled. */
  lemma StaleRunIsScheduled(qs: seq<Question>)
    requires |qs| == 2
    ensures FiresScheduled(qs, 1, Initial(1), multiset{}, RestartRun())
  {
    var s1 := Started(Initial(1), Start, 1);
    var s2 := Answered(s1, qs, 0);
    var s4 := Restarted(Ticked(s2), 1);
    var s5 := Started(s4, Start, 1);
    var es := RestartRun();
    assert PendingAfter(s1, multiset{}, Answer(0)) == multiset{0};
    assert FiresScheduled(qs, 1, s5, multiset{0}, es[5..]);
    assert FiresScheduled(qs, 1, s4, multiset{0}, es[4..]);
    assert es[3..][1..] == es[4..] && Step(qs, 1, Ticked(s2), Restart) == s4;
    assert PendingAfter(Ticked(s2), multiset{0}, Restart) == multiset{0};
    assert FiresScheduled(qs, 1, Ticked(s2), multiset{0}, es[3..]);
    assert FiresScheduled(qs, 1, s2, multiset{0}, es[2..]);
    assert FiresScheduled(qs, 1, s1, multiset{}, es[1..]);
  }

  /** The same run restarts while that advance is pending. */
  lemma StaleRunResetsWhilePending(qs: seq<Question>)
    requires |qs| == 2
    ensures !ResetsWhenIdle(qs, 1, Initial(1), multiset{}, RestartRun())
  {
    var s1 := Started(Initial(1), Start, 1);
    var s2 := Answered(s1, qs, 0);
    var es := RestartRun();
    assert PendingAfter(s1, multiset{}, Answer(0)) == multiset{0};
    assert !ResetsWhenIdle(qs, 1, Ticked(s2), multiset{0}, es[3..]);
    assert !ResetsWhenIdle(qs, 1, s2, multiset{0}, es[2..]);
    assert !ResetsWhenIdle(qs, 1, s1, multiset{}, es[1..]);
  }
}
