/**
 * The answer-commit guard of `QuestionCard` and its two display rules.
 *
 * The card keeps four refs and one piece of state that decide whether a
 * browser event on an option reaches the parent's answer callback.  The
 * guard is a class with those fields; each event handler is a method that
 * takes the parent's `selectedAnswer` prop, changes the fields as the
 * handler does, and returns the index it passed to the answer callback
 * (None when it did not call it).  The ghost field `Calls` records those
 * calls since the last question change.
 */
module QuestionCard {
  import opened Wrappers
  import opened QuizSession

  class CommitGuard {
    var localSelected: Option<int>
    var localSelectedRef: bool
    var pendingIndex: Option<int>
    var submitted: bool
    var committedIndex: Option<int>
    /** The indices passed to the answer callback for the question on screen, oldest first. */
    ghost var Calls: seq<int>

    /**
     * At most one call per question; `submitted` and `committedIndex` say
     * whether it was made and with which index; the pressed flag and the
     * pending index are set together, and the local selection mirrors the
     * pending index.
     */
    ghost predicate Valid()
      reads this
    {
      && |Calls| <= 1
      && (submitted <==> |Calls| == 1)
      && committedIndex == (if submitted then Some(Calls[0]) else None)
      && (localSelectedRef <==> pendingIndex.Some?)
      && localSelected == pendingIndex
      && (submitted ==> localSelectedRef)
    }

    /** Nothing pressed and nothing submitted. */
    ghost predicate Cleared()
      reads this
    {
      && localSelected == None && !localSelectedRef && pendingIndex == None
      && !submitted && committedIndex == None && Calls == []
    }

    constructor ()
      ensures Valid() && Cleared()
    {
      localSelected, localSelectedRef, pendingIndex := None, false, None;
      submitted, committedIndex := false, None;
      Calls := [];
    }

    /** The effect that runs whenever the question changes: every earlier press and commit is forgotten. */
    method ResetForQuestion()
      modifies this
      ensures Valid() && Cleared()
    {
      localSelected := None;
      localSelectedRef := false;
      pendingIndex := None;
      submitted := false;
      committedIndex := None;
      Calls := [];
    }

    /**
     * Pointer, mouse and focus-capture events: preselect the option, but only
     * the first one pressed and only while the parent has no answer.
     */
    method PointerDown(index: int, selectedAnswer: Option<int>)
      requires Valid()
      modifies this
      ensures Valid()
      ensures submitted == old(submitted) && committedIndex == old(committedIndex) && Calls == old(Calls)
      ensures !old(localSelectedRef) && selectedAnswer.None? ==>
        localSelectedRef && pendingIndex == Some(index) && localSelected == Some(index)
      ensures old(localSelectedRef) || selectedAnswer.Some? ==> unchanged(this)
    {
      if !localSelectedRef && selectedAnswer.None? {
        localSelectedRef := true;
        localSelected := Some(index);
        pendingIndex := Some(index);
      }
    }

    /**
     * The click handler: if nothing was pressed it selects and submits the
     * clicked option; otherwise it submits only the option first pressed.
     */
    method Click(index: int, selectedAnswer: Option<int>) returns (call: Option<int>)
      requires Valid()
      modifies this
      ensures Valid()
      ensures call == (if selectedAnswer.Some? || old(submitted) then None
                       else if old(pendingIndex).None? || old(pendingIndex) == Some(index) then Some(index)
                       else None)
      ensures call.None? ==> unchanged(this)
      ensures call.Some? ==>
        && Calls == [index] && submitted && committedIndex == Some(index)
        && localSelectedRef && pendingIndex == Some(index) && localSelected == Some(index)
    {
      if selectedAnswer.Some? || submitted {
        return None;
      }
      if !localSelectedRef && pendingIndex.None? {
        localSelectedRef := true;
        pendingIndex := Some(index);
        localSelected := Some(index);
        submitted := true;
        committedIndex := Some(index);
        Calls := Calls + [index];
        return Some(index);
      }
      if localSelectedRef && pendingIndex == Some(index) {
        submitted := true;
        committedIndex := Some(index);
        Calls := Calls + [index];
        return Some(index);
      }
      return None;
    }

    /** The focus handler: selects and submits the focused option if nothing was pressed yet. */
    method Focus(index: int, selectedAnswer: Option<int>) returns (call: Option<int>)
      requires Valid()
      modifies this
      ensures Valid()
      ensures call == (if selectedAnswer.Some? || old(submitted) || old(pendingIndex).Some? then None
                       else Some(index))
      ensures call.None? ==> unchanged(this)
      ensures call.Some? ==>
        && Calls == [index] && submitted && committedIndex == Some(index)
        && localSelectedRef && pendingIndex == Some(index) && localSelected == Some(index)
    {
      if selectedAnswer.Some? || submitted {
        return None;
      }
      if !localSelectedRef && pendingIndex.None? {
        localSelectedRef := true;
        pendingIndex := Some(index);
        localSelected := Some(index);
        submitted := true;
        committedIndex := Some(index);
        Calls := Calls + [index];
        return Some(index);
      }
      return None;
    }

    /**
     * The option button's click-capture handler: selects the option if
     * nothing was pressed, then commits it only if it is the pending one.
     */
    method ButtonClickCapture(index: int, selectedAnswer: Option<int>) returns (call: Option<int>)
      requires Valid()
      modifies this
      ensures Valid()
      ensures call == (if selectedAnswer.Some? || old(submitted) then None
                       else if old(pendingIndex).None? || old(pendingIndex) == Some(index) then Some(index)
                       else None)
      ensures call.None? ==> unchanged(this)
      ensures call.Some? ==>
        && Calls == [index] && submitted && committedIndex == Some(index)
        && localSelectedRef && pendingIndex == Some(index) && localSelected == Some(index)
    {
      if selectedAnswer.Some? || submitted {
        return None;
      }
      if !localSelectedRef && pendingIndex.None? {
        localSelectedRef := true;
        pendingIndex := Some(index);
        localSelected := Some(index);
      }
      if pendingIndex == Some(index) {
        submitted := true;
        committedIndex := Some(index);
        Calls := Calls + [index];
        return Some(index);
      }
      return None;
    }

    /**
     * The options container's click-capture handler.  `target` is the index
     * of the option button the click landed in, negative when it landed on
     * none.  It commits the clicked option, whichever option was pressed first.
     */
    method ContainerClickCapture(target: int, selectedAnswer: Option<int>) returns (call: Option<int>)
      requires Valid()
      modifies this
      ensures Valid()
      ensures call == (if selectedAnswer.Some? || old(submitted) || target < 0 then None else Some(target))
      ensures call.None? ==> unchanged(this)
      ensures call.Some? ==>
        && Calls == [target] && submitted && committedIndex == Some(target)
        && localSelectedRef
        && pendingIndex == (if old(pendingIndex).None? then Some(target) else old(pendingIndex))
    {
      if selectedAnswer.Some? || submitted {
        return None;
      }
      if target < 0 {
        return None;
      }
      if !localSelectedRef {
        localSelectedRef := true;
        pendingIndex := Some(target);
        localSelected := Some(target);
      }
      submitted := true;
      committedIndex := Some(target);
      Calls := Calls + [target];
      return Some(target);
    }

    /**
     * A click on option `index` as the browser delivers it: the container's
     * capture handler, then the button's, then the button's click handler.
     * The container commits first, so a click submits the clicked option
     * whenever anything is submitted at all.
     */
    method DispatchClick(index: int, selectedAnswer: Option<int>) returns (call: Option<int>)
      requires Valid() && index >= 0
      modifies this
      ensures Valid()
      ensures call == (if selectedAnswer.Some? || old(submitted) then None else Some(index))
      ensures call.None? ==> unchanged(this)
      ensures call.Some? ==>
        && Calls == [index] && submitted && committedIndex == Some(index)
        && pendingIndex == (if old(pendingIndex).None? then Some(index) else old(pendingIndex))
    {
      call := ContainerClickCapture(index, selectedAnswer);
      var fromButton := ButtonClickCapture(index, selectedAnswer);
      var fromClick := Click(index, selectedAnswer);
      assert fromButton.None? && fromClick.None?;
    }

    /**
     * Focus on option `index` as the browser delivers it: the focus-capture
     * handler preselects, then the focus handler runs and finds the option
     * already pressed, so focus never submits.
     */
    method DispatchFocus(index: int, selectedAnswer: Option<int>) returns (call: Option<int>)
      requires Valid()
      modifies this
      ensures Valid()
      ensures call == None
      ensures submitted == old(submitted) && committedIndex == old(committedIndex) && Calls == old(Calls)
      ensures !old(localSelectedRef) && selectedAnswer.None? ==>
        localSelectedRef && pendingIndex == Some(index) && localSelected == Some(index)
      ensures old(localSelectedRef) || selectedAnswer.Some? ==> unchanged(this)
    {
      PointerDown(index, selectedAnswer);
      call := Focus(index, selectedAnswer);
    }
  }

  // ---------------------------------------------------------------------
  // How an option is shown

  /** The six looks `getButtonClass` distinguishes. */
  datatype ButtonLook = Pressed | Idle | CorrectChosen | WrongChosen | CorrectMissed | Dimmed

  /** Shown in green: the correct option once an answer is in. */
  predicate IsGreen(look: ButtonLook) {
    look == CorrectChosen || look == CorrectMissed
  }

  /**
   * The look of option `index`.  Before an answer, an option is pressed when
   * any of the local selection, the pending index or the committed index
   * names it.  After one, it depends on whether it is the chosen option and
   * whether it is the correct one.
   */
  function Classify(selectedAnswer: Option<int>, correct: int, localSelected: Option<int>,
                    pendingIndex: Option<int>, committedIndex: Option<int>, index: int): (look: ButtonLook)
    ensures selectedAnswer.None? ==> (look == Pressed || look == Idle)
    ensures selectedAnswer.None? ==>
      (look == Pressed <==> Some(index) in {localSelected, pendingIndex, committedIndex})
    ensures selectedAnswer.Some? ==> look !in {Pressed, Idle}
    ensures selectedAnswer.Some? ==>
      && (look == CorrectChosen <==> selectedAnswer == Some(index) && index == correct)
      && (look == WrongChosen <==> selectedAnswer == Some(index) && index != correct)
      && (look == CorrectMissed <==> selectedAnswer != Some(index) && index == correct)
      && (look == Dimmed <==> selectedAnswer != Some(index) && index != correct)
  {
    if selectedAnswer.None? then
      var isPressed := localSelected == Some(index) || pendingIndex == Some(index) || committedIndex == Some(index);
      if isPressed then Pressed else Idle
    else
      var isCorrect := index == correct;
      var isSelected := selectedAnswer == Some(index);
      if isSelected && isCorrect then CorrectChosen
      else if isSelected then WrongChosen
      else if isCorrect then CorrectMissed
      else Dimmed
  }

  /** The class string of each look. */
  function ClassName(look: ButtonLook): string {
    match look
    case Pressed => "bg-blue-100 bg-blue selected highlighted"
    case Idle => "hover:bg-gray-100"
    case CorrectChosen => "bg-green-100 border-green-500 correct selected highlighted"
    case WrongChosen => "bg-red-100 border-red-500 selected highlighted"
    case CorrectMissed => "bg-green-100 border-green-500 correct"
    case Dimmed => "opacity-50"
  }

  /**
   * `getButtonClass`: the class string for option `index`.  Each of the six
   * strings is given exactly when its condition holds.
   */
  function ButtonClass(selectedAnswer: Option<int>, correct: int, localSelected: Option<int>,
                       pendingIndex: Option<int>, committedIndex: Option<int>, index: int): (r: string)
    ensures selectedAnswer.None? ==>
      && (r == "bg-blue-100 bg-blue selected highlighted"
          <==> Some(index) in {localSelected, pendingIndex, committedIndex})
      && (r == "hover:bg-gray-100" <==> Some(index) !in {localSelected, pendingIndex, committedIndex})
    ensures selectedAnswer.Some? ==>
      && (r == "bg-green-100 border-green-500 correct selected highlighted"
          <==> selectedAnswer == Some(index) && index == correct)
      && (r == "bg-red-100 border-red-500 selected highlighted"
          <==> selectedAnswer == Some(index) && index != correct)
      && (r == "bg-green-100 border-green-500 correct" <==> selectedAnswer != Some(index) && index == correct)
      && (r == "opacity-50" <==> selectedAnswer != Some(index) && index != correct)
  {
    ClassName(Classify(selectedAnswer, correct, localSelected, pendingIndex, committedIndex, index))
  }

  /** Different looks get different class strings (they even differ in length), so the string alone tells the case. */
  lemma ClassNamesAreDistinct(a: ButtonLook, b: ButtonLook)
    requires a != b
    ensures ClassName(a) != ClassName(b)
  {
    assert |ClassName(a)| != |ClassName(b)|;
  }

  /**
   * Once an answer is in, exactly the correct option is green, and an option
   * is red exactly when it is the chosen one and the choice was wrong.
   */
  lemma AnsweredCardMarksCorrectOption(selectedAnswer: Option<int>, correct: int, localSelected: Option<int>,
                                       pendingIndex: Option<int>, committedIndex: Option<int>)
    requires selectedAnswer.Some?
    ensures forall i :: IsGreen(Classify(selectedAnswer, correct, localSelected, pendingIndex, committedIndex, i))
                        <==> i == correct
    ensures forall i :: Classify(selectedAnswer, correct, localSelected, pendingIndex, committedIndex, i) == WrongChosen
                        <==> i == selectedAnswer.value && i != correct
  {
  }

  /** The feedback line: shown only once an answer is in, "Correct!" exactly when it is the correct index. */
  function Feedback(selectedAnswer: Option<int>, correct: int): (r: Option<string>)
    ensures r.None? <==> selectedAnswer.None?
    ensures r == Some("Correct!") <==> selectedAnswer == Some(correct)
    ensures r == Some("Incorrect!") <==> selectedAnswer.Some? && selectedAnswer.value != correct
  {
    if selectedAnswer.None? then None
    else if selectedAnswer.value == correct then Some("Correct!")
    else Some("Incorrect!")
  }

  /** The feedback after an answer agrees with the scoring rule: "Correct!" exactly when the point was given. */
  lemma FeedbackAgreesWithScore(s: Session, qs: seq<Question>, index: int)
    requires s.selectedAnswer.None? && s.currentQuestion < |qs|
    ensures var r := Answered(s, qs, index);
      Feedback(r.selectedAnswer, qs[s.currentQuestion].correct) == Some("Correct!") <==> r.score == s.score + 1
  {
  }

  /** The callback invocation a handler made, as a list of zero or one index. */
  function Made(call: Option<int>): seq<int> {
    match call
    case None => []
    case Some(i) => [i]
  }

  /**
   * A click on the first option followed by clicks on the other three, all
   * before the parent's answer arrives: the callback is called once, with
   * the first option, and only the first option looks pressed.
   */
  method RapidClicks() returns (calls: seq<int>, looks: seq<ButtonLook>)
    ensures calls == [0]
    ensures looks == [Pressed, Idle, Idle, Idle]
  {
    var g := new CommitGuard();
    g.PointerDown(0, None);
    var c0 := g.DispatchClick(0, None);
    var c1 := g.DispatchClick(1, None);
    g.PointerDown(2, None);
    var c2 := g.DispatchClick(2, None);
    var c3 := g.DispatchClick(3, None);
    calls := Made(c0) + Made(c1) + Made(c2) + Made(c3);
    var sel, pending, committed := g.localSelected, g.pendingIndex, g.committedIndex;
    looks := seq(4, i => Classify(None, 0, sel, pending, committed, i));
  }

  /**
   * When option 1 is pressed first and the click lands on option 2, the
   * container commits option 2: the first-pressed rule binds the button
   * handlers only.  Before the parent's answer arrives both options look pressed.
   */
  method PressOneClickAnother() returns (call: Option<int>, first: ButtonLook, second: ButtonLook)
    ensures call == Some(2)
    ensures first == Pressed && second == Pressed
  {
    var g := new CommitGuard();
    g.PointerDown(1, None);
    call := g.DispatchClick(2, None);
    first := Classify(None, 0, g.localSelected, g.pendingIndex, g.committedIndex, 1);
    second := Classify(None, 0, g.localSelected, g.pendingIndex, g.committedIndex, 2);
  }
}
