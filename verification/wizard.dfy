/**
 * The step-by-step setup dialog: an ordered list of steps, the index of the
 * step on screen, the navigation buttons and the step indicator, and the
 * completion and cancellation paths.
 */
module Wizard {
  import opened Wrappers
  import opened JavaText

  /** A step as the dialog sees it; what a step validates is asked at the moment Next is pressed. */
  datatype WizardStep = WizardStep(title: string)

  /** What the dialog does that can be observed from outside: step hooks, dialogs, callbacks, disposal. */
  datatype Event =
    | Enter(step: nat)             // onStepEnter of the step at that index
    | Exit(step: nat)              // onStepExit of the step at that index
    | ValidationDialog(message: string)
    | ConfirmCancelDialog
    | CompleteCallback
    | CancelCallback
    | Disposed

  /** The exceptions the dialog's operations can throw. */
  datatype WizardError =
    | NoSteps            // IllegalStateException from showWizard
    | IndexOutOfBounds   // from List.get

  const NextLabel: string := "次へ >"
  const FinishLabel: string := "完了"
  const InitialIndicator: string := "Step 1 of 1"
  const IndicatorPrefix: string := "ステップ "
  const IndicatorSeparator: string := " / "

  // ---------------------------------------------------------------------
  // Navigation, as functions of the index and the number of steps
  // ---------------------------------------------------------------------

  /** The text of the step indicator: the 1-based number of the step on screen and the number of steps. */
  function Indicator(index: nat, size: nat): string {
    IndicatorPrefix + NatToString(index + 1) + IndicatorSeparator + NatToString(size)
  }

  /** The label of the Next button: "finish" on the last step, "next" elsewhere. */
  function NextButtonLabel(index: nat, size: nat): (text: string)
    ensures text == FinishLabel <==> index + 1 == size
    ensures text == NextLabel <==> index + 1 != size
  {
    if index + 1 == size then FinishLabel else NextLabel
  }

  /** What one press of Next does. */
  datatype NextOutcome =
    | Rejected(message: string)   // the step's validation failed; nothing moves
    | Finished                    // the last step was accepted; the dialog completes
    | Advanced(index: nat)        // the next step is shown

  /** One press of Next on step `index` of `size`, given what the step's validation returned. */
  function AfterNext(index: nat, size: nat, validation: Option<string>): (r: NextOutcome)
    requires index < size
    ensures r.Rejected? <==> validation.Some?
    ensures r.Finished? <==> validation.None? && index + 1 == size
    ensures r.Advanced? ==> r.index == index + 1 && r.index < size
  {
    if validation.Some? then Rejected(validation.value)
    else if index == size - 1 then Finished
    else Advanced(index + 1)
  }

  /** One press of Previous: back one step, except on the first. */
  function AfterPrevious(index: nat): (r: nat)
    ensures index > 0 ==> r + 1 == index
    ensures index == 0 ==> r == 0
  {
    if index > 0 then index - 1 else index
  }

  /** A press of a button, or the window's close box, while the dialog is open. */
  datatype Command =
    | Back
    | Forward(validation: Option<string>)
    | Cancel(confirmed: bool)

  /** Where a series of presses leaves the dialog. */
  datatype Session = Open(index: nat) | Completed(index: nat) | Cancelled(index: nat)

  /** The effect of a series of presses from step `index`; the dialog takes no presses once it is closed. */
  function Navigate(index: nat, size: nat, commands: seq<Command>): Session
    requires index < size
    decreases |commands|
  {
    if commands == [] then Open(index)
    else
      match commands[0]
      case Back => Navigate(AfterPrevious(index), size, commands[1..])
      case Cancel(confirmed) =>
        if confirmed then Cancelled(index) else Navigate(index, size, commands[1..])
      case Forward(validation) =>
        match AfterNext(index, size, validation)
        case Rejected(_) => Navigate(index, size, commands[1..])
        case Finished => Completed(index)
        case Advanced(next) => Navigate(next, size, commands[1..])
  }

  /** The presses of Next that the steps accepted. */
  function AcceptedForwards(commands: seq<Command>): nat
    decreases |commands|
  {
    if commands == [] then 0
    else (if commands[0] == Forward(None) then 1 else 0) + AcceptedForwards(commands[1..])
  }

  /** However the buttons are pressed, the step on screen stays one of the steps. */
  lemma {:induction false} NavigateStaysInRange(index: nat, size: nat, commands: seq<Command>)
    requires index < size
    ensures Navigate(index, size, commands).index < size
    decreases |commands|
  {
    if commands != [] {
      match commands[0]
      case Back => NavigateStaysInRange(AfterPrevious(index), size, commands[1..]);
      case Cancel(confirmed) =>
        if !confirmed { NavigateStaysInRange(index, size, commands[1..]); }
      case Forward(validation) =>
        match AfterNext(index, size, validation)
        case Rejected(_) => NavigateStaysInRange(index, size, commands[1..]);
        case Finished =>
        case Advanced(next) => NavigateStaysInRange(next, size, commands[1..]);
    }
  }

  /**
   * Every step forward is a press of Next that the step accepted: starting
   * from step `index`, the dialog is never further on than `index` plus the
   * accepted presses, and it completes only on the last step.
   */
  lemma {:induction false} NavigateNeedsAcceptedSteps(index: nat, size: nat, commands: seq<Command>)
    requires index < size
    ensures Navigate(index, size, commands).index <= index + AcceptedForwards(commands)
    ensures Navigate(index, size, commands).Completed? ==> Navigate(index, size, commands).index == size - 1
    decreases |commands|
  {
    if commands != [] {
      var rest := commands[1..];
      match commands[0]
      case Back => NavigateNeedsAcceptedSteps(AfterPrevious(index), size, rest);
      case Cancel(confirmed) =>
        if !confirmed { NavigateNeedsAcceptedSteps(index, size, rest); }
      case Forward(validation) =>
        match AfterNext(index, size, validation)
        case Rejected(_) => NavigateNeedsAcceptedSteps(index, size, rest);
        case Finished =>
        case Advanced(next) => NavigateNeedsAcceptedSteps(next, size, rest);
    }
  }

  /** Completing from the first step takes at least one accepted press of Next per step. */
  lemma CompletionValidatesEveryStep(size: nat, commands: seq<Command>)
    requires size > 0
    requires Navigate(0, size, commands).Completed?
    ensures AcceptedForwards(commands) >= size
  {
    NavigateCompletionCounts(0, size, commands);
  }

  /** The accepted presses include the one that completes the dialog. */
  lemma {:induction false} NavigateCompletionCounts(index: nat, size: nat, commands: seq<Command>)
    requires index < size
    requires Navigate(index, size, commands).Completed?
    ensures index + AcceptedForwards(commands) >= size
    decreases |commands|
  {
    var rest := commands[1..];
    match commands[0]
    case Back =>
      NavigateCompletionCounts(AfterPrevious(index), size, rest);
    case Cancel(confirmed) =>
      NavigateCompletionCounts(index, size, rest);
    case Forward(validation) =>
      match AfterNext(index, size, validation)
      case Rejected(_) => NavigateCompletionCounts(index, size, rest);
      case Finished =>
      case Advanced(next) => NavigateCompletionCounts(next, size, rest);
  }

  /** Pressing Next on every step with nothing to complain about completes the dialog. */
  lemma {:induction false} AcceptedPressesComplete(index: nat, size: nat)
    requires index < size
    ensures Navigate(index, size, seq(size - index, _ => Forward(None))) == Completed(size - 1)
    decreases size - index
  {
    var commands := seq(size - index, _ => Forward(None));
    assert commands[0] == Forward(None);
    if index + 1 < size {
      assert commands[1..] == seq(size - (index + 1), _ => Forward(None));
      AcceptedPressesComplete(index + 1, size);
    }
  }

  // ---------------------------------------------------------------------
  // The step indicator can be read back
  // ---------------------------------------------------------------------

  /** Two digit strings, each followed by the same non-digit separator, split at the same place. */
  lemma DigitsThenSeparator(a: string, b: string, c: string, d: string, sep: string)
    requires AllDigits(a) && AllDigits(c)
    requires sep != [] && !IsDigit(sep[0])
    requires a + sep + b == c + sep + d
    ensures a == c && b == d
  {
    var s := a + sep + b;
    assert !IsDigit(s[|a|]) by { assert s[|a|] == sep[0]; }
    assert !IsDigit(s[|c|]) by { assert s == c + sep + d && s[|c|] == sep[0]; }
    assert forall k :: 0 <= k < |a| ==> IsDigit(s[k]) by {
      forall k | 0 <= k < |a| ensures IsDigit(s[k]) { assert s[k] == a[k]; }
    }
    assert forall k :: 0 <= k < |c| ==> IsDigit(s[k]) by {
      forall k | 0 <= k < |c| ensures IsDigit(s[k]) { assert s == c + sep + d && s[k] == c[k]; }
    }
    assert |a| == |c|;
    assert a == s[..|a|] == c;
    assert b == s[|a| + |sep|..] == d;
  }

  /** Printing different numbers gives different strings. */
  lemma NatToStringInjective(m: nat, n: nat)
    requires NatToString(m) == NatToString(n)
    ensures m == n
  {
    DigitsOfNatToString(m);
    DigitsOfNatToString(n);
  }

  /** The indicator's text determines the step on screen and the number of steps. */
  lemma IndicatorDetermines(i: nat, n: nat, j: nat, m: nat)
    requires Indicator(i, n) == Indicator(j, m)
    ensures i == j && n == m
  {
    var a, b := NatToString(i + 1), NatToString(n);
    var c, d := NatToString(j + 1), NatToString(m);
    var x, y := Indicator(i, n), Indicator(j, m);
    assert x == IndicatorPrefix + (a + IndicatorSeparator + b);
    assert y == IndicatorPrefix + (c + IndicatorSeparator + d);
    assert x[|IndicatorPrefix|..] == a + IndicatorSeparator + b;
    assert y[|IndicatorPrefix|..] == c + IndicatorSeparator + d;
    DigitsThenSeparator(a, b, c, d, IndicatorSeparator);
    NatToStringInjective(i + 1, j + 1);
    NatToStringInjective(n, m);
  }

  // ---------------------------------------------------------------------
  // The dialog
  // ---------------------------------------------------------------------

  class WizardDialog {
    var steps: seq<WizardStep>
    var currentStepIndex: int
    var completed: bool
    var shownCard: nat               // n when card "step_n" is on screen, 0 before any
    var previousEnabled: bool
    var nextLabel: string
    var indicator: string
    var hasOnComplete: bool          // onComplete is not null
    var hasOnCancel: bool            // onCancel is not null
    var visible: bool
    var events: seq<Event>

    /** The index always names a step once there is one, and is 0 before that. */
    predicate Valid()
      reads this
    {
      && 0 <= currentStepIndex
      && (steps == [] ==> currentStepIndex == 0)
      && (steps != [] ==> currentStepIndex < |steps|)
    }

    /** A new dialog: no steps, on the first index, Previous disabled, no callbacks. */
    constructor ()
      ensures Valid()
      ensures steps == [] && currentStepIndex == 0 && !completed && shownCard == 0
      ensures !previousEnabled && nextLabel == NextLabel && indicator == InitialIndicator
      ensures !hasOnComplete && !hasOnCancel && !visible && events == []
    {
      steps := [];
      currentStepIndex := 0;
      completed := false;
      shownCard := 0;
      previousEnabled := false;
      nextLabel := NextLabel;
      indicator := InitialIndicator;
      hasOnComplete := false;
      hasOnCancel := false;
      visible := false;
      events := [];
    }

    /** `updateNavigationButtons` */
    method UpdateNavigationButtons()
      requires Valid() && steps != []
      modifies this
      ensures steps == old(steps) && currentStepIndex == old(currentStepIndex) && Valid()
      ensures previousEnabled == (currentStepIndex > 0)
      ensures nextLabel == NextButtonLabel(currentStepIndex, |steps|)
      ensures completed == old(completed)
      ensures shownCard == old(shownCard) && indicator == old(indicator)
      ensures hasOnComplete == old(hasOnComplete) && hasOnCancel == old(hasOnCancel)
      ensures visible == old(visible) && events == old(events)
    {
      previousEnabled := currentStepIndex > 0;
      if currentStepIndex == |steps| - 1 {
        nextLabel := FinishLabel;
      } else {
        nextLabel := NextLabel;
      }
    }

    /** `updateStepIndicator`: only once there is a step to count. */
    method UpdateStepIndicator()
      requires Valid()
      modifies this
      ensures steps == old(steps) && currentStepIndex == old(currentStepIndex) && Valid()
      ensures indicator == if steps == [] then old(indicator) else Indicator(currentStepIndex, |steps|)
      ensures completed == old(completed)
      ensures shownCard == old(shownCard) && previousEnabled == old(previousEnabled) && nextLabel == old(nextLabel)
      ensures hasOnComplete == old(hasOnComplete) && hasOnCancel == old(hasOnCancel)
      ensures visible == old(visible) && events == old(events)
    {
      if steps != [] {
        indicator := Indicator(currentStepIndex, |steps|);
      }
    }

    /** `addStep`: append the step and refresh the indicator (the buttons are left as they are). */
    method AddStep(step: WizardStep)
      requires Valid()
      modifies this
      ensures Valid()
      ensures steps == old(steps) + [step]
      ensures currentStepIndex == old(currentStepIndex)
      ensures indicator == Indicator(currentStepIndex, |steps|)
      ensures completed == old(completed) && shownCard == old(shownCard)
      ensures previousEnabled == old(previousEnabled) && nextLabel == old(nextLabel)
      ensures hasOnComplete == old(hasOnComplete) && hasOnCancel == old(hasOnCancel)
      ensures visible == old(visible) && events == old(events)
    {
      steps := steps + [step];
      UpdateStepIndicator();
    }

    /**
     * `showWizard`: without steps it throws; otherwise it shows the first
     * card, enters the step on screen, sets the buttons and becomes visible.
     */
    method ShowWizard() returns (error: Option<WizardError>)
      requires Valid()
      modifies this
      ensures Valid()
      ensures old(steps) == [] <==> error == Some(NoSteps)
      ensures error.Some? ==> events == old(events) && visible == old(visible) && shownCard == old(shownCard)
      ensures error.Some? ==> previousEnabled == old(previousEnabled) && nextLabel == old(nextLabel)
      ensures error.None? ==>
        && shownCard == 1 && visible
        && events == old(events) + [Enter(0)]
        && previousEnabled == (currentStepIndex > 0)
        && nextLabel == NextButtonLabel(currentStepIndex, |steps|)
      ensures steps == old(steps) && currentStepIndex == old(currentStepIndex) && completed == old(completed)
      ensures indicator == old(indicator)
      ensures hasOnComplete == old(hasOnComplete) && hasOnCancel == old(hasOnCancel)
    {
      if steps == [] {
        return Some(NoSteps);
      }
      shownCard := 1;
      events := events + [Enter(0)];
      UpdateNavigationButtons();
      visible := true;
      error := None;
    }

    /** `previousStep`: on any step but the first, leave it and enter the one before. */
    method PreviousStep()
      requires Valid()
      modifies this
      ensures Valid()
      ensures currentStepIndex == AfterPrevious(old(currentStepIndex))
      ensures old(currentStepIndex) == 0 ==>
        events == old(events) && shownCard == old(shownCard) && previousEnabled == old(previousEnabled)
        && nextLabel == old(nextLabel) && indicator == old(indicator)
      ensures old(currentStepIndex) > 0 ==>
        && events == old(events) + [Exit(old(currentStepIndex)), Enter(currentStepIndex)]
        && shownCard == currentStepIndex + 1
        && previousEnabled == (currentStepIndex > 0)
        && nextLabel == NextButtonLabel(currentStepIndex, |steps|)
        && indicator == Indicator(currentStepIndex, |steps|)
      ensures steps == old(steps) && completed == old(completed) && visible == old(visible)
      ensures hasOnComplete == old(hasOnComplete) && hasOnCancel == old(hasOnCancel)
    {
      if currentStepIndex > 0 {
        events := events + [Exit(currentStepIndex)];
        currentStepIndex := currentStepIndex - 1;
        shownCard := currentStepIndex + 1;
        events := events + [Enter(currentStepIndex)];
        UpdateNavigationButtons();
        UpdateStepIndicator();
      }
    }

    /** `handleComplete`: mark completed, run onComplete if set, dispose. */
    method HandleComplete()
      modifies this
      ensures completed && !visible
      ensures events == old(events) + (if hasOnComplete then [CompleteCallback] else []) + [Disposed]
      ensures steps == old(steps) && currentStepIndex == old(currentStepIndex) && shownCard == old(shownCard)
      ensures previousEnabled == old(previousEnabled) && nextLabel == old(nextLabel) && indicator == old(indicator)
      ensures hasOnComplete == old(hasOnComplete) && hasOnCancel == old(hasOnCancel)
    {
      completed := true;
      if hasOnComplete {
        events := events + [CompleteCallback];
      }
      events := events + [Disposed];
      visible := false;
    }

    /**
     * `nextStep`, with `validation` the result of the current step's
     * `validate()`: a message is shown and nothing moves; on the last step the
     * dialog completes; elsewhere it leaves this step and enters the next one.
     * Without any step, looking up the current one throws.
     */
    method NextStep(validation: Option<string>) returns (error: Option<WizardError>)
      requires Valid()
      modifies this
      ensures Valid() && steps == old(steps)
      ensures error.Some? <==> old(steps) == []
      ensures error.Some? ==>
        (error.value == IndexOutOfBounds && events == old(events)
         && currentStepIndex == old(currentStepIndex) && completed == old(completed)
         && visible == old(visible) && shownCard == old(shownCard)
         && previousEnabled == old(previousEnabled) && nextLabel == old(nextLabel) && indicator == old(indicator))
      ensures error.None? ==>
        match AfterNext(old(currentStepIndex), |steps|, validation)
        case Rejected(message) =>
          && events == old(events) + [ValidationDialog(message)]
          && currentStepIndex == old(currentStepIndex) && completed == old(completed)
          && visible == old(visible) && shownCard == old(shownCard)
          && previousEnabled == old(previousEnabled) && nextLabel == old(nextLabel) && indicator == old(indicator)
        case Finished =>
          && completed && !visible && currentStepIndex == old(currentStepIndex)
          && events == old(events) + (if hasOnComplete then [CompleteCallback] else []) + [Disposed]
          && shownCard == old(shownCard)
          && previousEnabled == old(previousEnabled) && nextLabel == old(nextLabel) && indicator == old(indicator)
        case Advanced(next) =>
          && currentStepIndex == next && completed == old(completed) && visible == old(visible)
          && events == old(events) + [Exit(old(currentStepIndex)), Enter(next)]
          && shownCard == next + 1
          && previousEnabled && nextLabel == NextButtonLabel(next, |steps|)
          && indicator == Indicator(next, |steps|)
      ensures steps == old(steps)
      ensures hasOnComplete == old(hasOnComplete) && hasOnCancel == old(hasOnCancel)
    {
      if steps == [] {
        return Some(IndexOutOfBounds);
      }
      error := None;
      if validation.Some? {
        events := events + [ValidationDialog(validation.value)];
        return;
      }
      if currentStepIndex == |steps| - 1 {
        HandleComplete();
        return;
      }
      events := events + [Exit(currentStepIndex)];
      currentStepIndex := currentStepIndex + 1;
      shownCard := currentStepIndex + 1;
      events := events + [Enter(currentStepIndex)];
      UpdateNavigationButtons();
      UpdateStepIndicator();
    }

    /**
     * `handleCancel`, with `confirmed` the user's answer to the confirmation
     * dialog: on yes, mark not completed, run onCancel if set, dispose; on no,
     * nothing but the dialog.
     */
    method HandleCancel(confirmed: bool)
      requires Valid()
      modifies this
      ensures Valid()
      ensures confirmed ==>
        && !completed && !visible
        && events == old(events) + [ConfirmCancelDialog] + (if hasOnCancel then [CancelCallback] else []) + [Disposed]
      ensures !confirmed ==>
        events == old(events) + [ConfirmCancelDialog] && completed == old(completed) && visible == old(visible)
      ensures steps == old(steps) && currentStepIndex == old(currentStepIndex) && shownCard == old(shownCard)
      ensures previousEnabled == old(previousEnabled) && nextLabel == old(nextLabel) && indicator == old(indicator)
      ensures hasOnComplete == old(hasOnComplete) && hasOnCancel == old(hasOnCancel)
    {
      events := events + [ConfirmCancelDialog];
      if confirmed {
        completed := false;
        if hasOnCancel {
          events := events + [CancelCallback];
        }
        events := events + [Disposed];
        visible := false;
      }
    }

    /** `setOnComplete`; a null callback is `present == false`. */
    method SetOnComplete(present: bool)
      modifies this
      ensures hasOnComplete == present
      ensures steps == old(steps) && currentStepIndex == old(currentStepIndex) && completed == old(completed)
      ensures hasOnCancel == old(hasOnCancel) && events == old(events) && visible == old(visible)
      ensures shownCard == old(shownCard) && previousEnabled == old(previousEnabled)
      ensures nextLabel == old(nextLabel) && indicator == old(indicator)
    {
      hasOnComplete := present;
    }

    /** `setOnCancel`; a null callback is `present == false`. */
    method SetOnCancel(present: bool)
      modifies this
      ensures hasOnCancel == present
      ensures steps == old(steps) && currentStepIndex == old(currentStepIndex) && completed == old(completed)
      ensures hasOnComplete == old(hasOnComplete) && events == old(events) && visible == old(visible)
      ensures shownCard == old(shownCard) && previousEnabled == old(previousEnabled)
      ensures nextLabel == old(nextLabel) && indicator == old(indicator)
    {
      hasOnCancel := present;
    }

    /** `isCompleted` */
    function IsCompleted(): bool
      reads this
    {
      completed
    }

    /** `getStep`: the step at the index, or the exception for an index out of range. */
    method GetStep(index: int) returns (r: Result<WizardStep, WizardError>)
      ensures r.Ok? <==> 0 <= index < |steps|
      ensures r.Ok? ==> r.value == steps[index]
      ensures r.Err? ==> r.error == IndexOutOfBounds
    {
      if 0 <= index < |steps| {
        r := Ok(steps[index]);
      } else {
        r := Err(IndexOutOfBounds);
      }
    }

    /** `getSteps`: a copy of the list; a sequence is a value, so the caller cannot change the dialog's steps through it. */
    method GetSteps() returns (r: seq<WizardStep>)
      ensures r == steps
    {
      r := steps;
    }
  }
}
