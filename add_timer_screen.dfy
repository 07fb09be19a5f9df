/**
 AddTimerScreen: the creation form with its own copy of the stored list.
 Saving appends the new record to that copy and blanks the form.
 */
module AddScreen {
  import opened TimerModel
  import opened TimerOps
  import opened TimerForm

  class AddTimerScreen {
    var timers: seq<Timer>
    var newTimer: Form

    /** The initial `useState` values. */
    constructor ()
      ensures timers == [] && newTimer == BlankForm
    {
      timers := [];
      newTimer := BlankForm;
    }

    method LoadTimers(outcome: LoadOutcome)
      modifies this`timers
      ensures timers == AfterLoad(old(timers), outcome)
    {
      timers := AfterLoad(timers, outcome);
    }

    /** The picker's callback: only the form's category changes. */
    method HandleCategorySelection(selectedCategory: string)
      modifies this`newTimer
      ensures newTimer == WithCategory(old(newTimer), selectedCategory)
    {
      newTimer := WithCategory(newTimer, selectedCategory);
    }

    method OnNameText(text: string)
      modifies this`newTimer
      ensures newTimer == WithName(old(newTimer), text)
    {
      newTimer := WithName(newTimer, text);
    }

    method OnDurationText(text: string)
      modifies this`newTimer
      ensures newTimer == WithDurationText(old(newTimer), text)
    {
      newTimer := WithDurationText(newTimer, text);
    }

    /** `createTimer`, with `now` standing for `Date.now()`. */
    method CreateTimer(now: int)
      modifies this`timers, this`newTimer
      ensures Submission(timers, newTimer) == TimerForm.CreateTimer(old(timers), old(newTimer), now)
      ensures old(AllInBounds(timers)) ==> AllInBounds(timers)
    {
      if AllInBounds(timers) { CreateKeepsBounds(timers, newTimer, now); }
      var r := TimerForm.CreateTimer(timers, newTimer, now);
      timers, newTimer := r.timers, r.form;
    }
  }
}
