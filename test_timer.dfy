/**
 TestTimer: the earlier all-in-one screen, holding the list, the creation form,
 the expansion flags and the completion notice in one component.
 */
module TestTimerScreen {
  import opened TimerModel
  import opened TimerOps
  import opened CategoryView
  import opened TimerForm

  class TestTimer {
    var timers: seq<Timer>
    var newTimer: Form
    var expandedCategories: map<string, bool>
    var modalVisible: bool
    var completedTimerName: string

    /** The initial `useState` values. */
    constructor ()
      ensures timers == [] && newTimer == BlankForm && expandedCategories == map[]
      ensures !modalVisible && completedTimerName == ""
    {
      timers := [];
      newTimer := BlankForm;
      expandedCategories := map[];
      modalVisible := false;
      completedTimerName := "";
    }

    method LoadTimers(outcome: LoadOutcome)
      modifies this`timers
      ensures timers == AfterLoad(old(timers), outcome)
    {
      timers := AfterLoad(timers, outcome);
    }

    /** `createTimer`, with `now` standing for `Date.now()`. */
    method CreateTimer(now: int)
      modifies this`timers, this`newTimer
      ensures Submission(timers, newTimer) == TimerForm.CreateTimer(old(timers), old(newTimer), now)
      ensures old(AllInBounds(timers)) ==> AllInBounds(timers)
    {
      if AllInBounds(timers) { CreateKeepsBounds(timers, newTimer, now); }
      var r := TimerForm.CreateTimer(timers, newTimer, now);
      timers, newTimer := r.timers, r.form;
    }

    method DeleteTimer(id: int)
      modifies this`timers
      ensures timers == TimerOps.DeleteTimer(old(timers), id)
      ensures old(AllInBounds(timers)) ==> AllInBounds(timers)
    {
      ghost var before := timers;
      timers := TimerOps.DeleteTimer(timers, id);
      if AllInBounds(before) {
        forall i | 0 <= i < |timers|
          ensures InBounds(timers[i])
        {
          assert timers[i] in before;
        }
      }
    }

    method StartTimer(id: int)
      modifies this`timers
      ensures timers == TimerOps.StartTimer(old(timers), id)
      ensures old(AllInBounds(timers)) ==> AllInBounds(timers)
    {
      if AllInBounds(timers) { CommandsKeepBounds(timers, id); }
      timers := TimerOps.StartTimer(timers, id);
    }

    method PauseTimer(id: int)
      modifies this`timers
      ensures timers == TimerOps.PauseTimer(old(timers), id)
      ensures old(AllInBounds(timers)) ==> AllInBounds(timers)
    {
      if AllInBounds(timers) { CommandsKeepBounds(timers, id); }
      timers := TimerOps.PauseTimer(timers, id);
    }

    method ResetTimer(id: int)
      modifies this`timers
      ensures timers == TimerOps.ResetTimer(old(timers), id)
      ensures old(AllInBounds(timers)) ==> AllInBounds(timers)
    {
      if AllInBounds(timers) { CommandsKeepBounds(timers, id); }
      timers := TimerOps.ResetTimer(timers, id);
    }

    method MarkCompleted(id: int)
      modifies this`timers
      ensures timers == TimerOps.MarkCompleted(old(timers), id)
      ensures old(AllInBounds(timers)) ==> AllInBounds(timers)
    {
      if AllInBounds(timers) { CommandsKeepBounds(timers, id); }
      timers := TimerOps.MarkCompleted(timers, id);
    }

    method Tick()
      modifies this`timers, this`completedTimerName, this`modalVisible
      ensures timers == TickMap(old(timers))
      ensures completedTimerName == NoticeName(old(timers), old(completedTimerName))
      ensures modalVisible == (old(modalVisible) || Completions(old(timers)) != [])
      ensures old(AllInBounds(timers)) ==> AllInBounds(timers)
    {
      if AllInBounds(timers) { TickKeepsBounds(timers); }
      var next, name, visible := RunTick(timers, completedTimerName, modalVisible);
      timers, completedTimerName, modalVisible := next, name, visible;
    }

    method ToggleCategoryExpansion(category: string)
      modifies this`expandedCategories
      ensures expandedCategories == ToggleExpansion(old(expandedCategories), category)
    {
      expandedCategories := ToggleExpansion(expandedCategories, category);
    }

    method HandleBulkAction(category: string, action: string)
      modifies this`timers
      ensures timers == BulkAction(old(timers), category, action)
      ensures old(AllInBounds(timers)) ==> AllInBounds(timers)
    {
      if AllInBounds(timers) { BulkKeepsBounds(timers, category, action); }
      timers := BulkAction(timers, category, action);
    }

    /** The three text fields' `onChangeText` handlers. */
    method OnNameText(text: string)
      modifies this`newTimer
      ensures newTimer == WithName(old(newTimer), text)
    {
      newTimer := WithName(newTimer, text);
    }

    method OnDurationText(text: string)
      modifies this`newTimer
      ensures newTimer == WithDurationText(old(newTimer), text)
    {
      newTimer := WithDurationText(newTimer, text);
    }

    method OnCategoryText(text: string)
      modifies this`newTimer
      ensures newTimer == WithCategory(old(newTimer), text)
    {
      newTimer := WithCategory(newTimer, text);
    }

    method CloseModal()
      modifies this`modalVisible
      ensures !modalVisible
    {
      modalVisible := false;
    }
  }
}
