/**
 TimerListScreen: the home screen's state hooks (`timers`, `expandedCategories`,
 `modalVisible`, `completedTimerName`, `refreshing`) and its handlers, each of
 which overwrites one or more of those fields with a value computed from the
 current state.
 */
module ListScreen {
  import opened TimerModel
  import opened TimerOps
  import opened CategoryView

  class TimerListScreen {
    var timers: seq<Timer>
    var expandedCategories: map<string, bool>
    var modalVisible: bool
    var completedTimerName: string
    var refreshing: bool

    /** The initial `useState` values. */
    constructor ()
      ensures timers == [] && expandedCategories == map[]
      ensures !modalVisible && completedTimerName == "" && !refreshing
    {
      timers := [];
      expandedCategories := map[];
      modalVisible := false;
      completedTimerName := "";
      refreshing := false;
    }

    /** `loadTimers` (also run by pull-to-refresh): the refresh flag is raised, then lowered in `finally`. */
    method LoadTimers(outcome: LoadOutcome)
      modifies this`timers, this`refreshing
      ensures timers == AfterLoad(old(timers), outcome)
      ensures !refreshing
    {
      refreshing := true;
      timers := AfterLoad(timers, outcome);
      refreshing := false;
    }

    method StartTimer(id: int)
      modifies this`timers
      ensures timers == TimerOps.StartTimer(old(timers), id)
      ensures old(AllInBounds(timers)) ==> AllInBounds(timers)
      ensures old(AllExclusive(timers)) ==> AllExclusive(timers)
    {
      if AllInBounds(timers) { CommandsKeepBounds(timers, id); }
      if AllExclusive(timers) { CommandsKeepExclusive(timers, id); }
      timers := TimerOps.StartTimer(timers, id);
    }

    method PauseTimer(id: int)
      modifies this`timers
      ensures timers == TimerOps.PauseTimer(old(timers), id)
      ensures old(AllInBounds(timers)) ==> AllInBounds(timers)
    {
      if AllInBounds(timers) { CommandsKeepBounds(timers, id); }
      timers := TimerOps.PauseTimer(timers, id);
    }

    method ResetTimer(id: int)
      modifies this`timers
      ensures timers == TimerOps.ResetTimer(old(timers), id)
      ensures old(AllInBounds(timers)) ==> AllInBounds(timers)
    {
      if AllInBounds(timers) { CommandsKeepBounds(timers, id); }
      timers := TimerOps.ResetTimer(timers, id);
    }

    method MarkCompleted(id: int)
      modifies this`timers
      ensures timers == TimerOps.MarkCompleted(old(timers), id)
      ensures old(AllInBounds(timers)) ==> AllInBounds(timers)
    {
      if AllInBounds(timers) { CommandsKeepBounds(timers, id); }
      timers := TimerOps.MarkCompleted(timers, id);
    }

    /** One interval fire: the ticked list, and the completion notice for the last record to finish. */
    method Tick()
      modifies this`timers, this`completedTimerName, this`modalVisible
      ensures timers == TickMap(old(timers))
      ensures completedTimerName == NoticeName(old(timers), old(completedTimerName))
      ensures modalVisible == (old(modalVisible) || Completions(old(timers)) != [])
      ensures old(AllInBounds(timers)) ==> AllInBounds(timers)
    {
      if AllInBounds(timers) { TickKeepsBounds(timers); }
      var next, name, visible := RunTick(timers, completedTimerName, modalVisible);
      timers, completedTimerName, modalVisible := next, name, visible;
    }

    /** The interval is set only while some timer is running. */
    predicate IntervalArmed()
      reads this
    {
      AnyRunning(timers)
    }

    method ToggleCategoryExpansion(category: string)
      modifies this`expandedCategories
      ensures expandedCategories == ToggleExpansion(old(expandedCategories), category)
    {
      expandedCategories := ToggleExpansion(expandedCategories, category);
    }

    method HandleBulkAction(category: string, action: string)
      modifies this`timers
      ensures timers == BulkAction(old(timers), category, action)
      ensures old(AllInBounds(timers)) ==> AllInBounds(timers)
    {
      if AllInBounds(timers) { BulkKeepsBounds(timers, category, action); }
      timers := BulkAction(timers, category, action);
    }

    /** The notice's Close button and the back gesture. */
    method CloseModal()
      modifies this`modalVisible
      ensures !modalVisible
    {
      modalVisible := false;
    }
  }
}
