/**
 The row component for one timer: its status label and which of its Start,
 Pause and Reset buttons are disabled, all derived from `completed` and `running`.
 */
module TimerView {
  import opened TimerModel
  import opened TimerOps

  /** `item.completed ? "Completed" : item.running ? "Running" : "Paused"`. */
  function StatusLabel(t: Timer): (s: string)
    ensures s == "Completed" <==> t.completed
    ensures s == "Running" <==> t.running && !t.completed
    ensures s == "Paused" <==> !t.running && !t.completed
  {
    if t.completed then "Completed" else if t.running then "Running" else "Paused"
  }

  /** Start is disabled while running or once completed. */
  predicate StartDisabled(t: Timer) {
    t.running || t.completed
  }

  /** Pause is disabled unless running. */
  predicate PauseDisabled(t: Timer) {
    !t.running
  }

  /** Start is enabled exactly when pressing it would change the record. */
  lemma StartEnabledIffEffective(t: Timer)
    ensures !StartDisabled(t) <==> StartTimer([t], t.id) != [t]
  {
    if !StartDisabled(t) {
      assert StartTimer([t], t.id)[0].running;
    }
  }

  /** Pause is enabled exactly when pressing it would change the record. */
  lemma PauseEnabledIffEffective(t: Timer)
    ensures !PauseDisabled(t) <==> PauseTimer([t], t.id) != [t]
  {
    if !PauseDisabled(t) {
      assert !PauseTimer([t], t.id)[0].running;
    }
  }

  /**
   Reset passes no `disabled` prop, so it can be pressed in every state; from any
   state it leaves the row "Paused" at full time.
   */
  lemma ResetAlwaysAvailable(t: Timer)
    ensures var r := ResetTimer([t], t.id)[0];
      StatusLabel(r) == "Paused" && r.remainingTime == t.duration
  {
  }

  /**
   What the label shows after each command on a row: Start gives "Running" unless the
   record is completed, Pause gives "Paused" or keeps "Completed", the mark-completed
   write gives "Completed", and a bulk start on a completed record still shows
   "Completed" although it is now running.
   */
  lemma StatusAfterCommands(t: Timer)
    ensures StatusLabel(StartTimer([t], t.id)[0]) == if t.completed then "Completed" else "Running"
    ensures StatusLabel(PauseTimer([t], t.id)[0]) == if t.completed then "Completed" else "Paused"
    ensures StatusLabel(MarkCompleted([t], t.id)[0]) == "Completed"
    ensures t.completed ==>
      BulkAction([t], t.category, "start")[0].running && StatusLabel(BulkAction([t], t.category, "start")[0]) == "Completed"
  {
  }
}
