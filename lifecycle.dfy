/**
 How the pieces combine over a timer's life: it is created from the form,
 started, and then ticked once per second with no other command. The time shown
 is that of the `formatTime` in TestTimer.js, which renders that screen's rows;
 the row component of the list screen formats with a function that is not part
 of this model.
 */
module Lifecycle {
  import opened TimerModel
  import opened TimerOps
  import opened TimerForm
  import opened TimerView
  import opened TimeFormat

  /**
   A timer created with `d` seconds and started counts down to "00:00" in `d` ticks,
   raising its notice on the last of them only. Since the tick's own list write ends
   the interval pass, the record is then still running and not completed:
   its label stays "Running" while TestTimer.js shows "00:00".
   */
  lemma CountdownScenario(ts: seq<Timer>, f: Form, id: int, j: nat)
    requires Accepts(f)
    ensures var started := StartTimer(CreateTimer(ts, f, id).timers, id);
      && |started| == |ts| + 1
      && started[|ts|].running && started[|ts|].remainingTime == f.duration
      && (FinishesNow(Ticks(started, j)[|ts|]) <==> j + 1 == f.duration)
      && var last := Ticks(started, f.duration)[|ts|];
      && last.remainingTime == 0 && last.running && !last.completed
      && FormatTime(last.remainingTime) == "00:00"
      && StatusLabel(last) == "Running"
  {
    var started := StartTimer(CreateTimer(ts, f, id).timers, id);
    assert started[|ts|].running;
    NoticeExactlyOnce(started, |ts|, j);
    TicksCountDown(started, f.duration, |ts|);
  }
}
