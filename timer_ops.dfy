/**
 The transforms the screens apply to the timer list: each handler computes
 `timers.map(...)` or `timers.filter(...)` from the current list, and the
 screen then replaces its `timers` state with the result.
 */
module TimerOps {
  import opened Wrappers
  import opened TimerModel

  // ---------------------------------------------------------------- per-id commands

  /** `startTimer(id)`: only records with that id that are not completed start running. */
  function StartTimer(ts: seq<Timer>, id: int): (r: seq<Timer>)
    ensures |r| == |ts|
    ensures forall i :: 0 <= i < |ts| ==>
      SameIdentity(r[i], ts[i]) && r[i].remainingTime == ts[i].remainingTime && r[i].completed == ts[i].completed
    ensures forall i :: 0 <= i < |ts| ==>
      r[i].running == (ts[i].running || (ts[i].id == id && !ts[i].completed))
    ensures forall i :: 0 <= i < |ts| && (ts[i].id != id || ts[i].completed) ==> r[i] == ts[i]
  {
    seq(|ts|, i requires 0 <= i < |ts| =>
      if ts[i].id == id && !ts[i].completed then Started(ts[i]) else ts[i])
  }

  /** `pauseTimer(id)`: matching records stop running, completed or not. */
  function PauseTimer(ts: seq<Timer>, id: int): (r: seq<Timer>)
    ensures |r| == |ts|
    ensures forall i :: 0 <= i < |ts| ==>
      SameIdentity(r[i], ts[i]) && r[i].remainingTime == ts[i].remainingTime && r[i].completed == ts[i].completed
    ensures forall i :: 0 <= i < |ts| ==> r[i].running == (ts[i].running && ts[i].id != id)
    ensures forall i :: 0 <= i < |ts| && ts[i].id != id ==> r[i] == ts[i]
  {
    seq(|ts|, i requires 0 <= i < |ts| => if ts[i].id == id then Paused(ts[i]) else ts[i])
  }

  /** `resetTimer(id)`: matching records are back at their full duration, idle and not completed. */
  function ResetTimer(ts: seq<Timer>, id: int): (r: seq<Timer>)
    ensures |r| == |ts|
    ensures forall i :: 0 <= i < |ts| ==> SameIdentity(r[i], ts[i])
    ensures forall i :: 0 <= i < |ts| && ts[i].id == id ==> IsReset(r[i])
    ensures forall i :: 0 <= i < |ts| && ts[i].id != id ==> r[i] == ts[i]
  {
    seq(|ts|, i requires 0 <= i < |ts| => if ts[i].id == id then Rewound(ts[i]) else ts[i])
  }

  /** `markCompleted(id)`: matching records are at zero, idle and completed. */
  function MarkCompleted(ts: seq<Timer>, id: int): (r: seq<Timer>)
    ensures |r| == |ts|
    ensures forall i :: 0 <= i < |ts| ==> SameIdentity(r[i], ts[i])
    ensures forall i :: 0 <= i < |ts| && ts[i].id == id ==>
      r[i].remainingTime == 0 && !r[i].running && r[i].completed
    ensures forall i :: 0 <= i < |ts| && ts[i].id != id ==> r[i] == ts[i]
  {
    seq(|ts|, i requires 0 <= i < |ts| => if ts[i].id == id then Finished(ts[i]) else ts[i])
  }

  /** Resetting twice is resetting once. */
  lemma ResetIdempotent(ts: seq<Timer>, id: int)
    ensures ResetTimer(ResetTimer(ts, id), id) == ResetTimer(ts, id)
  {
    var once := ResetTimer(ts, id);
    var twice := ResetTimer(once, id);
    forall i | 0 <= i < |ts|
      ensures twice[i] == once[i]
    {
      assert once[i].id == ts[i].id;
    }
  }

  /** No per-id command moves a remaining time outside `0..duration`. */
  lemma CommandsKeepBounds(ts: seq<Timer>, id: int)
    requires AllInBounds(ts)
    ensures AllInBounds(StartTimer(ts, id))
    ensures AllInBounds(PauseTimer(ts, id))
    ensures AllInBounds(ResetTimer(ts, id))
    ensures AllInBounds(MarkCompleted(ts, id))
  {
    var r := MarkCompleted(ts, id);
    forall i | 0 <= i < |ts|
      ensures InBounds(r[i])
    {
      assert InBounds(ts[i]);
    }
    var z := ResetTimer(ts, id);
    forall i | 0 <= i < |ts|
      ensures InBounds(z[i])
    {
      assert InBounds(ts[i]);
    }
  }

  /** Start, pause, reset and mark-completed never make a record both running and completed. */
  lemma CommandsKeepExclusive(ts: seq<Timer>, id: int)
    requires AllExclusive(ts)
    ensures AllExclusive(StartTimer(ts, id))
    ensures AllExclusive(PauseTimer(ts, id))
    ensures AllExclusive(ResetTimer(ts, id))
    ensures AllExclusive(MarkCompleted(ts, id))
  {
    var s := StartTimer(ts, id);
    forall i | 0 <= i < |ts|
      ensures Exclusive(s[i])
    {
      assert Exclusive(ts[i]);
    }
  }

  // ---------------------------------------------------------------- tick

  /** True when a record is counted down by a tick. */
  predicate Counting(t: Timer) {
    t.running && t.remainingTime > 0
  }

  /** True when a tick takes a record's remaining time from 1 to 0. */
  predicate FinishesNow(t: Timer) {
    t.running && t.remainingTime == 1
  }

  /** The list `tick` writes: running records with time left lose one second, the rest are unchanged. */
  function TickMap(ts: seq<Timer>): (r: seq<Timer>)
    ensures |r| == |ts|
    ensures forall i :: 0 <= i < |ts| ==>
      SameIdentity(r[i], ts[i]) && r[i].running == ts[i].running && r[i].completed == ts[i].completed
    ensures forall i :: 0 <= i < |ts| && Counting(ts[i]) ==> r[i].remainingTime == ts[i].remainingTime - 1
    ensures forall i :: 0 <= i < |ts| && !Counting(ts[i]) ==> r[i] == ts[i]
    ensures forall i :: 0 <= i < |ts| && ts[i].remainingTime >= 0 ==> 0 <= r[i].remainingTime
  {
    seq(|ts|, i requires 0 <= i < |ts| => TickOne(ts[i]))
  }

  function TickOne(t: Timer): Timer {
    if Counting(t) then t.(remainingTime := t.remainingTime - 1) else t
  }

  lemma TickMapSnoc(ts: seq<Timer>, t: Timer)
    ensures TickMap(ts + [t]) == TickMap(ts) + [TickOne(t)]
  {
  }

  /** The records whose completion notice a tick raises, in list order. */
  function Completions(ts: seq<Timer>): (r: seq<Timer>)
    ensures |r| <= |ts|
    ensures forall t :: t in r <==> t in ts && FinishesNow(t)
  {
    if ts == [] then []
    else
      var rest := Completions(ts[..|ts| - 1]);
      assert ts == ts[..|ts| - 1] + [ts[|ts| - 1]];
      if FinishesNow(ts[|ts| - 1]) then rest + [ts[|ts| - 1]] else rest
  }

  /** The name shown in the completion notice after a tick: that of the last record finishing, if any. */
  function NoticeName(ts: seq<Timer>, previous: string): (name: string)
    ensures name == previous || exists i :: 0 <= i < |ts| && FinishesNow(ts[i]) && ts[i].name == name
  {
    var c := Completions(ts);
    if c == [] then previous
    else
      assert c[|c| - 1] in c;
      c[|c| - 1].name
  }

  /**
   The notice names the finishing record that comes last in list order, and keeps the
   previous name when no record finishes.
   */
  lemma {:induction false} NoticeNameIsLast(ts: seq<Timer>, previous: string, i: int)
    requires 0 <= i < |ts| && FinishesNow(ts[i])
    requires forall j :: i < j < |ts| ==> !FinishesNow(ts[j])
    ensures NoticeName(ts, previous) == ts[i].name
  {
    var init := ts[..|ts| - 1];
    if i < |ts| - 1 {
      NoticeNameIsLast(init, previous, i);
    }
  }

  lemma {:induction false} NoticeNameKept(ts: seq<Timer>, previous: string)
    requires forall j :: 0 <= j < |ts| ==> !FinishesNow(ts[j])
    ensures Completions(ts) == [] && NoticeName(ts, previous) == previous
  {
    if ts != [] {
      NoticeNameKept(ts[..|ts| - 1], previous);
    }
  }

  /**
   One `tick`. The map callback runs over the list in order; for each record
   that reaches zero it sets the notice name and shows the notice, so the name
   left at the end is the last finishing record's. The callback also calls
   `markCompleted` on the same stale list, but that write is replaced by the
   list the outer `setTimers` then writes, so `timers` ends as TickMap(ts).
   */
  method RunTick(ts: seq<Timer>, completedTimerName: string, modalVisible: bool)
    returns (next: seq<Timer>, name: string, visible: bool)
    ensures next == TickMap(ts)
    ensures name == NoticeName(ts, completedTimerName)
    ensures visible == (modalVisible || Completions(ts) != [])
  {
    next, name, visible := [], completedTimerName, modalVisible;
    var i := 0;
    while i < |ts|
      invariant 0 <= i <= |ts|
      invariant next == TickMap(ts[..i])
      invariant name == NoticeName(ts[..i], completedTimerName)
      invariant visible == (modalVisible || Completions(ts[..i]) != [])
    {
      var timer := ts[i];
      ghost var done := ts[..i];
      assert ts[..i + 1] == done + [timer];
      TickMapSnoc(done, timer);
      NoticeSnoc(done, timer, completedTimerName);
      if timer.running && timer.remainingTime > 0 {
        var newRemainingTime := timer.remainingTime - 1;
        if newRemainingTime == 0 {
          name := timer.name;
          visible := true;
        }
        next := next + [timer.(remainingTime := newRemainingTime)];
      } else {
        next := next + [timer];
      }
      i := i + 1;
    }
    assert ts[..i] == ts;
  }

  /** How one more record changes the completions and the notice name. */
  lemma NoticeSnoc(ts: seq<Timer>, t: Timer, previous: string)
    ensures Completions(ts + [t]) == Completions(ts) + (if FinishesNow(t) then [t] else [])
    ensures NoticeName(ts + [t], previous) == if FinishesNow(t) then t.name else NoticeName(ts, previous)
  {
    assert (ts + [t])[..|ts|] == ts;
  }

  /** A tick keeps every remaining time inside `0..duration`. */
  lemma TickKeepsBounds(ts: seq<Timer>)
    requires AllInBounds(ts)
    ensures AllInBounds(TickMap(ts))
  {
    var r := TickMap(ts);
    forall i | 0 <= i < |ts|
      ensures InBounds(r[i])
    {
      assert InBounds(ts[i]);
    }
  }

  /** A record lands on zero in this tick exactly when its completion notice is raised. */
  lemma ReachesZeroIffNotice(ts: seq<Timer>, i: int)
    requires 0 <= i < |ts|
    ensures (ts[i].remainingTime != 0 && TickMap(ts)[i].remainingTime == 0) <==> FinishesNow(ts[i])
    ensures FinishesNow(ts[i]) ==> ts[i] in Completions(ts)
  {
  }

  /** `timers.some(timer => timer.running)`: the condition under which the interval is armed. */
  predicate AnyRunning(ts: seq<Timer>) {
    exists i :: 0 <= i < |ts| && ts[i].running
  }

  /** With no running record, a tick changes nothing and raises no notice. */
  lemma IdleTickIsNoOp(ts: seq<Timer>)
    requires !AnyRunning(ts)
    ensures TickMap(ts) == ts
    ensures Completions(ts) == []
  {
    NoticeNameKept(ts, "");
  }

  /** `k` consecutive ticks with no command in between. */
  function Ticks(ts: seq<Timer>, k: nat): (r: seq<Timer>)
    ensures |r| == |ts|
  {
    if k == 0 then ts else TickMap(Ticks(ts, k - 1))
  }

  /**
   Over consecutive ticks, a running record counts down one per tick and stops at zero;
   every other field stays as it was.
   */
  lemma {:induction false} TicksCountDown(ts: seq<Timer>, k: nat, i: int)
    requires 0 <= i < |ts| && ts[i].running && ts[i].remainingTime >= 0
    ensures SameIdentity(Ticks(ts, k)[i], ts[i])
    ensures Ticks(ts, k)[i].running && Ticks(ts, k)[i].completed == ts[i].completed
    ensures Ticks(ts, k)[i].remainingTime == if k <= ts[i].remainingTime then ts[i].remainingTime - k else 0
  {
    if k > 0 {
      TicksCountDown(ts, k - 1, i);
    }
  }

  /**
   Completion is reported once: a running record with `n >= 1` seconds left raises its
   notice in tick number `n` (counting from 1) and in no other tick.
   */
  lemma {:induction false} NoticeExactlyOnce(ts: seq<Timer>, i: int, j: nat)
    requires 0 <= i < |ts| && ts[i].running && ts[i].remainingTime >= 1
    ensures FinishesNow(Ticks(ts, j)[i]) <==> j + 1 == ts[i].remainingTime
  {
    TicksCountDown(ts, j, i);
  }

  // ---------------------------------------------------------------- bulk actions

  /**
   `handleBulkAction(category, action)`: records of that category are started
   (with no completed check), paused or reset; an unknown action and records of
   other categories are left alone.
   */
  function BulkAction(ts: seq<Timer>, category: string, action: string): (r: seq<Timer>)
    ensures |r| == |ts|
    ensures forall i :: 0 <= i < |ts| ==> SameIdentity(r[i], ts[i])
    ensures forall i :: 0 <= i < |ts| && ts[i].category != category ==> r[i] == ts[i]
    ensures action == "start" ==> forall i :: 0 <= i < |ts| && ts[i].category == category ==>
      r[i].running && r[i].remainingTime == ts[i].remainingTime && r[i].completed == ts[i].completed
    ensures action == "pause" ==> forall i :: 0 <= i < |ts| && ts[i].category == category ==>
      !r[i].running && r[i].remainingTime == ts[i].remainingTime && r[i].completed == ts[i].completed
    ensures action == "reset" ==> forall i :: 0 <= i < |ts| && ts[i].category == category ==>
      IsReset(r[i])
    ensures action != "start" && action != "pause" && action != "reset" ==> r == ts
  {
    seq(|ts|, i requires 0 <= i < |ts| =>
      if ts[i].category == category then
        match action
        case "start" => Started(ts[i])
        case "pause" => Paused(ts[i])
        case "reset" => Rewound(ts[i])
        case _ => ts[i]
      else ts[i])
  }

  /** Bulk reset is idempotent. */
  lemma BulkResetIdempotent(ts: seq<Timer>, category: string)
    ensures BulkAction(BulkAction(ts, category, "reset"), category, "reset") == BulkAction(ts, category, "reset")
  {
    var once := BulkAction(ts, category, "reset");
    var twice := BulkAction(once, category, "reset");
    forall i | 0 <= i < |ts|
      ensures twice[i] == once[i]
    {
      assert once[i].category == ts[i].category;
    }
  }

  /** Bulk reset does to each record of the category what `resetTimer` does to it. */
  lemma BulkResetIsReset(ts: seq<Timer>, category: string, i: int)
    requires 0 <= i < |ts| && ts[i].category == category
    ensures BulkAction(ts, category, "reset")[i] == ResetTimer(ts, ts[i].id)[i]
  {
  }

  /** Bulk actions keep every remaining time inside `0..duration`. */
  lemma BulkKeepsBounds(ts: seq<Timer>, category: string, action: string)
    requires AllInBounds(ts)
    ensures AllInBounds(BulkAction(ts, category, action))
  {
    var r := BulkAction(ts, category, action);
    forall i | 0 <= i < |ts|
      ensures InBounds(r[i])
    {
      assert InBounds(ts[i]);
    }
  }

  /**
   Unlike `startTimer`, bulk start does not skip completed records: a completed
   record of the category comes out running and completed at once.
   */
  lemma BulkStartRunsCompleted(t: Timer)
    requires t.completed
    ensures var r := BulkAction([t], t.category, "start");
      r[0].running && r[0].completed && !Exclusive(r[0])
    ensures StartTimer([t], t.id) == [t]
  {
  }

  // ---------------------------------------------------------------- delete

  /** `deleteTimer(id)`: every record with that id goes, the rest keep their order. */
  function DeleteTimer(ts: seq<Timer>, id: int): (r: seq<Timer>)
    ensures |r| <= |ts|
    ensures forall t :: t in r <==> t in ts && t.id != id
    ensures (forall i :: 0 <= i < |ts| ==> ts[i].id != id) ==> r == ts
  {
    if ts == [] then []
    else
      var rest := DeleteTimer(ts[..|ts| - 1], id);
      assert ts == ts[..|ts| - 1] + [ts[|ts| - 1]];
      if ts[|ts| - 1].id != id then rest + [ts[|ts| - 1]] else rest
  }

  /** Deleting distributes over concatenation, so surviving records keep their relative order. */
  lemma {:induction false} DeleteConcat(a: seq<Timer>, b: seq<Timer>, id: int)
    ensures DeleteTimer(a + b, id) == DeleteTimer(a, id) + DeleteTimer(b, id)
    decreases |b|
  {
    if b == [] {
      assert a + b == a;
    } else {
      var b' := b[..|b| - 1];
      assert (a + b)[..|a + b| - 1] == a + b';
      assert (a + b)[|a + b| - 1] == b[|b| - 1];
      DeleteConcat(a, b', id);
      if b[|b| - 1].id != id {
        assert DeleteTimer(a, id) + DeleteTimer(b', id) + [b[|b| - 1]] == DeleteTimer(a, id) + (DeleteTimer(b', id) + [b[|b| - 1]]);
      }
    }
  }

  /** Deleting the same id twice is deleting it once. */
  lemma DeleteIdempotent(ts: seq<Timer>, id: int)
    ensures DeleteTimer(DeleteTimer(ts, id), id) == DeleteTimer(ts, id)
  {
    var r := DeleteTimer(ts, id);
    forall i | 0 <= i < |r|
      ensures r[i].id != id
    {
      assert r[i] in r;
    }
  }

  // ---------------------------------------------------------------- load

  /**
   What a read of the stored list can yield: no value, a value that parsed to a
   list or failed to parse (`parsed == None`), or a read that threw.
   */
  datatype LoadOutcome = Missing | Stored(blob: string, parsed: Option<seq<Timer>>) | ReadFailed

  /**
   The list after `loadTimers`: replaced by the parsed list when a non-empty
   value parsed; kept as it was when nothing is stored, the value is the empty
   string (falsy), parsing throws or the read throws.
   */
  function AfterLoad(current: seq<Timer>, outcome: LoadOutcome): (r: seq<Timer>)
    ensures outcome.Stored? && outcome.blob != "" && outcome.parsed.Some? ==> r == outcome.parsed.value
    ensures !(outcome.Stored? && outcome.blob != "" && outcome.parsed.Some?) ==> r == current
  {
    match outcome
    case Stored(blob, Some(loaded)) => if blob != "" then loaded else current
    case _ => current
  }
}
