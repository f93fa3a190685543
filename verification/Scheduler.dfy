// The weighted-lane scheduler: credits per lane, a highest-credit-first pick
// and a cyclic scan from the task after the last one run.
module Scheduler {
  import opened Wrappers
  import opened Bits

  const SYSTEM := 0
  const USER := 1
  const AI := 2
  const LANES := 3
  const MAX_TASKS := 16

  datatype Task = Task(lane: nat, active: bool)

  // `granted` remembers the lanes that were active at the last replenish.
  datatype Sched = Sched(tasks: seq<Task>, next: nat, credits: seq<nat>, performance: bool, granted: set<nat>)

  function LaneWeight(performance: bool, lane: nat): (w: nat)
    ensures 1 <= w <= 6
  {
    if performance then
      if lane == USER then 6 else if lane == SYSTEM then 2 else 1
    else
      if lane == USER then 3 else if lane == AI then 2 else 1
  }

  predicate Valid(s: Sched)
  {
    && |s.credits| == LANES && |s.tasks| <= MAX_TASKS
    && (forall i :: 0 <= i < |s.tasks| ==> s.tasks[i].lane < LANES)
    && (if s.tasks == [] then s.next == 0 else s.next < |s.tasks|)
  }

  function ActiveLanes(tasks: seq<Task>): (lanes: set<nat>)
    ensures forall l :: l in lanes <==> exists i :: 0 <= i < |tasks| && tasks[i].active && tasks[i].lane == l
  {
    set i | 0 <= i < |tasks| && tasks[i].active :: tasks[i].lane
  }

  /** The credit a task can spend. */
  function Spendable(s: Sched, i: nat): nat
    requires Valid(s) && i < |s.tasks|
  {
    if s.tasks[i].active then s.credits[s.tasks[i].lane] else 0
  }

  /** Some active task's lane has credit left. */
  predicate Runnable(s: Sched)
    requires Valid(s)
  {
    exists i :: 0 <= i < |s.tasks| && Spendable(s, i) != 0
  }

  function Grant(s: Sched, lane: nat): nat
  {
    if lane in ActiveLanes(s.tasks) then LaneWeight(s.performance, lane) else 0
  }

  function Replenished(s: Sched): Sched
  {
    s.(credits := [Grant(s, SYSTEM), Grant(s, USER), Grant(s, AI)], granted := ActiveLanes(s.tasks))
  }

  /** The state in which the pick is made: replenished if no credit is left to spend. */
  function Ready(s: Sched): Sched
    requires Valid(s)
  {
    if Runnable(s) then s else Replenished(s)
  }

  function Attempt(s: Sched, k: nat): nat
    requires s.tasks != []
  {
    (s.next + k) % |s.tasks|
  }

  /** Best credit and selected task after `k` attempts of the cyclic scan. */
  function Scan(s: Sched, k: nat): (nat, nat)
    requires Valid(s) && s.tasks != []
  {
    if k == 0 then (0, s.next)
    else
      var (best, selected) := Scan(s, k - 1);
      var i := Attempt(s, k - 1);
      if Spendable(s, i) > best then (Spendable(s, i), i) else (best, selected)
  }

  /** One scheduling decision, and the task it runs. */
  function RunOnce(s: Sched): (Sched, Option<nat>)
    requires Valid(s)
  {
    if ActiveLanes(s.tasks) == {} then (s, None)
    else
      Decide(Ready(s))
  }

  /** The pick in a state with its credits dealt. */
  function Decide(r: Sched): (Sched, Option<nat>)
    requires Valid(r) && r.tasks != []
  {
    ScanSelects(r, |r.tasks|);
    var (best, selected) := Scan(r, |r.tasks|);
    if best == 0 then (r, None)
    else
      var lane := r.tasks[selected].lane;
      (r.(credits := r.credits[lane := r.credits[lane] - 1], next := (selected + 1) % |r.tasks|), Some(selected))
  }

  function AddLane(s: Sched, hasEntry: bool, lane: int): (Sched, bool)
  {
    if !hasEntry || |s.tasks| == MAX_TASKS || lane < 0 || lane > AI then (s, false)
    else (s.(tasks := s.tasks + [Task(lane, true)]), true)
  }

  function SetPerformanceMode(s: Sched, enabled: bool): Sched
  {
    s.(performance := enabled, credits := [0, 0, 0])
  }

  // The scan finds the first task, in cyclic order from `next`, among those
  // with the highest credit.
  lemma {:induction false} ScanSelects(s: Sched, k: nat)
    requires Valid(s) && s.tasks != [] && k <= |s.tasks|
    ensures var (best, selected) := Scan(s, k);
            && selected < |s.tasks|
            && (forall j :: 0 <= j < k ==> Spendable(s, Attempt(s, j)) <= best)
            && (best > 0 ==> Spendable(s, selected) == best
                             && exists j :: 0 <= j < k && FirstBest(s, best, selected, j))
  {
    if k > 0 {
      ScanSelects(s, k - 1);
      var (best, selected) := Scan(s, k - 1);
      var i := Attempt(s, k - 1);
      if Spendable(s, i) > best {
        assert FirstBest(s, Spendable(s, i), i, k - 1);
      } else if best > 0 {
        var j :| 0 <= j < k - 1 && FirstBest(s, best, selected, j);
      }
    }
  }

  /** Attempt `j` is `selected` and no earlier attempt reaches `best`. */
  predicate FirstBest(s: Sched, best: nat, selected: nat, j: nat)
    requires Valid(s) && s.tasks != []
  {
    selected == Attempt(s, j) && forall i :: 0 <= i < j ==> Spendable(s, Attempt(s, i)) < best
  }

  // An attempt wraps around the task list at most once.
  lemma AttemptIs(s: Sched, k: nat)
    requires Valid(s) && k < |s.tasks|
    ensures Attempt(s, k) == if s.next + k < |s.tasks| then s.next + k else s.next + k - |s.tasks|
  {
    if s.next + k >= |s.tasks| {
      QuotientIs(s.next + k, |s.tasks|, 1, s.next + k - |s.tasks|);
    } else {
      QuotientIs(s.next + k, |s.tasks|, 0, s.next + k);
    }
  }

  // Every task is reached by the scan.
  lemma AttemptReaches(s: Sched, i: nat)
    requires Valid(s) && i < |s.tasks|
    ensures exists j :: 0 <= j < |s.tasks| && Attempt(s, j) == i
  {
    var n := |s.tasks|;
    var j := if i >= s.next then i - s.next else i + n - s.next;
    AttemptIs(s, j);
    assert 0 <= j < n && Attempt(s, j) == i;
  }

  // The pick: the task run has the highest credit of all active tasks, and the
  // scan reached no other such task before it.
  lemma RunOncePicks(s: Sched)
    requires Valid(s)
    ensures RunOnce(s).1.Some? ==>
              var r := Ready(s);
              var selected := RunOnce(s).1.value;
              && selected < |r.tasks| && Spendable(r, selected) > 0
              && (forall i :: 0 <= i < |r.tasks| ==> Spendable(r, i) <= Spendable(r, selected))
              && exists j :: 0 <= j < |r.tasks| && FirstBest(r, Spendable(r, selected), selected, j)
    ensures RunOnce(s).1.None? ==> forall i :: 0 <= i < |s.tasks| ==> !s.tasks[i].active
  {
    if ActiveLanes(s.tasks) == {} {
      assert forall i :: 0 <= i < |s.tasks| && s.tasks[i].active ==> s.tasks[i].lane in ActiveLanes(s.tasks);
    } else {
      var r := Ready(s);
      ReadyIsRunnable(s);
      ScanSelects(r, |r.tasks|);
      forall i | 0 <= i < |r.tasks| ensures Spendable(r, i) <= Scan(r, |r.tasks|).0 {
        AttemptReaches(r, i);
      }
    }
  }

  lemma ReadyIsRunnable(s: Sched)
    requires Valid(s) && ActiveLanes(s.tasks) != {}
    ensures Runnable(Ready(s))
  {
    if !Runnable(s) {
      var l :| l in ActiveLanes(s.tasks);
      var i :| 0 <= i < |s.tasks| && s.tasks[i].active && s.tasks[i].lane == l;
      assert Spendable(Replenished(s), i) == LaneWeight(s.performance, l);
    }
  }

  // The same said from the other side: a task that no earlier attempt matches
  // and no later attempt beats is the one that runs.
  lemma FirstBestRuns(s: Sched, j: nat)
    requires Valid(s) && Runnable(s) && j < |s.tasks| && Spendable(s, Attempt(s, j)) > 0
    requires forall i :: 0 <= i < j ==> Spendable(s, Attempt(s, i)) < Spendable(s, Attempt(s, j))
    requires forall i :: j < i < |s.tasks| ==> Spendable(s, Attempt(s, i)) <= Spendable(s, Attempt(s, j))
    ensures var i := Attempt(s, j);
            var lane := s.tasks[i].lane;
            RunOnce(s) == (s.(credits := s.credits[lane := s.credits[lane] - 1], next := (i + 1) % |s.tasks|), Some(i))
  {
    RunOncePicks(s);
    var i := Attempt(s, j);
    assert s.tasks[i].lane in ActiveLanes(s.tasks);
    ScanSelects(s, |s.tasks|);
    var (best, selected) := Scan(s, |s.tasks|);
    var j' :| 0 <= j' < |s.tasks| && FirstBest(s, best, selected, j');
    assert Spendable(s, Attempt(s, j)) <= best;
    assert j' == j;
  }

  lemma NoLanes(tasks: seq<Task>)
    ensures tasks == [] ==> ActiveLanes(tasks) == {}
  {
  }

  // ---- The scheduler object ----

  class TaskScheduler {
    const tasks: array<Task>
    var taskCount: nat
    var nextTask: nat
    const laneCredits: array<nat>
    var performanceMode: bool
    ghost var granted: set<nat>

    ghost function State(): Sched
      reads this, tasks, laneCredits
      requires taskCount <= tasks.Length
    {
      Sched(tasks[..taskCount], nextTask, laneCredits[..], performanceMode, granted)
    }

    ghost predicate WellFormed()
      reads this, tasks, laneCredits
    {
      && tasks.Length == MAX_TASKS && laneCredits.Length == LANES
      && taskCount <= tasks.Length && Valid(State())
    }

    constructor ()
      ensures WellFormed() && fresh(tasks) && fresh(laneCredits)
      ensures State() == Initial()
    {
      tasks := new Task[MAX_TASKS](i => Task(SYSTEM, false));
      laneCredits := new nat[LANES](i => 0);
      taskCount, nextTask, performanceMode, granted := 0, 0, false, {};
      new;
      assert laneCredits[..] == [0, 0, 0];
    }

    method Add(hasEntry: bool, lane: int) returns (ok: bool)
      requires WellFormed()
      modifies this`taskCount, tasks
      ensures WellFormed() && (State(), ok) == AddLane(old(State()), hasEntry, lane)
      ensures ok <==> hasEntry && old(taskCount) < 16 && 0 <= lane <= 2
      ensures ok ==> taskCount == old(taskCount) + 1 && tasks[old(taskCount)] == Task(lane, true)
      ensures !ok ==> State() == old(State())
    {
      if !hasEntry || taskCount == MAX_TASKS || lane < 0 || lane > AI {
        return false;
      }
      tasks[taskCount] := Task(lane, true);
      taskCount := taskCount + 1;
      assert tasks[..taskCount] == old(tasks[..taskCount]) + [Task(lane, true)];
      return true;
    }

    method SetMode(enabled: bool)
      requires WellFormed()
      modifies this`performanceMode, laneCredits
      ensures WellFormed() && State() == SetPerformanceMode(old(State()), enabled)
      ensures performanceMode == enabled && laneCredits[..] == [0, 0, 0]
    {
      performanceMode := enabled;
      laneCredits[0] := 0;
      laneCredits[1] := 0;
      laneCredits[2] := 0;
      assert laneCredits[..] == [0, 0, 0];
    }

    // The bit mask of lanes with an active task, as a set of lanes.
    method ActiveLaneMask() returns (mask: set<nat>)
      requires WellFormed()
      ensures mask == ActiveLanes(State().tasks)
    {
      mask := {};
      for taskIndex := 0 to taskCount
        invariant forall l :: l in mask <==> exists i :: 0 <= i < taskIndex && tasks[i].active && tasks[i].lane == l
      {
        if tasks[taskIndex].active {
          mask := mask + {tasks[taskIndex].lane};
        }
      }
    }

    method ReplenishLaneCredits(activeLanes: set<nat>)
      requires WellFormed() && activeLanes == ActiveLanes(State().tasks)
      modifies laneCredits, this`granted
      ensures WellFormed() && State() == Replenished(old(State()))
    {
      ghost var before := State();
      for lane := 0 to LANES
        invariant WellFormed() && State() == before.(credits := laneCredits[..])
        invariant forall l :: 0 <= l < lane ==> laneCredits[l] == Grant(before, l)
      {
        laneCredits[lane] := if lane in activeLanes then LaneWeight(performanceMode, lane) else 0;
      }
      granted := activeLanes;
      assert laneCredits[..] == [Grant(before, 0), Grant(before, 1), Grant(before, 2)];
    }

    method HasRunnable() returns (runnable: bool)
      requires WellFormed()
      ensures runnable <==> Runnable(State())
    {
      runnable := false;
      for taskIndex := 0 to taskCount
        invariant !runnable
        invariant forall i :: 0 <= i < taskIndex ==> Spendable(State(), i) == 0
      {
        var task := tasks[taskIndex];
        if task.active && laneCredits[task.lane] != 0 {
          assert Spendable(State(), taskIndex) != 0;
          return true;
        }
      }
    }

    // Returns the task to run; the caller runs it.
    method RunTask() returns (ran: Option<nat>)
      requires WellFormed()
      modifies this`nextTask, this`granted, laneCredits
      ensures WellFormed() && (State(), ran) == RunOnce(old(State()))
    {
      hide ActiveLanes, Scan, Runnable, Replenished;
      if taskCount == 0 {
        NoLanes(State().tasks);
        return None;
      }
      var activeLanes := ActiveLaneMask();
      if activeLanes == {} {
        return None;
      }
      var runnable := HasRunnable();
      if !runnable {
        ReplenishLaneCredits(activeLanes);
      }
      ran := RunSelected();
    }

    // From the selection on.
    method RunSelected() returns (ran: Option<nat>)
      requires WellFormed() && taskCount > 0
      modifies this`nextTask, laneCredits
      ensures WellFormed() && (State(), ran) == Decide(old(State()))
    {
      hide Scan;
      ghost var r := State();
      var bestCredit, selected := SelectTask();
      ScanSelects(r, taskCount);
      if bestCredit == 0 {
        return None;
      }
      var lane := tasks[selected].lane;
      laneCredits[lane] := laneCredits[lane] - 1;
      nextTask := (selected + 1) % taskCount;
      return Some(selected);
    }

    // The selection loop.
    method SelectTask() returns (bestCredit: nat, selected: nat)
      requires WellFormed() && taskCount > 0
      ensures (bestCredit, selected) == Scan(State(), taskCount)
    {
      bestCredit, selected := 0, nextTask;
      for attempts := 0 to taskCount
        invariant (bestCredit, selected) == Scan(State(), attempts)
      {
        var index := (nextTask + attempts) % taskCount;
        var task := tasks[index];
        if task.active && laneCredits[task.lane] > bestCredit {
          selected := index;
          bestCredit := laneCredits[task.lane];
        }
      }
    }
  }

  /** The statics before anything is added. */
  function Initial(): Sched
  {
    Sched([], 0, [0, 0, 0], false, {})
  }
}
