// Which tasks run: when the tasks of a lane take turns, and so all run.
module SchedulerTasks {
  import opened Wrappers
  import opened Bits
  import opened Scheduler
  import opened SchedulerRuns

  /** The tasks run, in order. */
  function TasksRun(s: Sched, ops: seq<Op>): seq<nat>
    requires Valid(s)
    decreases |ops|
  {
    if ops == [] then []
    else
      StepValid(s, ops[0]);
      var (s', ran) := Step(s, ops[0]);
      (if ran.Some? then [ran.value] else []) + TasksRun(s', ops[1..])
  }

  // A task runs in a non-empty run if the first call runs it or the rest does.
  lemma NowOrLater(s: Sched, ops: seq<Op>, i: nat)
    requires Valid(s) && Valid(RunOnce(s).0) && OnlyRuns(ops) && ops != []
    requires RunOnce(s).1 == Some(i) || i in TasksRun(RunOnce(s).0, ops[1..])
    ensures i in TasksRun(s, ops)
  {
    assert ops[0].Run?;
  }

  // ---- Turns ----

  /** At which attempt of the scan task `i` is reached. */
  function Turn(s: Sched, i: nat): (j: nat)
    requires Valid(s) && i < |s.tasks|
    ensures j < |s.tasks|
  {
    if i >= s.next then i - s.next else i + |s.tasks| - s.next
  }

  lemma TurnReaches(s: Sched, i: nat)
    requires Valid(s) && i < |s.tasks|
    ensures Attempt(s, Turn(s, i)) == i
  {
    AttemptIs(s, Turn(s, i));
  }

  lemma TurnIsUnique(s: Sched, j: nat)
    requires Valid(s) && j < |s.tasks|
    ensures Attempt(s, j) < |s.tasks| && Turn(s, Attempt(s, j)) == j
  {
    AttemptIs(s, j);
  }

  /** The state a call decides in, when every task is active. */
  function Dealt(s: Sched): Sched
    requires |s.credits| == LANES
  {
    if Spent(s) then Replenished(s) else s
  }

  lemma CursorAfter(s: Sched)
    requires Valid(s) && RunOnce(s).1.Some?
    ensures var y := RunOnce(s).1.value;
            y < |s.tasks| && RunOnce(s).0.next == if y + 1 == |s.tasks| then 0 else y + 1
  {
    hide Scan, ActiveLanes, Runnable;
    ScanSelects(Ready(s), |s.tasks|);
    var y := RunOnce(s).1.value;
    QuotientIs(y + 1, |s.tasks|, if y + 1 == |s.tasks| then 1 else 0, if y + 1 == |s.tasks| then 0 else y + 1);
  }

  lemma EarlierHasLess(r: Sched, j: nat, y: nat, x: nat)
    requires Valid(r) && y < |r.tasks| && x < |r.tasks| && j < |r.tasks|
    requires FirstBest(r, Spendable(r, y), y, j) && Turn(r, x) < Turn(r, y)
    ensures Spendable(r, x) < Spendable(r, y)
  {
    hide Turn, Attempt, Spendable;
    TurnIsUnique(r, j);
    TurnReaches(r, x);
    assert Spendable(r, Attempt(r, Turn(r, x))) < Spendable(r, y);
  }

  // The scan passes by tasks with less credit only.
  lemma PassedHasLess(s: Sched, t: nat, y: nat, x: nat)
    requires Inv(s, t) && y < |s.tasks| && x < |s.tasks| && RunOnce(s).1 == Some(y)
    requires Turn(s, x) < Turn(s, y)
    ensures var r := Dealt(s);
            |r.credits| == LANES && r.credits[s.tasks[x].lane] < r.credits[s.tasks[y].lane]
  {
    hide RunOnce, Scan, ActiveLanes, Level, Runnable, FirstBest;
    RunOncePicks(s);
    SpentIsNotRunnable(s, t);
    var r := Ready(s);
    var j :| 0 <= j < |r.tasks| && FirstBest(r, Spendable(r, y), y, j);
    EarlierHasLess(r, j, y, x);
  }

  // A call, seen task by task: the task run has the most credit, any task
  // whose turn comes earlier has less, and the cursor moves past the task run.
  lemma RunPicks(s: Sched, t: nat) returns (y: nat)
    requires Inv(s, t) && s.tasks != []
    ensures y < |s.tasks| && RunOnce(s).1 == Some(y) && Valid(RunOnce(s).0)
    ensures var r := Dealt(s);
            var lane := s.tasks[y].lane;
            && |r.credits| == LANES && lane < LANES && r.credits[lane] >= 1
            && RunOnce(s).0 == r.(credits := r.credits[lane := r.credits[lane] - 1],
                                  next := if y + 1 == |s.tasks| then 0 else y + 1)
            && (forall l :: 0 <= l < LANES ==> r.credits[l] <= r.credits[lane])
            && (forall x :: 0 <= x < |s.tasks| && Turn(s, x) < Turn(s, y)
                  ==> r.credits[s.tasks[x].lane] < r.credits[lane])
  {
    hide RunOnce, ActiveLanes, Level, Turn;
    var lane := RunPays(s, t);
    CursorAfter(s);
    y := RunOnce(s).1.value;
    forall x | 0 <= x < |s.tasks| && Turn(s, x) < Turn(s, y)
      ensures Dealt(s).credits[s.tasks[x].lane] < Dealt(s).credits[lane] {
      PassedHasLess(s, t, y, x);
    }
  }

  // ---- The tasks of a lane take turns ----

  /** The tasks of a lane. */
  function LaneTasks(tasks: seq<Task>, lane: nat): set<nat>
  {
    set x: nat | x < |tasks| && tasks[x].lane == lane
  }

  /** The tasks of the lane of `i` whose turn comes before that of `i`. */
  function Ahead(s: Sched, i: nat): set<nat>
    requires Valid(s) && i < |s.tasks|
  {
    set x: nat | x < |s.tasks| && s.tasks[x].lane == s.tasks[i].lane && Turn(s, x) < Turn(s, i)
  }

  lemma {:induction false} SubsetSize(a: set<nat>, b: set<nat>)
    requires a <= b
    ensures |a| <= |b|
  {
    if a != {} {
      var x :| x in a;
      SubsetSize(a - {x}, b - {x});
    }
  }

  lemma AheadIsRest(s: Sched, i: nat)
    requires Valid(s) && i < |s.tasks|
    ensures |Ahead(s, i)| + 1 <= |LaneTasks(s.tasks, s.tasks[i].lane)| <= |s.tasks|
  {
    var all := LaneTasks(s.tasks, s.tasks[i].lane);
    SubsetSize(Ahead(s, i), all - {i});
    LaneSize(s.tasks, s.tasks[i].lane);
  }

  lemma {:induction false} LaneSize(tasks: seq<Task>, lane: nat)
    ensures |LaneTasks(tasks, lane)| <= |tasks|
  {
    if tasks == [] {
      assert LaneTasks(tasks, lane) == {};
    } else {
      var last := |tasks| - 1;
      LaneSize(tasks[..last], lane);
      assert LaneTasks(tasks, lane) == LaneTasks(tasks[..last], lane) + if tasks[last].lane == lane then {last} else {};
    }
  }

  lemma TurnsShift(s: Sched, s': Sched, y: nat, i: nat, x: nat)
    requires Valid(s) && Valid(s') && s'.tasks == s.tasks && y < |s.tasks| && i < |s.tasks| && x < |s.tasks|
    requires s'.next == if y + 1 == |s.tasks| then 0 else y + 1
    requires Turn(s, y) < Turn(s, i)
    ensures Turn(s', x) < Turn(s', i) <==> Turn(s, y) < Turn(s, x) < Turn(s, i)
  {
  }

  // Once task `y` has run, turns are counted from the task after it. If the
  // scan passed no task of the lane of `i`, at most `y` itself is no longer ahead.
  lemma TurnsMove(s: Sched, s': Sched, y: nat, i: nat)
    requires Valid(s) && Valid(s') && s'.tasks == s.tasks && y < |s.tasks| && i < |s.tasks|
    requires s'.next == if y + 1 == |s.tasks| then 0 else y + 1
    requires Turn(s, y) < Turn(s, i)
    requires forall x :: 0 <= x < |s.tasks| && Turn(s, x) < Turn(s, y) ==> s.tasks[x].lane != s.tasks[i].lane
    ensures s.tasks[y].lane == s.tasks[i].lane ==> |Ahead(s', i)| + 1 == |Ahead(s, i)|
    ensures s.tasks[y].lane != s.tasks[i].lane ==> Ahead(s', i) == Ahead(s, i)
  {
    hide Turn, Attempt;
    forall x: nat | x < |s.tasks|
      ensures Turn(s', x) < Turn(s', i) <==> Turn(s, y) < Turn(s, x) < Turn(s, i) {
      TurnsShift(s, s', y, i, x);
    }
    TurnReaches(s, y);
    forall x: nat | x < |s.tasks| ensures Turn(s, x) == Turn(s, y) ==> x == y {
      TurnReaches(s, x);
    }
    if s.tasks[y].lane == s.tasks[i].lane {
      assert Ahead(s', i) == Ahead(s, i) - {y};
    } else {
      assert Ahead(s', i) == Ahead(s, i);
    }
  }

  // While its lane has the most credit, a call runs task `i`, or the next task
  // of its lane, or a task of another lane without passing one of this lane.
  lemma TurnTaken(s: Sched, t: nat, i: nat) returns (y: nat)
    requires Inv(s, t) && i < |s.tasks|
    requires var r := Dealt(s);
             |r.credits| == LANES && forall l :: 0 <= l < LANES ==> r.credits[l] <= r.credits[s.tasks[i].lane]
    ensures y < |s.tasks| && RunOnce(s).1 == Some(y) && Valid(RunOnce(s).0) && RunOnce(s).0.tasks == s.tasks
    ensures var s' := RunOnce(s).0;
            var lane := s.tasks[i].lane;
            if s.tasks[y].lane == lane then y == i || |Ahead(s', i)| + 1 == |Ahead(s, i)|
            else Ahead(s', i) == Ahead(s, i) && Dealt(s).credits[s.tasks[y].lane] == Dealt(s).credits[lane]
  {
    hide RunOnce, Level, ActiveLanes, Spent, Turn, Ahead, Attempt;
    y := RunPicks(s, t);
    if y != i {
      TurnReaches(s, i);
      TurnReaches(s, y);
      TurnsMove(s, RunOnce(s).0, y, i);
    }
  }

  // ---- Every task of a lane runs ----

  /** The largest weight among `lanes`, or 0 if there are none. */
  function Heaviest(performance: bool, lanes: set<nat>): (w: nat)
    ensures forall l :: 0 <= l < LANES && l in lanes ==> LaneWeight(performance, l) <= w
  {
    if USER in lanes then LaneWeight(performance, USER)
    else if SYSTEM in lanes && AI in lanes then
      (if performance then LaneWeight(performance, SYSTEM) else LaneWeight(performance, AI))
    else if SYSTEM in lanes then LaneWeight(performance, SYSTEM)
    else if AI in lanes then LaneWeight(performance, AI) else 0
  }

  /** How many tasks of a lane can run beside the other `lanes` without one of them waiting forever. */
  function Room(performance: bool, lanes: set<nat>, lane: nat): nat
  {
    var w := LaneWeight(performance, lane);
    var h := Heaviest(performance, lanes - {lane});
    if w > h then w - h + 1 else 1
  }

  // While the lane of `i` has `h` more credits than there are tasks ahead of
  // it, and no other lane has more than `h`, task `i` runs before the round is over.
  lemma {:induction false} RunsThisRound(s: Sched, t: nat, i: nat, h: nat, ops: seq<Op>)
    requires Inv(s, t) && i < |s.tasks| && OnlyRuns(ops) && |ops| >= Credits(s) && h >= 1
    requires var lane := s.tasks[i].lane;
             && s.credits[lane] >= h + |Ahead(s, i)|
             && forall l :: 0 <= l < LANES && l != lane ==> s.credits[l] <= h
    ensures i in TasksRun(s, ops)
    decreases |ops|
  {
    hide RunOnce, Level, ActiveLanes, Ahead, TasksRun, Replenished;
    var y := TurnTaken(s, t, i);
    var y' := RunPicks(s, t);
    var s' := RunOnce(s).0;
    assert Credits(s') + 1 == Credits(s);
    if y != i {
      var t' := RunKeepsLevel(s, t);
      RunsThisRound(s', t', i, h, ops[1..]);
    }
    NowOrLater(s, ops, i);
  }

  // The call that replenishes does what it would do after the replenish.
  lemma RunsReplenished(s: Sched, t: nat, ops: seq<Op>)
    requires Inv(s, t) && Spent(s) && s.tasks != [] && OnlyRuns(ops) && ops != []
    ensures Inv(Replenished(s), 6) && TasksRun(s, ops) == TasksRun(Replenished(s), ops)
    ensures Final(s, ops) == Final(Replenished(s), ops)
  {
    hide RunOnce, ActiveLanes, Level;
    ReplenishedLevel(s);
    ReplenishedRuns(s, t);
    assert ops[0].Run?;
  }

  lemma ReplenishedRuns(s: Sched, t: nat)
    requires Inv(s, t) && Spent(s) && s.tasks != []
    ensures Valid(Replenished(s)) && RunOnce(s) == RunOnce(Replenished(s))
  {
    hide Scan, ActiveLanes, Runnable, Level;
    SpentIsNotRunnable(s, t);
    TaskLane(s, 0);
    ReadyIsRunnable(s);
  }

  lemma TaskLane(s: Sched, i: nat)
    requires Valid(s) && i < |s.tasks| && s.tasks[i].active
    ensures s.tasks[i].lane in ActiveLanes(s.tasks) && ActiveLanes(s.tasks) <= {SYSTEM, USER, AI}
  {
  }

  // What theorems about the tasks of one lane need: others are active, and it leaves room.
  predicate Roomy(s: Sched, lane: nat)
  {
    var lanes := ActiveLanes(s.tasks);
    lanes != {lane} && |LaneTasks(s.tasks, lane)| <= Room(s.performance, lanes, lane)
  }

  // From a replenish on, a lane of more weight than the others runs all its tasks.
  lemma RunsFromSpent(s: Sched, t: nat, i: nat, ops: seq<Op>)
    requires Inv(s, t) && Spent(s) && i < |s.tasks| && OnlyRuns(ops)
    requires var lanes := ActiveLanes(s.tasks);
             var lane := s.tasks[i].lane;
             && Roomy(s, lane) && LaneWeight(s.performance, lane) > Heaviest(s.performance, lanes - {lane})
             && |ops| >= TotalWeight(s.performance, lanes)
    ensures i in TasksRun(s, ops)
  {
    hide RunOnce, Level, ActiveLanes, Ahead, LaneTasks, TasksRun;
    var lanes := ActiveLanes(s.tasks);
    var lane := s.tasks[i].lane;
    var h := Heaviest(s.performance, lanes - {lane});
    TaskLane(s, i);
    assert lanes - {lane} == {} ==> lanes == {lane};
    RunsReplenished(s, t, ops);
    var r := Replenished(s);
    AheadIsRest(r, i);
    RunsThisRound(r, 6, i, h, ops);
  }

  lemma {:induction false} RunsNextRound(s: Sched, t: nat, i: nat, ops: seq<Op>)
    requires Inv(s, t) && i < |s.tasks| && OnlyRuns(ops)
    requires var lanes := ActiveLanes(s.tasks);
             var lane := s.tasks[i].lane;
             && Roomy(s, lane) && LaneWeight(s.performance, lane) > Heaviest(s.performance, lanes - {lane})
             && |ops| >= Credits(s) + TotalWeight(s.performance, lanes)
    ensures i in TasksRun(s, ops)
    decreases |ops|
  {
    hide RunOnce, Level, ActiveLanes, LaneTasks, TasksRun, Room, TotalWeight, LaneWeight;
    if Spent(s) {
      RunsFromSpent(s, t, i, ops);
    } else {
      var y := RunPicks(s, t);
      var t' := RunKeepsLevel(s, t);
      RunsNextRound(RunOnce(s).0, t', i, ops[1..]);
      NowOrLater(s, ops, i);
    }
  }

  // The only active lane takes every call.
  lemma {:induction false} RunsAlone(s: Sched, t: nat, i: nat, ops: seq<Op>)
    requires Inv(s, t) && i < |s.tasks| && OnlyRuns(ops)
    requires ActiveLanes(s.tasks) == {s.tasks[i].lane} && |ops| > |Ahead(s, i)|
    ensures i in TasksRun(s, ops)
    decreases |ops|
  {
    hide RunOnce, Level, ActiveLanes, Ahead, TasksRun;
    OtherLanesHaveNone(s, t, s.tasks[i].lane);
    var y := TurnTaken(s, t, i);
    if y != i {
      TaskLane(s, y);
      var t' := RunKeepsLevel(s, t);
      RunsAlone(RunOnce(s).0, t', i, ops[1..]);
    }
    NowOrLater(s, ops, i);
  }

  lemma OtherLanesHaveNone(s: Sched, t: nat, lane: nat)
    requires Inv(s, t) && ActiveLanes(s.tasks) == {lane}
    ensures var r := Dealt(s);
            |r.credits| == LANES && forall l :: 0 <= l < LANES && l != lane ==> r.credits[l] == 0
  {
    hide ActiveLanes;
  }

  // A lane with one task runs it whenever it runs.
  lemma {:induction false} OnlyTaskRuns(s: Sched, t: nat, i: nat, ops: seq<Op>)
    requires Inv(s, t) && i < |s.tasks| && OnlyRuns(ops)
    requires |LaneTasks(s.tasks, s.tasks[i].lane)| <= 1 && s.tasks[i].lane in Trace(s, ops)
    ensures i in TasksRun(s, ops)
    decreases |ops|
  {
    hide RunOnce, Level, ActiveLanes, LaneTasks, TasksRun;
    assert ops[0].Run?;
    var y := RunPicks(s, t);
    var lane := s.tasks[i].lane;
    if s.tasks[y].lane == lane {
      AtMostOne(s, i, y);
    } else {
      var t' := RunKeepsLevel(s, t);
      assert Trace(s, ops) == [s.tasks[y].lane] + Trace(RunOnce(s).0, ops[1..]);
      OnlyTaskRuns(RunOnce(s).0, t', i, ops[1..]);
    }
    NowOrLater(s, ops, i);
  }

  lemma AtMostOne(s: Sched, i: nat, y: nat)
    requires i < |s.tasks| && y < |s.tasks| && s.tasks[i].lane == s.tasks[y].lane
    requires |LaneTasks(s.tasks, s.tasks[i].lane)| <= 1
    ensures i == y
  {
    SubsetSize({i, y}, LaneTasks(s.tasks, s.tasks[i].lane));
  }

  lemma CreditsAtMostGranted(s: Sched, t: nat)
    requires Inv(s, t)
    ensures Credits(s) <= TotalWeight(s.performance, ActiveLanes(s.tasks))
  {
    hide ActiveLanes;
    assert SYSTEM in s.granted ==> AtLevel(s, SYSTEM, t);
    assert USER in s.granted ==> AtLevel(s, USER, t);
    assert AI in s.granted ==> AtLevel(s, AI, t);
  }

  /** How many calls a task waits for at most, in a lane that leaves room. */
  function CallsBound(s: Sched, lane: nat): nat
  {
    var lanes := ActiveLanes(s.tasks);
    if lanes == {lane} then |s.tasks| else 2 * TotalWeight(s.performance, lanes)
  }

  // With mode and tasks fixed, from every reachable state, every task of a
  // lane that is alone or leaves room for its tasks runs within a fixed number of calls.
  lemma EveryTaskRuns(past: seq<Op>, i: nat, ops: seq<Op>)
    requires OnlyRuns(ops) && i < |Final(Initial(), past).tasks|
    requires var s := Final(Initial(), past);
             var lane := s.tasks[i].lane;
             && (ActiveLanes(s.tasks) == {lane} || Roomy(s, lane))
             && |ops| >= CallsBound(s, lane)
    ensures i in TasksRun(Final(Initial(), past), ops)
  {
    hide RunOnce, Level, ActiveLanes, LaneTasks, TasksRun, Final, Ahead;
    var s := Final(Initial(), past);
    var t := FinalKeepsLevel(Initial(), past, 0);
    var lanes := ActiveLanes(s.tasks);
    var lane := s.tasks[i].lane;
    TaskLane(s, i);
    if lanes == {lane} {
      AheadIsRest(s, i);
      RunsAlone(s, t, i, ops);
    } else if LaneWeight(s.performance, lane) > Heaviest(s.performance, lanes - {lane}) {
      CreditsAtMostGranted(s, t);
      RunsNextRound(s, t, i, ops);
    } else {
      LaneWaitBound(s, t, lane);
      LaneRunsWithinWait(s, t, lane, ops);
      OnlyTaskRuns(s, t, i, ops);
    }
  }
}
