// What the scheduler guarantees over whole runs, whatever tasks are added and
// however often the mode is toggled in between.
module SchedulerRuns {
  import opened Wrappers
  import opened Bits
  import opened Scheduler

  datatype Op = Add(hasEntry: bool, lane: int) | SetMode(enabled: bool) | Run

  /** One operation, and the task it runs if any. */
  function Step(s: Sched, op: Op): (Sched, Option<nat>)
    requires Valid(s)
  {
    match op
    case Add(hasEntry, lane) => (AddLane(s, hasEntry, lane).0, None)
    case SetMode(enabled) => (SetPerformanceMode(s, enabled), None)
    case Run => RunOnce(s)
  }

  lemma StepValid(s: Sched, op: Op)
    requires Valid(s)
    ensures Valid(Step(s, op).0)
    ensures Step(s, op).1.Some? ==> op.Run? && Step(s, op).1.value < |s.tasks|
  {
    if op.Run? && ActiveLanes(s.tasks) != {} {
      ScanSelects(Ready(s), |s.tasks|);
    }
  }

  function Final(s: Sched, ops: seq<Op>): (r: Sched)
    requires Valid(s)
    ensures Valid(r)
    decreases |ops|
  {
    if ops == [] then s
    else
      StepValid(s, ops[0]);
      Final(Step(s, ops[0]).0, ops[1..])
  }

  /** The lanes of the tasks run, in order. */
  function Trace(s: Sched, ops: seq<Op>): seq<nat>
    requires Valid(s)
    decreases |ops|
  {
    if ops == [] then []
    else
      StepValid(s, ops[0]);
      var (s', ran) := Step(s, ops[0]);
      (if ran.Some? then [s.tasks[ran.value].lane] else []) + Trace(s', ops[1..])
  }

  function Runs(ops: seq<Op>): nat
  {
    if ops == [] then 0 else (if ops[0].Run? then 1 else 0) + Runs(ops[1..])
  }

  // ---- The water level ----

  /** The credit of a lane is at level `t` or one above it, capped by its weight. */
  predicate AtLevel(s: Sched, lane: nat, t: nat)
    requires |s.credits| == LANES && lane < LANES
  {
    Min(LaneWeight(s.performance, lane), t) <= s.credits[lane] <= Min(LaneWeight(s.performance, lane), t + 1)
  }

  /** Every lane active at the last replenish is at the level; the others have no credit. */
  predicate Level(s: Sched, t: nat)
    requires |s.credits| == LANES
  {
    forall lane :: 0 <= lane < LANES ==>
      if lane in s.granted then AtLevel(s, lane, t) else s.credits[lane] == 0
  }

  predicate Inv(s: Sched, t: nat)
  {
    && Valid(s)
    && (forall i :: 0 <= i < |s.tasks| ==> s.tasks[i].active)
    && s.granted <= ActiveLanes(s.tasks)
    && Level(s, t)
  }

  predicate Spent(s: Sched)
    requires |s.credits| == LANES
  {
    s.credits[SYSTEM] == 0 && s.credits[USER] == 0 && s.credits[AI] == 0
  }

  // A run, seen lane by lane: credits are replenished exactly when all are
  // spent, and then a lane of highest credit pays one.
  lemma RunPays(s: Sched, t: nat) returns (lane: nat)
    requires Inv(s, t) && s.tasks != []
    ensures lane < LANES && lane in ActiveLanes(s.tasks)
    ensures var (s', ran) := RunOnce(s);
            && ran.Some? && ran.value < |s.tasks| && lane == s.tasks[ran.value].lane
            && var r := if Spent(s) then Replenished(s) else s;
            && |r.credits| == LANES && r.credits[lane] >= 1
            && (forall l :: 0 <= l < LANES ==> r.credits[l] <= r.credits[lane])
            && s' == r.(credits := r.credits[lane := r.credits[lane] - 1], next := s'.next)
            && Valid(s')
  {
    hide Scan, FirstBest, Level, Runnable, ActiveLanes;
    RunOncePicks(s);
    StepValid(s, Run);
    SpentIsNotRunnable(s, t);
    var (s', ran) := RunOnce(s);
    assert s.tasks[0].active;
    lane := s.tasks[ran.value].lane;
    TaskIsActive(s, ran.value);
    forall l | 0 <= l < LANES ensures Ready(s).credits[l] <= Ready(s).credits[lane] {
      RichestLane(s, t, ran.value, l);
    }
  }

  lemma TaskIsActive(s: Sched, i: nat)
    requires i < |s.tasks| && s.tasks[i].active
    ensures s.tasks[i].lane in ActiveLanes(s.tasks)
  {
  }

  // No lane has more credit than the task with most to spend.
  lemma RichestLane(s: Sched, t: nat, y: nat, l: nat)
    requires Inv(s, t) && y < |s.tasks| && l < LANES
    requires forall i :: 0 <= i < |s.tasks| ==> Spendable(Ready(s), i) <= Spendable(Ready(s), y)
    ensures Ready(s).credits[l] <= Ready(s).credits[s.tasks[y].lane]
  {
    hide Runnable;
    var r := Ready(s);
    if r.credits[l] > 0 {
      assert l in ActiveLanes(s.tasks);
      var i :| 0 <= i < |s.tasks| && s.tasks[i].active && s.tasks[i].lane == l;
      assert Spendable(r, i) <= Spendable(r, y);
    }
  }

  lemma SpentIsNotRunnable(s: Sched, t: nat)
    requires Inv(s, t)
    ensures Runnable(s) <==> !Spent(s)
  {
    if !Spent(s) {
      var l := if s.credits[SYSTEM] != 0 then SYSTEM else if s.credits[USER] != 0 then USER else AI;
      assert l in ActiveLanes(s.tasks);
      var i :| 0 <= i < |s.tasks| && s.tasks[i].active && s.tasks[i].lane == l;
      assert Spendable(s, i) != 0;
    }
  }

  lemma LaneMeansTask(s: Sched, lane: nat)
    requires lane in ActiveLanes(s.tasks)
    ensures s.tasks != []
  {
  }

  lemma AddedLanes(tasks: seq<Task>, task: Task)
    ensures ActiveLanes(tasks) <= ActiveLanes(tasks + [task])
  {
    forall l | l in ActiveLanes(tasks) ensures l in ActiveLanes(tasks + [task]) {
      var i :| 0 <= i < |tasks| && tasks[i].active && tasks[i].lane == l;
      assert (tasks + [task])[i] == tasks[i];
    }
  }

  // A lane of highest credit pays: the level drops to the credit it has left.
  lemma PayKeepsLevel(r: Sched, t: nat, lane: nat, next: nat)
    requires |r.credits| == LANES && lane < LANES && Level(r, t) && r.credits[lane] >= 1
    requires forall l :: 0 <= l < LANES ==> r.credits[l] <= r.credits[lane]
    ensures Level(r.(credits := r.credits[lane := r.credits[lane] - 1], next := next), r.credits[lane] - 1)
  {
  }

  lemma ReplenishedLevel(s: Sched)
    ensures Level(Replenished(s), 6)
  {
  }

  // Every step keeps the level invariant, at the same level or the one below,
  // or at a fresh level after a replenish.
  lemma StepKeepsLevel(s: Sched, op: Op, t: nat) returns (t': nat)
    requires Inv(s, t)
    ensures Inv(Step(s, op).0, t')
  {
    t' := t;
    match op
    case Add(hasEntry, lane) =>
      if AddLane(s, hasEntry, lane).1 {
        AddedLanes(s.tasks, Task(lane, true));
      }
    case SetMode(enabled) => t' := 0;
    case Run =>
      if s.tasks == [] {
        NoLanes(s.tasks);
      } else {
        t' := RunKeepsLevel(s, t);
      }
  }

  lemma RunKeepsLevel(s: Sched, t: nat) returns (t': nat)
    requires Inv(s, t) && s.tasks != []
    ensures Inv(RunOnce(s).0, t')
  {
    hide RunOnce, Level, ActiveLanes;
    var lane := RunPays(s, t);
    var r := if Spent(s) then Replenished(s) else s;
    ReplenishedLevel(s);
    PayKeepsLevel(r, if Spent(s) then 6 else t, lane, RunOnce(s).0.next);
    t' := r.credits[lane] - 1;
  }

  lemma {:induction false} FinalKeepsLevel(s: Sched, ops: seq<Op>, t: nat) returns (t': nat)
    requires Inv(s, t)
    ensures Inv(Final(s, ops), t')
    decreases |ops|
  {
    if ops == [] {
      t' := t;
    } else {
      StepValid(s, ops[0]);
      var u := StepKeepsLevel(s, ops[0], t);
      t' := FinalKeepsLevel(Step(s, ops[0]).0, ops[1..], u);
    }
  }

  // In every reachable state there is a level at which every lane active at
  // the last replenish stands.
  lemma WaterLevel(ops: seq<Op>)
    ensures exists t: nat :: Inv(Final(Initial(), ops), t)
  {
    var t := FinalKeepsLevel(Initial(), ops, 0);
  }

  // ---- Bounded waiting for the user lane ----

  function Ahead(c: nat, u: nat): nat
  {
    if c >= u then c - u + 1 else 0
  }

  /** How many runs can go to other lanes before one goes to the user lane. */
  function UserWait(s: Sched): nat
    requires |s.credits| == LANES
  {
    var u := s.credits[USER];
    if u == 0 then s.credits[SYSTEM] + s.credits[AI]
    else Ahead(s.credits[SYSTEM], u) + Ahead(s.credits[AI], u)
  }

  lemma UserWaitAtMostThree(s: Sched, t: nat)
    requires Inv(s, t)
    ensures UserWait(s) <= 3
  {
  }

  lemma UserWaitDrops(s: Sched, t: nat)
    requires Inv(s, t) && USER in ActiveLanes(s.tasks)
    ensures var (s', ran) := RunOnce(s);
            && ran.Some? && ran.value < |s.tasks| && |s'.credits| == LANES && s'.tasks == s.tasks
            && (s.tasks[ran.value].lane == USER || UserWait(s') < UserWait(s))
  {
    hide RunOnce, Level;
    var lane := RunPays(s, t);
  }

  lemma UserWaitElsewhere(s: Sched, t: nat, op: Op)
    requires Inv(s, t) && !op.Run? && USER in ActiveLanes(s.tasks)
    ensures var s' := Step(s, op).0;
            |s'.credits| == LANES && UserWait(s') <= UserWait(s) && USER in ActiveLanes(s'.tasks)
  {
    if op.Add? && AddLane(s, op.hasEntry, op.lane).1 {
      AddedLanes(s.tasks, Task(op.lane, true));
    }
  }

  lemma InPrefix(xs: seq<nat>, m: nat, n: nat, x: nat)
    requires m <= n <= |xs| && x in xs[..m]
    ensures x in xs[..n]
  {
  }

  lemma FirstOrLater(first: nat, rest: seq<nat>, n: nat, x: nat)
    requires n <= |rest| && (first == x || x in rest[..n])
    ensures x in ([first] + rest)[..n + 1]
  {
    assert ([first] + rest)[..n + 1] == [first] + rest[..n];
  }

  lemma {:induction false} UserRunsWithinWait(s: Sched, t: nat, ops: seq<Op>)
    requires Inv(s, t) && USER in ActiveLanes(s.tasks) && Runs(ops) > UserWait(s)
    ensures |Trace(s, ops)| > UserWait(s) && USER in Trace(s, ops)[..UserWait(s) + 1]
    decreases |ops|
  {
    hide RunOnce, ActiveLanes, Level, UserWait;
    LaneMeansTask(s, USER);
    StepValid(s, ops[0]);
    var s' := Step(s, ops[0]).0;
    var t' := StepKeepsLevel(s, ops[0], t);
    if ops[0].Run? {
      UserWaitDrops(s, t);
      TraceLength(s', t', ops[1..]);
      var lane := s.tasks[RunOnce(s).1.value].lane;
      var rest := Trace(s', ops[1..]);
      assert Trace(s, ops) == [lane] + rest;
      if lane != USER {
        UserRunsWithinWait(s', t', ops[1..]);
        InPrefix(rest, UserWait(s') + 1, UserWait(s), USER);
      }
      FirstOrLater(lane, rest, UserWait(s), USER);
    } else {
      UserWaitElsewhere(s, t, ops[0]);
      UserRunsWithinWait(s', t', ops[1..]);
      LaneMeansTask(s', USER);
      TraceLength(s', t', ops[1..]);
      InPrefix(Trace(s', ops[1..]), UserWait(s') + 1, UserWait(s) + 1, USER);
      assert Trace(s, ops) == Trace(s', ops[1..]);
    }
  }

  // With a task to run, every scheduler call runs one.
  lemma {:induction false} TraceLength(s: Sched, t: nat, ops: seq<Op>)
    requires Inv(s, t) && s.tasks != []
    ensures |Trace(s, ops)| == Runs(ops)
    decreases |ops|
  {
    if ops != [] {
      StepValid(s, ops[0]);
      var t' := StepKeepsLevel(s, ops[0], t);
      if ops[0].Run? {
        var lane := RunPays(s, t);
      }
      TraceLength(Step(s, ops[0]).0, t', ops[1..]);
    }
  }

  // From every reachable state with a user task, one of the next four
  // scheduler calls runs a user task, in both modes and whatever is added or
  // toggled in between.
  lemma UserRunsWithinFour(past: seq<Op>, future: seq<Op>)
    requires USER in ActiveLanes(Final(Initial(), past).tasks) && Runs(future) >= 4
    ensures var s := Final(Initial(), past);
            |Trace(s, future)| >= 4 && USER in Trace(s, future)[..4]
  {
    var s := Final(Initial(), past);
    var t := FinalKeepsLevel(Initial(), past, 0);
    UserWaitAtMostThree(s, t);
    UserRunsWithinWait(s, t, future);
    LaneMeansTask(s, USER);
    TraceLength(s, t, future);
    InPrefix(Trace(s, future), UserWait(s) + 1, 4, USER);
  }

  // Two user tasks, an AI task, a system task and another AI task.
  const CROWD: seq<Task> := [Task(USER, true), Task(USER, true), Task(AI, true), Task(SYSTEM, true), Task(AI, true)]

  function Crowd(next: nat, credits: seq<nat>): Sched
  {
    Sched(CROWD, next, credits, false, {SYSTEM, USER, AI})
  }

  lemma SpendableRuns(s: Sched, i: nat)
    requires Valid(s) && i < |s.tasks| && Spendable(s, i) != 0
    ensures Runnable(s)
  {
  }

  // In each of these states the task at the cursor has the highest credit.
  lemma CrowdRuns(next: nat, credits: seq<nat>)
    requires next < 5 && |credits| == LANES && credits[CROWD[next].lane] > 0
    requires forall l :: 0 <= l < LANES ==> credits[l] <= credits[CROWD[next].lane]
    ensures var lane := CROWD[next].lane;
            RunOnce(Crowd(next, credits)) ==
            (Crowd((next + 1) % 5, credits[lane := credits[lane] - 1]), Some(next))
  {
    hide RunOnce, ActiveLanes, Runnable;
    var s := Crowd(next, credits);
    AttemptIs(s, 0);
    assert Spendable(s, next) != 0;
    SpendableRuns(s, next);
    FirstBestRuns(s, 0);
    QuotientIs(next + 1, 5, if next == 4 then 1 else 0, if next == 4 then 0 else next + 1);
  }

  lemma CrowdLanes()
    ensures ActiveLanes(CROWD) == {SYSTEM, USER, AI}
  {
    assert CROWD[0].lane in ActiveLanes(CROWD) && CROWD[2].lane in ActiveLanes(CROWD)
           && CROWD[3].lane in ActiveLanes(CROWD);
  }

  lemma CrowdStarts()
    ensures RunOnce(Sched(CROWD, 0, [0, 0, 0], false, {})) == RunOnce(Crowd(0, [1, 3, 2]))
  {
    hide ActiveLanes, Scan;
    var s := Sched(CROWD, 0, [0, 0, 0], false, {});
    CrowdLanes();
    assert Spendable(Crowd(0, [1, 3, 2]), 0) != 0;
    assert Ready(s) == Ready(Crowd(0, [1, 3, 2]));
  }

  lemma CrowdTrace(next: nat, credits: seq<nat>, n: nat)
    requires next < 5 && |credits| == LANES && credits[CROWD[next].lane] > 0
    requires forall l :: 0 <= l < LANES ==> credits[l] <= credits[CROWD[next].lane]
    ensures var lane := CROWD[next].lane;
            var s' := Crowd((next + 1) % 5, credits[lane := credits[lane] - 1]);
            && Valid(Crowd(next, credits)) && Valid(s')
            && Trace(Crowd(next, credits), seq(n + 1, i => Run)) == [lane] + Trace(s', seq(n, i => Run))
  {
    CrowdRuns(next, credits);
    TraceRun(Crowd(next, credits), n);
  }

  lemma CrowdReachable()
    ensures Final(Initial(), [Add(true, USER), Add(true, USER), Add(true, AI), Add(true, SYSTEM), Add(true, AI)])
            == Sched(CROWD, 0, [0, 0, 0], false, {})
  {
    var adds := [Add(true, USER), Add(true, USER), Add(true, AI), Add(true, SYSTEM), Add(true, AI)];
    assert adds == [adds[0]] + adds[1..] && adds[1..] == [adds[1]] + adds[2..];
    assert adds[2..] == [adds[2]] + adds[3..] && adds[3..] == [adds[3]] + adds[4..] && adds[4..] == [adds[4]] + [];
    assert [] + [CROWD[0]] == CROWD[..1] && CROWD[..1] + [CROWD[1]] == CROWD[..2];
    assert CROWD[..2] + [CROWD[2]] == CROWD[..3] && CROWD[..3] + [CROWD[3]] == CROWD[..4];
    assert CROWD[..4] + [CROWD[4]] == CROWD;
    AddFirst(Initial(), USER, adds[1..]);
    AddFirst(Initial().(tasks := CROWD[..1]), USER, adds[2..]);
    AddFirst(Initial().(tasks := CROWD[..2]), AI, adds[3..]);
    AddFirst(Initial().(tasks := CROWD[..3]), SYSTEM, adds[4..]);
    AddFirst(Initial().(tasks := CROWD[..4]), AI, []);
  }

  lemma AddFirst(s: Sched, lane: nat, ops: seq<Op>)
    requires Valid(s) && lane < LANES && |s.tasks| < MAX_TASKS
    ensures Final(s, [Add(true, lane)] + ops) == Final(s.(tasks := s.tasks + [Task(lane, true)]), ops)
  {
  }

  lemma CrowdCredits()
    ensures [1, 3, 2][1 := 2] == [1, 2, 2] && [1, 2, 2][1 := 1] == [1, 1, 2] && [1, 1, 2][2 := 1] == [1, 1, 1]
    ensures [1, 1, 1][0 := 0] == [0, 1, 1] && [0, 1, 1][2 := 0] == [0, 1, 0]
  {
  }

  lemma CrowdLastThree()
    ensures Trace(Crowd(2, [1, 1, 2]), seq(3, i => Run)) == [AI, SYSTEM, AI]
  {
    hide RunOnce, Trace, LaneWeight;
    CrowdCredits();
    CrowdTrace(2, [1, 1, 2], 2);
    CrowdTrace(3, [1, 1, 1], 1);
    CrowdTrace(4, [0, 1, 1], 0);
    NoTrace(Crowd(0, [0, 1, 0]));
  }

  lemma CrowdTail()
    ensures Trace(Crowd(1, [1, 2, 2]), seq(4, i => Run)) == [USER, AI, SYSTEM, AI]
  {
    hide RunOnce, Trace, LaneWeight;
    CrowdCredits();
    CrowdTrace(1, [1, 2, 2], 3);
    CrowdLastThree();
  }

  // Four is the least such number: after two calls, the next three pass the
  // user lane by although it still has credit.
  lemma ThreeCallsAreNotEnough()
    ensures var adds := [Add(true, USER), Add(true, USER), Add(true, AI), Add(true, SYSTEM), Add(true, AI)];
            Trace(Final(Initial(), adds), seq(5, i => Run)) == [USER, USER, AI, SYSTEM, AI]
  {
    hide RunOnce, Trace, Final, ActiveLanes, LaneWeight;
    CrowdReachable();
    CrowdStarts();
    CrowdRuns(0, [1, 3, 2]);
    TraceRun(Sched(CROWD, 0, [0, 0, 0], false, {}), 4);
    CrowdCredits();
    CrowdTail();
  }

  lemma NoTrace(s: Sched)
    requires Valid(s)
    ensures Trace(s, seq(0, i => Run)) == []
  {
  }

  lemma TraceRun(s: Sched, n: nat)
    requires Valid(s) && RunOnce(s).1.Some?
    ensures Valid(RunOnce(s).0) && RunOnce(s).1.value < |s.tasks|
    ensures Trace(s, seq(n + 1, i => Run)) == [s.tasks[RunOnce(s).1.value].lane] + Trace(RunOnce(s).0, seq(n, i => Run))
  {
    hide RunOnce;
    StepValid(s, Run);
    var ops := seq(n + 1, i => Run);
    assert ops[0] == Run && ops[1..] == seq(n, i => Run);
    TraceStep(s, ops);
  }

  lemma TraceStep(s: Sched, ops: seq<Op>)
    requires Valid(s) && ops != [] && ops[0].Run? && RunOnce(s).1.Some?
    ensures Valid(RunOnce(s).0) && RunOnce(s).1.value < |s.tasks|
    ensures Trace(s, ops) == [s.tasks[RunOnce(s).1.value].lane] + Trace(RunOnce(s).0, ops[1..])
  {
    hide RunOnce;
    StepValid(s, Run);
  }

  // ---- Proportional service ----

  function Count(trace: seq<nat>, lane: nat): nat
  {
    if trace == [] then 0 else (if trace[0] == lane then 1 else 0) + Count(trace[1..], lane)
  }

  predicate OnlyRuns(ops: seq<Op>)
  {
    forall i :: 0 <= i < |ops| ==> ops[i].Run?
  }

  predicate NoModeChange(ops: seq<Op>)
  {
    forall i :: 0 <= i < |ops| ==> !ops[i].SetMode?
  }

  function Credits(s: Sched): nat
    requires |s.credits| == LANES
  {
    s.credits[SYSTEM] + s.credits[USER] + s.credits[AI]
  }

  // Within a round credits are spent one for one, and nothing is replenished.
  lemma {:induction false} RoundSpends(s: Sched, t: nat, ops: seq<Op>, lane: nat)
    requires Inv(s, t) && s.tasks != [] && NoModeChange(ops) && Runs(ops) <= Credits(s) && lane < LANES
    ensures var s' := Final(s, ops);
            && |s'.credits| == LANES && Credits(s') == Credits(s) - Runs(ops)
            && s'.credits[lane] + Count(Trace(s, ops), lane) == s.credits[lane]
    decreases |ops|
  {
    hide RunOnce, Replenished, Level, ActiveLanes;
    if ops != [] {
      StepValid(s, ops[0]);
      var t' := StepKeepsLevel(s, ops[0], t);
      var (s', ran) := Step(s, ops[0]);
      assert !ops[0].SetMode?;
      if ops[0].Run? {
        var l := RunPays(s, t);
        assert Trace(s, ops) == [l] + Trace(s', ops[1..]);
      } else {
        assert Trace(s, ops) == Trace(s', ops[1..]);
      }
      RoundSpends(s', t', ops[1..], lane);
    }
  }

  function TotalWeight(performance: bool, lanes: set<nat>): nat
  {
    (if SYSTEM in lanes then LaneWeight(performance, SYSTEM) else 0)
    + (if USER in lanes then LaneWeight(performance, USER) else 0)
    + (if AI in lanes then LaneWeight(performance, AI) else 0)
  }

  // The call that replenishes grants every active lane its weight and spends one.
  lemma RoundStarts(s: Sched, t: nat, lane: nat) returns (l: nat, t': nat)
    requires Inv(s, t) && s.tasks != [] && Spent(s) && lane < LANES
    ensures var (s', ran) := RunOnce(s);
            && Inv(s', t') && s'.tasks == s.tasks
            && ran.Some? && ran.value < |s.tasks| && l == s.tasks[ran.value].lane
            && Credits(s') + 1 == TotalWeight(s.performance, ActiveLanes(s.tasks))
            && s'.credits[lane] + (if l == lane then 1 else 0) == Grant(s, lane)
  {
    l := RunPays(s, t);
    t' := RunKeepsLevel(s, t);
  }

  // A round: it starts with a call that replenishes and is over when all
  // credits are spent. Whatever tasks are added meanwhile, it is exactly the
  // sum of the active weights long, and each lane active at its start runs
  // exactly its weight, any other lane never.
  lemma RoundServesWeights(past: seq<Op>, ops: seq<Op>, lane: nat)
    requires Final(Initial(), past).tasks != [] && Spent(Final(Initial(), past)) && lane < LANES
    requires NoModeChange(ops)
    requires var s := Final(Initial(), past);
             Runs(ops) + 1 <= TotalWeight(s.performance, ActiveLanes(s.tasks))
    ensures var s := Final(Initial(), past);
            var s' := Final(s, [Run] + ops);
            && (Spent(s') <==> Runs(ops) + 1 == TotalWeight(s.performance, ActiveLanes(s.tasks)))
            && Count(Trace(s, [Run] + ops), lane) + s'.credits[lane] == Grant(s, lane)
  {
    hide RunOnce, ActiveLanes, Level;
    var s := Final(Initial(), past);
    var t := FinalKeepsLevel(Initial(), past, 0);
    var l, t' := RoundStarts(s, t, lane);
    var s' := RunOnce(s).0;
    assert ([Run] + ops)[0] == Run && ([Run] + ops)[1..] == ops;
    RoundSpends(s', t', ops, lane);
    var trace := Trace(s', ops);
    assert Trace(s, [Run] + ops) == [l] + trace;
    assert ([l] + trace)[1..] == trace;
  }

  // A round in numbers: performance mode gives the system lane two calls, the
  // user lane six and the AI lane one, balanced mode one, three and two; a lane
  // without tasks gets none and makes the round that much shorter.
  lemma RoundInNumbers(past: seq<Op>, ops: seq<Op>)
    requires Final(Initial(), past).tasks != [] && Spent(Final(Initial(), past)) && OnlyRuns(ops)
    requires var s := Final(Initial(), past);
             var lanes := ActiveLanes(s.tasks);
             |ops| == (if SYSTEM in lanes then (if s.performance then 2 else 1) else 0)
                      + (if USER in lanes then (if s.performance then 6 else 3) else 0)
                      + (if AI in lanes then (if s.performance then 1 else 2) else 0)
    ensures var s := Final(Initial(), past);
            var lanes := ActiveLanes(s.tasks);
            var trace := Trace(s, ops);
            && Count(trace, SYSTEM) == (if SYSTEM in lanes then (if s.performance then 2 else 1) else 0)
            && Count(trace, USER) == (if USER in lanes then (if s.performance then 6 else 3) else 0)
            && Count(trace, AI) == (if AI in lanes then (if s.performance then 1 else 2) else 0)
            && Spent(Final(s, ops))
  {
    hide Final, Trace, ActiveLanes, Count;
    var s := Final(Initial(), past);
    var t := FinalKeepsLevel(Initial(), past, 0);
    SomeLane(s, t);
    var rest := ops[1..];
    assert ops[0] == Run && ops == [Run] + rest;
    RunsOf(rest);
    RoundServesWeights(past, rest, SYSTEM);
    RoundServesWeights(past, rest, USER);
    RoundServesWeights(past, rest, AI);
  }

  lemma SomeLane(s: Sched, t: nat)
    requires Inv(s, t) && s.tasks != []
    ensures var lanes := ActiveLanes(s.tasks);
            SYSTEM in lanes || USER in lanes || AI in lanes
  {
    assert s.tasks[0].active && s.tasks[0].lane in ActiveLanes(s.tasks);
  }

  lemma {:induction false} RunsOf(ops: seq<Op>)
    requires OnlyRuns(ops)
    ensures Runs(ops) == |ops| && NoModeChange(ops)
  {
    if ops != [] {
      assert ops[0].Run?;
      RunsOf(ops[1..]);
    }
  }

  // ---- Bounded waiting for every lane ----

  function OthersCredit(s: Sched, lane: nat): nat
    requires |s.credits| == LANES && lane < LANES
  {
    Credits(s) - s.credits[lane]
  }

  function OthersWeight(s: Sched, lane: nat): nat
    requires lane < LANES
  {
    TotalWeight(s.performance, ActiveLanes(s.tasks) - {lane})
  }

  /** How many runs can go to other lanes before one goes to `lane`. */
  function LaneWait(s: Sched, lane: nat): nat
    requires |s.credits| == LANES && lane < LANES
  {
    OthersCredit(s, lane) + if s.credits[lane] == 0 then OthersWeight(s, lane) else 0
  }

  lemma LaneWaitBound(s: Sched, t: nat, lane: nat)
    requires Inv(s, t) && lane < LANES
    ensures LaneWait(s, lane) <= 2 * OthersWeight(s, lane)
  {
    assert SYSTEM in s.granted ==> AtLevel(s, SYSTEM, t);
    assert USER in s.granted ==> AtLevel(s, USER, t);
    assert AI in s.granted ==> AtLevel(s, AI, t);
  }

  lemma LaneWaitDrops(s: Sched, t: nat, lane: nat)
    requires Inv(s, t) && lane < LANES && lane in ActiveLanes(s.tasks)
    ensures var (s', ran) := RunOnce(s);
            && ran.Some? && ran.value < |s.tasks| && |s'.credits| == LANES && s'.tasks == s.tasks
            && (s.tasks[ran.value].lane == lane || LaneWait(s', lane) < LaneWait(s, lane))
  {
    hide RunOnce, Level;
    var l := RunPays(s, t);
  }

  lemma {:induction false} LaneRunsWithinWait(s: Sched, t: nat, lane: nat, ops: seq<Op>)
    requires Inv(s, t) && lane < LANES && lane in ActiveLanes(s.tasks)
    requires OnlyRuns(ops) && |ops| > LaneWait(s, lane)
    ensures lane in Trace(s, ops)
    decreases |ops|
  {
    assert ops[0].Run?;
    LaneWaitDrops(s, t, lane);
    StepValid(s, Run);
    var (s', ran) := RunOnce(s);
    assert Trace(s, ops) == [s.tasks[ran.value].lane] + Trace(s', ops[1..]);
    if s.tasks[ran.value].lane != lane {
      var t' := StepKeepsLevel(s, Run, t);
      LaneRunsWithinWait(s', t', lane, ops[1..]);
    }
  }

  // With mode and tasks fixed, every active lane of weight w runs within
  // 2 (W - w) + 1 calls, W being the sum of the active weights.
  lemma EveryLaneRuns(past: seq<Op>, lane: nat, ops: seq<Op>)
    requires lane < LANES && OnlyRuns(ops)
    requires var s := Final(Initial(), past);
             && lane in ActiveLanes(s.tasks)
             && |ops| >= 2 * (TotalWeight(s.performance, ActiveLanes(s.tasks)) - LaneWeight(s.performance, lane)) + 1
    ensures lane in Trace(Final(Initial(), past), ops)
  {
    var s := Final(Initial(), past);
    var t := FinalKeepsLevel(Initial(), past, 0);
    LaneWaitBound(s, t, lane);
    LaneRunsWithinWait(s, t, lane, ops);
  }
}
