// The tasks the kernel starts: in balanced mode all of them run, in
// performance mode the desktop never does.
module KernelTasks {
  import opened Wrappers
  import opened Scheduler
  import opened SchedulerRuns
  import opened SchedulerTasks
  import opened SchedulerRoom

  // ---- A task right behind another of a lane of weight one ----

  /** Every mode change sets the same mode. */
  predicate StaysIn(performance: bool, ops: seq<Op>)
  {
    forall j :: 0 <= j < |ops| && ops[j].SetMode? ==> ops[j].enabled == performance
  }

  // Task `i` follows one of its own lane, of weight one, and task `e` is of another lane.
  predicate Shadowed(performance: bool, tasks: seq<Task>, i: nat, e: nat)
  {
    && 1 <= i < |tasks| && e < |tasks| && tasks[i - 1].lane == tasks[i].lane < LANES
    && LaneWeight(performance, tasks[i].lane) == 1
    && tasks[e].lane < LANES && tasks[e].lane != tasks[i].lane
  }

  predicate Starved(s: Sched, i: nat, e: nat)
  {
    && Valid(s) && Shadowed(s.performance, s.tasks, i, e)
    && (s.next == i ==> s.credits[s.tasks[i].lane] == 0)
  }

  lemma StarvedRun(s: Sched, t: nat, i: nat, e: nat)
    requires Inv(s, t) && Starved(s, i, e)
    ensures RunOnce(s).1.Some? && RunOnce(s).1 != Some(i)
    ensures Starved(RunOnce(s).0, i, e) && RunOnce(s).0.performance == s.performance
  {
    hide RunOnce, ActiveLanes, Level, Turn, Spent;
    var y := RunPicks(s, t);
    WeightOneCredit(s, t, s.tasks[i].lane);
    OtherTasksGranted(s, e);
    if y == i && s.next != i {
      ShadowIsEarlier(s, i);
    }
  }

  lemma ShadowIsEarlier(s: Sched, i: nat)
    requires Valid(s) && 1 <= i < |s.tasks| && s.next != i
    ensures Turn(s, i - 1) < Turn(s, i)
  {
  }

  lemma WeightOneCredit(s: Sched, t: nat, lane: nat)
    requires Inv(s, t) && lane < LANES && LaneWeight(s.performance, lane) == 1
    ensures |Dealt(s).credits| == LANES && Dealt(s).credits[lane] <= 1
  {
    assert lane in s.granted ==> AtLevel(s, lane, t);
  }

  lemma OtherTasksGranted(s: Sched, e: nat)
    requires Valid(s) && e < |s.tasks| && s.tasks[e].active
    ensures Replenished(s).credits[s.tasks[e].lane] == LaneWeight(s.performance, s.tasks[e].lane)
  {
    TaskLane(s, e);
  }

  lemma StarvedElsewhere(s: Sched, op: Op, i: nat, e: nat)
    requires Starved(s, i, e) && !op.Run? && (op.SetMode? ==> op.enabled == s.performance)
    ensures Starved(Step(s, op).0, i, e) && Step(s, op).0.performance == s.performance
  {
  }

  lemma {:induction false} StarvedNeverRuns(s: Sched, t: nat, i: nat, e: nat, ops: seq<Op>)
    requires Inv(s, t) && Starved(s, i, e) && StaysIn(s.performance, ops)
    ensures i !in TasksRun(s, ops)
    decreases |ops|
  {
    hide RunOnce, ActiveLanes, Level;
    if ops != [] {
      if ops[0].Run? {
        StarvedRun(s, t, i, e);
      } else {
        StarvedElsewhere(s, ops[0], i, e);
      }
      var t' := StepKeepsLevel(s, ops[0], t);
      StarvedNeverRuns(Step(s, ops[0]).0, t', i, e, ops[1..]);
    }
  }

  lemma {:induction false} FinalThen(s: Sched, past: seq<Op>, op: Op)
    requires Valid(s)
    ensures Valid(Step(Final(s, past), op).0) && Final(s, past + [op]) == Step(Final(s, past), op).0
    decreases |past|
  {
    StepValid(Final(s, past), op);
    if past == [] {
      assert past + [op] == [op];
      assert Final(Step(s, op).0, []) == Step(s, op).0;
    } else {
      StepValid(s, past[0]);
      assert (past + [op])[0] == past[0] && (past + [op])[1..] == past[1..] + [op];
      FinalThen(Step(s, past[0]).0, past[1..], op);
    }
  }

  // Set a mode in which a lane has weight one: from then on, whatever is added
  // and whoever runs, its task right behind another of its own never runs again
  // before the mode is changed.
  lemma ShadowedNeverRuns(past: seq<Op>, performance: bool, i: nat, e: nat, ops: seq<Op>)
    requires Shadowed(performance, Final(Initial(), past).tasks, i, e) && StaysIn(performance, ops)
    ensures i !in TasksRun(Final(Initial(), past + [SetMode(performance)]), ops)
  {
    hide TasksRun, Level;
    var t := FinalKeepsLevel(Initial(), past, 0);
    FinalThen(Initial(), past, SetMode(performance));
    var t' := StepKeepsLevel(Final(Initial(), past), SetMode(performance), t);
    StarvedNeverRuns(Final(Initial(), past + [SetMode(performance)]), t', i, e, ops);
  }

  // ---- The tasks the kernel starts ----

  // heartbeat, input, ai, desktop and audio
  const KERNEL: seq<nat> := [SYSTEM, USER, AI, AI, USER]
  const DESKTOP := 3

  lemma KernelStarts()
    ensures Final(Initial(), Adds(KERNEL)).tasks == Crew(KERNEL)
  {
    hide Final, Adds;
    Added(KERNEL);
  }

  // Performance mode stops the desktop: it never runs again until the mode is reset.
  lemma PerformanceModeStopsDesktop(past: seq<Op>, ops: seq<Op>)
    requires Final(Initial(), past).tasks == Crew(KERNEL) && StaysIn(true, ops)
    ensures DESKTOP !in TasksRun(Final(Initial(), past + [SetMode(true)]), ops)
  {
    hide Final, TasksRun;
    ShadowedNeverRuns(past, true, DESKTOP, 0, ops);
  }

  function Kernel(next: nat, system: nat, user: nat, ai: nat): Sched
  {
    Sched(Crew(KERNEL), next, [system, user, ai], false, {SYSTEM, USER, AI})
  }

  /** Task `y` has the most credit, and every task at an earlier turn has less. */
  predicate IsNext(s: Sched, y: nat)
    requires Valid(s)
  {
    && y < |s.tasks| && Spendable(s, y) > 0
    && forall x :: 0 <= x < |s.tasks| ==>
         if Turn(s, x) < Turn(s, y) then Spendable(s, x) < Spendable(s, y) else Spendable(s, x) <= Spendable(s, y)
  }

  lemma NextRuns(s: Sched, y: nat)
    requires Valid(s) && IsNext(s, y)
    ensures var lane := s.tasks[y].lane;
            RunOnce(s) == (s.(credits := s.credits[lane := s.credits[lane] - 1],
                              next := if y + 1 == |s.tasks| then 0 else y + 1), Some(y))
  {
    hide Turn;
    TurnReaches(s, y);
    assert Runnable(s);
    forall j | 0 <= j < |s.tasks| && j != Turn(s, y)
      ensures if j < Turn(s, y) then Spendable(s, Attempt(s, j)) < Spendable(s, y)
              else Spendable(s, Attempt(s, j)) <= Spendable(s, y) {
      TurnIsUnique(s, j);
    }
    FirstBestRuns(s, Turn(s, y));
    CursorAfter(s);
  }

  // One call of the kernel's list, in balanced mode.
  lemma KernelRuns(next: nat, system: nat, user: nat, ai: nat, y: nat, i: nat, ops: seq<Op>)
    requires next < 5 && OnlyRuns(ops) && ops != [] && IsNext(Kernel(next, system, user, ai), y)
    requires y != i ==>
               i in TasksRun(Kernel(if y == 4 then 0 else y + 1,
                                    if KERNEL[y] == SYSTEM then system - 1 else system,
                                    if KERNEL[y] == USER then user - 1 else user,
                                    if KERNEL[y] == AI then ai - 1 else ai), ops[1..])
    ensures i in TasksRun(Kernel(next, system, user, ai), ops)
  {
    hide TasksRun, RunOnce;
    var s := Kernel(next, system, user, ai);
    NextRuns(s, y);
    var lane := KERNEL[y];
    assert s.credits[lane := s.credits[lane] - 1]
           == [if lane == SYSTEM then system - 1 else system, if lane == USER then user - 1 else user,
               if lane == AI then ai - 1 else ai];
    NowOrLater(s, ops, i);
  }

  // A round that starts at tasks 2 to 4 runs both AI tasks.
  lemma LateRound(next: nat, i: nat, ops: seq<Op>)
    requires 2 <= next <= 4 && 2 <= i <= 3 && OnlyRuns(ops) && |ops| >= 4
    ensures i in TasksRun(Kernel(next, 1, 3, 2), ops)
  {
    hide TasksRun;
    if i == 3 {
      KernelRuns(3, 1, 1, 1, 3, i, ops[3..]);
    }
    KernelRuns(2, 1, 1, 2, 2, i, ops[2..]);
    KernelRuns(0, 1, 2, 2, 1, i, ops[1..]);
    KernelRuns(next, 1, 3, 2, 4, i, ops);
  }

  // The call that opens a round decides with full credits.
  lemma KernelReplenishes(s: Sched, t: nat, ops: seq<Op>)
    requires Inv(s, t) && s.tasks == Crew(KERNEL) && !s.performance && Spent(s) && OnlyRuns(ops) && ops != []
    ensures TasksRun(s, ops) == TasksRun(Kernel(s.next, 1, 3, 2), ops)
  {
    hide TasksRun, Level;
    RunsReplenished(s, t, ops);
    KernelLanes();
  }

  lemma KernelLanes()
    ensures ActiveLanes(Crew(KERNEL)) == {SYSTEM, USER, AI}
    ensures LaneTasks(Crew(KERNEL), SYSTEM) == {0} && LaneTasks(Crew(KERNEL), USER) == {1, 4}
  {
    var tasks := Crew(KERNEL);
    assert tasks[0].lane == SYSTEM && tasks[1].lane == USER && tasks[2].lane == AI;
    assert tasks[0].lane in ActiveLanes(tasks) && tasks[1].lane in ActiveLanes(tasks)
           && tasks[2].lane in ActiveLanes(tasks);
  }

  lemma KernelSpent(next: nat)
    requires next < 5
    ensures Inv(Kernel(next, 0, 0, 0), 0)
  {
    hide ActiveLanes;
    KernelLanes();
  }

  // A round that starts at task 0 or 1 runs the first AI task twice, and the
  // next one starts at task 3.
  lemma EarlyRound(next: nat, i: nat, ops: seq<Op>)
    requires next <= 1 && 2 <= i <= 3 && OnlyRuns(ops) && |ops| >= 10
    ensures i in TasksRun(Kernel(next, 1, 3, 2), ops)
  {
    hide TasksRun;
    if i == 3 {
      var later := ops[6..];
      LateRound(3, i, later);
      KernelSpent(3);
      KernelReplenishes(Kernel(3, 0, 0, 0), 0, later);
      EarlyRoundEnds(next, i, ops);
    } else {
      KernelRuns(2, 1, 2, 2, 2, i, ops[1..]);
    }
    KernelRuns(next, 1, 3, 2, 1, i, ops);
  }

  lemma EarlyRoundEnds(next: nat, i: nat, ops: seq<Op>)
    requires i == 3 && OnlyRuns(ops) && |ops| >= 10 && i in TasksRun(Kernel(3, 0, 0, 0), ops[6..])
    ensures i in TasksRun(Kernel(2, 1, 2, 2), ops[1..])
  {
    hide TasksRun;
    KernelRuns(2, 0, 0, 1, 2, i, ops[5..]);
    KernelRuns(1, 0, 1, 1, 1, i, ops[4..]);
    KernelRuns(0, 1, 1, 1, 0, i, ops[3..]);
    KernelRuns(3, 1, 2, 1, 4, i, ops[2..]);
    KernelRuns(2, 1, 2, 2, 2, i, ops[1..]);
  }

  lemma {:induction false} AiTaskRuns(s: Sched, t: nat, i: nat, ops: seq<Op>)
    requires Inv(s, t) && s.tasks == Crew(KERNEL) && !s.performance && 2 <= i <= 3
    requires OnlyRuns(ops) && |ops| >= Credits(s) + 10
    ensures i in TasksRun(s, ops)
    decreases |ops|
  {
    hide TasksRun, RunOnce, Level, ActiveLanes;
    if Spent(s) {
      KernelReplenishes(s, t, ops);
      if s.next <= 1 {
        EarlyRound(s.next, i, ops);
      } else {
        LateRound(s.next, i, ops);
      }
    } else {
      var y := RunPicks(s, t);
      var t' := RunKeepsLevel(s, t);
      AiTaskRuns(RunOnce(s).0, t', i, ops[1..]);
      NowOrLater(s, ops, i);
    }
  }

  // In balanced mode every task of the kernel's list runs within 16 calls,
  // although the AI lane has one task more than there is room for in every order.
  lemma BalancedKernelServes(past: seq<Op>, i: nat, ops: seq<Op>)
    requires Final(Initial(), past).tasks == Crew(KERNEL) && !Final(Initial(), past).performance
    requires i < |KERNEL| && OnlyRuns(ops) && |ops| >= 16
    ensures i in TasksRun(Final(Initial(), past), ops)
  {
    hide TasksRun, Final, Level, ActiveLanes, LaneTasks;
    var s := Final(Initial(), past);
    KernelLanes();
    if i == 2 || i == 3 {
      var t := FinalKeepsLevel(Initial(), past, 0);
      CreditsAtMostGranted(s, t);
      AiTaskRuns(s, t, i, ops);
    } else {
      EveryTaskRuns(past, i, ops);
    }
  }

  lemma {:induction false} SomeTaskRan(s: Sched, t: nat, lane: nat, ops: seq<Op>) returns (y: nat)
    requires Inv(s, t) && OnlyRuns(ops) && lane in Trace(s, ops)
    ensures y < |s.tasks| && s.tasks[y].lane == lane && y in TasksRun(s, ops)
    decreases |ops|
  {
    hide TasksRun, RunOnce, Level, ActiveLanes;
    assert ops[0].Run?;
    if s.tasks == [] {
      NoLanes(s.tasks);
      EmptyRuns(s, ops);
    } else {
      y := RunPicks(s, t);
      if s.tasks[y].lane != lane {
        assert Trace(s, ops) == [s.tasks[y].lane] + Trace(RunOnce(s).0, ops[1..]);
        var t' := RunKeepsLevel(s, t);
        y := SomeTaskRan(RunOnce(s).0, t', lane, ops[1..]);
      }
      NowOrLater(s, ops, y);
    }
  }

  lemma {:induction false} EmptyRuns(s: Sched, ops: seq<Op>)
    requires Valid(s) && OnlyRuns(ops) && s.tasks == []
    ensures Trace(s, ops) == []
    decreases |ops|
  {
    NoLanes(s.tasks);
    if ops != [] {
      assert ops[0].Run?;
      EmptyRuns(s, ops[1..]);
    }
  }

  // In performance mode every task but the desktop runs within 18 calls, and the desktop never.
  lemma PerformanceKernelServes(past: seq<Op>, i: nat, ops: seq<Op>)
    requires Final(Initial(), past).tasks == Crew(KERNEL) && i < |KERNEL| && OnlyRuns(ops) && |ops| >= 18
    ensures i in TasksRun(Final(Initial(), past + [SetMode(true)]), ops) <==> i != DESKTOP
  {
    hide TasksRun, Final, Level, ActiveLanes, LaneTasks, RunOnce;
    FinalThen(Initial(), past, SetMode(true));
    PerformanceModeStopsDesktop(past, ops);
    KernelLanes();
    var now := past + [SetMode(true)];
    var s := Final(Initial(), now);
    if i == 2 {
      EveryLaneRuns(now, AI, ops);
      var t := FinalKeepsLevel(Initial(), now, 0);
      var y := SomeTaskRan(s, t, AI, ops);
      assert y == 2;
    } else if i != DESKTOP {
      EveryTaskRuns(now, i, ops);
    }
  }

  // ---- The kernel's rounds, call by call ----

  function Calls(n: nat): (ops: seq<Op>)
    ensures |ops| == n && OnlyRuns(ops)
  {
    seq(n, i => Run)
  }

  function State(performance: bool, next: nat, system: nat, user: nat, ai: nat): Sched
  {
    Sched(Crew(KERNEL), next, [system, user, ai], performance, {SYSTEM, USER, AI})
  }

  /** From this state the calls run exactly these tasks and end in `end`. */
  predicate Schedule(s: Sched, picks: seq<nat>, end: Sched)
  {
    Valid(s) && TasksRun(s, Calls(|picks|)) == picks && Final(s, Calls(|picks|)) == end
  }

  lemma CallRuns(performance: bool, next: nat, system: nat, user: nat, ai: nat, y: nat, rest: seq<nat>, end: Sched)
    requires next < 5 && IsNext(State(performance, next, system, user, ai), y)
    requires Schedule(State(performance, if y == 4 then 0 else y + 1,
                            if KERNEL[y] == SYSTEM then system - 1 else system,
                            if KERNEL[y] == USER then user - 1 else user,
                            if KERNEL[y] == AI then ai - 1 else ai), rest, end)
    ensures Schedule(State(performance, next, system, user, ai), [y] + rest, end)
  {
    hide TasksRun, Final, RunOnce;
    var s := State(performance, next, system, user, ai);
    NextRuns(s, y);
    var lane := KERNEL[y];
    assert s.credits[lane := s.credits[lane] - 1]
           == [if lane == SYSTEM then system - 1 else system, if lane == USER then user - 1 else user,
               if lane == AI then ai - 1 else ai];
    FirstCall(s, y, |rest|);
  }

  lemma FirstCall(s: Sched, y: nat, n: nat)
    requires Valid(s) && Valid(RunOnce(s).0) && RunOnce(s).1 == Some(y)
    ensures TasksRun(s, Calls(n + 1)) == [y] + TasksRun(RunOnce(s).0, Calls(n))
    ensures Final(s, Calls(n + 1)) == Final(RunOnce(s).0, Calls(n))
  {
    hide RunOnce;
    assert Calls(n + 1)[0] == Run && Calls(n + 1)[1..] == Calls(n);
  }

  lemma NoCalls(s: Sched)
    requires Valid(s)
    ensures Schedule(s, [], s)
  {
  }

  lemma FastEarlyEnd()
    ensures Schedule(State(true, 2, 1, 1, 1), [2, 4, 0], State(true, 1, 0, 0, 0))
  {
    hide Schedule;
    NoCalls(State(true, 1, 0, 0, 0));
    CallRuns(true, 0, 1, 0, 0, 0, [], State(true, 1, 0, 0, 0));
    assert [0] + [] == [0];
    CallRuns(true, 3, 1, 1, 0, 4, [0], State(true, 1, 0, 0, 0));
    assert [4] + [0] == [4, 0];
    CallRuns(true, 2, 1, 1, 1, 2, [4, 0], State(true, 1, 0, 0, 0));
    assert [2] + [4, 0] == [2, 4, 0];
  }

  lemma FastEarlyMiddle()
    ensures Schedule(State(true, 2, 2, 3, 1), [4, 0, 1, 2, 4, 0], State(true, 1, 0, 0, 0))
  {
    hide Schedule;
    FastEarlyEnd();
    CallRuns(true, 1, 1, 2, 1, 1, [2, 4, 0], State(true, 1, 0, 0, 0));
    assert [1] + [2, 4, 0] == [1, 2, 4, 0];
    CallRuns(true, 0, 2, 2, 1, 0, [1, 2, 4, 0], State(true, 1, 0, 0, 0));
    assert [0] + [1, 2, 4, 0] == [0, 1, 2, 4, 0];
    CallRuns(true, 2, 2, 3, 1, 4, [0, 1, 2, 4, 0], State(true, 1, 0, 0, 0));
    assert [4] + [0, 1, 2, 4, 0] == [4, 0, 1, 2, 4, 0];
  }

  lemma FastEarly(next: nat)
    requires next <= 1
    ensures Schedule(State(true, next, 2, 6, 1), [1, 4, 1, 4, 0, 1, 2, 4, 0], State(true, 1, 0, 0, 0))
  {
    hide Schedule;
    FastEarlyMiddle();
    CallRuns(true, 0, 2, 4, 1, 1, [4, 0, 1, 2, 4, 0], State(true, 1, 0, 0, 0));
    assert [1] + [4, 0, 1, 2, 4, 0] == [1, 4, 0, 1, 2, 4, 0];
    CallRuns(true, 2, 2, 5, 1, 4, [1, 4, 0, 1, 2, 4, 0], State(true, 1, 0, 0, 0));
    assert [4] + [1, 4, 0, 1, 2, 4, 0] == [4, 1, 4, 0, 1, 2, 4, 0];
    CallRuns(true, next, 2, 6, 1, 1, [4, 1, 4, 0, 1, 2, 4, 0], State(true, 1, 0, 0, 0));
    assert [1] + [4, 1, 4, 0, 1, 2, 4, 0] == [1, 4, 1, 4, 0, 1, 2, 4, 0];
  }

  lemma FastLateEnd()
    ensures Schedule(State(true, 1, 1, 1, 1), [1, 2, 0], State(true, 1, 0, 0, 0))
  {
    hide Schedule;
    NoCalls(State(true, 1, 0, 0, 0));
    CallRuns(true, 3, 1, 0, 0, 0, [], State(true, 1, 0, 0, 0));
    assert [0] + [] == [0];
    CallRuns(true, 2, 1, 0, 1, 2, [0], State(true, 1, 0, 0, 0));
    assert [2] + [0] == [2, 0];
    CallRuns(true, 1, 1, 1, 1, 1, [2, 0], State(true, 1, 0, 0, 0));
    assert [1] + [2, 0] == [1, 2, 0];
  }

  lemma FastLateMiddle()
    ensures Schedule(State(true, 0, 2, 3, 1), [1, 4, 0, 1, 2, 0], State(true, 1, 0, 0, 0))
  {
    hide Schedule;
    FastLateEnd();
    CallRuns(true, 0, 2, 1, 1, 0, [1, 2, 0], State(true, 1, 0, 0, 0));
    assert [0] + [1, 2, 0] == [0, 1, 2, 0];
    CallRuns(true, 2, 2, 2, 1, 4, [0, 1, 2, 0], State(true, 1, 0, 0, 0));
    assert [4] + [0, 1, 2, 0] == [4, 0, 1, 2, 0];
    CallRuns(true, 0, 2, 3, 1, 1, [4, 0, 1, 2, 0], State(true, 1, 0, 0, 0));
    assert [1] + [4, 0, 1, 2, 0] == [1, 4, 0, 1, 2, 0];
  }

  lemma FastLate(next: nat)
    requires 2 <= next <= 4
    ensures Schedule(State(true, next, 2, 6, 1), [4, 1, 4, 1, 4, 0, 1, 2, 0], State(true, 1, 0, 0, 0))
  {
    hide Schedule;
    FastLateMiddle();
    CallRuns(true, 2, 2, 4, 1, 4, [1, 4, 0, 1, 2, 0], State(true, 1, 0, 0, 0));
    assert [4] + [1, 4, 0, 1, 2, 0] == [4, 1, 4, 0, 1, 2, 0];
    CallRuns(true, 0, 2, 5, 1, 1, [4, 1, 4, 0, 1, 2, 0], State(true, 1, 0, 0, 0));
    assert [1] + [4, 1, 4, 0, 1, 2, 0] == [1, 4, 1, 4, 0, 1, 2, 0];
    CallRuns(true, next, 2, 6, 1, 4, [1, 4, 1, 4, 0, 1, 2, 0], State(true, 1, 0, 0, 0));
    assert [4] + [1, 4, 1, 4, 0, 1, 2, 0] == [4, 1, 4, 1, 4, 0, 1, 2, 0];
  }

  lemma BalancedEarlyEnd()
    ensures Schedule(State(false, 0, 1, 1, 1), [0, 1, 2], State(false, 3, 0, 0, 0))
  {
    hide Schedule;
    NoCalls(State(false, 3, 0, 0, 0));
    CallRuns(false, 2, 0, 0, 1, 2, [], State(false, 3, 0, 0, 0));
    assert [2] + [] == [2];
    CallRuns(false, 1, 0, 1, 1, 1, [2], State(false, 3, 0, 0, 0));
    assert [1] + [2] == [1, 2];
    CallRuns(false, 0, 1, 1, 1, 0, [1, 2], State(false, 3, 0, 0, 0));
    assert [0] + [1, 2] == [0, 1, 2];
  }

  lemma BalancedEarly(next: nat)
    requires next <= 1
    ensures Schedule(State(false, next, 1, 3, 2), [1, 2, 4, 0, 1, 2], State(false, 3, 0, 0, 0))
  {
    hide Schedule;
    BalancedEarlyEnd();
    CallRuns(false, 3, 1, 2, 1, 4, [0, 1, 2], State(false, 3, 0, 0, 0));
    assert [4] + [0, 1, 2] == [4, 0, 1, 2];
    CallRuns(false, 2, 1, 2, 2, 2, [4, 0, 1, 2], State(false, 3, 0, 0, 0));
    assert [2] + [4, 0, 1, 2] == [2, 4, 0, 1, 2];
    CallRuns(false, next, 1, 3, 2, 1, [2, 4, 0, 1, 2], State(false, 3, 0, 0, 0));
    assert [1] + [2, 4, 0, 1, 2] == [1, 2, 4, 0, 1, 2];
  }

  lemma BalancedLateEnd()
    ensures Schedule(State(false, 3, 1, 1, 1), [3, 4, 0], State(false, 1, 0, 0, 0))
  {
    hide Schedule;
    NoCalls(State(false, 1, 0, 0, 0));
    CallRuns(false, 0, 1, 0, 0, 0, [], State(false, 1, 0, 0, 0));
    assert [0] + [] == [0];
    CallRuns(false, 4, 1, 1, 0, 4, [0], State(false, 1, 0, 0, 0));
    assert [4] + [0] == [4, 0];
    CallRuns(false, 3, 1, 1, 1, 3, [4, 0], State(false, 1, 0, 0, 0));
    assert [3] + [4, 0] == [3, 4, 0];
  }

  lemma BalancedLate(next: nat)
    requires 2 <= next <= 4
    ensures Schedule(State(false, next, 1, 3, 2), [4, 1, 2, 3, 4, 0], State(false, 1, 0, 0, 0))
  {
    hide Schedule;
    BalancedLateEnd();
    CallRuns(false, 2, 1, 1, 2, 2, [3, 4, 0], State(false, 1, 0, 0, 0));
    assert [2] + [3, 4, 0] == [2, 3, 4, 0];
    CallRuns(false, 0, 1, 2, 2, 1, [2, 3, 4, 0], State(false, 1, 0, 0, 0));
    assert [1] + [2, 3, 4, 0] == [1, 2, 3, 4, 0];
    CallRuns(false, next, 1, 3, 2, 4, [1, 2, 3, 4, 0], State(false, 1, 0, 0, 0));
    assert [4] + [1, 2, 3, 4, 0] == [4, 1, 2, 3, 4, 0];
  }

  // From any reachable state with all credits spent, the kernel's tasks run in
  // exactly this order until they are spent again: nine calls in performance
  // mode, six in balanced mode.
  lemma KernelRound(past: seq<Op>)
    requires Final(Initial(), past).tasks == Crew(KERNEL) && Spent(Final(Initial(), past))
    ensures var s := Final(Initial(), past);
            if s.performance then
              && TasksRun(s, Calls(9)) ==
                 (if s.next <= 1 then [1, 4, 1, 4, 0, 1, 2, 4, 0] else [4, 1, 4, 1, 4, 0, 1, 2, 0])
              && Final(s, Calls(9)) == State(true, 1, 0, 0, 0)
            else
              && TasksRun(s, Calls(6)) == (if s.next <= 1 then [1, 2, 4, 0, 1, 2] else [4, 1, 2, 3, 4, 0])
              && Final(s, Calls(6)) == State(false, if s.next <= 1 then 3 else 1, 0, 0, 0)
  {
    hide TasksRun, Final, Level, ActiveLanes;
    var s := Final(Initial(), past);
    var t := FinalKeepsLevel(Initial(), past, 0);
    KernelLanes();
    RunsReplenished(s, t, Calls(if s.performance then 9 else 6));
    if s.performance {
      assert Replenished(s) == State(true, s.next, 2, 6, 1);
      if s.next <= 1 {
        FastEarly(s.next);
      } else {
        FastLate(s.next);
      }
    } else {
      assert Replenished(s) == State(false, s.next, 1, 3, 2);
      if s.next <= 1 {
        BalancedEarly(s.next);
      } else {
        BalancedLate(s.next);
      }
    }
  }

  // So from the moment performance mode is set on the list as it was started.
  lemma FirstPerformanceRound()
    ensures TasksRun(Final(Initial(), Adds(KERNEL) + [SetMode(true)]), Calls(9)) == [1, 4, 1, 4, 0, 1, 2, 4, 0]
  {
    hide TasksRun, Final;
    Launched(true, KERNEL);
    KernelRound(Launch(true, KERNEL));
  }
}
