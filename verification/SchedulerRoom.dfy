// How many tasks of a lane can run beside other lanes: with one more, some
// task waits forever.
module SchedulerRoom {
  import opened Wrappers
  import opened Scheduler
  import opened SchedulerRuns
  import opened SchedulerTasks

  function Crew(lanes: seq<nat>): (tasks: seq<Task>)
    ensures |tasks| == |lanes| && forall x :: 0 <= x < |lanes| ==> tasks[x] == Task(lanes[x], true)
  {
    seq(|lanes|, x requires 0 <= x < |lanes| => Task(lanes[x], true))
  }

  function Adds(lanes: seq<nat>): seq<Op>
  {
    if lanes == [] then [] else [Add(true, lanes[0])] + Adds(lanes[1..])
  }

  lemma {:induction false} AddsReach(s: Sched, lanes: seq<nat>, ops: seq<Op>)
    requires Valid(s) && |s.tasks| + |lanes| <= MAX_TASKS && forall x :: 0 <= x < |lanes| ==> lanes[x] < LANES
    requires Valid(s.(tasks := s.tasks + Crew(lanes)))
    ensures Final(s, Adds(lanes) + ops) == Final(s.(tasks := s.tasks + Crew(lanes)), ops)
    decreases |lanes|
  {
    hide Final, Valid, Crew;
    if lanes == [] {
      assert Adds(lanes) + ops == ops && s.tasks + Crew(lanes) == s.tasks;
    } else {
      var s' := s.(tasks := s.tasks + [Task(lanes[0], true)]);
      AddFirst(s, lanes[0], Adds(lanes[1..]) + ops);
      AddsJoin(s.tasks, lanes, ops);
      AddOneValid(s, lanes[0]);
      AddsReach(s', lanes[1..], ops);
    }
  }

  lemma AddsJoin(tasks: seq<Task>, lanes: seq<nat>, ops: seq<Op>)
    requires lanes != []
    ensures Adds(lanes) + ops == [Add(true, lanes[0])] + (Adds(lanes[1..]) + ops)
    ensures tasks + [Task(lanes[0], true)] + Crew(lanes[1..]) == tasks + Crew(lanes)
  {
    CrewHead(lanes);
    assert [Add(true, lanes[0])] + Adds(lanes[1..]) + ops == [Add(true, lanes[0])] + (Adds(lanes[1..]) + ops);
    assert tasks + [Task(lanes[0], true)] + Crew(lanes[1..]) == tasks + ([Task(lanes[0], true)] + Crew(lanes[1..]));
  }

  lemma CrewHead(lanes: seq<nat>)
    requires lanes != []
    ensures Crew(lanes) == [Task(lanes[0], true)] + Crew(lanes[1..])
  {
  }

  lemma AddOneValid(s: Sched, lane: nat)
    requires Valid(s) && |s.tasks| < MAX_TASKS && lane < LANES
    ensures Valid(s.(tasks := s.tasks + [Task(lane, true)]))
  {
  }

  /** Some lanes, lightest first. */
  function Lightest(performance: bool, lanes: set<nat>): seq<nat>
  {
    var first := if performance then AI else SYSTEM;
    var second := if performance then SYSTEM else AI;
    (if first in lanes then [first] else []) + (if second in lanes then [second] else [])
    + if USER in lanes then [USER] else []
  }

  /** One task for each other lane, lightest first, then `k` tasks of `lane`. */
  function Lineup(performance: bool, lanes: set<nat>, lane: nat, k: nat): seq<nat>
  {
    Lightest(performance, lanes - {lane}) + seq(k, x => lane)
  }

  predicate Shared(lanes: set<nat>, lane: nat)
  {
    lane in lanes && lanes <= {SYSTEM, USER, AI} && lanes != {lane}
  }

  // A list such as these: the others, lightest first, then more tasks of
  // `lane` than `room`, which is what the heaviest other lane leaves.
  predicate Placed(s: Sched, rest: seq<nat>, lane: nat, room: nat)
  {
    && Valid(s) && 1 <= |rest| <= 2 && lane < LANES
    && (forall x :: 0 <= x < |rest| ==> rest[x] < LANES && rest[x] != lane)
    && (|rest| == 2 ==> LaneWeight(s.performance, rest[0]) < LaneWeight(s.performance, rest[1]))
    && room >= 1 && LaneWeight(s.performance, lane) + 1 <= LaneWeight(s.performance, rest[|rest| - 1]) + room
    && |s.tasks| > |rest| + room
    && forall x :: 0 <= x < |s.tasks| ==> s.tasks[x] == Task(if x < |rest| then rest[x] else lane, true)
  }

  // In its reachable states the cursor stays behind the tasks that have no
  // room, because the heaviest other lane overtakes in time.
  predicate Lags(s: Sched, rest: seq<nat>, lane: nat, room: nat)
    requires Placed(s, rest, lane, room)
  {
    && s.next <= |rest| + room
    && var own := s.credits[lane];
       var heaviest := s.credits[rest[|rest| - 1]];
       && s.credits[rest[0]] <= heaviest
       && (s.next == 0 ==> Spent(s))
       && (0 < s.next < |rest| ==> s.credits[rest[0]] < heaviest && own < heaviest)
       && (s.next <= |rest| ==> own <= heaviest)
       && (s.next > |rest| ==> own + (s.next - |rest|) + 1 <= heaviest + room && heaviest >= 1)
  }

  predicate Behind(s: Sched, rest: seq<nat>, lane: nat, room: nat)
  {
    Placed(s, rest, lane, room) && Lags(s, rest, lane, room)
  }

  lemma PlacedFacts(s: Sched, rest: seq<nat>, lane: nat, room: nat)
    requires Placed(s, rest, lane, room)
    ensures 1 <= |rest| <= 2 && room >= 1 && |s.tasks| > |rest| + room && |s.credits| == LANES
    ensures lane < LANES && rest[0] < LANES && rest[|rest| - 1] < LANES
    ensures lane != rest[0] && lane != rest[|rest| - 1] && (|rest| == 2 ==> rest[0] != rest[1])
    ensures s.tasks[0].lane == rest[0] && s.tasks[|rest| - 1].lane == rest[|rest| - 1]
    ensures s.tasks[|rest|].lane == lane
    ensures s.next >= |rest| ==> s.next < |s.tasks| && s.tasks[s.next].lane == lane
    ensures LaneWeight(s.performance, lane) != LaneWeight(s.performance, rest[|rest| - 1])
    ensures LaneWeight(s.performance, rest[0]) <= LaneWeight(s.performance, rest[|rest| - 1])
    ensures |rest| == 2 ==> LaneWeight(s.performance, rest[0]) < LaneWeight(s.performance, rest[1])
    ensures LaneWeight(s.performance, lane) + 1 <= LaneWeight(s.performance, rest[|rest| - 1]) + room
  {
  }

  lemma PlacedKeeps(s: Sched, s': Sched, rest: seq<nat>, lane: nat, room: nat)
    requires Placed(s, rest, lane, room) && Valid(s') && s'.tasks == s.tasks && s'.performance == s.performance
    ensures Placed(s', rest, lane, room)
  {
  }

  // When a task of `lane` is picked, it is the one whose turn is first.
  lemma FirstOfLane(s: Sched, t: nat, rest: seq<nat>, lane: nat, room: nat, y: nat)
    requires Inv(s, t) && Behind(s, rest, lane, room) && RunOnce(s).1 == Some(y) && |rest| <= y < |s.tasks|
    ensures y == if s.next <= |rest| then |rest| else s.next
  {
    hide RunOnce, Level, ActiveLanes;
    var first := if s.next <= |rest| then |rest| else s.next;
    if Turn(s, first) < Turn(s, y) {
      PassedHasLess(s, t, y, first);
    }
  }

  // The credits in which the next call decides.
  lemma DealtBehind(s: Sched, rest: seq<nat>, lane: nat, room: nat)
    requires Behind(s, rest, lane, room)
    ensures |rest| >= 1 && Spent(s) ==>
              var r := Dealt(s);
              && |r.credits| == LANES && s.next <= |rest| && lane < LANES && rest[0] < LANES && rest[|rest| - 1] < LANES
              && r.credits[lane] == LaneWeight(s.performance, lane)
              && r.credits[rest[|rest| - 1]] == LaneWeight(s.performance, rest[|rest| - 1])
              && r.credits[rest[0]] == LaneWeight(s.performance, rest[0])
  {
    if Spent(s) {
      assert s.tasks[0].active && s.tasks[|rest| - 1].active && s.tasks[|rest|].active;
      assert s.tasks[0].lane in ActiveLanes(s.tasks) && s.tasks[|rest| - 1].lane in ActiveLanes(s.tasks)
             && s.tasks[|rest|].lane in ActiveLanes(s.tasks);
    }
  }

  lemma HeaviestGoesBack(s: Sched, t: nat, rest: seq<nat>, lane: nat, room: nat)
    requires Inv(s, t) && Behind(s, rest, lane, room) && RunOnce(s).1 == Some(|rest| - 1)
    ensures Behind(RunOnce(s).0, rest, lane, room)
  {
    hide RunOnce, Level, ActiveLanes, Placed, LaneWeight;
    PlacedFacts(s, rest, lane, room);
    var h := |rest|;
    var y := RunPicks(s, t);
    PlacedKeeps(s, RunOnce(s).0, rest, lane, room);
    DealtBehind(s, rest, lane, room);
    if s.next >= h {
      PassedHasLess(s, t, y, s.next);
    }
    if h == 2 && s.next != 1 {
      PassedHasLess(s, t, y, 0);
    }
  }

  lemma LighterGoesBack(s: Sched, t: nat, rest: seq<nat>, lane: nat, room: nat)
    requires Inv(s, t) && Behind(s, rest, lane, room) && RunOnce(s).1 == Some(0) && |rest| == 2
    ensures Behind(RunOnce(s).0, rest, lane, room)
  {
    hide RunOnce, Level, ActiveLanes, Placed, LaneWeight;
    PlacedFacts(s, rest, lane, room);
    var y := RunPicks(s, t);
    PlacedKeeps(s, RunOnce(s).0, rest, lane, room);
    DealtBehind(s, rest, lane, room);
    if s.next >= 2 {
      PassedHasLess(s, t, y, s.next);
    }
  }

  lemma OwnLaneAdvances(s: Sched, t: nat, rest: seq<nat>, lane: nat, room: nat, y: nat)
    requires Inv(s, t) && Behind(s, rest, lane, room) && RunOnce(s).1 == Some(y) && |rest| <= y < |s.tasks|
    ensures y < |rest| + room && Behind(RunOnce(s).0, rest, lane, room)
  {
    hide RunOnce, Level, ActiveLanes, Placed, LaneWeight, Turn;
    PlacedFacts(s, rest, lane, room);
    FirstOfLane(s, t, rest, lane, room, y);
    var y' := RunPicks(s, t);
    PlacedKeeps(s, RunOnce(s).0, rest, lane, room);
    DealtBehind(s, rest, lane, room);
  }

  lemma {:induction false} BehindNeverRuns(s: Sched, t: nat, rest: seq<nat>, lane: nat, room: nat, x: nat, ops: seq<Op>)
    requires Inv(s, t) && Behind(s, rest, lane, room) && x >= |rest| + room && OnlyRuns(ops)
    ensures x !in TasksRun(s, ops)
    decreases |ops|
  {
    hide RunOnce, Level, ActiveLanes, Behind;
    if ops != [] {
      assert ops[0].Run?;
      assert s.tasks != [] && 1 <= |rest| <= 2 by { BehindShape(s, rest, lane, room); }
      var y := RunPicks(s, t);
      if y >= |rest| {
        OwnLaneAdvances(s, t, rest, lane, room, y);
      } else if y == |rest| - 1 {
        HeaviestGoesBack(s, t, rest, lane, room);
      } else {
        LighterGoesBack(s, t, rest, lane, room);
      }
      var t' := RunKeepsLevel(s, t);
      BehindNeverRuns(RunOnce(s).0, t', rest, lane, room, x, ops[1..]);
    }
  }

  lemma BehindShape(s: Sched, rest: seq<nat>, lane: nat, room: nat)
    requires Behind(s, rest, lane, room)
    ensures s.tasks != [] && 1 <= |rest| <= 2
  {
  }

  /** The run that adds a task for each lane of `lanes` and sets the mode. */
  function Launch(performance: bool, lanes: seq<nat>): seq<Op>
  {
    Adds(lanes) + [SetMode(performance)]
  }

  lemma Launched(performance: bool, lanes: seq<nat>)
    requires |lanes| <= MAX_TASKS && forall x :: 0 <= x < |lanes| ==> lanes[x] < LANES
    ensures Final(Initial(), Launch(performance, lanes)) == Sched(Crew(lanes), 0, [0, 0, 0], performance, {})
  {
    AddsReach(Initial(), lanes, [SetMode(performance)]);
    var s := Initial().(tasks := Crew(lanes));
    assert Initial().tasks + Crew(lanes) == Crew(lanes);
    assert Final(s, [SetMode(performance)]) == Final(SetPerformanceMode(s, performance), []);
  }

  // With one task more than there is room for, a lane has tasks that never run.
  lemma TooManyStarve(performance: bool, lanes: set<nat>, lane: nat, k: nat, x: nat, ops: seq<Op>)
    requires Shared(lanes, lane) && Room(performance, lanes, lane) < k && OnlyRuns(ops)
    requires |Lightest(performance, lanes - {lane})| + k <= MAX_TASKS
    requires var h := |Lightest(performance, lanes - {lane})|;
             h + Room(performance, lanes, lane) <= x < h + k
    ensures var s := Final(Initial(), Launch(performance, Lineup(performance, lanes, lane, k)));
            x < |s.tasks| && s.tasks[x].lane == lane && x !in TasksRun(s, ops)
  {
    hide Final, TasksRun, Lightest, Lineup, Behind, Room, Heaviest;
    var line := Lineup(performance, lanes, lane, k);
    LineupLanes(performance, lanes, lane, k);
    Launched(performance, line);
    var s := Final(Initial(), Launch(performance, line));
    var t := FinalKeepsLevel(Initial(), Launch(performance, line), 0);
    LineupBehind(performance, lanes, lane, k);
    BehindNeverRuns(s, t, Lightest(performance, lanes - {lane}), lane, Room(performance, lanes, lane), x, ops);
  }

  // Each of the other lanes once, in the order of their weights.
  lemma LightestLanes(performance: bool, others: set<nat>, lane: nat)
    requires others != {} && others <= {SYSTEM, USER, AI} && lane < LANES && lane !in others
    ensures var rest := Lightest(performance, others);
            && 1 <= |rest| <= 2
            && rest[0] in others && rest[|rest| - 1] in others
            && (|rest| == 2 ==> LaneWeight(performance, rest[0]) < LaneWeight(performance, rest[1]))
            && LaneWeight(performance, rest[|rest| - 1]) == Heaviest(performance, others)
            && others == set l | l in rest
  {
    var rest := Lightest(performance, others);
    var first := if performance then AI else SYSTEM;
    var second := if performance then SYSTEM else AI;
    if first in others {
      assert rest == [first] + if second in others then [second] else if USER in others then [USER] else [];
    } else {
      assert rest == (if second in others then [second] else []) + if USER in others then [USER] else [];
    }
  }

  lemma LineupLanes(performance: bool, lanes: set<nat>, lane: nat, k: nat)
    requires Shared(lanes, lane)
    ensures var line := Lineup(performance, lanes, lane, k);
            var rest := Lightest(performance, lanes - {lane});
            && 1 <= |rest| <= 2 && |line| == |rest| + k && |rest| == |lanes - {lane}|
            && (forall x :: 0 <= x < |line| ==> line[x] == if x < |rest| then rest[x] else lane)
            && (forall x :: 0 <= x < |rest| ==> rest[x] < LANES && rest[x] != lane)
            && (|rest| == 2 ==> LaneWeight(performance, rest[0]) < LaneWeight(performance, rest[1]))
            && LaneWeight(performance, rest[|rest| - 1]) == Heaviest(performance, lanes - {lane})
            && lanes - {lane} == set l | l in rest
  {
    hide Lightest, Heaviest, LaneWeight;
    var others := lanes - {lane};
    assert others == {} ==> lanes == {lane};
    LightestLanes(performance, others, lane);
    var rest := Lightest(performance, others);
    forall x | 0 <= x < |rest| ensures rest[x] in others {
      assert x == 0 || x == |rest| - 1;
    }
    assert others == if |rest| == 1 then {rest[0]} else {rest[0], rest[1]};
  }

  lemma LineupBehind(performance: bool, lanes: set<nat>, lane: nat, k: nat)
    requires Shared(lanes, lane) && Room(performance, lanes, lane) < k
    requires |Lightest(performance, lanes - {lane})| + k <= MAX_TASKS
    ensures Behind(Sched(Crew(Lineup(performance, lanes, lane, k)), 0, [0, 0, 0], performance, {}),
                   Lightest(performance, lanes - {lane}), lane, Room(performance, lanes, lane))
  {
    hide Lightest, Lineup, Heaviest;
    LineupLanes(performance, lanes, lane, k);
  }

  function Span(from: nat, k: nat): (xs: set<nat>)
    ensures |xs| == k && forall x :: x in xs <==> from <= x < from + k
  {
    if k == 0 then {} else Span(from, k - 1) + {from + k - 1}
  }

  lemma LineupShape(performance: bool, lanes: set<nat>, lane: nat, k: nat)
    requires Shared(lanes, lane) && k >= 1
    ensures var tasks := Crew(Lineup(performance, lanes, lane, k));
            ActiveLanes(tasks) == lanes && |LaneTasks(tasks, lane)| == k
  {
    hide Lightest, Heaviest, LaneWeight, Lineup, ActiveLanes;
    var tasks := Crew(Lineup(performance, lanes, lane, k));
    var rest := Lightest(performance, lanes - {lane});
    LineupLanes(performance, lanes, lane, k);
    assert LaneTasks(tasks, lane) == Span(|rest|, k);
    LineupActive(tasks, lanes, rest, lane);
  }

  lemma LineupActive(tasks: seq<Task>, lanes: set<nat>, rest: seq<nat>, lane: nat)
    requires lane in lanes && lanes - {lane} == set l | l in rest
    requires |tasks| > |rest|
    requires forall x :: 0 <= x < |tasks| ==> tasks[x] == Task(if x < |rest| then rest[x] else lane, true)
    ensures ActiveLanes(tasks) == lanes
  {
    hide ActiveLanes;
    assert tasks[|rest|].lane == lane;
    forall l | l in lanes && l != lane ensures l in ActiveLanes(tasks) {
      assert l in lanes - {lane};
      var x :| 0 <= x < |rest| && rest[x] == l;
      assert tasks[x].active && tasks[x].lane == l;
    }
    forall l | l in ActiveLanes(tasks) ensures l in lanes {
      var x :| 0 <= x < |tasks| && tasks[x].active && tasks[x].lane == l;
      assert x < |rest| ==> rest[x] in lanes - {lane};
    }
  }

  /**
   * In every reachable state where exactly `lanes` are active and `lane` has
   * `k` tasks, each of them runs within the bound.
   */
  ghost predicate AllServed(performance: bool, lanes: set<nat>, lane: nat, k: nat)
  {
    forall past, i, ops :: Served(performance, lanes, lane, k, past, i, ops)
  }

  predicate Served(performance: bool, lanes: set<nat>, lane: nat, k: nat, past: seq<Op>, i: nat, ops: seq<Op>)
  {
    var s := Final(Initial(), past);
    && s.performance == performance && ActiveLanes(s.tasks) == lanes && |LaneTasks(s.tasks, lane)| == k
    && i < |s.tasks| && s.tasks[i].lane == lane && OnlyRuns(ops) && |ops| >= CallsBound(s, lane)
    ==> i in TasksRun(s, ops)
  }

  // A lane beside others serves all its tasks, in whatever order they were
  // added, if and only if it has no more of them than there is room for.
  lemma ServedIffRoomy(performance: bool, lanes: set<nat>, lane: nat, k: nat)
    requires Shared(lanes, lane) && 1 <= k <= MAX_TASKS - |lanes - {lane}|
    ensures AllServed(performance, lanes, lane, k) <==> k <= Room(performance, lanes, lane)
  {
    hide Final, TasksRun, LaneTasks, ActiveLanes, Room;
    if k <= Room(performance, lanes, lane) {
      forall past, i: nat, ops ensures Served(performance, lanes, lane, k, past, i, ops) {
        var s := Final(Initial(), past);
        if s.performance == performance && ActiveLanes(s.tasks) == lanes && |LaneTasks(s.tasks, lane)| == k
           && i < |s.tasks| && s.tasks[i].lane == lane && OnlyRuns(ops) && |ops| >= CallsBound(s, lane) {
          EveryTaskRuns(past, i, ops);
        }
      }
    } else {
      var line := Lineup(performance, lanes, lane, k);
      var past := Launch(performance, line);
      var s := Final(Initial(), past);
      var x := |Lightest(performance, lanes - {lane})| + Room(performance, lanes, lane);
      var ops := seq(CallsBound(s, lane), _ => Run);
      LineupLanes(performance, lanes, lane, k);
      LineupShape(performance, lanes, lane, k);
      Launched(performance, line);
      TooManyStarve(performance, lanes, lane, k, x, ops);
      assert !Served(performance, lanes, lane, k, past, x, ops);
    }
  }

  // The smallest case: beside one user task in balanced mode, the second of
  // two AI tasks never runs.
  lemma SecondAiTaskStarves(ops: seq<Op>)
    requires OnlyRuns(ops)
    ensures 2 !in TasksRun(Final(Initial(), Adds([USER, AI, AI])), ops)
  {
    hide TasksRun, Final;
    var lanes := [USER, AI, AI];
    assert {USER, AI} - {AI} == {USER} && Lightest(false, {USER}) == [USER];
    assert Lineup(false, {USER, AI}, AI, 2) == lanes;
    TooManyStarve(false, {USER, AI}, AI, 2, 2, ops);
    Launched(false, lanes);
    Added(lanes);
  }

  lemma Added(lanes: seq<nat>)
    requires |lanes| <= MAX_TASKS && forall x :: 0 <= x < |lanes| ==> lanes[x] < LANES
    ensures Final(Initial(), Adds(lanes)) == Sched(Crew(lanes), 0, [0, 0, 0], false, {})
  {
    AddsReach(Initial(), lanes, []);
    assert Adds(lanes) + [] == Adds(lanes) && Initial().tasks + Crew(lanes) == Crew(lanes);
  }
}
