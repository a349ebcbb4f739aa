/**
 Several tasks sharing the generator of lib_math. Every statement of Math_Rand and
 Math_RandSetSeed is a step of its own; a script picks the task and the statement at each step,
 so a theorem over all scripts is a theorem over all interleavings.

 Entering a critical section disables interrupts, so until it is left no other task runs.
 The flag `guarded` says whether the critical sections are there: without them draws repeat.
 */
module RandTasks {
  import opened Wrappers
  import opened LibMath

  datatype Call = Draw | Reseed(seed: nat)

  /** What one completed call did to the shared seed. */
  datatype Event = Drawn(value: nat) | Reseeded(seed: nat)

  /** How far a task is in its call. */
  datatype Task =
    | Outside
    | Entered(call: Call)
    | Loaded(seed: nat)
    | Computed(rand: nat)
    | Stored(event: Event)

  datatype Action = Enter(call: Call) | Load | Compute | Store | Leave

  datatype System = System(
    seedCur: nat,
    running: Option<nat>,       // the task that disabled interrupts
    tasks: map<nat, Task>,
    log: seq<Event>)            // completed calls, in the order they left

  function Start(seed: nat): System {
    System(seed, None, map[], [])
  }

  function TaskOf(s: System, t: nat): Task {
    if t in s.tasks then s.tasks[t] else Outside
  }

  /** One statement of task `t`; None when the task is not at that statement or may not run. */
  function Do(guarded: bool, s: System, t: nat, action: Action): Option<System> {
    if s.running != None && s.running != Some(t) then None else
    match (TaskOf(s, t), action)
    case (Outside, Enter(call)) =>
      Some(s.(running := if guarded then Some(t) else None, tasks := s.tasks[t := Entered(call)]))
    case (Entered(Draw), Load) =>
      Some(s.(tasks := s.tasks[t := Loaded(s.seedCur)]))
    case (Loaded(seed), Compute) =>
      Some(s.(tasks := s.tasks[t := Computed(RandSeed(seed))]))
    case (Computed(rand), Store) =>
      Some(s.(seedCur := rand, tasks := s.tasks[t := Stored(Drawn(rand))]))
    case (Entered(Reseed(seed)), Store) =>
      Some(s.(seedCur := seed, tasks := s.tasks[t := Stored(Reseeded(seed))]))
    case (Stored(event), Leave) =>
      Some(s.(running := None, tasks := s.tasks[t := Outside], log := s.log + [event]))
    case _ => None
  }

  function Run(guarded: bool, s: System, script: seq<(nat, Action)>): Option<System>
    decreases script
  {
    if script == [] then Some(s) else
    match Do(guarded, s, script[0].0, script[0].1)
    case Some(s') => Run(guarded, s', script[1..])
    case None => None
  }

  /** The seed after a log of calls made one after the other. */
  function SeedAfter(seed: nat, log: seq<Event>): nat {
    if log == [] then seed else
    match log[|log| - 1]
    case Drawn(value) => value
    case Reseeded(s) => s
  }

  /** The log is one that the calls could have produced with no concurrency at all. */
  ghost predicate Sequential(seed: nat, log: seq<Event>) {
    forall i | 0 <= i < |log| && log[i].Drawn? :: log[i].value == RandSeed(SeedAfter(seed, log[..i]))
  }

  ghost predicate Inv(seed: nat, s: System) {
    var now := SeedAfter(seed, s.log);
    && Sequential(seed, s.log)
    && (forall t: nat :: s.running != Some(t) ==> TaskOf(s, t) == Outside)
    && (s.running == None ==> s.seedCur == now)
    && (s.running.Some? ==>
          match TaskOf(s, s.running.value)
          case Outside => false
          case Entered(_) => s.seedCur == now
          case Loaded(x) => s.seedCur == now == x
          case Computed(rand) => s.seedCur == now && rand == RandSeed(now)
          case Stored(Drawn(value)) => s.seedCur == value == RandSeed(now)
          case Stored(Reseeded(x)) => s.seedCur == x)
  }

  lemma DoKeepsInv(seed: nat, s: System, t: nat, action: Action)
    requires Inv(seed, s) && Do(true, s, t, action).Some?
    ensures Inv(seed, Do(true, s, t, action).value)
  {
    var s' := Do(true, s, t, action).value;
    if action.Leave? {
      var event := s'.log[|s.log|];
      forall i | 0 <= i < |s'.log| && s'.log[i].Drawn?
        ensures s'.log[i].value == RandSeed(SeedAfter(seed, s'.log[..i]))
      {
        assert s'.log[..i] == s.log[..i];
        assert s.log[..|s.log|] == s.log;
      }
    }
    assert forall u: nat :: u != t ==> TaskOf(s', u) == TaskOf(s, u);
  }

  lemma {:induction false} RunKeepsInv(seed: nat, s: System, script: seq<(nat, Action)>)
    requires Inv(seed, s) && Run(true, s, script).Some?
    ensures Inv(seed, Run(true, s, script).value)
    decreases script
  {
    if script != [] {
      DoKeepsInv(seed, s, script[0].0, script[0].1);
      RunKeepsInv(seed, Do(true, s, script[0].0, script[0].1).value, script[1..]);
    }
  }

  // The calls of a script, read off without running it

  /** The call of the latest Enter of each task that leaves, in leaving order. */
  function Left(script: seq<(nat, Action)>, inside: map<nat, Call>): seq<Call>
    decreases script
  {
    if script == [] then [] else
    var (t, action) := script[0];
    match action
    case Enter(call) => Left(script[1..], inside[t := call])
    case Leave => (if t in inside then [inside[t]] else []) + Left(script[1..], inside)
    case _ => Left(script[1..], inside)
  }

  /** What a call does when it runs alone. */
  function Effect(seed: nat, call: Call): Event {
    match call
    case Draw => Drawn((1103515245 * seed + 12345) % 0x8000_0000)
    case Reseed(x) => Reseeded(x)
  }

  /** The log of calls made one after the other. */
  function Executed(seed: nat, calls: seq<Call>): seq<Event> {
    if calls == [] then [] else
    var log := Executed(seed, calls[..|calls| - 1]);
    log + [Effect(SeedAfter(seed, log), calls[|calls| - 1])]
  }

  /** The event is one of the call's kind, and reseeds with the call's own seed. */
  predicate IsOf(event: Event, call: Call) {
    match call
    case Draw => event.Drawn?
    case Reseed(x) => event == Reseeded(x)
  }

  predicate AreOf(log: seq<Event>, calls: seq<Call>) {
    |log| == |calls| && forall i | 0 <= i < |log| :: IsOf(log[i], calls[i])
  }

  /** The task is at work on the call. */
  predicate IsAtWorkOn(task: Task, call: Call) {
    match task
    case Outside => true
    case Entered(c) => c == call
    case Loaded(_) => call == Draw
    case Computed(_) => call == Draw
    case Stored(event) => IsOf(event, call)
  }

  /** Every task inside is at work on its latest call. */
  ghost predicate AtWorkOn(s: System, inside: map<nat, Call>) {
    forall t: nat | TaskOf(s, t) != Outside :: t in inside && IsAtWorkOn(TaskOf(s, t), inside[t])
  }

  lemma StepAtWork(guarded: bool, s: System, t: nat, action: Action, inside: map<nat, Call>)
    requires AtWorkOn(s, inside) && Do(guarded, s, t, action).Some?
    ensures var s' := Do(guarded, s, t, action).value;
            && AtWorkOn(s', if action.Enter? then inside[t := action.call] else inside)
            && (action != Leave ==> s'.log == s.log)
            && (action == Leave ==>
                  t in inside && exists event | IsOf(event, inside[t]) :: s'.log == s.log + [event])
  {
    hide RandSeed;
    var s' := Do(guarded, s, t, action).value;
    assert TaskOf(s, t) != Outside ==> t in inside && IsAtWorkOn(TaskOf(s, t), inside[t]);
    assert forall u: nat | u != t :: TaskOf(s', u) == TaskOf(s, u);
    if action == Leave {
      assert IsOf(TaskOf(s, t).event, inside[t]);
    }
  }

  lemma {:induction false} LogIsOfCalls(guarded: bool, s: System, script: seq<(nat, Action)>, inside: map<nat, Call>)
    requires AtWorkOn(s, inside) && Run(guarded, s, script).Some?
    ensures var log := Run(guarded, s, script).value.log;
            s.log <= log && AreOf(log[|s.log|..], Left(script, inside))
    decreases script
  {
    if script != [] {
      hide Do, AtWorkOn, IsOf;
      var (t, action) := script[0];
      var s' := Do(guarded, s, t, action).value;
      var log := Run(guarded, s, script).value.log;
      StepAtWork(guarded, s, t, action, inside);
      LogIsOfCalls(guarded, s', script[1..], if action.Enter? then inside[t := action.call] else inside);
      if action == Leave {
        assert log[|s.log|..] == [s'.log[|s.log|]] + log[|s'.log|..];
      }
    }
  }

  lemma SequentialPrefix(seed: nat, log: seq<Event>, calls: seq<Call>, n: nat)
    requires Sequential(seed, log) && AreOf(log, calls) && |log| == n + 1
    ensures Sequential(seed, log[..n]) && AreOf(log[..n], calls[..n])
    ensures log[n] == Effect(SeedAfter(seed, log[..n]), calls[n])
  {
    hide SeedAfter;
    RandSeedIsExact(SeedAfter(seed, log[..n]));
    hide RandSeed;
    assert forall i | 0 <= i < n :: log[..n][..i] == log[..i];
    assert IsOf(log[n], calls[n]);
  }

  lemma {:induction false} SequentialIsExecuted(seed: nat, log: seq<Event>, calls: seq<Call>)
    requires Sequential(seed, log) && AreOf(log, calls)
    ensures log == Executed(seed, calls)
  {
    if log != [] {
      hide Sequential, Effect, SeedAfter, IsOf;
      var n := |log| - 1;
      SequentialPrefix(seed, log, calls, n);
      SequentialIsExecuted(seed, log[..n], calls[..n]);
      assert log == log[..n] + [log[n]];
    }
  }

  /**
   In every interleaving the log is what the script's own calls do when they are made one after
   the other, in the order they leave; with no call running the seed is the one they leave behind.
   */
  lemma EveryInterleavingIsSequential(seed: nat, script: seq<(nat, Action)>)
    requires Run(true, Start(seed), script).Some?
    ensures var s := Run(true, Start(seed), script).value;
            && s.log == Executed(seed, Left(script, map[]))
            && (s.running == None ==> s.seedCur == SeedAfter(seed, s.log))
    ensures Sequential(seed, Run(true, Start(seed), script).value.log)
  {
    hide Run, Left, Executed, RandSeed;
    RunKeepsInv(seed, Start(seed), script);
    LogIsOfCalls(true, Start(seed), script, map[]);
    var log := Run(true, Start(seed), script).value.log;
    assert log[|Start(seed).log|..] == log;
    SequentialIsExecuted(seed, log, Left(script, map[]));
  }

  /** The statements of one call of task `t`. */
  function Statements(t: nat, call: Call): seq<(nat, Action)> {
    match call
    case Draw => [(t, Enter(call)), (t, Load), (t, Compute), (t, Store), (t, Leave)]
    case Reseed(_) => [(t, Enter(call)), (t, Store), (t, Leave)]
  }

  /** With no other call running, any task can make any call, and it has its effect. */
  lemma AloneCompletes(guarded: bool, s: System, t: nat, call: Call)
    requires s.running == None && TaskOf(s, t) == Outside
    ensures var event := Effect(s.seedCur, call);
            Run(guarded, s, Statements(t, call))
            == Some(System(SeedAfter(s.seedCur, [event]), None, s.tasks[t := Outside], s.log + [event]))
  {
    var seed, r := s.seedCur, RandSeed(s.seedCur);
    EffectIs(seed);
    StatementsDo(guarded, s, t, seed, r);
    hide RandSeed, Do, Run, Effect, Inside;
    match call
    case Draw =>
      Leaves(guarded, s, t, r, Drawn(r));
      MoveOn(guarded, s, t, seed, Computed(r), Store, r, Stored(Drawn(r)), [(t, Leave)]);
      MoveOn(guarded, s, t, seed, Loaded(seed), Compute, seed, Computed(r), [(t, Store), (t, Leave)]);
      MoveOn(guarded, s, t, seed, Entered(Draw), Load, seed, Loaded(seed), [(t, Compute), (t, Store), (t, Leave)]);
      Enters(guarded, s, t, Draw, [(t, Load), (t, Compute), (t, Store), (t, Leave)]);
    case Reseed(x) =>
      Leaves(guarded, s, t, x, Reseeded(x));
      MoveOn(guarded, s, t, seed, Entered(call), Store, x, Stored(Reseeded(x)), [(t, Leave)]);
      Enters(guarded, s, t, call, [(t, Store), (t, Leave)]);
  }

  lemma EffectIs(seed: nat)
    ensures Effect(seed, Draw) == Drawn(RandSeed(seed)) && forall x :: Effect(seed, Reseed(x)) == Reseeded(x)
  {
    RandSeedIsExact(seed);
    hide RandSeed;
  }

  /** What each statement does to the system with only task `t` inside. */
  lemma StatementsDo(guarded: bool, s: System, t: nat, seed: nat, r: nat)
    requires s.running == None && r == RandSeed(seed)
    ensures Does(guarded, s, t, seed, Entered(Draw), Load, seed, Loaded(seed))
    ensures Does(guarded, s, t, seed, Loaded(seed), Compute, seed, Computed(r))
    ensures Does(guarded, s, t, seed, Computed(r), Store, r, Stored(Drawn(r)))
    ensures forall x :: Does(guarded, s, t, seed, Entered(Reseed(x)), Store, x, Stored(Reseeded(x)))
  {
    hide RandSeed;
  }

  predicate Does(guarded: bool, s: System, t: nat, seed: nat, task: Task, action: Action, seed': nat, task': Task) {
    var at := Inside(guarded, s, t, seed, task);
    Do(guarded, at, t, action) == Some(at.(seedCur := seed', tasks := at.tasks[t := task']))
  }

  /** The system while task `t` is inside, with the seed it has reached. */
  function Inside(guarded: bool, s: System, t: nat, seed: nat, task: Task): System {
    s.(seedCur := seed, running := if guarded then Some(t) else None, tasks := s.tasks[t := task])
  }

  lemma MoveOn(guarded: bool, s: System, t: nat, seed: nat, task: Task, action: Action, seed': nat, task': Task,
               rest: seq<(nat, Action)>)
    requires Does(guarded, s, t, seed, task, action, seed', task')
    ensures Run(guarded, Inside(guarded, s, t, seed, task), [(t, action)] + rest)
         == Run(guarded, Inside(guarded, s, t, seed', task'), rest)
  {
    hide Do;
    assert ([(t, action)] + rest)[1..] == rest;
    assert s.tasks[t := task][t := task'] == s.tasks[t := task'];
  }

  lemma Enters(guarded: bool, s: System, t: nat, call: Call, rest: seq<(nat, Action)>)
    requires s.running == None && TaskOf(s, t) == Outside
    ensures Run(guarded, s, [(t, Enter(call))] + rest)
         == Run(guarded, Inside(guarded, s, t, s.seedCur, Entered(call)), rest)
  {
    assert ([(t, Enter(call))] + rest)[1..] == rest;
    assert Do(guarded, s, t, Enter(call)) == Some(Inside(guarded, s, t, s.seedCur, Entered(call)));
  }

  lemma Leaves(guarded: bool, s: System, t: nat, seed: nat, event: Event)
    ensures Run(guarded, Inside(guarded, s, t, seed, Stored(event)), [(t, Leave)])
         == Some(System(seed, None, s.tasks[t := Outside], s.log + [event]))
  {
    assert [(t, Leave)][1..] == [];
    assert s.tasks[t := Stored(event)][t := Outside] == s.tasks[t := Outside];
  }

  /** The tasks are never stuck: the call that is inside can go on, and with none any can begin. */
  lemma NeverStuck(seed: nat, script: seq<(nat, Action)>, t: nat, call: Call)
    requires Run(true, Start(seed), script).Some?
    ensures var s := Run(true, Start(seed), script).value;
            && (s.running == None ==> Do(true, s, t, Enter(call)).Some?)
            && (s.running == Some(t) ==> exists action :: Do(true, s, t, action).Some?)
  {
    hide Run;
    RunKeepsInv(seed, Start(seed), script);
    var s := Run(true, Start(seed), script).value;
    if s.running == Some(t) {
      var action := match TaskOf(s, t)
        case Entered(c) => if c.Draw? then Load else Store
        case Loaded(_) => Compute
        case Computed(_) => Store
        case _ => Leave;
      assert Do(true, s, t, action).Some?;
    }
  }

  ghost predicate OnlyDraws(log: seq<Event>) {
    forall i | 0 <= i < |log| :: log[i].Drawn?
  }

  lemma {:induction false} SequentialDraws(seed: nat, log: seq<Event>, i: nat)
    requires Sequential(seed, log) && OnlyDraws(log) && i < |log|
    ensures log[i] == Drawn(Nth(seed, i + 1))
  {
    if i > 0 {
      SequentialDraws(seed, log, i - 1);
      assert log[..i][i - 1] == log[i - 1];
    } else {
      assert log[..0] == [];
      assert Nth(seed, 1) == RandSeed(Nth(seed, 0));
    }
  }

  /**
   With no reseeding, the tasks together draw f(seed), f(f(seed)), ... in leaving order, so no
   value is handed out twice within 2^31 calls, whichever tasks make them.
   */
  lemma DrawsNeverRepeat(seed: nat, script: seq<(nat, Action)>)
    requires Run(true, Start(seed), script).Some?
    requires OnlyDraws(Run(true, Start(seed), script).value.log)
    ensures var log := Run(true, Start(seed), script).value.log;
            && (forall i | 0 <= i < |log| :: log[i] == Drawn(Nth(seed, i + 1)))
            && (forall i, j | 0 <= i < j < |log| && j - i < 0x8000_0000 :: log[i] != log[j])
  {
    hide RandSeed, Nth, Run;
    var log := Run(true, Start(seed), script).value.log;
    EveryInterleavingIsSequential(seed, script);
    forall i | 0 <= i < |log| ensures log[i] == Drawn(Nth(seed, i + 1)) {
      SequentialDraws(seed, log, i);
    }
    forall i, j | 0 <= i < j < |log| && j - i < 0x8000_0000 ensures log[i] != log[j] {
      if log[i] == log[j] {
        NoRepeat(seed, i + 1, j + 1);
      }
    }
  }

  // Without the critical sections: two tasks that both load before either stores.

  function Racing(seed: nat, first: Task, second: Task): System {
    System(seed, None, map[0 := first, 1 := second], [])
  }

  /** One step of the race, by whichever task differs afterwards. */
  lemma RaceStep(seed: nat, first: Task, second: Task, t: nat, action: Action,
                 seed': nat, first': Task, second': Task, rest: seq<(nat, Action)>)
    requires (t == 0 && second' == second) || (t == 1 && first' == first)
    requires var s := Racing(seed, first, second);
             Do(false, s, t, action)
             == Some(s.(seedCur := seed', tasks := s.tasks[t := if t == 0 then first' else second']))
    ensures Run(false, Racing(seed, first, second), [(t, action)] + rest)
         == Run(false, Racing(seed', first', second'), rest)
  {
    hide RandSeed;
    assert ([(t, action)] + rest)[1..] == rest;
    assert map[0 := first, 1 := second][t := if t == 0 then first' else second'] == map[0 := first', 1 := second'];
  }

  /** From both tasks having entered to both having stored the same number. */
  lemma RaceMiddle(seed: nat, r: nat, rest: seq<(nat, Action)>) returns (script: seq<(nat, Action)>)
    requires r == RandSeed(seed)
    ensures Run(false, Racing(seed, Entered(Draw), Entered(Draw)), script)
         == Run(false, Racing(r, Stored(Drawn(r)), Stored(Drawn(r))), rest)
  {
    script := [(1, Store)] + rest;
    RaceStep(r, Stored(Drawn(r)), Computed(r), 1, Store, r, Stored(Drawn(r)), Stored(Drawn(r)), rest);
    RaceStep(seed, Computed(r), Computed(r), 0, Store, r, Stored(Drawn(r)), Computed(r), script);
    script := [(0, Store)] + script;
    RaceStep(seed, Computed(r), Loaded(seed), 1, Compute, seed, Computed(r), Computed(r), script);
    script := [(1, Compute)] + script;
    RaceStep(seed, Loaded(seed), Loaded(seed), 0, Compute, seed, Computed(r), Loaded(seed), script);
    script := [(0, Compute)] + script;
    RaceStep(seed, Loaded(seed), Entered(Draw), 1, Load, seed, Loaded(seed), Loaded(seed), script);
    script := [(1, Load)] + script;
    RaceStep(seed, Entered(Draw), Entered(Draw), 0, Load, seed, Loaded(seed), Entered(Draw), script);
    script := [(0, Load)] + script;
  }

  lemma RaceEntry(seed: nat, rest: seq<(nat, Action)>)
    ensures Run(false, Start(seed), [(0, Enter(Draw)), (1, Enter(Draw))] + rest)
         == Run(false, Racing(seed, Entered(Draw), Entered(Draw)), rest)
  {
    var script := [(0, Enter(Draw)), (1, Enter(Draw))] + rest;
    assert script[1..] == [(1, Enter(Draw))] + rest && script[1..][1..] == rest;
    var s1 := Start(seed).(tasks := map[0 := Entered(Draw)]);
    assert Do(false, Start(seed), 0, Enter(Draw)) == Some(s1);
    assert Do(false, s1, 1, Enter(Draw)) == Some(Racing(seed, Entered(Draw), Entered(Draw)));
  }

  lemma RaceExit(r: nat)
    ensures var end := Run(false, Racing(r, Stored(Drawn(r)), Stored(Drawn(r))), [(0, Leave), (1, Leave)]);
            end.Some? && end.value.log == [Drawn(r), Drawn(r)]
  {
    var s := Racing(r, Stored(Drawn(r)), Stored(Drawn(r)));
    var s1 := Do(false, s, 0, Leave).value;
    assert s1.log == [Drawn(r)] && TaskOf(s1, 1) == Stored(Drawn(r));
    assert [(0, Leave), (1, Leave)][1..] == [(1, Leave)] && [(1, Leave)][1..] == [];
  }

  /** Without the critical sections two tasks can draw the same number, from every seed. */
  lemma UnguardedDrawsRepeat(seed: nat)
    ensures exists script :: Run(false, Start(seed), script).Some?
              && Run(false, Start(seed), script).value.log == [Drawn(RandSeed(seed)), Drawn(RandSeed(seed))]
  {
    hide *;
    var r := RandSeed(seed);
    RaceExit(r);
    var script := RaceMiddle(seed, r, [(0, Leave), (1, Leave)]);
    RaceEntry(seed, script);
  }
}
