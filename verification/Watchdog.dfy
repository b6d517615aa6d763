/** Alive supervision: per-task counters, the supervisor tick, and what the status says about a task's history. */
module Watchdog {
  import opened Histories
  import opened Numbers
  import opened Options

  const WORD32: nat := 0x1_0000_0000

  type uint32 = n: nat | n < WORD32
  type uint64 = n: nat | n < TWO_64

  datatype Status = Ok | Deactivated | Expired | Failed

  datatype AliveConfig = AliveConfig(maxMissed: uint32, hasAction: bool)

  datatype TaskState = TaskState(cfg: AliveConfig, status: Status, alive: uint64, lastSeen: uint64, missed: uint32)

  function Fresh(cfg: AliveConfig): TaskState {
    TaskState(cfg, Deactivated, 0, 0, 0)
  }

  function Checked(t: TaskState): TaskState {
    t.(alive := (t.alive + 1) % TWO_64, status := Ok, missed := 0)
  }

  /** How many silent ticks make a task fail: a tolerance of zero acts like a tolerance of one. */
  function Threshold(cfg: AliveConfig): (n: uint32)
    ensures n >= 1 && (cfg.maxMissed >= 1 ==> n == cfg.maxMissed)
  {
    if cfg.maxMissed == 0 then 1 else cfg.maxMissed
  }

  /** The counter is far from wrapping whenever the task has not failed. */
  predicate Sound(t: TaskState) {
    t.missed <= Threshold(t.cfg) && (t.status != Failed ==> t.missed < Threshold(t.cfg))
  }

  /** The next look calls the failure action. */
  predicate Fires(t: TaskState) {
    t.cfg.hasAction && t.status != Failed && t.alive == t.lastSeen && t.missed + 1 >= t.cfg.maxMissed
  }

  /** One look of the supervisor at a task. */
  function Ticked(t: TaskState): TaskState
    requires Sound(t)
  {
    if t.status == Failed then t
    else if t.alive != t.lastSeen then t.(lastSeen := t.alive, missed := 0, status := Ok)
    else t.(missed := t.missed + 1, status := if t.missed + 1 >= t.cfg.maxMissed then Failed else Expired)
  }

  // ---- The watchdog ----

  type Tasks = map<string, TaskState>

  predicate AllSound(tasks: Tasks) {
    forall n :: n in tasks ==> Sound(tasks[n])
  }

  datatype Command = Register(name: string, cfg: AliveConfig) | Checkpoint(name: string) | Supervise | Reset

  function Apply(tasks: Tasks, c: Command): Tasks
    requires AllSound(tasks)
  {
    match c
    case Register(name, cfg) => if name in tasks then tasks else tasks[name := Fresh(cfg)]
    case Checkpoint(name) => if name in tasks then tasks[name := Checked(tasks[name])] else tasks
    case Supervise => map n | n in tasks :: Ticked(tasks[n])
    case Reset => map[]
  }

  lemma ApplySound(tasks: Tasks, c: Command)
    requires AllSound(tasks)
    ensures AllSound(Apply(tasks, c))
  {
  }

  /** A supervisor pass with the tasks in todo still to look at. */
  function Partly(tasks: Tasks, todo: set<string>): Tasks
    requires AllSound(tasks)
  {
    map n | n in tasks :: if n in todo then tasks[n] else Ticked(tasks[n])
  }

  lemma PartlyNext(tasks: Tasks, todo: set<string>, name: string)
    requires AllSound(tasks) && name in todo && name in tasks
    ensures Partly(tasks, todo - {name}) == Partly(tasks, todo)[name := Ticked(tasks[name])]
    ensures Partly(tasks, todo)[name] == tasks[name] && AllSound(Partly(tasks, todo))
  {
    hide Ticked;
    ApplySound(tasks, Supervise);
    assert forall n :: n in tasks ==> Apply(tasks, Supervise)[n] == Ticked(tasks[n]);
  }

  lemma PartlyEnds(tasks: Tasks)
    requires AllSound(tasks)
    ensures Partly(tasks, tasks.Keys) == tasks
    ensures Partly(tasks, {}) == Apply(tasks, Supervise) && AllSound(Apply(tasks, Supervise))
  {
    hide Ticked;
    ApplySound(tasks, Supervise);
  }

  /** The tasks whose failure action the next supervisor pass calls. */
  function Firing(tasks: Tasks): (names: set<string>)
    ensures forall n :: n in names <==> n in tasks && Fires(tasks[n])
  {
    set n | n in tasks && Fires(tasks[n])
  }

  /** What a query answers: an unknown name reads as deactivated. */
  function StatusIn(tasks: Tasks, name: string): Status {
    if name in tasks then tasks[name].status else Deactivated
  }

  class AliveWatchdog {
    var tasks: Tasks

    ghost predicate Valid()
      reads this
    {
      AllSound(tasks)
    }

    constructor ()
      ensures Valid() && tasks == map[]
    {
      tasks := map[];
    }

    /** A name that is already registered keeps its state. */
    method RegisterTask(name: string, cfg: AliveConfig)
      requires Valid()
      modifies this
      ensures Valid() && tasks == Apply(old(tasks), Register(name, cfg))
    {
      if name !in tasks {
        tasks := tasks[name := TaskState(cfg, Deactivated, 0, 0, 0)];
      }
    }

    /** Revives a failed task, too. An unknown name is ignored. */
    method CheckIn(name: string)
      requires Valid()
      modifies this
      ensures Valid() && tasks == Apply(old(tasks), Checkpoint(name))
    {
      if name !in tasks {
        return;
      }
      var task := tasks[name];
      task := task.(alive := (task.alive + 1) % TWO_64);
      task := task.(status := Ok);
      task := task.(missed := 0);
      tasks := tasks[name := task];
    }

    function StatusOf(name: string): Status
      reads this
    {
      StatusIn(tasks, name)
    }

    method ResetAll()
      modifies this
      ensures Valid() && tasks == map[]
    {
      tasks := map[];
    }

    /** One pass of the supervisor over all tasks, and the names whose failure action it calls. */
    method SuperviseOnce() returns (fired: set<string>)
      requires Valid()
      modifies this
      ensures Valid() && tasks == Apply(old(tasks), Supervise)
      ensures fired == Firing(old(tasks))
    {
      fired := {};
      var todo := tasks.Keys;
      ghost var before := tasks;
      PartlyEnds(before);
      hide Ticked, Fires, Firing, AllSound, Partly, Apply;
      while todo != {}
        invariant todo <= before.Keys == tasks.Keys && AllSound(tasks)
        invariant tasks == Partly(before, todo)
        invariant fired == Firing(before) - todo
        decreases |todo|
      {
        var name :| name in todo;
        PartlyNext(before, todo, name);
        todo := todo - {name};
        var fires := SuperviseTask(name);
        if fires {
          fired := fired + {name};
        }
      }
    }

    /** The supervisor looks at one task; the answer tells whether it calls the failure action. */
    method SuperviseTask(name: string) returns (fires: bool)
      requires Valid() && name in tasks
      modifies this
      ensures Valid() && tasks == old(tasks)[name := Ticked(old(tasks)[name])]
      ensures fires == Fires(old(tasks)[name])
    {
      fires := false;
      var task := tasks[name];
      if task.status == Failed {
        return;
      }
      var current := task.alive;
      if current != task.lastSeen {
        task := task.(lastSeen := current, missed := 0, status := Ok);
      } else {
        task := task.(missed := task.missed + 1);
        if task.missed >= task.cfg.maxMissed {
          task := task.(status := Failed);
          fires := task.cfg.hasAction;
        } else {
          task := task.(status := Expired);
        }
      }
      tasks := tasks[name := task];
    }
  }

  // ---- The history of one task ----

  datatype Event = Alive | Tick

  /** The state of a task after what happened to it since its registration. */
  function TaskAfter(cfg: AliveConfig, history: seq<Event>): (t: TaskState)
    ensures Sound(t) && t.cfg == cfg
  {
    if history == [] then Fresh(cfg)
    else
      var t := TaskAfter(cfg, history[..|history| - 1]);
      match history[|history| - 1]
      case Alive => Checked(t)
      case Tick => Ticked(t)
  }

  /** A history up to its last checkpoint. */
  function WithoutTicks(history: seq<Event>): seq<Event> {
    if history == [] || history[|history| - 1] != Tick then history
    else WithoutTicks(history[..|history| - 1])
  }

  /** The number of checkpoints in the last uninterrupted row of checkpoints. */
  function LastBurst(history: seq<Event>): nat {
    Trailing(WithoutTicks(history), Alive)
  }

  /** So many checkpoints bring the 64-bit counter round to the same value. */
  predicate ComesRound(checkpoints: nat) {
    checkpoints % TWO_64 == 0
  }

  /** The tick after the last checkpoints notices them, unless the counter has come round. */
  predicate Noticed(history: seq<Event>) {
    !ComesRound(LastBurst(history))
  }

  /** The ticks since the last checkpoint, or since registration, without the one that noticed it. */
  function Silent(history: seq<Event>): nat {
    var ticks := Trailing(history, Tick);
    if ticks > 0 && Noticed(history) then ticks - 1 else ticks
  }

  function Checkpoints(history: seq<Event>): nat {
    if history == [] then 0
    else Checkpoints(history[..|history| - 1]) + if history[|history| - 1] == Alive then 1 else 0
  }

  lemma BurstNext(history: seq<Event>)
    ensures LastBurst(history + [Alive]) == Trailing(history, Alive) + 1
    ensures LastBurst(history + [Tick]) == LastBurst(history)
    ensures Trailing(history, Tick) == 0 ==> LastBurst(history) == Trailing(history, Alive)
  {
    TrailingNext(history, Alive, Alive);
    assert (history + [Tick])[..|history|] == history;
  }

  /** A tick adds one to the silence, except when it is the one that notices a checkpoint. */
  lemma SilentNext(history: seq<Event>)
    ensures Silent(history + [Alive]) == 0
    ensures Silent(history + [Tick])
         == if Trailing(history, Tick) == 0 && !ComesRound(Trailing(history, Alive)) then 0 else Silent(history) + 1
  {
    BurstNext(history);
    TrailingNext(history, Alive, Tick);
    TrailingNext(history, Tick, Tick);
    hide Trailing, LastBurst, ComesRound;
  }

  lemma SameCounter(count: nat, pending: nat)
    requires pending <= count
    ensures count % TWO_64 == (count - pending) % TWO_64 <==> ComesRound(pending)
    ensures (count % TWO_64 + 1) % TWO_64 == (count + 1) % TWO_64
  {
  }

  predicate StatusMatches(cfg: AliveConfig, history: seq<Event>, status: Status) {
    && (status == Deactivated <==> history == [])
    && (status == Ok <==> history != [] && Silent(history) == 0)
    && (status == Expired <==> 0 < Silent(history) < Threshold(cfg))
    && (status == Failed <==> Silent(history) >= Threshold(cfg))
  }

  lemma OnlyOneTrails(history: seq<Event>)
    ensures Trailing(history, Tick) == 0 || Trailing(history, Alive) == 0
    ensures history == [] <==> Trailing(history, Tick) == Trailing(history, Alive) == 0
  {
    if history != [] {
      var last := history[|history| - 1];
      assert last == Tick || last == Alive;
    }
  }

  /** The counters after a history: the supervisor is behind by the checkpoints since the last tick. */
  predicate CountersMatch(history: seq<Event>, t: TaskState) {
    && Trailing(history, Alive) <= Checkpoints(history)
    && t.alive == Checkpoints(history) % TWO_64
    && t.lastSeen == (Checkpoints(history) - Trailing(history, Alive)) % TWO_64
  }

  lemma CountersNext(history: seq<Event>, t: TaskState, x: Event)
    requires Sound(t) && CountersMatch(history, t)
    requires t.status == Failed ==> Trailing(history, Alive) == 0
    ensures CountersMatch(history + [x], if x == Alive then Checked(t) else Ticked(t))
    ensures t.alive == t.lastSeen <==> ComesRound(Trailing(history, Alive))
  {
    assert (history + [x])[..|history|] == history;
    TrailingNext(history, x, Alive);
    SameCounter(Checkpoints(history), Trailing(history, Alive));
    hide Trailing;
  }

  predicate Matches(cfg: AliveConfig, history: seq<Event>, t: TaskState) {
    && CountersMatch(history, t)
    && StatusMatches(cfg, history, t.status)
    && t.missed == Capped(Silent(history), Threshold(cfg))
  }

  lemma AliveMatches(cfg: AliveConfig, history: seq<Event>, t: TaskState)
    requires Sound(t) && t.cfg == cfg && Matches(cfg, history, t)
    ensures Matches(cfg, history + [Alive], Checked(t))
  {
    hide Trailing, Checkpoints, ComesRound, LastBurst;
    OnlyOneTrails(history);
    CountersNext(history, t, Alive);
    hide CountersMatch;
    SilentNext(history);
  }

  lemma TickMatches(cfg: AliveConfig, history: seq<Event>, t: TaskState)
    requires Sound(t) && t.cfg == cfg && Matches(cfg, history, t)
    ensures Matches(cfg, history + [Tick], Ticked(t))
    ensures Fires(t) <==> cfg.hasAction && Silent(history + [Tick]) == Threshold(cfg)
  {
    hide Trailing, Checkpoints, ComesRound, LastBurst;
    OnlyOneTrails(history);
    SilentWhenChecked(history);
    CountersNext(history, t, Tick);
    hide CountersMatch;
    SilentNext(history);
    hide Silent;
  }

  lemma SilentWhenChecked(history: seq<Event>)
    ensures Trailing(history, Tick) == 0 ==> Silent(history) == 0
    ensures Silent(history) > 0 ==> Trailing(history, Alive) == 0
  {
    OnlyOneTrails(history);
  }

  /** What the state of a task says about its history, for every history. */
  lemma {:induction false} StatusMeansHistory(cfg: AliveConfig, history: seq<Event>)
    ensures Matches(cfg, history, TaskAfter(cfg, history))
  {
    if history != [] {
      hide Matches, Checked, Ticked, Sound;
      var n := |history| - 1;
      var init, x := history[..n], history[n];
      assert history == init + [x];
      StatusMeansHistory(cfg, init);
      AliveMatches(cfg, init, TaskAfter(cfg, init));
      TickMatches(cfg, init, TaskAfter(cfg, init));
    }
  }

  // ---- The failure action ----

  /** The ticks at which the failure action of the task is called, in a history. */
  function Firings(cfg: AliveConfig, history: seq<Event>): nat {
    if history == [] then 0
    else
      var init := history[..|history| - 1];
      Firings(cfg, init) + if history[|history| - 1] == Tick && Fires(TaskAfter(cfg, init)) then 1 else 0
  }

  /** The action is called exactly by the tick with which the silence reaches the threshold. */
  lemma FiresAtThreshold(cfg: AliveConfig, history: seq<Event>)
    requires cfg.hasAction
    ensures Fires(TaskAfter(cfg, history)) <==> Silent(history + [Tick]) == Threshold(cfg)
  {
    StatusMeansHistory(cfg, history);
    TickMatches(cfg, history, TaskAfter(cfg, history));
  }

  /** In a silent stretch the action is called once if the silence reaches the threshold, and never otherwise. */
  lemma {:induction false} OncePerSilentStretch(cfg: AliveConfig, start: seq<Event>, ticks: nat)
    requires cfg.hasAction && Trailing(start, Tick) == 0
    ensures var h := start + seq(ticks, i => Tick);
            Firings(cfg, h) - Firings(cfg, start) == if Silent(h) >= Threshold(cfg) then 1 else 0
  {
    SilentWhenChecked(start);
    hide Firings, Silent, Trailing;
    if ticks == 0 {
      assert start + seq(ticks, i => Tick) == start;
    } else {
      var init := start + seq(ticks - 1, i => Tick);
      OncePerSilentStretch(cfg, start, ticks - 1);
      assert start + seq(ticks, i => Tick) == init + [Tick];
      FiringsNext(cfg, init);
    }
  }

  lemma FiringsNext(cfg: AliveConfig, history: seq<Event>)
    requires cfg.hasAction
    ensures Firings(cfg, history + [Tick])
         == Firings(cfg, history) + if Silent(history + [Tick]) == Threshold(cfg) then 1 else 0
    ensures Silent(history + [Tick]) == Silent(history) + 1 || Silent(history + [Tick]) == Silent(history) == 0
  {
    assert (history + [Tick])[..|history|] == history;
    FiresAtThreshold(cfg, history);
    SilentNext(history);
    SilentWhenChecked(history);
    hide Trailing, Fires, TaskAfter, Silent, ComesRound;
  }

  // ---- All tasks together ----

  function Run(commands: seq<Command>): (tasks: Tasks)
    ensures AllSound(tasks)
  {
    if commands == [] then map[]
    else
      var before := Run(commands[..|commands| - 1]);
      ApplySound(before, commands[|commands| - 1]);
      Apply(before, commands[|commands| - 1])
  }

  /** A task's own history in a run: its configuration and what happened to it since its registration. */
  datatype Life = Life(cfg: AliveConfig, history: seq<Event>)

  function Lived(life: Option<Life>, name: string, c: Command): Option<Life> {
    match c
    case Register(n, cfg) => if n == name && life.None? then Some(Life(cfg, [])) else life
    case Checkpoint(n) =>
      if n == name && life.Some? then Some(Life(life.value.cfg, life.value.history + [Alive])) else life
    case Supervise => if life.Some? then Some(Life(life.value.cfg, life.value.history + [Tick])) else life
    case Reset => None
  }

  function LifeOf(name: string, commands: seq<Command>): Option<Life> {
    if commands == [] then None
    else Lived(LifeOf(name, commands[..|commands| - 1]), name, commands[|commands| - 1])
  }

  /** In every run each task is in the state of its own history alone, whatever the others do. */
  lemma {:induction false} TasksAreIndependent(name: string, commands: seq<Command>)
    ensures var tasks := Run(commands); var life := LifeOf(name, commands);
            && (name in tasks <==> life.Some?)
            && (life.Some? ==> tasks[name] == TaskAfter(life.value.cfg, life.value.history))
  {
    if commands != [] {
      var n := |commands| - 1;
      var before := LifeOf(name, commands[..n]);
      TasksAreIndependent(name, commands[..n]);
      if before.Some? {
        NextState(before.value.cfg, before.value.history);
      }
    }
  }

  lemma NextState(cfg: AliveConfig, history: seq<Event>)
    ensures TaskAfter(cfg, history + [Alive]) == Checked(TaskAfter(cfg, history))
    ensures TaskAfter(cfg, history + [Tick]) == Ticked(TaskAfter(cfg, history))
    ensures TaskAfter(cfg, []) == Fresh(cfg)
  {
    assert (history + [Alive])[..|history|] == history;
    assert (history + [Tick])[..|history|] == history;
  }

  /** After every run: a registered task is Failed exactly when it has been silent for its threshold. */
  lemma FailedMeansSilent(name: string, commands: seq<Command>)
    ensures var tasks := Run(commands); var life := LifeOf(name, commands);
            && (name in tasks <==> life.Some?)
            && (if life.Some? then StatusMatches(life.value.cfg, life.value.history, StatusIn(tasks, name))
                else StatusIn(tasks, name) == Deactivated)
            && (name in Firing(tasks) <==> && life.Some? && life.value.cfg.hasAction
                                           && Silent(life.value.history + [Tick]) == Threshold(life.value.cfg))
  {
    TasksAreIndependent(name, commands);
    var life := LifeOf(name, commands);
    if life.Some? {
      var cfg, history := life.value.cfg, life.value.history;
      StatusMeansHistory(cfg, history);
      if cfg.hasAction {
        FiresAtThreshold(cfg, history);
      }
    }
  }
}
