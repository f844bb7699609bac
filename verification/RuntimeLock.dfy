/** The writers of the runtime file that share `RUNTIME_CONFIG_IO`: profile commits
    (`runtime_config.rs`), mode switches (`services/mode.rs`) and TUN changes
    (`services/tun.rs`), interleaved at their awaits and cancelled at any of them. */
module RuntimeLock {
  import opened Wrappers
  import opened Yaml
  import RuntimeTransaction

  type Text = string

  /** Reading the file (an absent one included), the two ways of rendering it, the settings
      written over a configuration, and the closures that build one. */
  datatype Env = Env(
    load: Option<Text> -> Mapping,
    render: Mapping -> Text,
    save: Mapping -> Text,
    prepare: (Mapping, nat, bool) -> Mapping,
    build: (nat, Mapping) -> Option<Mapping>)

  const MODE := Str("mode")
  const DEFAULT_MODE := "rule"

  /** `get_mode().unwrap_or("rule")`. */
  function ModeOf(config: Mapping): string {
    if MODE in config && config[MODE].Str? then config[MODE].s else DEFAULT_MODE
  }

  // ---------- operations and their serial meaning ----------

  /** One committed change of the file: a rebuilt configuration (a TUN change rebuilds what is
      there) or a mode. `verge` stands for the port settings read while writing. */
  datatype Op = Rebuild(build: Option<nat>, verge: nat, tun: bool) | SetMode(mode: string)

  /** Who committed it, and in which turn of the lock. */
  datatype Entry = Entry(task: nat, turn: nat, op: Op)

  function Built(env: Env, build: Option<nat>, config: Mapping): Option<Mapping> {
    if build.Some? then env.build(build.value, config) else Some(config)
  }

  /** The file after an operation alone. */
  function Perform(env: Env, op: Op, file: Option<Text>): Option<Text> {
    match op
    case Rebuild(build, verge, tun) =>
      (match Built(env, build, env.load(file))
       case Some(config) => Some(env.render(env.prepare(config, verge, tun)))
       case None => file)
    case SetMode(mode) => Some(env.save(env.load(file)[MODE := Str(mode)]))
  }

  /** The file after the logged operations, one after another. */
  function Serial(env: Env, origin: Option<Text>, log: seq<Entry>): Option<Text> {
    if log == [] then origin else Perform(env, log[|log| - 1].op, Serial(env, origin, log[..|log| - 1]))
  }

  lemma SerialStep(env: Env, origin: Option<Text>, log: seq<Entry>, entry: Entry)
    ensures Serial(env, origin, log + [entry]) == Perform(env, entry.op, Serial(env, origin, log))
  {
    assert (log + [entry])[..|log|] == log;
  }

  // ---------- tasks ----------

  datatype Job = Commit(build: nat, tun: bool) | Tun(tun: bool) | Mode(mode: string, running: bool)

  /** Where a task is. `back` is the mode a second pass of a mode task puts back, and `read` the
      file that a task loaded. */
  datatype Pc =
    | Waiting(back: Option<string>)
    | Holding(back: Option<string>)
    | Loaded(back: Option<string>, read: Option<Text>)
    | BackedUp(config: Mapping, previous: Option<Text>)
    | Written(previous: Option<Text>, op: Op)
    | RolledBack
    | Renaming(back: Option<string>, read: Option<Text>, mode: string, live: Option<string>)
    | Saved(live: Option<string>)
    | Live(before: string)
    | Done(committed: bool)

  predicate HoldsLock(pc: Pc) {
    !pc.Waiting? && !pc.Live? && !pc.Done?
  }

  datatype Task = Task(job: Job, pc: Pc)

  /** A rename that a cancelled mode task had issued in its turn, of the file it had loaded with
      the mode set: it may still happen, lock or no lock. */
  datatype Detached = Detached(task: nat, turn: nat, mode: string, read: Option<Text>) {
    function Operation(): Entry {
      Entry(task, turn, SetMode(mode))
    }
  }

  /** `turns` counts how often the lock was taken. */
  datatype State = State(
    file: Option<Text>, holder: Option<nat>, turns: nat, tasks: map<nat, Task>, log: seq<Entry>, detached: seq<Detached>)

  datatype Action =
    | Start(id: nat, job: Job)
    | Acquire(id: nat)
    | Load(id: nat)
    | BackUp(id: nat)
    | Write(id: nat, verge: nat)
    | CommitWritten(id: nat)
    | RollBack(id: nat)
    | IssueRename(id: nat)
    | FinishRename(id: nat)
    | Release(id: nat)
    | LiveUpdate(id: nat, ok: bool)
    | Fail(id: nat)
    | Cancel(id: nat)
    | Land(index: nat)

  function At(s: State, id: nat, pc: Pc): State
    requires id in s.tasks
  {
    s.(tasks := s.tasks[id := s.tasks[id].(pc := pc)])
  }

  function Logged(s: State, entry: Entry): State {
    s.(log := s.log + [entry])
  }

  /** Whether a task that ends here has changed the file for good. */
  predicate HasCommitted(pc: Pc) {
    pc.Saved? || pc.Live? || ((pc.Waiting? || pc.Holding? || pc.Loaded? || pc.Renaming?) && pc.back.Some?)
  }

  /** Dropping a task: a transaction that is not committed restores the previous file before
      the lock guard goes; an issued rename is left to itself. */
  function Dropped(s: State, id: nat): State
    requires id in s.tasks
  {
    var pc := s.tasks[id].pc;
    var ended := At(s, id, Done(HasCommitted(pc)));
    var freed := if HoldsLock(pc) then ended.(holder := None) else ended;
    if pc.Written? then freed.(file := pc.previous)
    else if pc.Renaming? then freed.(detached := s.detached + [Detached(id, s.turns, pc.mode, pc.read)])
    else freed
  }

  /** One step; an action that is not possible changes nothing. */
  function Step(env: Env, s: State, a: Action): State {
    if a.Start? then
      if a.id in s.tasks then s else s.(tasks := s.tasks[a.id := Task(a.job, Waiting(None))])
    else if a.Land? then
      if a.index < |s.detached| then
        Logged(s, s.detached[a.index].Operation())
          .(file := Perform(env, s.detached[a.index].Operation().op, s.detached[a.index].read),
            detached := s.detached[..a.index] + s.detached[a.index + 1..])
      else s
    else if a.id !in s.tasks then s
    else TaskStep(env, s, a, s.tasks[a.id].job, s.tasks[a.id].pc)
  }

  function TaskStep(env: Env, s: State, a: Action, job: Job, pc: Pc): State
    requires !a.Start? && !a.Land? && a.id in s.tasks && s.tasks[a.id] == Task(job, pc)
  {
    match a
    case Acquire(id) =>
      if pc.Waiting? && s.holder.None? then At(s, id, Holding(pc.back)).(holder := Some(id), turns := s.turns + 1) else s
    case Load(id) => if pc.Holding? then At(s, id, Loaded(pc.back, s.file)) else s
    case BackUp(id) =>
      if pc.Loaded? && job.Commit? && env.build(job.build, env.load(pc.read)).Some?
      then At(s, id, BackedUp(env.build(job.build, env.load(pc.read)).value, s.file)) else s
    case Write(id, verge) =>
      if pc.BackedUp? && job.Commit? then
        At(s, id, Written(pc.previous, Rebuild(Some(job.build), verge, job.tun)))
          .(file := Some(env.render(env.prepare(pc.config, verge, job.tun))))
      else if pc.Loaded? && job.Tun? then
        Logged(At(s, id, Saved(None)), Entry(id, s.turns, Rebuild(None, verge, job.tun)))
          .(file := Some(env.render(env.prepare(env.load(pc.read), verge, job.tun))))
      else s
    case CommitWritten(id) => if pc.Written? then Logged(At(s, id, Saved(None)), Entry(id, s.turns, pc.op)) else s
    case RollBack(id) => if pc.Written? then At(s, id, RolledBack).(file := pc.previous) else s
    case IssueRename(id) =>
      if pc.Loaded? && job.Mode? then
        var target := if pc.back.Some? then pc.back.value else job.mode;
        At(s, id, Renaming(pc.back, pc.read, target,
          if job.running && pc.back.None? then Some(ModeOf(env.load(pc.read))) else None))
      else s
    case FinishRename(id) =>
      if pc.Renaming? then
        Logged(At(s, id, Saved(pc.live)), Entry(id, s.turns, SetMode(pc.mode)))
          .(file := Perform(env, SetMode(pc.mode), pc.read))
      else s
    case Release(id) =>
      if pc.Saved? then At(s, id, if pc.live.Some? then Live(pc.live.value) else Done(true)).(holder := None)
      else if pc.RolledBack? then At(s, id, Done(false)).(holder := None)
      else s
    case LiveUpdate(id, ok) =>
      if pc.Live? then At(s, id, if ok then Done(true) else Waiting(Some(pc.before))) else s
    case Fail(id) =>
      if pc.Holding? || pc.Loaded? || pc.BackedUp? || pc.Renaming?
      then At(s, id, Done(HasCommitted(pc))).(holder := None) else s
    case Cancel(id) => if pc.Done? then s else Dropped(s, id)
  }

  function After(env: Env, s: State, actions: seq<Action>): State {
    if actions == [] then s else Step(env, After(env, s, actions[..|actions| - 1]), actions[|actions| - 1])
  }

  function Initial(origin: Option<Text>): State {
    State(origin, None, 0, map[], [], [])
  }

  lemma {:induction false} AfterConcat(env: Env, s: State, first: seq<Action>, second: seq<Action>)
    ensures After(env, s, first + second) == After(env, After(env, s, first), second)
    decreases |second|
  {
    var all := first + second;
    if second == [] {
      assert all == first;
    } else {
      var n := |second| - 1;
      assert all[..|all| - 1] == first + second[..n];
      AfterConcat(env, s, first, second[..n]);
    }
  }

  lemma AfterFirst(env: Env, s: State, actions: seq<Action>)
    requires actions != []
    ensures After(env, s, actions) == After(env, Step(env, s, actions[0]), actions[1..])
  {
    assert [actions[0]] + actions[1..] == actions;
    AfterConcat(env, s, [actions[0]], actions[1..]);
    assert [actions[0]][..0] == [];
  }

  // ---------- serialisability ----------

  /** Two configurations that differ in the mode at most. */
  predicate AgreeBeyondMode(a: Mapping, b: Mapping) {
    a - {MODE} == b - {MODE}
  }

  lemma AgreeingTakeMode(a: Mapping, b: Mapping, mode: string)
    ensures AgreeBeyondMode(a, b) <==> a[MODE := Str(mode)] == b[MODE := Str(mode)]
  {
    assert a[MODE := Str(mode)] - {MODE} == a - {MODE} && b[MODE := Str(mode)] - {MODE} == b - {MODE};
    if AgreeBeyondMode(a, b) {
      assert a[MODE := Str(mode)] == (a - {MODE})[MODE := Str(mode)];
      assert b[MODE := Str(mode)] == (b - {MODE})[MODE := Str(mode)];
    }
  }

  /** What the lock holder relies on, where `serial` is the file the log stands for. */
  predicate Relies(env: Env, serial: Option<Text>, file: Option<Text>, job: Job, pc: Pc) {
    match pc
    case Loaded(_, read) => file == serial && read == serial
    case BackedUp(config, previous) =>
      && file == serial && previous == serial
      && job.Commit? && env.build(job.build, env.load(serial)) == Some(config)
    case Written(previous, op) => previous == serial && file == Perform(env, op, serial)
    case Renaming(_, read, _, _) => file == serial && AgreeBeyondMode(env.load(read), env.load(serial))
    case _ => file == serial
  }

  /** Exactly the holder is inside the lock. */
  predicate LockHeld(s: State) {
    && (forall id | id in s.tasks :: HoldsLock(s.tasks[id].pc) <==> s.holder == Some(id))
    && (s.holder.Some? ==> s.holder.value in s.tasks)
  }

  predicate Serialised(env: Env, origin: Option<Text>, s: State) {
    var serial := Serial(env, origin, s.log);
    && LockHeld(s)
    && (s.holder.None? ==> s.file == serial)
    && (s.holder.Some? ==> Relies(env, serial, s.file, s.tasks[s.holder.value].job, s.tasks[s.holder.value].pc))
  }

  /** A left-over rename lands while the lock is free, and since its task loaded the file nothing
      but the mode was committed. */
  predicate Harmless(env: Env, s: State, a: Action) {
    a.Land? && a.index < |s.detached| ==>
      s.holder.None? && AgreeBeyondMode(env.load(s.detached[a.index].read), env.load(s.file))
  }

  lemma StepLockHeld(env: Env, s: State, a: Action)
    requires LockHeld(s)
    ensures LockHeld(Step(env, s, a))
  {
  }

  /** A task outside the lock, or one that is started, moves without touching file or log. */
  lemma OutsideStep(env: Env, s: State, a: Action)
    requires LockHeld(s) && !a.Land?
    requires a.Start? || a.id !in s.tasks || !HoldsLock(s.tasks[a.id].pc)
    ensures var next := Step(env, s, a);
      && next.file == s.file && next.log == s.log
      && (next.holder == s.holder || (s.holder.None? && next.holder == Some(a.id) && a.id in next.tasks && next.tasks[a.id].pc.Holding?))
      && (s.holder.Some? ==> s.holder.value in next.tasks && next.tasks[s.holder.value] == s.tasks[s.holder.value])
  {
  }

  /** The holder's own step. */
  lemma HolderStep(env: Env, origin: Option<Text>, s: State, a: Action)
    requires Serialised(env, origin, s) && !a.Start? && !a.Land? && s.holder == Some(a.id)
    ensures var next := Step(env, s, a);
      var serial := Serial(env, origin, next.log);
      && (next.holder.None? ==> next.file == serial)
      && (next.holder.Some? ==>
            && next.holder == s.holder && a.id in next.tasks
            && Relies(env, serial, next.file, next.tasks[a.id].job, next.tasks[a.id].pc))
  {
    var next, pc := Step(env, s, a), s.tasks[a.id].pc;
    if next.log != s.log {
      SerialStep(env, origin, s.log, next.log[|s.log|]);
    }
    if pc.Renaming? {
      AgreeingTakeMode(env.load(pc.read), env.load(s.file), pc.mode);
    }
  }

  /** Every step of every task keeps the file serial. */
  lemma StepSerialised(env: Env, origin: Option<Text>, s: State, a: Action)
    requires Serialised(env, origin, s) && Harmless(env, s, a)
    ensures Serialised(env, origin, Step(env, s, a))
  {
    StepLockHeld(env, s, a);
    if a.Land? {
      if a.index < |s.detached| {
        var left := s.detached[a.index];
        SerialStep(env, origin, s.log, left.Operation());
        AgreeingTakeMode(env.load(left.read), env.load(s.file), left.mode);
      }
    } else if a.Start? || a.id !in s.tasks || !HoldsLock(s.tasks[a.id].pc) {
      OutsideStep(env, s, a);
    } else {
      HolderStep(env, origin, s, a);
    }
  }

  // ---------- runs ----------

  /** A left-over rename lands before anybody has taken the lock again. */
  predicate Untaken(s: State, a: Action) {
    a.Land? && a.index < |s.detached| ==> s.detached[a.index].turn == s.turns
  }

  predicate UntakenAt(env: Env, s: State, actions: seq<Action>, i: int)
    requires 0 <= i < |actions|
  {
    Untaken(After(env, s, actions[..i]), actions[i])
  }

  predicate AllUntaken(env: Env, s: State, actions: seq<Action>) {
    forall i | 0 <= i < |actions| :: UntakenAt(env, s, actions, i)
  }

  lemma UntakenFront(env: Env, s: State, actions: seq<Action>, n: nat)
    requires n <= |actions| && AllUntaken(env, s, actions)
    ensures AllUntaken(env, s, actions[..n])
  {
    forall i | 0 <= i < n
      ensures UntakenAt(env, s, actions[..n], i)
    {
      assert UntakenAt(env, s, actions, i);
      assert actions[..n][..i] == actions[..i];
    }
  }

  /** Log entries come from ascending turns of the lock; a holder that has not committed, and a
      rename left behind in the latest turn, come after all of them. */
  predicate InTurn(s: State)
    requires LockHeld(s)
  {
    && (forall i, j | 0 <= i < j < |s.log| :: s.log[i].turn < s.log[j].turn)
    && (forall i | 0 <= i < |s.log| :: s.log[i].turn <= s.turns)
    && (s.holder.Some? && !s.tasks[s.holder.value].pc.Saved? ==> AllBefore(s.log, s.turns))
    && (forall i | 0 <= i < |s.detached| :: s.detached[i].turn == s.turns ==> AllBefore(s.log, s.turns))
  }

  predicate AllBefore(log: seq<Entry>, turn: nat) {
    forall i | 0 <= i < |log| :: log[i].turn < turn
  }

  /** Renames left behind come from different turns; one from the latest turn means that the lock
      is free and that only the mode can have changed since its task loaded the file. */
  predicate LeftInTurn(env: Env, s: State) {
    && (forall i | 0 <= i < |s.detached| :: s.detached[i].turn <= s.turns)
    && (forall i, j | 0 <= i < j < |s.detached| :: s.detached[i].turn != s.detached[j].turn)
    && (forall i | 0 <= i < |s.detached| && s.detached[i].turn == s.turns ::
          s.holder.None? && AgreeBeyondMode(env.load(s.detached[i].read), env.load(s.file)))
  }

  predicate InOrder(env: Env, origin: Option<Text>, s: State) {
    Serialised(env, origin, s) && InTurn(s) && LeftInTurn(env, s)
  }

  lemma LandInOrder(env: Env, origin: Option<Text>, s: State, a: Action)
    requires InOrder(env, origin, s) && Untaken(s, a) && a.Land?
    ensures Harmless(env, s, a) && InOrder(env, origin, Step(env, s, a))
  {
    StepSerialised(env, origin, s, a);
    var next := Step(env, s, a);
    if a.index < |s.detached| {
      forall i | 0 <= i < |next.detached|
        ensures next.detached[i] == if i < a.index then s.detached[i] else s.detached[i + 1]
      {
      }
    }
  }

  /** A task of the current turn leaves a rename behind only as it frees the lock. */
  lemma HolderLeaves(env: Env, origin: Option<Text>, s: State, a: Action)
    requires InOrder(env, origin, s) && !a.Start? && !a.Land? && s.holder == Some(a.id)
    ensures LeftInTurn(env, Step(env, s, a))
  {
    var next := Step(env, s, a);
    assert forall i | 0 <= i < |s.detached| :: s.detached[i].turn < s.turns;
    if |next.detached| > |s.detached| {
      assert next.detached[..|s.detached|] == s.detached;
    }
  }

  lemma HolderInTurn(env: Env, origin: Option<Text>, s: State, a: Action)
    requires InOrder(env, origin, s) && !a.Start? && !a.Land? && s.holder == Some(a.id)
    requires LockHeld(Step(env, s, a))
    ensures InTurn(Step(env, s, a))
  {
    assert forall i | 0 <= i < |s.detached| :: s.detached[i].turn < s.turns;
  }

  lemma StepInOrder(env: Env, origin: Option<Text>, s: State, a: Action)
    requires InOrder(env, origin, s) && Untaken(s, a)
    ensures Harmless(env, s, a) && InOrder(env, origin, Step(env, s, a))
  {
    if a.Land? {
      LandInOrder(env, origin, s, a);
    } else {
      StepSerialised(env, origin, s, a);
      if a.Start? || a.id !in s.tasks || !HoldsLock(s.tasks[a.id].pc) {
        OutsideStep(env, s, a);
        OutsideInTurn(env, s, a);
      } else {
        HolderLeaves(env, origin, s, a);
        HolderInTurn(env, origin, s, a);
      }
    }
  }

  lemma OutsideInTurn(env: Env, s: State, a: Action)
    requires LockHeld(s) && InTurn(s) && LeftInTurn(env, s) && !a.Land? && LockHeld(Step(env, s, a))
    requires a.Start? || a.id !in s.tasks || !HoldsLock(s.tasks[a.id].pc)
    ensures InTurn(Step(env, s, a)) && LeftInTurn(env, Step(env, s, a))
  {
    OutsideStep(env, s, a);
  }

  /** Action `i` of a run is harmless. */
  predicate HarmlessAt(env: Env, s: State, actions: seq<Action>, i: int)
    requires 0 <= i < |actions|
  {
    Harmless(env, After(env, s, actions[..i]), actions[i])
  }

  predicate AllHarmless(env: Env, s: State, actions: seq<Action>) {
    forall i | 0 <= i < |actions| :: HarmlessAt(env, s, actions, i)
  }

  lemma HarmlessInFront(env: Env, s: State, actions: seq<Action>, n: nat, i: nat)
    requires i < n <= |actions|
    ensures HarmlessAt(env, s, actions[..n], i) <==> HarmlessAt(env, s, actions, i)
  {
    assert actions[..n][..i] == actions[..i];
  }

  lemma HarmlessFront(env: Env, s: State, actions: seq<Action>, n: nat)
    requires n <= |actions|
    ensures AllHarmless(env, s, actions[..n]) <==> forall i | 0 <= i < n :: HarmlessAt(env, s, actions, i)
  {
    forall i | 0 <= i < n
      ensures HarmlessAt(env, s, actions[..n], i) <==> HarmlessAt(env, s, actions, i)
    {
      HarmlessInFront(env, s, actions, n, i);
    }
    assert AllHarmless(env, s, actions[..n]) ==> forall i | 0 <= i < n :: HarmlessAt(env, s, actions, i) by {
      if AllHarmless(env, s, actions[..n]) {
        forall i | 0 <= i < n
          ensures HarmlessAt(env, s, actions, i)
        {
          assert HarmlessAt(env, s, actions[..n], i);
        }
      }
    }
  }

  /** Over every interleaving of any number of tasks, with a failure or cancellation at any await,
      in which a rename left behind by a cancelled task lands, if ever, before anybody takes the
      lock again: whenever the lock is free, the file is what the committed operations give when
      applied one after another, and they are in the order of the lock's turns. */
  lemma {:induction false} LockOrder(env: Env, origin: Option<Text>, actions: seq<Action>)
    requires AllUntaken(env, Initial(origin), actions)
    ensures InOrder(env, origin, After(env, Initial(origin), actions))
    ensures AllHarmless(env, Initial(origin), actions)
    decreases |actions|
  {
    if actions != [] {
      var n := |actions| - 1;
      UntakenFront(env, Initial(origin), actions, n);
      LockOrder(env, origin, actions[..n]);
      assert UntakenAt(env, Initial(origin), actions, n);
      StepInOrder(env, origin, After(env, Initial(origin), actions[..n]), actions[n]);
      HarmlessFront(env, Initial(origin), actions, n);
      assert HarmlessAt(env, Initial(origin), actions, n);
    }
  }

  // ---------- a rename left behind ----------

  lemma {:induction false} HarmlessRun(env: Env, origin: Option<Text>, actions: seq<Action>)
    requires AllHarmless(env, Initial(origin), actions)
    ensures Serialised(env, origin, After(env, Initial(origin), actions))
    decreases |actions|
  {
    if actions != [] {
      var n := |actions| - 1;
      HarmlessFront(env, Initial(origin), actions, n);
      HarmlessRun(env, origin, actions[..n]);
      assert HarmlessAt(env, Initial(origin), actions, n);
      StepSerialised(env, origin, After(env, Initial(origin), actions[..n]), actions[n]);
    }
  }

  /** A loaded configuration with a mode set is loaded back as it was saved. */
  ghost predicate SavesBack(env: Env) {
    forall file, mode ::
      env.load(Some(env.save(env.load(file)[MODE := Str(mode)]))) == env.load(file)[MODE := Str(mode)]
  }

  /** A loader that fills in defaults under what it parses does so, if parsing undoes saving. */
  lemma FillingLoaderSavesBack(env: Env, defaults: Mapping, parse: Option<Text> -> Mapping)
    requires forall file :: env.load(file) == defaults + parse(file)
    requires forall config :: parse(Some(env.save(config))) == config
    ensures SavesBack(env)
  {
    forall file, mode
      ensures env.load(Some(env.save(env.load(file)[MODE := Str(mode)]))) == env.load(file)[MODE := Str(mode)]
    {
      var changed := env.load(file)[MODE := Str(mode)];
      assert parse(Some(env.save(changed))) == changed && defaults + changed == changed;
    }
  }

  /** Nobody is between reading the file and committing what was read. */
  predicate Quiet(s: State)
    requires LockHeld(s)
  {
    s.holder.Some? ==>
      var pc := s.tasks[s.holder.value].pc;
      !pc.Loaded? && !pc.BackedUp? && !pc.Written?
  }

  /** A rename that lands when nobody is in the middle of a change keeps the file serial exactly
      when the configuration its task loaded and the current one agree on every key but `mode`. */
  lemma LandingExactly(env: Env, origin: Option<Text>, s: State, index: nat)
    requires SavesBack(env) && Serialised(env, origin, s) && Quiet(s) && index < |s.detached|
    ensures Serialised(env, origin, Step(env, s, Land(index)))
      <==> AgreeBeyondMode(env.load(s.detached[index].read), env.load(s.file))
    ensures s.holder.None? ==>
      (Step(env, s, Land(index)).file == Serial(env, origin, Step(env, s, Land(index)).log)
       <==> AgreeBeyondMode(env.load(s.detached[index].read), env.load(s.file)))
  {
    var left := s.detached[index];
    var next := Step(env, s, Land(index));
    SerialStep(env, origin, s.log, left.Operation());
    AgreeingTakeMode(env.load(left.read), env.load(s.file), left.mode);
    SameSaved(env, left.read, s.file, left.mode);
    StepLockHeld(env, s, Land(index));
    if s.holder.Some? && s.tasks[s.holder.value].pc.Renaming? {
      var now := env.load(s.file);
      assert env.load(Perform(env, SetMode(left.mode), s.file)) == now[MODE := Str(left.mode)];
      assert AgreeBeyondMode(now, now[MODE := Str(left.mode)]);
    }
  }

  lemma SameSaved(env: Env, a: Option<Text>, b: Option<Text>, mode: string)
    requires SavesBack(env)
    ensures Perform(env, SetMode(mode), a) == Perform(env, SetMode(mode), b)
      <==> env.load(a)[MODE := Str(mode)] == env.load(b)[MODE := Str(mode)]
  {
    assert env.load(Some(env.save(env.load(a)[MODE := Str(mode)]))) == env.load(a)[MODE := Str(mode)];
    assert env.load(Some(env.save(env.load(b)[MODE := Str(mode)]))) == env.load(b)[MODE := Str(mode)];
  }

  /** Every rename left behind lands while the lock is free. */
  predicate LandsFree(env: Env, s: State, actions: seq<Action>) {
    forall i | 0 <= i < |actions| && actions[i].Land? && actions[i].index < |After(env, s, actions[..i]).detached| ::
      After(env, s, actions[..i]).holder.None?
  }

  /** The file is what the log stands for, if the lock is free. */
  predicate SerialWhenFree(env: Env, origin: Option<Text>, s: State) {
    s.holder.None? ==> s.file == Serial(env, origin, s.log)
  }

  /** Over every run whose left-over renames land on a free lock: the file is serial whenever the
      lock is free if and only if each of them lands on a configuration that agrees, beyond the
      mode, with the one its task had loaded. */
  lemma LockOrderExactly(env: Env, origin: Option<Text>, actions: seq<Action>)
    requires SavesBack(env) && LandsFree(env, Initial(origin), actions)
    ensures (forall n | 0 <= n <= |actions| :: SerialWhenFree(env, origin, After(env, Initial(origin), actions[..n])))
      <==> AllHarmless(env, Initial(origin), actions)
  {
    if AllHarmless(env, Initial(origin), actions) {
      forall n | 0 <= n <= |actions|
        ensures SerialWhenFree(env, origin, After(env, Initial(origin), actions[..n]))
      {
        HarmlessFront(env, Initial(origin), actions, n);
        HarmlessRun(env, origin, actions[..n]);
      }
    } else {
      var n := FirstHarm(env, Initial(origin), actions);
      HarmShows(env, origin, actions, n);
    }
  }

  /** Right after the first landing that is not harmless the file is not serial. */
  lemma HarmShows(env: Env, origin: Option<Text>, actions: seq<Action>, n: nat)
    requires SavesBack(env) && LandsFree(env, Initial(origin), actions) && n < |actions|
    requires AllHarmless(env, Initial(origin), actions[..n]) && !HarmlessAt(env, Initial(origin), actions, n)
    ensures !SerialWhenFree(env, origin, After(env, Initial(origin), actions[..n + 1]))
  {
    var s := After(env, Initial(origin), actions[..n]);
    HarmlessRun(env, origin, actions[..n]);
    LandingExactly(env, origin, s, actions[n].index);
    assert actions[..n + 1][..n] == actions[..n];
    assert After(env, Initial(origin), actions[..n + 1]) == Step(env, s, actions[n]);
  }

  /** The first action of a run that is not harmless. */
  lemma {:induction false} FirstHarm(env: Env, s: State, actions: seq<Action>) returns (n: nat)
    requires !AllHarmless(env, s, actions)
    ensures n < |actions| && AllHarmless(env, s, actions[..n]) && !HarmlessAt(env, s, actions, n)
    decreases |actions|
  {
    n := |actions| - 1;
    HarmlessFront(env, s, actions, n);
    if !AllHarmless(env, s, actions[..n]) {
      var k := FirstHarm(env, s, actions[..n]);
      assert actions[..n][..k] == actions[..k];
      HarmlessInFront(env, s, actions, n, k);
      n := k;
    }
  }

  // ---------- landing under another holder ----------

  /** The operation of a task that has loaded the file and goes on to commit. */
  function OwnOp(job: Job, pc: Pc, verge: nat): Op {
    match job
    case Commit(build, tun) => if pc.Written? then pc.op else Rebuild(Some(build), verge, tun)
    case Tun(tun) => Rebuild(None, verge, tun)
    case Mode(mode, _) => SetMode(if pc.Loaded? && pc.back.Some? then pc.back.value else mode)
  }

  /** The holder's way from there to the release of the lock. */
  function Finishing(id: nat, job: Job, pc: Pc, verge: nat): seq<Action> {
    match job
    case Commit(_, _) =>
      (if pc.Loaded? then [BackUp(id)] else []) + (if pc.Loaded? || pc.BackedUp? then [Write(id, verge)] else [])
        + [CommitWritten(id), Release(id)]
    case Tun(_) => [Write(id, verge), Release(id)]
    case Mode(_, _) => [IssueRename(id), FinishRename(id), Release(id)]
  }

  /** The holder of `s` has read the file and not written yet. */
  predicate HasRead(env: Env, s: State, id: nat) {
    && s.holder == Some(id) && id in s.tasks
    && (s.tasks[id].pc.Loaded? || (s.tasks[id].pc.BackedUp? && s.tasks[id].job.Commit?))
    && (s.tasks[id].job.Commit? && s.tasks[id].pc.Loaded? ==> env.build(s.tasks[id].job.build, env.load(s.tasks[id].pc.read)).Some?)
  }

  /** The lock is free, one entry is logged, and the file is `file`. */
  predicate EndsWith(end: State, log: seq<Entry>, entry: Entry, file: Option<Text>) {
    end.holder.None? && end.log == log + [entry] && end.file == file
  }

  lemma WrittenFinishes(env: Env, s: State, id: nat)
    requires s.holder == Some(id) && id in s.tasks && s.tasks[id].pc.Written?
    ensures var end := After(env, s, [CommitWritten(id), Release(id)]);
      && EndsWith(end, s.log, Entry(id, s.turns, s.tasks[id].pc.op), s.file)
      && id in end.tasks && end.tasks[id].pc == Done(true)
  {
    AfterFirst(env, s, [CommitWritten(id), Release(id)]);
    AfterFirst(env, Step(env, s, CommitWritten(id)), [Release(id)]);
    assert [CommitWritten(id), Release(id)][1..] == [Release(id)] && [Release(id)][1..] == [];
  }

  lemma BackedUpFinishes(env: Env, s: State, id: nat, verge: nat)
    requires s.holder == Some(id) && id in s.tasks && s.tasks[id].pc.BackedUp? && s.tasks[id].job.Commit?
    ensures var (job, pc) := (s.tasks[id].job, s.tasks[id].pc);
      EndsWith(After(env, s, [Write(id, verge), CommitWritten(id), Release(id)]), s.log,
        Entry(id, s.turns, Rebuild(Some(job.build), verge, job.tun)), Some(env.render(env.prepare(pc.config, verge, job.tun))))
  {
    var actions := [Write(id, verge), CommitWritten(id), Release(id)];
    AfterFirst(env, s, actions);
    WrittenFinishes(env, Step(env, s, Write(id, verge)), id);
    assert actions[1..] == [CommitWritten(id), Release(id)];
  }

  lemma LoadedCommitFinishes(env: Env, s: State, id: nat, verge: nat)
    requires s.holder == Some(id) && id in s.tasks && s.tasks[id].pc.Loaded? && s.tasks[id].job.Commit?
    requires env.build(s.tasks[id].job.build, env.load(s.tasks[id].pc.read)).Some?
    ensures var (job, pc) := (s.tasks[id].job, s.tasks[id].pc);
      var op := Rebuild(Some(job.build), verge, job.tun);
      EndsWith(After(env, s, [BackUp(id), Write(id, verge), CommitWritten(id), Release(id)]), s.log,
        Entry(id, s.turns, op), Perform(env, op, pc.read))
  {
    var actions := [BackUp(id), Write(id, verge), CommitWritten(id), Release(id)];
    AfterFirst(env, s, actions);
    BackedUpFinishes(env, Step(env, s, BackUp(id)), id, verge);
    assert actions[1..] == [Write(id, verge), CommitWritten(id), Release(id)];
  }

  lemma LoadedTunFinishes(env: Env, s: State, id: nat, verge: nat)
    requires s.holder == Some(id) && id in s.tasks && s.tasks[id].pc.Loaded? && s.tasks[id].job.Tun?
    ensures var op := Rebuild(None, verge, s.tasks[id].job.tun);
      EndsWith(After(env, s, [Write(id, verge), Release(id)]), s.log, Entry(id, s.turns, op), Perform(env, op, s.tasks[id].pc.read))
  {
    AfterFirst(env, s, [Write(id, verge), Release(id)]);
    AfterFirst(env, Step(env, s, Write(id, verge)), [Release(id)]);
    assert [Write(id, verge), Release(id)][1..] == [Release(id)] && [Release(id)][1..] == [];
  }

  lemma LoadedModeFinishes(env: Env, s: State, id: nat)
    requires s.holder == Some(id) && id in s.tasks && s.tasks[id].pc.Loaded? && s.tasks[id].job.Mode?
    ensures var op := OwnOp(s.tasks[id].job, s.tasks[id].pc, 0);
      EndsWith(After(env, s, [IssueRename(id), FinishRename(id), Release(id)]), s.log,
        Entry(id, s.turns, op), Perform(env, op, s.tasks[id].pc.read))
  {
    var actions := [IssueRename(id), FinishRename(id), Release(id)];
    var s1 := Step(env, s, IssueRename(id));
    AfterFirst(env, s, actions);
    AfterFirst(env, s1, actions[1..]);
    AfterFirst(env, Step(env, s1, FinishRename(id)), actions[1..][1..]);
    assert actions[1..][1..][1..] == [];
  }

  /** What a holder that has read leaves when it finishes, whatever the file is meanwhile. */
  lemma FinishingWrites(env: Env, origin: Option<Text>, s: State, id: nat, verge: nat, file: Option<Text>, log: seq<Entry>, left: seq<Detached>)
    requires Serialised(env, origin, s) && HasRead(env, s, id)
    ensures var (job, pc) := (s.tasks[id].job, s.tasks[id].pc);
      var op := OwnOp(job, pc, verge);
      EndsWith(After(env, s.(file := file, log := log, detached := left), Finishing(id, job, pc, verge)), log,
        Entry(id, s.turns, op), Perform(env, op, Serial(env, origin, s.log)))
  {
    var (job, pc) := (s.tasks[id].job, s.tasks[id].pc);
    var t := s.(file := file, log := log, detached := left);
    if job.Mode? {
      LoadedModeFinishes(env, t, id);
    } else if job.Tun? {
      LoadedTunFinishes(env, t, id, verge);
    } else if pc.BackedUp? {
      BackedUpFinishes(env, t, id, verge);
      assert Finishing(id, job, pc, verge) == [Write(id, verge), CommitWritten(id), Release(id)];
    } else {
      LoadedCommitFinishes(env, t, id, verge);
      assert Finishing(id, job, pc, verge) == [BackUp(id), Write(id, verge), CommitWritten(id), Release(id)];
    }
  }

  /** A rename that lands after the holder has read the file is overwritten when the holder
      commits: the file is the same as without it. It is then serial exactly when the holder's
      operation gives the same file with and without that switch of the mode. */
  lemma HolderOverwritesLanding(env: Env, origin: Option<Text>, s: State, id: nat, verge: nat, index: nat)
    requires Serialised(env, origin, s) && HasRead(env, s, id) && index < |s.detached|
    ensures var finishing := Finishing(id, s.tasks[id].job, s.tasks[id].pc, verge);
      var op, switch := OwnOp(s.tasks[id].job, s.tasks[id].pc, verge), s.detached[index].Operation();
      var end, serial := After(env, Step(env, s, Land(index)), finishing), Serial(env, origin, s.log);
      && end.holder.None? && end.file == After(env, s, finishing).file
      && end.log == s.log + [switch, Entry(id, s.turns, op)]
      && (end.file == Serial(env, origin, end.log) <==> Perform(env, op, serial) == Perform(env, op, Perform(env, switch.op, serial)))
  {
    var op, switch := OwnOp(s.tasks[id].job, s.tasks[id].pc, verge), s.detached[index].Operation();
    var next := Step(env, s, Land(index));
    FinishingWrites(env, origin, s, id, verge, s.file, s.log, s.detached);
    FinishingWrites(env, origin, s, id, verge, next.file, next.log, next.detached);
    assert next.log + [Entry(id, s.turns, op)] == s.log + [switch, Entry(id, s.turns, op)];
    SerialStep(env, origin, s.log, switch);
    SerialStep(env, origin, s.log + [switch], Entry(id, s.turns, op));
  }

  /** A rename that lands between the holder's write and its commit replaces what was written:
      the holder commits, and its change is gone; or it rolls back, and the switch is gone. */
  lemma LandingOverwritesHolder(env: Env, origin: Option<Text>, s: State, id: nat, index: nat)
    requires Serialised(env, origin, s) && s.holder == Some(id) && s.tasks[id].pc.Written? && index < |s.detached|
    ensures var switch, own := s.detached[index].Operation(), Entry(id, s.turns, s.tasks[id].pc.op);
      var committed := After(env, Step(env, s, Land(index)), [CommitWritten(id), Release(id)]);
      var back := After(env, Step(env, s, Land(index)), [RollBack(id), Release(id)]);
      && committed.holder.None? && committed.log == s.log + [switch, own]
      && committed.file == Perform(env, switch.op, s.detached[index].read)
      && back.holder.None? && back.log == s.log + [switch] && back.file == Serial(env, origin, s.log)
  {
    var next := Step(env, s, Land(index));
    AfterFirst(env, next, [CommitWritten(id), Release(id)]);
    AfterFirst(env, Step(env, next, CommitWritten(id)), [Release(id)]);
    AfterFirst(env, next, [RollBack(id), Release(id)]);
    AfterFirst(env, Step(env, next, RollBack(id)), [Release(id)]);
    assert [CommitWritten(id), Release(id)][1..] == [Release(id)] && [RollBack(id), Release(id)][1..] == [Release(id)];
    assert [Release(id)][1..] == [];
  }

  // ---------- what a commit leaves ----------

  predicate InLog(log: seq<Entry>, id: nat) {
    exists i :: 0 <= i < |log| && log[i].task == id
  }

  /** The operation a job may log. */
  predicate OpOf(job: Job, op: Op) {
    match job
    case Commit(build, tun) => op.Rebuild? && op.build == Some(build) && op.tun == tun
    case Tun(tun) => op.Rebuild? && op.build == None && op.tun == tun
    case Mode(_, _) => op.SetMode?
  }

  /** Every entry, logged or left behind, is by a task of its kind. */
  predicate EntriesTyped(s: State) {
    && (forall i | 0 <= i < |s.log| :: s.log[i].task in s.tasks && OpOf(s.tasks[s.log[i].task].job, s.log[i].op))
    && (forall i | 0 <= i < |s.detached| :: LeftTyped(s, s.detached[i]))
    && (forall id | id in s.tasks :: PcOf(s.tasks[id].job, s.tasks[id].pc))
  }

  /** A commit has an entry exactly when it committed, and never two. */
  predicate CommitsTraced(s: State) {
    && (forall id | id in s.tasks && s.tasks[id].job.Commit? :: InLog(s.log, id) <==> IsCommitted(s.tasks[id].pc))
    && (forall i, j | 0 <= i < j < |s.log| && s.log[i].task == s.log[j].task ::
          s.log[i].task in s.tasks && !s.tasks[s.log[i].task].job.Commit?)
  }

  predicate IsCommitted(pc: Pc) {
    pc.Saved? || pc == Done(true)
  }

  predicate PcOf(job: Job, pc: Pc) {
    && (pc.BackedUp? || pc.Written? || pc.RolledBack? ==> job.Commit?)
    && (pc.Written? ==> OpOf(job, pc.op))
    && (pc.Renaming? ==> job.Mode?)
    && (pc.Live? || (pc.Saved? && pc.live.Some?) ==> job.Mode?)
    && ((pc.Waiting? || pc.Holding? || pc.Loaded?) && pc.back.Some? ==> job.Mode?)
  }

  lemma InLogGrows(log: seq<Entry>, entry: Entry, id: nat)
    ensures InLog(log + [entry], id) <==> InLog(log, id) || entry.task == id
  {
    var longer := log + [entry];
    assert longer[|log|] == entry;
    if InLog(log, id) {
      var i :| 0 <= i < |log| && log[i].task == id;
      assert longer[i].task == id;
    }
  }

  /** A step logs at most one entry: its own task's, or a left-over one. */
  lemma StepLogs(env: Env, s: State, a: Action)
    requires EntriesTyped(s)
    ensures var next := Step(env, s, a);
      || next.log == s.log
      || (next.log == s.log + [next.log[|s.log|]]
          && var entry := next.log[|s.log|];
             if a.Land? then a.index < |s.detached| && entry == s.detached[a.index].Operation()
             else
               && entry.task == a.id && a.id in s.tasks && OpOf(s.tasks[a.id].job, entry.op)
               && (s.tasks[a.id].job.Commit? ==> s.tasks[a.id].pc.Written? && next.tasks[a.id].pc.Saved?))
  {
  }

  /** No step changes a job or another task, and a commit moves into or out of the committed
      places only as its entry is logged. */
  lemma StepKeepsOthers(env: Env, s: State, a: Action, id: nat)
    requires EntriesTyped(s) && id in s.tasks
    ensures var next := Step(env, s, a);
      && id in next.tasks && next.tasks[id].job == s.tasks[id].job
      && (next.tasks[id].pc != s.tasks[id].pc ==> !a.Land? && !a.Start? && a.id == id)
      && (s.tasks[id].job.Commit? && next.log == s.log ==> (IsCommitted(next.tasks[id].pc) <==> IsCommitted(s.tasks[id].pc)))
  {
  }

  predicate LeftTyped(s: State, left: Detached) {
    left.task in s.tasks && s.tasks[left.task].job.Mode?
  }

  lemma StepDetaches(env: Env, s: State, a: Action, i: nat)
    requires EntriesTyped(s) && i < |Step(env, s, a).detached|
    ensures LeftTyped(s, Step(env, s, a).detached[i])
  {
    var next := Step(env, s, a);
    if a.Land? && a.index < |s.detached| {
      assert next.detached[i] == if i < a.index then s.detached[i] else s.detached[i + 1];
    } else if |next.detached| > |s.detached| {
      assert next.detached[..|s.detached|] == s.detached;
    }
  }

  lemma StepPcOf(env: Env, s: State, a: Action, id: nat)
    requires EntriesTyped(s) && id in Step(env, s, a).tasks
    ensures PcOf(Step(env, s, a).tasks[id].job, Step(env, s, a).tasks[id].pc)
  {
  }

  lemma StepTyped(env: Env, s: State, a: Action)
    requires EntriesTyped(s)
    ensures EntriesTyped(Step(env, s, a))
  {
    var next := Step(env, s, a);
    StepLogs(env, s, a);
    forall id | id in s.tasks
      ensures id in next.tasks && next.tasks[id].job == s.tasks[id].job
    {
      StepKeepsOthers(env, s, a, id);
    }
    forall i | 0 <= i < |next.detached|
      ensures LeftTyped(next, next.detached[i])
    {
      StepDetaches(env, s, a, i);
    }
    forall id | id in next.tasks
      ensures PcOf(next.tasks[id].job, next.tasks[id].pc)
    {
      StepPcOf(env, s, a, id);
    }
  }

  lemma StepTraced(env: Env, s: State, a: Action)
    requires EntriesTyped(s) && CommitsTraced(s)
    ensures CommitsTraced(Step(env, s, a))
  {
    StepLogs(env, s, a);
    var next := Step(env, s, a);
    forall id | id in next.tasks && next.tasks[id].job.Commit?
      ensures InLog(next.log, id) <==> IsCommitted(next.tasks[id].pc)
    {
      if id in s.tasks {
        StepKeepsOthers(env, s, a, id);
        if next.log != s.log {
          InLogGrows(s.log, next.log[|s.log|], id);
        }
      } else {
        assert !InLog(s.log, id);
      }
    }
    forall i, j | 0 <= i < j < |next.log| && next.log[i].task == next.log[j].task
      ensures next.log[i].task in next.tasks && !next.tasks[next.log[i].task].job.Commit?
    {
      StepKeepsOthers(env, s, a, next.log[i].task);
      if j == |s.log| {
        assert InLog(s.log, next.log[i].task);
      }
    }
  }

  /** In every run, wherever renames land: a commit that failed, rolled back or was cancelled before it
      committed has no entry, and one that committed has exactly one, for its own build. */
  lemma {:induction false} UncommittedLeaveNoTrace(env: Env, origin: Option<Text>, actions: seq<Action>)
    ensures EntriesTyped(After(env, Initial(origin), actions))
    ensures CommitsTraced(After(env, Initial(origin), actions))
    decreases |actions|
  {
    if actions != [] {
      var before := After(env, Initial(origin), actions[..|actions| - 1]);
      UncommittedLeaveNoTrace(env, origin, actions[..|actions| - 1]);
      StepTyped(env, before, actions[|actions| - 1]);
      StepTraced(env, before, actions[|actions| - 1]);
    }
  }

  // ---------- what a mode task sets and puts back ----------

  /** Entry `k` is a mode task's own switch, and `mode` was in force just before it. */
  predicate SwitchedFrom(env: Env, origin: Option<Text>, log: seq<Entry>, k: int, id: nat, job: Job, mode: string) {
    && 0 <= k < |log| && log[k].task == id && job.Mode? && log[k].op == SetMode(job.mode)
    && mode == ModeOf(env.load(Serial(env, origin, log[..k])))
  }

  ghost predicate Undoes(env: Env, origin: Option<Text>, log: seq<Entry>, id: nat, job: Job, mode: string) {
    exists k :: SwitchedFrom(env, origin, log, k, id, job, mode)
  }

  /** What a mode task may write: the mode asked for, or the one its own switch replaced. */
  ghost predicate MayWrite(env: Env, origin: Option<Text>, log: seq<Entry>, id: nat, job: Job, op: Op) {
    op.SetMode? && job.Mode? && (op.mode == job.mode || Undoes(env, origin, log, id, job, op.mode))
  }

  lemma UndoesGrows(env: Env, origin: Option<Text>, log: seq<Entry>, entry: Entry, id: nat, job: Job, mode: string)
    requires Undoes(env, origin, log, id, job, mode)
    ensures Undoes(env, origin, log + [entry], id, job, mode)
  {
    var k :| SwitchedFrom(env, origin, log, k, id, job, mode);
    assert (log + [entry])[..k] == log[..k];
    assert SwitchedFrom(env, origin, log + [entry], k, id, job, mode);
  }

  ghost predicate PcReverts(env: Env, origin: Option<Text>, log: seq<Entry>, id: nat, task: Task) {
    match task.pc
    case Waiting(back) => back.Some? ==> Undoes(env, origin, log, id, task.job, back.value)
    case Holding(back) => back.Some? ==> Undoes(env, origin, log, id, task.job, back.value)
    case Loaded(back, _) => back.Some? ==> Undoes(env, origin, log, id, task.job, back.value)
    case Renaming(_, _, mode, live) =>
      && MayWrite(env, origin, log, id, task.job, SetMode(mode))
      && (live.Some? ==> mode == task.job.mode && live.value == ModeOf(env.load(Serial(env, origin, log))))
    case Saved(live) => live.Some? ==> Undoes(env, origin, log, id, task.job, live.value)
    case Live(before) => Undoes(env, origin, log, id, task.job, before)
    case _ => true
  }

  ghost predicate PcsRevert(env: Env, origin: Option<Text>, s: State) {
    forall id | id in s.tasks :: PcReverts(env, origin, s.log, id, s.tasks[id])
  }

  ghost predicate LeftReverts(env: Env, origin: Option<Text>, s: State, left: Detached) {
    && left.task in s.tasks
    && MayWrite(env, origin, s.log, left.task, s.tasks[left.task].job, SetMode(left.mode))
  }

  ghost predicate EntryReverts(env: Env, origin: Option<Text>, s: State, i: int)
    requires 0 <= i < |s.log|
  {
    && s.log[i].task in s.tasks
    && (s.tasks[s.log[i].task].job.Mode? ==>
          MayWrite(env, origin, s.log[..i], s.log[i].task, s.tasks[s.log[i].task].job, s.log[i].op))
  }

  /** Every write of a mode task sets the mode it was asked for, or puts back the one that was
      in force just before its own switch. */
  ghost predicate Reverts(env: Env, origin: Option<Text>, s: State) {
    && PcsRevert(env, origin, s)
    && (forall i | 0 <= i < |s.detached| :: LeftReverts(env, origin, s, s.detached[i]))
    && (forall i | 0 <= i < |s.log| :: EntryReverts(env, origin, s, i))
  }

  /** A task that does not move keeps what it relies on as the log grows. */
  lemma OthersRevert(env: Env, origin: Option<Text>, log: seq<Entry>, entry: Entry, id: nat, task: Task)
    requires PcReverts(env, origin, log, id, task) && !task.pc.Renaming?
    ensures PcReverts(env, origin, log + [entry], id, task)
  {
    match task.pc
    case Waiting(back) => if back.Some? { UndoesGrows(env, origin, log, entry, id, task.job, back.value); }
    case Holding(back) => if back.Some? { UndoesGrows(env, origin, log, entry, id, task.job, back.value); }
    case Loaded(back, _) => if back.Some? { UndoesGrows(env, origin, log, entry, id, task.job, back.value); }
    case Saved(live) => if live.Some? { UndoesGrows(env, origin, log, entry, id, task.job, live.value); }
    case Live(before) => UndoesGrows(env, origin, log, entry, id, task.job, before);
    case _ =>
  }

  /** A task that moves keeps what it relies on, too. */
  lemma MoverReverts(env: Env, origin: Option<Text>, s: State, a: Action, id: nat)
    requires Serialised(env, origin, s) && EntriesTyped(s) && PcsRevert(env, origin, s)
    requires !a.Start? && !a.Land? && a.id == id && id in s.tasks
    ensures PcReverts(env, origin, Step(env, s, a).log, id, Step(env, s, a).tasks[id])
  {
    var task := s.tasks[id];
    assert PcReverts(env, origin, s.log, id, task);
    if a.FinishRename? && task.pc.Renaming? && task.pc.live.Some? {
      var longer := s.log + [Entry(id, s.turns, SetMode(task.pc.mode))];
      assert longer[..|s.log|] == s.log;
      assert SwitchedFrom(env, origin, longer, |s.log|, id, task.job, task.pc.live.value);
    }
  }

  lemma StepPcsRevert(env: Env, origin: Option<Text>, s: State, a: Action)
    requires Serialised(env, origin, s) && Harmless(env, s, a) && EntriesTyped(s) && PcsRevert(env, origin, s)
    ensures PcsRevert(env, origin, Step(env, s, a))
  {
    var next := Step(env, s, a);
    StepLogs(env, s, a);
    forall id | id in next.tasks
      ensures PcReverts(env, origin, next.log, id, next.tasks[id])
    {
      if id in s.tasks {
        StepKeepsOthers(env, s, a, id);
        if !a.Start? && !a.Land? && a.id == id {
          MoverReverts(env, origin, s, a, id);
        } else if next.log != s.log {
          assert !s.tasks[id].pc.Renaming?;
          OthersRevert(env, origin, s.log, next.log[|s.log|], id, s.tasks[id]);
        }
      }
    }
  }

  /** Whatever a step logs is something its task may write. */
  lemma StepWrites(env: Env, origin: Option<Text>, s: State, a: Action)
    requires EntriesTyped(s) && Reverts(env, origin, s)
    ensures var next := Step(env, s, a);
      next.log != s.log ==> |next.log| > |s.log| && EntryReverts(env, origin, next, |s.log|)
  {
    var next := Step(env, s, a);
    StepLogs(env, s, a);
    if next.log != s.log {
      assert next.log[..|s.log|] == s.log;
      var id := next.log[|s.log|].task;
      assert id in s.tasks;
      StepKeepsOthers(env, s, a, id);
      assert PcReverts(env, origin, s.log, id, s.tasks[id]);
    }
  }

  /** And so is whatever it leaves behind. */
  lemma StepLeaves(env: Env, origin: Option<Text>, s: State, a: Action, i: nat)
    requires EntriesTyped(s) && Reverts(env, origin, s) && i < |Step(env, s, a).detached|
    ensures LeftReverts(env, origin, s, Step(env, s, a).detached[i])
  {
    var next := Step(env, s, a);
    if a.Land? && a.index < |s.detached| {
      assert next.detached[i] == if i < a.index then s.detached[i] else s.detached[i + 1];
    } else if i < |s.detached| {
      assert next.detached[i] == s.detached[i];
    } else {
      assert PcReverts(env, origin, s.log, a.id, s.tasks[a.id]);
    }
  }

  lemma StepReverts(env: Env, origin: Option<Text>, s: State, a: Action)
    requires Serialised(env, origin, s) && Harmless(env, s, a) && EntriesTyped(s) && Reverts(env, origin, s)
    ensures Reverts(env, origin, Step(env, s, a))
  {
    var next := Step(env, s, a);
    StepPcsRevert(env, origin, s, a);
    StepWrites(env, origin, s, a);
    StepLogs(env, s, a);
    forall id | id in s.tasks
      ensures id in next.tasks && next.tasks[id].job == s.tasks[id].job
    {
      StepKeepsOthers(env, s, a, id);
    }
    forall i | 0 <= i < |next.log|
      ensures EntryReverts(env, origin, next, i)
    {
      if i < |s.log| {
        assert EntryReverts(env, origin, s, i);
        assert next.log[..i] == s.log[..i];
      }
    }
    forall i | 0 <= i < |next.detached|
      ensures LeftReverts(env, origin, next, next.detached[i])
    {
      StepLeaves(env, origin, s, a, i);
      var left := next.detached[i];
      var job := s.tasks[left.task].job;
      assert MayWrite(env, origin, s.log, left.task, job, SetMode(left.mode));
      if next.log != s.log && left.mode != job.mode {
        UndoesGrows(env, origin, s.log, next.log[|s.log|], left.task, job, left.mode);
      }
    }
  }

  /** Over every such run, mode tasks write nothing but the mode asked for or the one replaced. */
  lemma {:induction false} ModeTasksRevert(env: Env, origin: Option<Text>, actions: seq<Action>)
    requires AllHarmless(env, Initial(origin), actions)
    ensures Reverts(env, origin, After(env, Initial(origin), actions))
    decreases |actions|
  {
    if actions != [] {
      var n := |actions| - 1;
      HarmlessFront(env, Initial(origin), actions, n);
      ModeTasksRevert(env, origin, actions[..n]);
      HarmlessRun(env, origin, actions[..n]);
      UncommittedLeaveNoTrace(env, origin, actions[..n]);
      assert HarmlessAt(env, Initial(origin), actions, n);
      StepReverts(env, origin, After(env, Initial(origin), actions[..n]), actions[n]);
    }
  }

  /** When a mode task puts a mode back, whatever was committed in between stays: that write
      changes the key `mode` alone, to the mode in force just before its own switch. */
  lemma PutBackLeavesTheRest(env: Env, origin: Option<Text>, actions: seq<Action>, i: nat) returns (k: nat)
    requires SavesBack(env)
    requires AllHarmless(env, Initial(origin), actions)
    requires i < |After(env, Initial(origin), actions).log|
    requires var s := After(env, Initial(origin), actions);
      && s.log[i].task in s.tasks && s.tasks[s.log[i].task].job.Mode?
      && s.log[i].op != SetMode(s.tasks[s.log[i].task].job.mode)
    ensures var s := After(env, Initial(origin), actions);
      && k < i && s.log[k] == s.log[k].(task := s.log[i].task, op := SetMode(s.tasks[s.log[i].task].job.mode))
      && env.load(Serial(env, origin, s.log[..i + 1]))
           == env.load(Serial(env, origin, s.log[..i]))[MODE := Str(ModeOf(env.load(Serial(env, origin, s.log[..k]))))]
  {
    var s := After(env, Initial(origin), actions);
    ModeTasksRevert(env, origin, actions);
    assert EntryReverts(env, origin, s, i);
    var id := s.log[i].task;
    var m: int :| SwitchedFrom(env, origin, s.log[..i], m, id, s.tasks[id].job, s.log[i].op.mode);
    k := m;
    assert s.log[..i][..k] == s.log[..k];
    assert s.log[..i + 1] == s.log[..i] + [s.log[i]];
    SerialStep(env, origin, s.log[..i], s.log[i]);
  }

  // ---------- a mode task from its start to its end ----------

  /** The operations a task has in the log, in their order. */
  function OpsOf(log: seq<Entry>, id: nat): seq<Op> {
    if log == [] then []
    else OpsOf(log[..|log| - 1], id) + if log[|log| - 1].task == id then [log[|log| - 1].op] else []
  }

  lemma OpsGrow(log: seq<Entry>, entry: Entry, id: nat)
    ensures OpsOf(log + [entry], id) == OpsOf(log, id) + if entry.task == id then [entry.op] else []
  {
    assert (log + [entry])[..|log|] == log;
  }

  /** A live update that was made: whether it succeeded, and the mode to go back to if not. */
  datatype Update = Update(ok: bool, before: string)

  /** The live updates of a task over a run: the actions that found its update pending. */
  function UpdatesOf(env: Env, s: State, actions: seq<Action>, id: nat): seq<Update> {
    if actions == [] then []
    else
      var last, before := actions[|actions| - 1], After(env, s, actions[..|actions| - 1]);
      UpdatesOf(env, s, actions[..|actions| - 1], id)
      + if last.LiveUpdate? && last.id == id && id in before.tasks && before.tasks[id].pc.Live?
        then [Update(last.ok, before.tasks[id].pc.before)] else []
  }

  /** The task is neither cancelled nor hit by a disk error. */
  predicate Unbroken(actions: seq<Action>, id: nat) {
    forall i | 0 <= i < |actions| :: actions[i] != Cancel(id) && actions[i] != Fail(id)
  }

  /** How far a mode task is, by what it has logged and which live updates were made. */
  predicate AtStage(job: Job, pc: Pc, ops: seq<Op>, updates: seq<Update>)
    requires job.Mode?
  {
    var own := SetMode(job.mode);
    match pc
    case Waiting(back) => InPass(job, back, ops, updates)
    case Holding(back) => InPass(job, back, ops, updates)
    case Loaded(back, _) => InPass(job, back, ops, updates)
    case Renaming(back, _, mode, live) =>
      && InPass(job, back, ops, updates)
      && mode == (if back.Some? then back.value else job.mode)
      && (live.Some? <==> job.running && back.None?)
    case Saved(live) => if live.Some? then job.running && ops == [own] && updates == [] else Ended(job, ops, updates)
    case Live(_) => job.running && ops == [own] && updates == []
    case Done(_) => Ended(job, ops, updates)
    case _ => false
  }

  /** In the first pass nothing is logged; in the second the own switch is, and a live update failed. */
  predicate InPass(job: Job, back: Option<string>, ops: seq<Op>, updates: seq<Update>)
    requires job.Mode?
  {
    match back
    case None => ops == [] && updates == []
    case Some(before) => job.running && ops == [SetMode(job.mode)] && updates == [Update(false, before)]
  }

  /** What a mode task that was not interrupted has done at its end. */
  predicate Ended(job: Job, ops: seq<Op>, updates: seq<Update>)
    requires job.Mode?
  {
    if !job.running then ops == [SetMode(job.mode)] && updates == []
    else
      && |updates| == 1
      && ops == [SetMode(job.mode)] + if updates[0].ok then [] else [SetMode(updates[0].before)]
  }

  /** A task that leaves no rename behind logs only by its own steps. */
  lemma StepTrace(env: Env, s: State, a: Action, id: nat)
    requires a != Cancel(id) && forall i | 0 <= i < |s.detached| :: s.detached[i].task != id
    ensures forall i | 0 <= i < |Step(env, s, a).detached| :: Step(env, s, a).detached[i].task != id
    ensures a.Start? || a.Land? || a.id != id ==> OpsOf(Step(env, s, a).log, id) == OpsOf(s.log, id)
  {
    var next := Step(env, s, a);
    if |next.log| > |s.log| {
      assert next.log == s.log + [next.log[|s.log|]];
      OpsGrow(s.log, next.log[|s.log|], id);
    }
  }

  /** What a mode task's own step logs. */
  lemma OwnStepLogs(env: Env, s: State, a: Action)
    requires !a.Start? && !a.Land? && a.id in s.tasks && s.tasks[a.id].job.Mode? && !s.tasks[a.id].pc.Written?
    ensures var pc := s.tasks[a.id].pc;
      OpsOf(Step(env, s, a).log, a.id)
        == OpsOf(s.log, a.id) + if a.FinishRename? && pc.Renaming? then [SetMode(pc.mode)] else []
  {
    var next := Step(env, s, a);
    if |next.log| > |s.log| {
      OpsGrow(s.log, next.log[|s.log|], a.id);
    }
  }

  /** Where a mode task's own step takes it. */
  lemma StageMoves(env: Env, s: State, a: Action, ops: seq<Op>, updates: seq<Update>)
    requires !a.Start? && !a.Land? && !a.Cancel? && !a.Fail? && a.id in s.tasks && s.tasks[a.id].job.Mode?
    requires AtStage(s.tasks[a.id].job, s.tasks[a.id].pc, ops, updates)
    ensures var (pc, next) := (s.tasks[a.id].pc, Step(env, s, a));
      && a.id in next.tasks && next.tasks[a.id].job == s.tasks[a.id].job
      && AtStage(next.tasks[a.id].job, next.tasks[a.id].pc,
           ops + (if a.FinishRename? && pc.Renaming? then [SetMode(pc.mode)] else []),
           updates + if a.LiveUpdate? && pc.Live? then [Update(a.ok, pc.before)] else [])
  {
    assert ops + [] == ops && updates + [] == updates;
  }

  /** One step of the task itself. */
  lemma StageStep(env: Env, s: State, a: Action, id: nat, updates: seq<Update>)
    requires id in s.tasks && s.tasks[id].job.Mode? && AtStage(s.tasks[id].job, s.tasks[id].pc, OpsOf(s.log, id), updates)
    requires !a.Start? && !a.Land? && a.id == id && !a.Cancel? && !a.Fail?
    ensures var next := Step(env, s, a);
      && id in next.tasks && next.tasks[id].job == s.tasks[id].job
      && AtStage(next.tasks[id].job, next.tasks[id].pc, OpsOf(next.log, id),
           updates + if a.LiveUpdate? && s.tasks[id].pc.Live? then [Update(a.ok, s.tasks[id].pc.before)] else [])
  {
    OwnStepLogs(env, s, a);
    StageMoves(env, s, a, OpsOf(s.log, id), updates);
  }

  lemma {:induction false} ModeTaskAtStage(env: Env, origin: Option<Text>, actions: seq<Action>, id: nat)
    requires Unbroken(actions, id)
    ensures var s := After(env, Initial(origin), actions);
      && (forall i | 0 <= i < |s.detached| :: s.detached[i].task != id)
      && (id !in s.tasks ==> OpsOf(s.log, id) == [] && UpdatesOf(env, Initial(origin), actions, id) == [])
      && (id in s.tasks && s.tasks[id].job.Mode? ==>
            AtStage(s.tasks[id].job, s.tasks[id].pc, OpsOf(s.log, id), UpdatesOf(env, Initial(origin), actions, id)))
    decreases |actions|
  {
    if actions != [] {
      var front, a := actions[..|actions| - 1], actions[|actions| - 1];
      assert forall i | 0 <= i < |front| :: front[i] == actions[i];
      ModeTaskAtStage(env, origin, front, id);
      UncommittedLeaveNoTrace(env, origin, front);
      var s := After(env, Initial(origin), front);
      if id !in s.tasks {
        StepTrace(env, s, a, id);
        UnknownStays(env, s, a, id);
      } else {
        StepTrace(env, s, a, id);
        StepKeepsOthers(env, s, a, id);
        if s.tasks[id].job.Mode? && !a.Start? && !a.Land? && a.id == id {
          StageStep(env, s, a, id, UpdatesOf(env, Initial(origin), front, id));
        }
      }
    }
  }

  /** A task that has not started has no part in a step. */
  lemma UnknownStays(env: Env, s: State, a: Action, id: nat)
    requires id !in s.tasks && a != Cancel(id)
    ensures !a.Start? && !a.Land? && a.id == id ==> Step(env, s, a) == s
    ensures id in Step(env, s, a).tasks ==> a.Start? && Step(env, s, a).tasks[id] == Task(a.job, Waiting(None))
  {
  }

  /** A mode task on a running core that ended without a cancellation or disk error, whatever
      others did meanwhile, made its live update exactly once. If the update succeeded, its own
      switch is all it logged; if it failed, it logged its switch and then the mode to go back to.
      On a stopped core it logged its switch and made no update. */
  lemma ModeTaskEnds(env: Env, origin: Option<Text>, actions: seq<Action>, id: nat)
    requires Unbroken(actions, id)
    requires var s := After(env, Initial(origin), actions); id in s.tasks && s.tasks[id].job.Mode? && s.tasks[id].pc.Done?
    ensures var s := After(env, Initial(origin), actions);
      var (job, ops, updates) := (s.tasks[id].job, OpsOf(s.log, id), UpdatesOf(env, Initial(origin), actions, id));
      && (!job.running ==> ops == [SetMode(job.mode)] && updates == [])
      && (job.running ==> |updates| == 1)
      && (job.running ==>
            ops == if updates[0].ok then [SetMode(job.mode)] else [SetMode(job.mode), SetMode(updates[0].before)])
  {
    ModeTaskAtStage(env, origin, actions, id);
  }

  /** One undisturbed pass of a mode task over a free lock: the file gets the mode and nothing
      else changes, one entry is logged, and after a first pass on a running core the live update
      is due, with the mode that was in force. */
  lemma ModePass(env: Env, s: State, id: nat)
    requires SavesBack(env) && s.holder.None? && id in s.tasks && s.tasks[id].job.Mode? && s.tasks[id].pc.Waiting?
    ensures var (job, back) := (s.tasks[id].job, s.tasks[id].pc.back);
      var mode := if back.Some? then back.value else job.mode;
      var end := After(env, s, [Acquire(id), Load(id), IssueRename(id), FinishRename(id), Release(id)]);
      && EndsWith(end, s.log, Entry(id, s.turns + 1, SetMode(mode)), Perform(env, SetMode(mode), s.file))
      && env.load(end.file) == env.load(s.file)[MODE := Str(mode)]
      && end.tasks == s.tasks[id := Task(job,
           if job.running && back.None? then Live(ModeOf(env.load(s.file))) else Done(true))]
  {
    var task := s.tasks[id];
    var (job, back) := (task.job, task.pc.back);
    var mode := if back.Some? then back.value else job.mode;
    var live := if job.running && back.None? then Some(ModeOf(env.load(s.file))) else None;
    var s1 := s.(holder := Some(id), turns := s.turns + 1, tasks := s.tasks[id := Task(job, Holding(back))]);
    var s2 := s1.(tasks := s.tasks[id := Task(job, Loaded(back, s.file))]);
    var s3 := s1.(tasks := s.tasks[id := Task(job, Renaming(back, s.file, mode, live))]);
    var s4 := s1.(tasks := s.tasks[id := Task(job, Saved(live))], log := s.log + [Entry(id, s.turns + 1, SetMode(mode))],
      file := Perform(env, SetMode(mode), s.file));
    var actions := [Acquire(id), Load(id), IssueRename(id), FinishRename(id), Release(id)];
    ModePassSteps(env, s, id, s1, s2, s3, s4);
    FiveSteps(env, s, actions);
    assert env.load(Some(env.save(env.load(s.file)[MODE := Str(mode)]))) == env.load(s.file)[MODE := Str(mode)];
    var end := Step(env, s4, Release(id));
    assert end.tasks == s.tasks[id := Task(job, if live.Some? then Live(live.value) else Done(true))];
  }

  lemma ModePassSteps(env: Env, s: State, id: nat, s1: State, s2: State, s3: State, s4: State)
    requires s.holder.None? && id in s.tasks && s.tasks[id].job.Mode? && s.tasks[id].pc.Waiting?
    requires var (job, back) := (s.tasks[id].job, s.tasks[id].pc.back);
      var mode := if back.Some? then back.value else job.mode;
      var live := if job.running && back.None? then Some(ModeOf(env.load(s.file))) else None;
      && s1 == s.(holder := Some(id), turns := s.turns + 1, tasks := s.tasks[id := Task(job, Holding(back))])
      && s2 == s1.(tasks := s.tasks[id := Task(job, Loaded(back, s.file))])
      && s3 == s1.(tasks := s.tasks[id := Task(job, Renaming(back, s.file, mode, live))])
      && s4 == s1.(tasks := s.tasks[id := Task(job, Saved(live))], log := s.log + [Entry(id, s.turns + 1, SetMode(mode))],
           file := Perform(env, SetMode(mode), s.file))
    ensures Step(env, s, Acquire(id)) == s1 && Step(env, s1, Load(id)) == s2
    ensures Step(env, s2, IssueRename(id)) == s3 && Step(env, s3, FinishRename(id)) == s4
  {
    assert Step(env, s1, Load(id)).tasks == s2.tasks;
    assert Step(env, s2, IssueRename(id)).tasks == s3.tasks;
    assert Step(env, s3, FinishRename(id)).tasks == s4.tasks;
  }

  lemma FiveSteps(env: Env, s: State, actions: seq<Action>)
    requires |actions| == 5
    ensures After(env, s, actions)
      == Step(env, Step(env, Step(env, Step(env, Step(env, s, actions[0]), actions[1]), actions[2]), actions[3]), actions[4])
  {
    assert actions[..4][..3] == actions[..3] && actions[..3][..2] == actions[..2] && actions[..2][..1] == actions[..1];
    assert After(env, s, actions[..1]) == Step(env, s, actions[0]) by {
      assert actions[..1][..0] == [];
    }
    assert After(env, s, actions[..2]) == Step(env, After(env, s, actions[..1]), actions[1]);
    assert After(env, s, actions[..3]) == Step(env, After(env, s, actions[..2]), actions[2]);
    assert After(env, s, actions[..4]) == Step(env, After(env, s, actions[..3]), actions[3]);
  }

  /** A failed live update sends the task back through the lock. With nobody in between, the file
      ends with the mode that was in force before and is otherwise as it was; a successful update
      ends the task and touches nothing. */
  lemma FailedUpdateIsPutBack(env: Env, s: State, id: nat)
    requires SavesBack(env) && s.holder.None? && id in s.tasks && s.tasks[id].job.Mode? && s.tasks[id].pc.Live?
    ensures var before := s.tasks[id].pc.before;
      var pass := [Acquire(id), Load(id), IssueRename(id), FinishRename(id), Release(id)];
      var end, fine := After(env, s, [LiveUpdate(id, false)] + pass), After(env, s, [LiveUpdate(id, true)]);
      && EndsWith(end, s.log, Entry(id, s.turns + 1, SetMode(before)), Perform(env, SetMode(before), s.file))
      && env.load(end.file) == env.load(s.file)[MODE := Str(before)]
      && id in end.tasks && end.tasks[id].pc == Done(true)
      && fine == s.(tasks := s.tasks[id := Task(s.tasks[id].job, Done(true))])
  {
    var pass := [Acquire(id), Load(id), IssueRename(id), FinishRename(id), Release(id)];
    var failed := Step(env, s, LiveUpdate(id, false));
    AfterConcat(env, s, [LiveUpdate(id, false)], pass);
    assert [LiveUpdate(id, false)][..0] == [] && [LiveUpdate(id, true)][..0] == [];
    assert After(env, s, [LiveUpdate(id, false)]) == failed;
    ModePass(env, failed, id);
  }

  /** An undisturbed TUN change over a free lock rewrites the file from what is there. */
  lemma TunPass(env: Env, s: State, id: nat, verge: nat)
    requires s.holder.None? && id in s.tasks && s.tasks[id].job.Tun? && s.tasks[id].pc == Waiting(None)
    ensures var end := After(env, s, [Acquire(id), Load(id), Write(id, verge), Release(id)]);
      EndsWith(end, s.log, Entry(id, s.turns + 1, Rebuild(None, verge, s.tasks[id].job.tun)),
        Some(env.render(env.prepare(env.load(s.file), verge, s.tasks[id].job.tun))))
  {
    var s1 := Step(env, s, Acquire(id));
    var s2 := Step(env, s1, Load(id));
    AfterFirst(env, s, [Acquire(id), Load(id), Write(id, verge), Release(id)]);
    AfterFirst(env, s1, [Load(id), Write(id, verge), Release(id)]);
    assert [Acquire(id), Load(id), Write(id, verge), Release(id)][1..] == [Load(id), Write(id, verge), Release(id)];
    assert [Load(id), Write(id, verge), Release(id)][1..] == [Write(id, verge), Release(id)];
    LoadedTunFinishes(env, s2, id, verge);
  }

  // ---------- the steps of one commit ----------

  /** What a commit that holds the lock writes, if its closure accepts the configuration. */
  function CommitText(env: Env, job: Job, file: Option<Text>, verge: nat): Option<Text>
    requires job.Commit?
  {
    match env.build(job.build, env.load(file))
    case Some(config) => Some(env.render(env.prepare(config, verge, job.tun)))
    case None => None
  }

  /** The steps of a commit that ends so: through to the commit, or a failure before the write. */
  function CommitActions(id: nat, verge: nat, e: RuntimeTransaction.Ending): seq<Action> {
    match e
    case Applied => [Load(id), BackUp(id), Write(id, verge), CommitWritten(id), Release(id)]
    case Failed => [Load(id), Fail(id)]
    case Dropped(committed) =>
      if committed then [Load(id), BackUp(id), Write(id, verge), CommitWritten(id), Release(id)] else [Load(id), Cancel(id)]
  }

  /** Every way in which `commit_runtime_config` can end, as its sequential model leaves the file,
      is a run of one task's steps under the lock: the same file, the lock free again, and an entry
      in the log exactly if it committed. */
  lemma CommitEndsAsSteps(env: Env, s: State, id: nat, verge: nat, e: RuntimeTransaction.Ending, after: Option<Text>)
    requires s.holder == Some(id) && id in s.tasks && s.tasks[id].job.Commit? && s.tasks[id].pc.Holding?
    requires s.tasks[id].pc.back.None?
    requires RuntimeTransaction.Leaves(s.file, after, e, CommitText(env, s.tasks[id].job, s.file, verge))
    ensures var end := After(env, s, CommitActions(id, verge, e));
      && end.file == after && end.holder.None?
      && id in end.tasks && end.tasks[id].pc == Done(RuntimeTransaction.Committed(e))
      && end.log == s.log + if RuntimeTransaction.Committed(e)
           then [Entry(id, s.turns, Rebuild(Some(s.tasks[id].job.build), verge, s.tasks[id].job.tun))] else []
  {
    if RuntimeTransaction.Committed(e) {
      CommitReachesWrite(env, s, id, verge);
      WrittenFinishes(env, After(env, s, [Load(id), BackUp(id), Write(id, verge)]), id);
      AfterConcat(env, s, [Load(id), BackUp(id), Write(id, verge)], [CommitWritten(id), Release(id)]);
      assert [Load(id), BackUp(id), Write(id, verge)] + [CommitWritten(id), Release(id)] == CommitActions(id, verge, e);
    } else {
      UnwrittenEnds(env, s, id);
    }
  }

  lemma UnwrittenEnds(env: Env, s: State, id: nat)
    requires s.holder == Some(id) && id in s.tasks && s.tasks[id].job.Commit? && s.tasks[id].pc == Holding(None)
    ensures var failed, dropped := After(env, s, [Load(id), Fail(id)]), After(env, s, [Load(id), Cancel(id)]);
      && failed == dropped && failed.file == s.file && failed.holder.None? && failed.log == s.log
      && id in failed.tasks && failed.tasks[id].pc == Done(false)
  {
    var s1 := Step(env, s, Load(id));
    AfterFirst(env, s, [Load(id), Fail(id)]);
    AfterFirst(env, s1, [Fail(id)]);
    AfterFirst(env, s, [Load(id), Cancel(id)]);
    AfterFirst(env, s1, [Cancel(id)]);
    assert [Load(id), Fail(id)][1..] == [Fail(id)] && [Load(id), Cancel(id)][1..] == [Cancel(id)];
    assert [Fail(id)][1..] == [] && [Cancel(id)][1..] == [];
  }

  /** A commit that holds the lock, up to its write. */
  lemma CommitReachesWrite(env: Env, s: State, id: nat, verge: nat)
    requires s.holder == Some(id) && id in s.tasks && s.tasks[id].job.Commit? && s.tasks[id].pc.Holding?
    requires CommitText(env, s.tasks[id].job, s.file, verge).Some?
    ensures var job := s.tasks[id].job;
      After(env, s, [Load(id), BackUp(id), Write(id, verge)])
        == s.(file := CommitText(env, job, s.file, verge),
              tasks := s.tasks[id := Task(job, Written(s.file, Rebuild(Some(job.build), verge, job.tun)))])
  {
    var actions := [Load(id), BackUp(id), Write(id, verge)];
    var s1 := Step(env, s, Load(id));
    var s2 := Step(env, s1, BackUp(id));
    AfterFirst(env, s, actions);
    AfterFirst(env, s1, actions[1..]);
    AfterFirst(env, s2, actions[1..][1..]);
    assert actions[1..][1..][1..] == [];
    assert s1.tasks == s.tasks[id := Task(s.tasks[id].job, Loaded(s.tasks[id].pc.back, s.file))];
    assert Step(env, s2, Write(id, verge)).tasks
        == s.tasks[id := Task(s.tasks[id].job, Written(s.file, Rebuild(Some(s.tasks[id].job.build), verge, s.tasks[id].job.tun)))];
  }

  /** A commit that has written ends without a trace whether it rolls back or is dropped. */
  lemma WrittenEndsAsBefore(env: Env, written: State, id: nat)
    requires written.holder == Some(id) && id in written.tasks && written.tasks[id].pc.Written?
    ensures var back, dropped := After(env, written, [RollBack(id), Release(id)]), After(env, written, [Cancel(id)]);
      && back == dropped && back.file == written.tasks[id].pc.previous
      && back.log == written.log && back.holder.None? && id in back.tasks && back.tasks[id].pc == Done(false)
  {
    AfterFirst(env, written, [RollBack(id), Release(id)]);
    AfterFirst(env, Step(env, written, RollBack(id)), [Release(id)]);
    AfterFirst(env, written, [Cancel(id)]);
    assert [RollBack(id), Release(id)][1..] == [Release(id)] && [Release(id)][1..] == [] && [Cancel(id)][1..] == [];
    assert Step(env, Step(env, written, RollBack(id)), Release(id)).tasks == Step(env, written, Cancel(id)).tasks;
  }

  // ---------- a run that loses a commit ----------

  const PROXIES := Str("proxies")

  /** A small environment: the file says whether the configuration has proxies. */
  function Witness(): Env {
    Env(
      file => if file == Some("p") then map[PROXIES := Null] else map[],
      config => if PROXIES in config then "p" else "n",
      config => if PROXIES in config then "p" else "n",
      (config, verge, tun) => config,
      (build, config) => Some(config[PROXIES := Null]))
  }

  /** A mode task is cancelled while its rename is on its way ... */
  function CancelledSwitch(): seq<Action> {
    [Start(0, Mode("global", true)), Acquire(0), Load(0), IssueRename(0), Cancel(0)]
  }

  /** ... and a profile is committed before the rename lands. */
  function LateCommit(): seq<Action> {
    [Start(1, Commit(0, false)), Acquire(1), Load(1)] + [BackUp(1), Write(1, 0), CommitWritten(1), Release(1)]
  }

  function SwitchLeft(): State {
    State(None, None, 1, map[0 := Task(Mode("global", true), Done(false))], [],
      [Detached(0, 1, "global", None)])
  }

  lemma SwitchIsCancelled()
    ensures After(Witness(), Initial(None), CancelledSwitch()) == SwitchLeft()
  {
    var env, job, all := Witness(), Mode("global", true), CancelledSwitch();
    var s0 := Initial(None);
    var s1 := s0.(tasks := map[0 := Task(job, Waiting(None))]);
    var s2 := State(None, Some(0), 1, map[0 := Task(job, Holding(None))], [], []);
    var s3 := s2.(tasks := map[0 := Task(job, Loaded(None, None))]);
    var s4 := s2.(tasks := map[0 := Task(job, Renaming(None, None, "global", Some(DEFAULT_MODE)))]);
    assert Step(env, s0, all[0]) == s1;
    assert Step(env, s1, all[1]) == s2;
    assert Step(env, s2, all[2]) == s3;
    assert Step(env, s3, all[3]) == s4;
    assert Step(env, s4, all[4]) == SwitchLeft();
    AfterFirst(env, s0, all);
    AfterFirst(env, s1, all[1..]);
    AfterFirst(env, s2, all[1..][1..]);
    AfterFirst(env, s3, all[1..][1..][1..]);
    AfterFirst(env, s4, all[1..][1..][1..][1..]);
    assert all[1..][1..][1..][1..][1..] == [];
  }

  function CommitDone(): State {
    var left := SwitchLeft();
    left.(file := Some("p"), turns := 2, tasks := left.tasks[1 := Task(Commit(0, false), Done(true))],
      log := [Entry(1, 2, Rebuild(Some(0), 0, false))])
  }

  function CommitLoaded(): State {
    var left := SwitchLeft();
    left.(holder := Some(1), turns := 2, tasks := left.tasks[1 := Task(Commit(0, false), Loaded(None, None))])
  }

  lemma CommitLoads()
    ensures After(Witness(), SwitchLeft(), [Start(1, Commit(0, false)), Acquire(1), Load(1)]) == CommitLoaded()
  {
    var env, job := Witness(), Commit(0, false);
    var all := [Start(1, job), Acquire(1), Load(1)];
    var s0 := SwitchLeft();
    var s1 := s0.(tasks := s0.tasks[1 := Task(job, Waiting(None))]);
    var s2 := s0.(holder := Some(1), turns := 2, tasks := s0.tasks[1 := Task(job, Holding(None))]);
    assert Step(env, s0, all[0]) == s1;
    assert Step(env, s1, all[1]) == s2;
    assert Step(env, s2, all[2]) == CommitLoaded();
    AfterFirst(env, s0, all);
    AfterFirst(env, s1, all[1..]);
    AfterFirst(env, s2, all[1..][1..]);
    assert all[1..][1..][1..] == [];
  }

  function CommitHasWritten(): State {
    CommitLoaded().(file := Some("p"),
      tasks := CommitLoaded().tasks[1 := Task(Commit(0, false), Written(None, Rebuild(Some(0), 0, false)))])
  }

  lemma CommitWrites()
    ensures After(Witness(), CommitLoaded(), [BackUp(1), Write(1, 0)]) == CommitHasWritten()
  {
    var env, job, all := Witness(), Commit(0, false), [BackUp(1), Write(1, 0)];
    var s0 := CommitLoaded();
    var s1 := s0.(tasks := s0.tasks[1 := Task(job, BackedUp(map[PROXIES := Null], None))]);
    assert Step(env, s0, all[0]) == s1;
    assert Step(env, s1, all[1]) == CommitHasWritten();
    AfterFirst(env, s0, all);
    AfterFirst(env, s1, all[1..]);
    assert all[1..][1..] == [];
  }

  lemma CommitCommits()
    ensures After(Witness(), CommitHasWritten(), [CommitWritten(1), Release(1)]) == CommitDone()
  {
    var env, all := Witness(), [CommitWritten(1), Release(1)];
    var s0 := CommitHasWritten();
    var s1 := s0.(tasks := s0.tasks[1 := Task(Commit(0, false), Saved(None))], log := [Entry(1, 2, Rebuild(Some(0), 0, false))]);
    assert Step(env, s0, all[0]) == s1;
    assert Step(env, s1, all[1]) == CommitDone();
    AfterFirst(env, s0, all);
    AfterFirst(env, s1, all[1..]);
    assert all[1..][1..] == [];
  }

  lemma CommitIsDone()
    ensures After(Witness(), SwitchLeft(), LateCommit()) == CommitDone()
  {
    CommitLoads();
    CommitWrites();
    CommitCommits();
    var first := [Start(1, Commit(0, false)), Acquire(1), Load(1)];
    AfterConcat(Witness(), CommitLoaded(), [BackUp(1), Write(1, 0)], [CommitWritten(1), Release(1)]);
    AfterConcat(Witness(), SwitchLeft(), first, [BackUp(1), Write(1, 0)] + [CommitWritten(1), Release(1)]);
    assert LateCommit() == first + ([BackUp(1), Write(1, 0)] + [CommitWritten(1), Release(1)]);
  }

  /** That run loses the committed profile: the lock is free, the commit is done, and the file
      is not what the log stands for. */
  lemma LateRenameLosesCommit()
    ensures var s := After(Witness(), Initial(None), CancelledSwitch() + LateCommit() + [Land(0)]);
      && s.holder.None? && 1 in s.tasks && s.tasks[1] == Task(Commit(0, false), Done(true))
      && s.file == Some("n") && Serial(Witness(), None, s.log) == Some("p")
  {
    var env, before := Witness(), CancelledSwitch() + LateCommit();
    SwitchIsCancelled();
    CommitIsDone();
    AfterConcat(env, Initial(None), CancelledSwitch(), LateCommit());
    assert After(env, Initial(None), before) == CommitDone();
    assert (before + [Land(0)])[..|before|] == before;
    var entry := Entry(1, 2, Rebuild(Some(0), 0, false));
    assert [entry][..0] == [];
    assert Serial(env, None, [entry]) == Some("p");
    SerialStep(env, None, [entry], Entry(0, 1, SetMode("global")));
    assert env.load(Some("p"))[MODE := Str("global")][PROXIES] == Null;
  }
}
