/**
 * Whole runs of the command-line program on the env registry: load the file, execute commands on the in-memory table,
 * write the file back. A run dies, before it saves, at an add to a table whose array is gone; a new env beyond the
 * fortieth is written behind the array, and from there on nothing is promised.
 */
module EnvSessions {
  import opened CStrings
  import opened Loader
  import opened Scanner
  import opened Table
  import opened Validators
  import opened Envs

  datatype Command =
    | AddEnv(added: Env)
    | UpdateEnv(name: string, key: string, value: string)
    | RemoveEnv(name: string, key: string)

  /** The registry inside a process; live says whether the pointer array is still there. */
  datatype Registry = Registry(envs: seq<Env>, live: bool)

  /** A command lets the run go on, ends it with an error status, kills the process, or writes behind the array. */
  datatype Step = Continue(registry: Registry) | Stop(registry: Registry) | Crash | Corrupt

  datatype Ending = Ended(envs: seq<Env>) | Crashed | Overwritten

  predicate ValidEnv(e: Env) {
    ValidEnvText(e.name) && ValidEnvText(e.key) && ValidEnvText(e.value)
  }

  /** The validators of envs keep out the delimiters that close name and key, but not the one that closes the value. */
  lemma ValidatorsMatchFormat(s: string)
    ensures ValidEnvText(s) <==> forall k :: 0 <= k < 2 ==> ENV_DELIMITERS[k] !in s
    ensures forall k :: 0 <= k < 3 ==> ENV_DELIMITERS[k] == "`^\n"[k]
  {
    assert ENV_DELIMITERS[0] == '`' && ENV_DELIMITERS[1] == '^';
  }

  predicate Has(envs: seq<Env>, name: string, key: string) {
    First(envs, Keyed(name, key)) < |envs|
  }

  function Execute(s: Registry, cmd: Command): Step {
    match cmd
    case AddEnv(e) =>
      if !ValidEnv(e) then Stop(s)
      else if Has(s.envs, e.name, e.key) then Continue(s)
      else if !s.live then Crash
      else if |s.envs| >= ENVS_GROWN then Corrupt
      else Continue(s.(envs := s.envs + [e]))
    case UpdateEnv(name, key, value) =>
      if !ValidEnv(Env(name, key, value)) || !Has(s.envs, name, key) then Stop(s)
      else Continue(s.(envs := Updated(s.envs, name, key, value)))
    case RemoveEnv(name, key) =>
      if !Has(s.envs, name, key) then Stop(s)
      else Continue(Registry(Without(s.envs, Keyed(name, key)), |s.envs| > 1))
  }

  function RunCommands(s: Registry, cmds: seq<Command>): Ending
    decreases |cmds|
  {
    if cmds == [] then Ended(s.envs) else
      match Execute(s, cmds[0])
      case Continue(next) => RunCommands(next, cmds[1..])
      case Stop(last) => Ended(last.envs)
      case Crash => Crashed
      case Corrupt => Overwritten
  }

  // ---- when a run survives ----

  /** What a command does to a list of unlimited room, and whether the run goes on. */
  function OnList(envs: seq<Env>, cmd: Command): (seq<Env>, bool) {
    match cmd
    case AddEnv(e) => (if ValidEnv(e) then Added(envs, e) else envs, ValidEnv(e))
    case UpdateEnv(name, key, value) =>
      var ok := ValidEnv(Env(name, key, value)) && Has(envs, name, key);
      (if ok then Updated(envs, name, key, value) else envs, ok)
    case RemoveEnv(name, key) => (Without(envs, Keyed(name, key)), Has(envs, name, key))
  }

  function RunOnList(envs: seq<Env>, cmds: seq<Command>): seq<Env>
    decreases |cmds|
  {
    if cmds == [] then envs else
      var (next, goesOn) := OnList(envs, cmds[0]);
      if goesOn then RunOnList(next, cmds[1..]) else next
  }

  /** The command appends an env. */
  predicate Appends(envs: seq<Env>, cmd: Command) {
    cmd.AddEnv? && ValidEnv(cmd.added) && !Has(envs, cmd.added.name, cmd.added.key)
  }

  /** No env is appended to a list of forty, nor to a list that was emptied in this run; used: it once held envs. */
  predicate Careful(envs: seq<Env>, used: bool, cmds: seq<Command>)
    decreases |cmds|
  {
    cmds == [] ||
    var (next, goesOn) := OnList(envs, cmds[0]);
    && (Appends(envs, cmds[0]) ==> |envs| < ENVS_GROWN && !(used && envs == []))
    && (goesOn ==> Careful(next, used || envs != [], cmds[1..]))
  }

  /** The list that a live table and the list without memory agree on; a table is live unless it was emptied. */
  lemma StepOnList(s: Registry, used: bool, cmd: Command)
    requires s.live <==> !(used && s.envs == [])
    ensures var (next, goesOn) := OnList(s.envs, cmd);
            match Execute(s, cmd)
            case Continue(r) => r.envs == next && goesOn && (r.live <==> !((used || s.envs != []) && next == []))
            case Stop(r) => r.envs == next && !goesOn
            case Crash => Appends(s.envs, cmd) && used && s.envs == []
            case Corrupt => Appends(s.envs, cmd) && |s.envs| >= ENVS_GROWN
    ensures Execute(s, cmd).Continue? || Execute(s, cmd).Stop? ==>
              (Appends(s.envs, cmd) ==> |s.envs| < ENVS_GROWN && !(used && s.envs == []))
  {
  }

  /** A run reaches its end exactly when it is careful, and then it has done what it does to a plain list. */
  lemma {:induction false} RunSurvivesExactly(s: Registry, used: bool, cmds: seq<Command>)
    requires s.live <==> !(used && s.envs == [])
    ensures RunCommands(s, cmds).Ended? <==> Careful(s.envs, used, cmds)
    ensures Careful(s.envs, used, cmds) ==> RunCommands(s, cmds) == Ended(RunOnList(s.envs, cmds))
    decreases |cmds|
  {
    hide Execute;
    hide OnList;
    hide Appends;
    if cmds != [] {
      StepOnList(s, used, cmds[0]);
      var step := Execute(s, cmds[0]);
      if step.Continue? {
        RunSurvivesExactly(step.registry, used || s.envs != [], cmds[1..]);
      }
    }
  }

  lemma AddToNothing(e: Env)
    requires ValidEnv(e)
    ensures Execute(Registry([], false), AddEnv(e)) == Crash
  {
  }

  /** The shortest fatal run: add an env, remove it, add another one. */
  lemma AddAfterEmptyingCrashes(a: Env, b: Env)
    requires ValidEnv(a) && ValidEnv(b)
    ensures RunCommands(Registry([], true), [AddEnv(a), RemoveEnv(a.name, a.key), AddEnv(b)]) == Crashed
  {
    hide Execute;
    var remove, cmds := RemoveEnv(a.name, a.key), [AddEnv(a), RemoveEnv(a.name, a.key), AddEnv(b)];
    assert cmds[1..] == [remove, AddEnv(b)] && cmds[1..][1..] == [AddEnv(b)];
    AddThenRemove([], a);
    assert [] + [a] == [a];
    AddToNothing(b);
    assert RunCommands(Registry([], false), [AddEnv(b)]) == Crashed;
    assert RunCommands(Registry([a], true), cmds[1..]) == Crashed;
  }

  /** An env added to a list of forty is written behind the array. */
  lemma {:induction false} FortyFirstAddOverwrites(envs: seq<Env>, e: Env, later: seq<Command>)
    requires |envs| == ENVS_GROWN && ValidEnv(e) && !Has(envs, e.name, e.key)
    ensures RunCommands(Registry(envs, true), [AddEnv(e)] + later) == Overwritten
  {
    assert Execute(Registry(envs, true), ([AddEnv(e)] + later)[0]) == Corrupt;
  }

  /** Removing an env just added restores the list; the array is gone when the list was empty. */
  lemma AddThenRemove(envs: seq<Env>, e: Env)
    requires Unique(envs) && ValidEnv(e) && !Has(envs, e.name, e.key) && |envs| < ENVS_GROWN
    ensures var added := Execute(Registry(envs, true), AddEnv(e));
            && added == Continue(Registry(envs + [e], true))
            && Execute(added.registry, RemoveEnv(e.name, e.key)) == Continue(Registry(envs, envs != []))
  {
    AddedThenWithout(envs, e);
    FirstUnique(envs + [e], Keyed(e.name, e.key), |envs|);
  }

  // ---- what every run keeps ----

  lemma StepKeepsUnique(s: Registry, cmd: Command)
    requires Unique(s.envs)
    ensures var step := Execute(s, cmd); step.Continue? || step.Stop? ==> Unique(step.registry.envs)
  {
    match cmd
    case AddEnv(e) => AddedKeepsUnique(s.envs, e);
    case UpdateEnv(name, key, value) => UpdatedKeepsUnique(s.envs, name, key, value);
    case RemoveEnv(name, key) => WithoutKeepsUnique(s.envs, Keyed(name, key));
  }

  /** Any run of add, update and remove that reaches its end leaves the pairs (name, key) distinct. */
  lemma {:induction false} RunKeepsUnique(s: Registry, cmds: seq<Command>)
    requires Unique(s.envs)
    ensures RunCommands(s, cmds).Ended? ==> Unique(RunCommands(s, cmds).envs)
    decreases |cmds|
  {
    hide Execute;
    hide Unique;
    if cmds != [] {
      StepKeepsUnique(s, cmds[0]);
      var step := Execute(s, cmds[0]);
      if step.Continue? {
        RunKeepsUnique(step.registry, cmds[1..]);
      }
    }
  }

  predicate NulFreeEnv(e: Env) {
    NulFree(e.name) && NulFree(e.key) && NulFree(e.value)
  }

  /** Command-line arguments are C strings. */
  predicate Argument(cmd: Command) {
    match cmd
    case AddEnv(e) => NulFreeEnv(e)
    case UpdateEnv(name, key, value) => NulFreeEnv(Env(name, key, value))
    case RemoveEnv(_, _) => true
  }

  /** No value in the command holds a newline. */
  predicate OneLine(cmd: Command) {
    match cmd
    case AddEnv(e) => '\n' !in e.value
    case UpdateEnv(_, _, value) => '\n' !in value
    case RemoveEnv(_, _) => true
  }

  /** What a table holds during a run: readable envs, at most forty. */
  ghost predicate HeldEnvs(envs: seq<Env>) {
    ReadableEnvs(envs) && |envs| <= ENVS_GROWN
  }

  lemma StepKeepsHeld(s: Registry, cmd: Command)
    requires HeldEnvs(s.envs) && Argument(cmd)
    ensures var step := Execute(s, cmd); step.Continue? || step.Stop? ==>
              HeldEnvs(step.registry.envs) && (!HasNewline(s.envs) && OneLine(cmd) ==> !HasNewline(step.registry.envs))
  {
    var step := Execute(s, cmd);
    if step.Continue? {
      StepKeepsUnique(s, cmd);
      var after := step.registry.envs;
      forall e | e in after ensures ReadableEnv(e) && (!HasNewline(s.envs) && OneLine(cmd) ==> '\n' !in e.value) {
        EnvComesFrom(s, cmd, e);
      }
    }
  }

  /** Every env after a command was there before, or has the command's text. */
  lemma EnvComesFrom(s: Registry, cmd: Command, e: Env)
    requires Execute(s, cmd).Continue? && e in Execute(s, cmd).registry.envs
    ensures || e in s.envs
            || (cmd.AddEnv? && ValidEnv(cmd.added) && e == cmd.added)
            || (cmd.UpdateEnv? && e == Env(cmd.name, cmd.key, cmd.value) && ValidEnv(e))
  {
  }

  lemma {:induction false} RunKeepsHeld(s: Registry, cmds: seq<Command>)
    requires HeldEnvs(s.envs) && forall cmd :: cmd in cmds ==> Argument(cmd)
    ensures RunCommands(s, cmds).Ended? ==>
              var envs := RunCommands(s, cmds).envs;
              && HeldEnvs(envs)
              && (!HasNewline(s.envs) && (forall cmd :: cmd in cmds ==> OneLine(cmd)) ==> !HasNewline(envs))
    decreases |cmds|
  {
    hide Execute;
    hide HasNewline;
    hide HeldEnvs;
    hide Argument;
    hide OneLine;
    if cmds != [] {
      StepKeepsHeld(s, cmds[0]);
      var step := Execute(s, cmds[0]);
      if step.Continue? {
        RunKeepsHeld(step.registry, cmds[1..]);
      }
    }
  }

  // ---- the file ----

  /** The env file after one run, None when a write behind the array leaves nothing promised. */
  ghost function AfterRun(file: string, cmds: seq<Command>): Option<string> {
    match Load(ENVS, file)
    case Loaded(envs) =>
      (match RunCommands(Registry(envs, true), cmds)
       case Ended(result) => Some(Encode(ENVS, result))
       case Crashed => Some(file)
       case Overwritten => None)
    case Rejected => Some(file)
    case Corrupted => None
  }

  /** A run that reaches its end saves what a plain list comes to; one that does not changes no file it leaves. */
  lemma FileAfterRun(file: string, cmds: seq<Command>)
    requires Load(ENVS, file).Loaded?
    ensures var envs := Load(ENVS, file).rows;
            if Careful(envs, false, cmds) then AfterRun(file, cmds) == Some(Encode(ENVS, RunOnList(envs, cmds)))
            else AfterRun(file, cmds) == None || AfterRun(file, cmds) == Some(file)
  {
    hide LoadFrom;
    hide Encode;
    RunSurvivesExactly(Registry(Load(ENVS, file).rows, true), false, cmds);
  }

  ghost function AfterRuns(file: string, runs: seq<seq<Command>>): Option<string>
    decreases |runs|
  {
    if runs == [] then Some(file) else
      match AfterRun(file, runs[0])
      case None => None
      case Some(next) => AfterRuns(next, runs[1..])
  }

  /** The same history without any file: a run that ends hands its list on, one that dies leaves the list as it was. */
  function Replay(envs: seq<Env>, runs: seq<seq<Command>>): Option<seq<Env>>
    decreases |runs|
  {
    if runs == [] then Some(envs) else
      match RunCommands(Registry(envs, true), runs[0])
      case Ended(result) => Replay(result, runs[1..])
      case Crashed => Replay(envs, runs[1..])
      case Overwritten => None
  }

  /** A run that reaches its end is durable exactly when none of its final values holds a newline. */
  lemma RunIsDurableExactly(file: string, cmds: seq<Command>)
    requires Load(ENVS, file).Loaded? && forall cmd :: cmd in cmds ==> Argument(cmd)
    requires RunCommands(Registry(Load(ENVS, file).rows, true), cmds).Ended?
    ensures var result := RunCommands(Registry(Load(ENVS, file).rows, true), cmds).envs;
            && AfterRun(file, cmds).Some?
            && (Load(ENVS, AfterRun(file, cmds).value) == Loaded(result) <==> !HasNewline(result))
  {
    hide LoadFrom;
    hide Encode;
    hide HasNewline;
    hide RunCommands;
    LoadedEnvsAreLoadable(file);
    var s := Registry(Load(ENVS, file).rows, true);
    RunKeepsHeld(s, cmds);
    EnvsRoundTripExactly(RunCommands(s, cmds).envs);
  }

  /**
   * Whole-history durability: from any loadable file, after any runs of commands without newlines in values, the file
   * is defined exactly when no run writes behind the array, and then it loads to the list of the replay.
   */
  lemma {:induction false} SessionsAreDurable(file: string, runs: seq<seq<Command>>)
    requires Load(ENVS, file).Loaded?
    requires forall cmds, cmd :: cmds in runs && cmd in cmds ==> Argument(cmd) && OneLine(cmd)
    ensures var replay := Replay(Load(ENVS, file).rows, runs);
            && (AfterRuns(file, runs).Some? <==> replay.Some?)
            && (replay.Some? ==> Load(ENVS, AfterRuns(file, runs).value) == Loaded(replay.value))
            && (replay.Some? ==> LoadableEnvs(replay.value))
    decreases |runs|
  {
    hide LoadFrom;
    hide Encode;
    hide HasNewline;
    hide RunCommands;
    hide Argument;
    hide OneLine;
    LoadedEnvsAreLoadable(file);
    if runs != [] {
      var s := Registry(Load(ENVS, file).rows, true);
      var ending := RunCommands(s, runs[0]);
      if ending.Ended? {
        RunKeepsHeld(s, runs[0]);
        RunIsDurableExactly(file, runs[0]);
        SessionsAreDurable(AfterRun(file, runs[0]).value, runs[1..]);
      } else if ending.Crashed? {
        SessionsAreDurable(file, runs[1..]);
      }
    }
  }

  // ---- the run as a program over the table ----

  /** How a command leaves the process. */
  datatype After = GoOn | Exit | Dead | Undefined

  ghost predicate Agrees(after: After, t: Table<Env>, step: Step)
    reads t, t.cells
  {
    match step
    case Continue(r) => after == GoOn && r == Registry(t.Rows(), t.slots != null)
    case Stop(r) => after == Exit && r == Registry(t.Rows(), t.slots != null)
    case Crash => after == Dead
    case Corrupt => after == Undefined
  }

  method IsValidEnv(e: Env) returns (ok: bool)
    ensures ok == ValidEnv(e)
  {
    var nameOk := IsValidEnvText(e.name);
    var keyOk := IsValidEnvText(e.key);
    var valueOk := IsValidEnvText(e.value);
    return nameOk && keyOk && valueOk;
  }

  method AddOn(t: Table<Env>, e: Env) returns (after: After)
    requires EnvTable(t)
    modifies t, t.slots
    ensures EnvTable(t) && (t.slots == old(t.slots) || fresh(t.slots))
    ensures forall cell :: cell in t.cells ==> cell in old(t.cells) || fresh(cell)
    ensures Agrees(after, t, Execute(old(Registry(t.Rows(), t.slots != null)), AddEnv(e)))
  {
    hide ValidEnv;
    hide First;
    var ok := IsValidEnv(e);
    if !ok {
      return Exit;
    }
    var end := AppendEnv(t, e);
    after := match end
      case Duplicate => GoOn
      case Appended => GoOn
      case NullWrite => Dead
      case BehindArray => Undefined;
  }

  method UpdateOn(t: Table<Env>, name: string, key: string, value: string) returns (after: After)
    requires EnvTable(t)
    modifies t.cells
    ensures EnvTable(t)
    ensures Agrees(after, t, Execute(old(Registry(t.Rows(), t.slots != null)), UpdateEnv(name, key, value)))
  {
    hide ValidEnv;
    hide First;
    var ok := IsValidEnv(Env(name, key, value));
    if !ok {
      return Exit;
    }
    ok := ChangeEnv(t, name, key, value);
    after := if ok then GoOn else Exit;
  }

  method RemoveOn(t: Table<Env>, name: string, key: string) returns (after: After)
    requires EnvTable(t)
    modifies t, t.slots
    ensures EnvTable(t) && (t.slots == null || t.slots == old(t.slots))
    ensures forall cell :: cell in t.cells ==> cell in old(t.cells)
    ensures Agrees(after, t, Execute(old(Registry(t.Rows(), t.slots != null)), RemoveEnv(name, key)))
  {
    hide First;
    var ok := DeleteEnv(t, name, key);
    after := if ok then GoOn else Exit;
  }

  /** One command on the table. */
  method ExecuteOn(t: Table<Env>, cmd: Command) returns (after: After)
    requires EnvTable(t)
    modifies t, t.slots, t.cells
    ensures EnvTable(t) && (t.slots == null || t.slots == old(t.slots) || fresh(t.slots))
    ensures forall cell :: cell in t.cells ==> cell in old(t.cells) || fresh(cell)
    ensures Agrees(after, t, Execute(old(Registry(t.Rows(), t.slots != null)), cmd))
  {
    hide Execute;
    hide EnvTable;
    match cmd
    case AddEnv(e) => after := AddOn(t, e);
    case UpdateEnv(name, key, value) => after := UpdateOn(t, name, key, value);
    case RemoveEnv(name, key) => after := RemoveOn(t, name, key);
  }

  /** Commands one after the other, until one ends the run. */
  method RunOn(t: Table<Env>, cmds: seq<Command>) returns (after: After)
    requires EnvTable(t)
    modifies t, t.slots, t.cells
    ensures EnvTable(t)
    ensures var ending := RunCommands(old(Registry(t.Rows(), t.slots != null)), cmds);
            && (after == Dead <==> ending == Crashed) && (after == Undefined <==> ending == Overwritten)
            && (after == GoOn || after == Exit ==> ending == Ended(t.Rows()))
  {
    hide Execute;
    hide EnvTable;
    var i := 0;
    after := GoOn;
    ghost var whole := RunCommands(Registry(t.Rows(), t.slots != null), cmds);
    assert cmds[0..] == cmds;
    while i < |cmds| && after == GoOn
      invariant i <= |cmds| && EnvTable(t) && (t.slots == null || t.slots == old(t.slots) || fresh(t.slots))
      invariant forall cell :: cell in t.cells ==> cell in old(t.cells) || fresh(cell)
      invariant match after
                case GoOn => whole == RunCommands(Registry(t.Rows(), t.slots != null), cmds[i..])
                case Exit => whole == Ended(t.Rows())
                case Dead => whole == Crashed
                case Undefined => whole == Overwritten
    {
      assert cmds[i..][0] == cmds[i] && cmds[i..][1..] == cmds[i + 1..];
      assert forall j :: 0 <= j < |t.cells| ==> t.cells[j] in t.cells;
      after := ExecuteOn(t, cmds[i]);
      i := i + 1;
    }
  }

  /** A complete run: load, execute until a command ends it, save. */
  method RunProgram(file: string, cmds: seq<Command>) returns (result: Option<string>)
    ensures result == AfterRun(file, cmds)
  {
    hide LoadFrom;
    hide RunCommands;
    var t := new Table<Env>(ENVS_SCALE);
    var end, state, lastIndex := LoadEnvs(t, file);
    if end != Complete {
      return if end == Refused then Some(file) else None;
    }
    assert forall j :: 0 <= j < |t.cells| ==> t.cells[j] in t.cells;
    var after := RunOn(t, cmds);
    if after == Dead {
      return Some(file);
    }
    if after == Undefined {
      return None;
    }
    var text := SaveEnvs(t);
    result := Some(text);
  }
}
