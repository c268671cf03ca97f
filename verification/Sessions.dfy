/**
 * Whole runs of the command-line program on the jobs registry: load the file, execute commands on the in-memory
 * table, write the file back. A run that exits while loading, or that appends to a table whose array is gone, dies
 * before it saves.
 */
module Sessions {
  import opened CStrings
  import opened Scanner
  import opened Table
  import opened Validators
  import opened Jobs

  /** `add-job` and `remove-job` with what they find out about the world: whether the file exists, and the clock. */
  datatype Command =
    | AddJob(name: string, path: string, fileExists: bool, interval: u64, stamp: i64)
    | DropJob(target: string)

  /** The registry inside a process; live says whether the pointer array is still there. */
  datatype Registry = Registry(jobs: seq<Job>, live: bool)

  /** A command lets the run go on, ends it with an error status, or kills the process. */
  datatype Step = Continue(registry: Registry) | Stop(registry: Registry) | Crash

  ghost function Execute(s: Registry, cmd: Command): Step {
    match cmd
    case AddJob(name, path, fileExists, interval, stamp) =>
      var job := Job(name, path, stamp, interval, 0);
      if !ValidJobText(name, MAX_NAME) || !ValidJobText(path, MAX_PATH) || !fileExists || interval == 0 then Stop(s)
      else if ClashesWith(JOBS, s.jobs, job) then Stop(s)
      else if !s.live then Crash
      else Continue(s.(jobs := s.jobs + [job]))
    case DropJob(name) =>
      if !s.live && s.jobs == [] then Continue(s)
      else if First(s.jobs, Named(name)) == |s.jobs| then Stop(s)
      else Continue(Registry(Without(s.jobs, Named(name)), |s.jobs| > 1))
  }

  /** The job list at the end of the run, None when the process died. */
  ghost function RunCommands(s: Registry, cmds: seq<Command>): Option<seq<Job>>
    decreases |cmds|
  {
    if cmds == [] then Some(s.jobs) else
      match Execute(s, cmds[0])
      case Continue(next) => RunCommands(next, cmds[1..])
      case Stop(next) => Some(next.jobs)
      case Crash => None
  }

  /** The jobs file after one run. */
  ghost function AfterRun(file: string, cmds: seq<Command>): string {
    match Load(JOBS, file)
    case Loaded(jobs) =>
      (match RunCommands(Registry(jobs, true), cmds)
       case Some(result) => Encode(JOBS, result)
       case None => file)
    case Rejected => file
    case Corrupted => file
  }

  ghost function AfterRuns(file: string, runs: seq<seq<Command>>): string
    decreases |runs|
  {
    if runs == [] then file else AfterRuns(AfterRun(file, runs[0]), runs[1..])
  }

  /** The same history without any file: only job lists in memory. */
  ghost function Replay(jobs: seq<Job>, runs: seq<seq<Command>>): seq<Job>
    decreases |runs|
  {
    if runs == [] then jobs else
      match RunCommands(Registry(jobs, true), runs[0])
      case Some(result) => Replay(result, runs[1..])
      case None => Replay(jobs, runs[1..])
  }

  /** Command-line arguments are C strings. */
  predicate Argument(cmd: Command) {
    cmd.AddJob? ==> NulFree(cmd.name) && NulFree(cmd.path)
  }

  // ---- what every command keeps ----

  /** What the validators of jobs keep out is what the file closes its first four fields with. */
  lemma ValidatorsMatchFormat(s: string, max: nat)
    ensures ValidJobText(s, max) <==>
              |s| <= max && forall k :: 0 <= k < 4 ==> JOB_DELIMITERS[k] !in s
    ensures forall k :: 0 <= k < 5 ==> JOB_DELIMITERS[k] == "^#$@\n"[k]
  {
    assert JOB_DELIMITERS[0] == '^' && JOB_DELIMITERS[1] == '#' && JOB_DELIMITERS[2] == '$' && JOB_DELIMITERS[3] == '@';
  }

  lemma ValidTextIsClean(s: string, max: nat)
    requires ValidJobText(s, max)
    ensures '^' !in s && '#' !in s
  {
  }

  lemma WithoutKeepsGood(jobs: seq<Job>, p: Job -> bool)
    requires GoodJobs(jobs)
    ensures GoodJobs(Without(jobs, p))
  {
  }

  lemma AppendKeepsGood(jobs: seq<Job>, job: Job)
    requires GoodJobs(jobs) && GoodJob(job) && !ClashesWith(JOBS, jobs, job)
    ensures GoodJobs(jobs + [job])
  {
  }

  /** Names and runnable files stay pairwise distinct, intervals nonzero and fields free of their delimiters. */
  lemma CommandKeepsGood(s: Registry, cmd: Command)
    requires GoodJobs(s.jobs) && Argument(cmd)
    ensures !Execute(s, cmd).Crash? ==> GoodJobs(Execute(s, cmd).registry.jobs)
  {
    match cmd
    case AddJob(name, path, fileExists, interval, stamp) =>
      var job := Job(name, path, stamp, interval, 0);
      if Execute(s, cmd).Continue? {
        ValidTextIsClean(name, MAX_NAME);
        ValidTextIsClean(path, MAX_PATH);
        AppendKeepsGood(s.jobs, job);
      }
    case DropJob(name) =>
      WithoutKeepsGood(s.jobs, Named(name));
  }

  /** Because names are distinct, removing the first job of a name removes all of them and nothing else. */
  lemma DroppedNameIsGone(jobs: seq<Job>, name: string)
    requires GoodJobs(jobs)
    ensures forall j :: j in Without(jobs, Named(name)) <==> j in jobs && j.name != name
  {
    var k := First(jobs, Named(name));
    if k < |jobs| {
      assert Named(name)(jobs[k]);
      forall i | 0 <= i < |jobs| && i != k ensures jobs[i].name != name {
        if i < k {
          assert !Named(name)(jobs[i]);
        } else {
          assert !JOBS.clash(jobs[k], jobs[i]);
        }
      }
      assert jobs == jobs[..k] + [jobs[k]] + jobs[k + 1..];
    } else {
      forall i | 0 <= i < |jobs| ensures jobs[i].name != name {
        assert !Named(name)(jobs[i]);
      }
    }
  }

  lemma {:induction false} CommandsKeepGood(s: Registry, cmds: seq<Command>)
    requires GoodJobs(s.jobs) && forall cmd :: cmd in cmds ==> Argument(cmd)
    ensures RunCommands(s, cmds).Some? ==> GoodJobs(RunCommands(s, cmds).value)
    decreases |cmds|
  {
    if cmds != [] {
      CommandKeepsGood(s, cmds[0]);
      var step := Execute(s, cmds[0]);
      if step.Continue? {
        CommandsKeepGood(step.registry, cmds[1..]);
      }
    }
  }

  // ---- when a run survives ----

  predicate ValidAdd(cmd: Command) {
    && cmd.AddJob? && ValidJobText(cmd.name, MAX_NAME) && ValidJobText(cmd.path, MAX_PATH)
    && cmd.fileExists && cmd.interval != 0
  }

  function NewJob(cmd: Command): Job
    requires cmd.AddJob?
  {
    Job(cmd.name, cmd.path, cmd.stamp, cmd.interval, 0)
  }

  /** The command appends a job. */
  ghost predicate Appends(jobs: seq<Job>, cmd: Command) {
    ValidAdd(cmd) && !ClashesWith(JOBS, jobs, NewJob(cmd))
  }

  /** What a command does to a list without an array, and whether the run goes on; used: the list once held jobs. */
  ghost function OnList(jobs: seq<Job>, used: bool, cmd: Command): (seq<Job>, bool) {
    match cmd
    case AddJob(_, _, _, _, _) => if Appends(jobs, cmd) then (jobs + [NewJob(cmd)], true) else (jobs, false)
    case DropJob(name) =>
      if used && jobs == [] then (jobs, true)
      else (Without(jobs, Named(name)), First(jobs, Named(name)) < |jobs|)
  }

  ghost function RunOnList(jobs: seq<Job>, used: bool, cmds: seq<Command>): seq<Job>
    decreases |cmds|
  {
    if cmds == [] then jobs else
      var (next, goesOn) := OnList(jobs, used, cmds[0]);
      if goesOn then RunOnList(next, used || jobs != [], cmds[1..]) else next
  }

  /** No job is added to a list that was emptied in this run. */
  ghost predicate Careful(jobs: seq<Job>, used: bool, cmds: seq<Command>)
    decreases |cmds|
  {
    cmds == [] ||
    var (next, goesOn) := OnList(jobs, used, cmds[0]);
    && (Appends(jobs, cmds[0]) ==> !(used && jobs == []))
    && (goesOn ==> Careful(next, used || jobs != [], cmds[1..]))
  }

  lemma StepOnList(s: Registry, used: bool, cmd: Command)
    requires s.live <==> !(used && s.jobs == [])
    ensures var (next, goesOn) := OnList(s.jobs, used, cmd);
            match Execute(s, cmd)
            case Continue(r) => r.jobs == next && goesOn && (r.live <==> !((used || s.jobs != []) && next == []))
            case Stop(r) => r.jobs == next && !goesOn
            case Crash => Appends(s.jobs, cmd) && used && s.jobs == []
    ensures !Execute(s, cmd).Crash? ==> (Appends(s.jobs, cmd) ==> !(used && s.jobs == []))
  {
    hide First;
    WithoutIndex(s.jobs, if cmd.DropJob? then Named(cmd.target) else Named(""));
  }

  /** A run reaches its end exactly when it is careful, and then it has done what it does to a plain list. */
  lemma {:induction false} RunSurvivesExactly(s: Registry, used: bool, cmds: seq<Command>)
    requires s.live <==> !(used && s.jobs == [])
    ensures RunCommands(s, cmds).Some? <==> Careful(s.jobs, used, cmds)
    ensures Careful(s.jobs, used, cmds) ==> RunCommands(s, cmds) == Some(RunOnList(s.jobs, used, cmds))
    decreases |cmds|
  {
    hide Execute;
    hide OnList;
    hide Appends;
    if cmds != [] {
      StepOnList(s, used, cmds[0]);
      var step := Execute(s, cmds[0]);
      if step.Continue? {
        RunSurvivesExactly(step.registry, used || s.jobs != [], cmds[1..]);
      }
    }
  }

  lemma AddToNothing(cmd: Command)
    requires ValidAdd(cmd)
    ensures Execute(Registry([], false), cmd) == Crash
    ensures Execute(Registry([], true), cmd) == Continue(Registry([NewJob(cmd)], true))
  {
    assert [] + [NewJob(cmd)] == [NewJob(cmd)];
  }

  lemma DropTheLast(job: Job)
    ensures Execute(Registry([job], true), DropJob(job.name)) == Continue(Registry([], false))
  {
    assert Named(job.name)([job][0]);
  }

  /** The shortest fatal run: add a job, remove it, add another one. */
  lemma AddAfterEmptyingCrashes(a: Command, b: Command)
    requires ValidAdd(a) && ValidAdd(b)
    ensures RunCommands(Registry([], true), [a, DropJob(a.name), b]) == None
  {
    hide Execute;
    var cmds := [a, DropJob(a.name), b];
    assert cmds[1..] == [DropJob(a.name), b] && cmds[1..][1..] == [b];
    AddToNothing(a);
    DropTheLast(NewJob(a));
    AddToNothing(b);
    assert RunCommands(Registry([], false), [b]) == None;
    assert RunCommands(Registry([NewJob(a)], true), cmds[1..]) == None;
  }

  // ---- the file ----

  /** One run on a loadable file leaves a file that loads to exactly the list the run ended with. */
  lemma RunIsDurable(file: string, cmds: seq<Command>)
    requires Load(JOBS, file).Loaded? && forall cmd :: cmd in cmds ==> Argument(cmd)
    ensures Load(JOBS, AfterRun(file, cmds)) == Loaded(Replay(Load(JOBS, file).rows, [cmds]))
  {
    hide LoadFrom;
    hide Encode;
    var jobs := Load(JOBS, file).rows;
    var registry := Registry(jobs, true);
    LoadedJobsAreGood(file);
    CommandsKeepGood(registry, cmds);
    var result := RunCommands(registry, cmds);
    assert [cmds][1..] == [];
    if result.Some? {
      JobsRoundTrip(result.value);
    }
  }

  /** The file after one run: what a plain list comes to, or, when the run dies, the file as it was. */
  lemma FileAfterRun(file: string, cmds: seq<Command>)
    requires Load(JOBS, file).Loaded?
    ensures var jobs := Load(JOBS, file).rows;
            AfterRun(file, cmds) ==
            if Careful(jobs, false, cmds) then Encode(JOBS, RunOnList(jobs, false, cmds)) else file
  {
    hide LoadFrom;
    hide Encode;
    RunSurvivesExactly(Registry(Load(JOBS, file).rows, true), false, cmds);
  }

  /**
   * Whole-history durability: from any loadable file, after any runs of any commands, the file loads to exactly the
   * job list obtained without ever going through text, and that list is good.
   */
  lemma {:induction false} SessionsAreDurable(file: string, runs: seq<seq<Command>>)
    requires Load(JOBS, file).Loaded?
    requires forall cmds, cmd :: cmds in runs && cmd in cmds ==> Argument(cmd)
    ensures Load(JOBS, AfterRuns(file, runs)) == Loaded(Replay(Load(JOBS, file).rows, runs))
    ensures GoodJobs(Replay(Load(JOBS, file).rows, runs))
    decreases |runs|
  {
    hide LoadFrom;
    LoadedJobsAreGood(file);
    if runs != [] {
      var jobs := Load(JOBS, file).rows;
      RunIsDurable(file, runs[0]);
      assert [runs[0]][1..] == [];
      SessionsAreDurable(AfterRun(file, runs[0]), runs[1..]);
    }
  }

  /** A file the loader refuses is left alone by every run. */
  lemma {:induction false} RejectedFileStays(file: string, runs: seq<seq<Command>>)
    requires !Load(JOBS, file).Loaded?
    ensures AfterRuns(file, runs) == file
    decreases |runs|
  {
    if runs != [] {
      RejectedFileStays(file, runs[1..]);
    }
  }

  // ---- the run as a program over the table ----

  /** One command on the table; crashed stands for the write through a null array. */
  method ExecuteOn(t: Table<Job>, cmd: Command) returns (stop: bool, crashed: bool)
    requires t.Backed()
    modifies t, t.slots
    ensures t.Backed() && (t.slots == null || t.slots == old(t.slots) || fresh(t.slots))
    ensures var step := Execute(old(Registry(t.Rows(), t.slots != null)), cmd);
            && crashed == step.Crash?
            && (!crashed ==> stop == step.Stop? && step.registry == Registry(t.Rows(), t.slots != null))
  {
    stop, crashed := true, false;
    match cmd
    case AddJob(name, path, fileExists, interval, stamp) =>
      var nameOk := IsValidJobName(name);
      if !nameOk {
        return;
      }
      var pathOk := IsValidJobPath(path);
      if !pathOk || !fileExists || interval == 0 {
        return;
      }
      if t.slots == null {
        return true, true;
      }
      var ok := CreateJob(t, name, path, interval, stamp);
      stop := !ok;
    case DropJob(name) =>
      var ok := RemoveJob(t, name);
      stop := !ok;
  }

  /** A complete run: load, execute until a command ends it, save. */
  method RunProgram(file: string, cmds: seq<Command>) returns (after: string)
    ensures after == AfterRun(file, cmds)
  {
    hide LoadFrom;
    var t := new Table<Job>(JOBS_SCALE);
    var ok, state, lastIndex := LoadJobs(t, file);
    if !ok {
      return file;
    }
    var i, stop := 0, false;
    ghost var whole := RunCommands(Registry(t.Rows(), true), cmds);
    assert cmds[0..] == cmds;
    while i < |cmds| && !stop
      invariant i <= |cmds|
      invariant t.Backed() && fresh(t) && (t.slots == null || fresh(t.slots))
      invariant whole == if stop then Some(t.Rows()) else RunCommands(Registry(t.Rows(), t.slots != null), cmds[i..])
    {
      var crashed;
      assert cmds[i..][0] == cmds[i] && cmds[i..][1..] == cmds[i + 1..];
      stop, crashed := ExecuteOn(t, cmds[i]);
      if crashed {
        return file;
      }
      i := i + 1;
    }
    var text := EncodeJobs(t);
    after := if text.None? then "" else text.value;
  }
}
