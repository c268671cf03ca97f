/**
 * The whole command-line program: one process loads all four registries, runs commands on any of them until one ends
 * the run, and saves them. A command that exits ends the run for all registries; a crash or an exit while loading
 * saves none of them.
 */
module Program {
  import opened CStrings
  import opened Scanner
  import Jobs
  import Envs
  import Services
  import Limits
  import Registries
  import Sessions
  import EnvSessions
  import ServiceSessions

  datatype Command =
    | OnJobs(job: Sessions.Command)
    | OnEnvs(env: EnvSessions.Command)
    | OnServices(call: ServiceSessions.Call)

  datatype Process = Process(jobs: Sessions.Registry, envs: EnvSessions.Registry, services: ServiceSessions.Process)

  /** A command lets the run go on, ends it, kills the process, or writes behind an array. */
  datatype Step = Continue(process: Process) | Stop(process: Process) | Crash | Overwrite

  datatype Ending = Ended(process: Process) | Crashed | Overwritten

  ghost function Execute(p: Process, cmd: Command): Step {
    match cmd
    case OnJobs(job) =>
      (match Sessions.Execute(p.jobs, job)
       case Continue(next) => Continue(p.(jobs := next))
       case Stop(next) => Stop(p.(jobs := next))
       case Crash => Crash)
    case OnEnvs(env) =>
      (match EnvSessions.Execute(p.envs, env)
       case Continue(next) => Continue(p.(envs := next))
       case Stop(next) => Stop(p.(envs := next))
       case Crash => Crash
       case Corrupt => Overwrite)
    case OnServices(call) =>
      (match Registries.Execute(p.services.state, call.cmd)
       case None => Crash
       case Some(next) =>
         var asks := ServiceSessions.AsksToSave(p.services.state, call);
         var q := p.(services := ServiceSessions.Process(next, p.services.reformat || asks));
         if ServiceSessions.Fails(p.services.state, call) then Stop(q) else Continue(q))
  }

  ghost function Run(p: Process, cmds: seq<Command>): Ending
    decreases |cmds|
  {
    if cmds == [] then Ended(p) else
      match Execute(p, cmds[0])
      case Continue(next) => Run(next, cmds[1..])
      case Stop(last) => Ended(last)
      case Crash => Crashed
      case Overwrite => Overwritten
  }

  // ---- one registry's view of a run ----

  /** The commands that a run gets to. */
  ghost function Executed(p: Process, cmds: seq<Command>): seq<Command>
    decreases |cmds|
  {
    if cmds == [] then [] else
      var step := Execute(p, cmds[0]);
      [cmds[0]] + if step.Continue? then Executed(step.process, cmds[1..]) else []
  }

  function JobsOf(cmds: seq<Command>): seq<Sessions.Command> {
    if cmds == [] then [] else (if cmds[0].OnJobs? then [cmds[0].job] else []) + JobsOf(cmds[1..])
  }

  function EnvsOf(cmds: seq<Command>): seq<EnvSessions.Command> {
    if cmds == [] then [] else (if cmds[0].OnEnvs? then [cmds[0].env] else []) + EnvsOf(cmds[1..])
  }

  function CallsOf(cmds: seq<Command>): seq<ServiceSessions.Call> {
    if cmds == [] then [] else (if cmds[0].OnServices? then [cmds[0].call] else []) + CallsOf(cmds[1..])
  }

  /** The first command in each registry's view of a list. */
  lemma FirstOf(cmd: Command, later: seq<Command>)
    ensures JobsOf([cmd] + later) == if cmd.OnJobs? then [cmd.job] + JobsOf(later) else JobsOf(later)
    ensures EnvsOf([cmd] + later) == if cmd.OnEnvs? then [cmd.env] + EnvsOf(later) else EnvsOf(later)
    ensures CallsOf([cmd] + later) == if cmd.OnServices? then [cmd.call] + CallsOf(later) else CallsOf(later)
  {
    assert ([cmd] + later)[1..] == later;
  }

  /** A registry on its own, running its own commands among the executed ones, ends as it does in the whole run. */
  ghost predicate Projected(p: Process, cmds: seq<Command>, q: Process) {
    && Sessions.RunCommands(p.jobs, JobsOf(cmds)) == Some(q.jobs.jobs)
    && EnvSessions.RunCommands(p.envs, EnvsOf(cmds)) == EnvSessions.Ended(q.envs.envs)
    && ServiceSessions.RunCalls(p.services, CallsOf(cmds)) == Some(q.services)
  }

  lemma ProjectedNothing(p: Process)
    ensures Projected(p, [], p)
  {
  }

  lemma ProjectedStop(p: Process, cmd: Command, q: Process)
    requires Execute(p, cmd) == Stop(q)
    ensures Projected(p, [cmd] + [], q)
  {
    FirstOf(cmd, []);
    match cmd
    case OnJobs(job) => assert [job] + [] == [job];
    case OnEnvs(env) => assert [env] + [] == [env];
    case OnServices(call) => assert [call] + [] == [call];
  }

  lemma ProjectedStep(p: Process, cmd: Command, next: Process, later: seq<Command>, q: Process)
    requires Execute(p, cmd) == Continue(next) && Projected(next, later, q)
    ensures Projected(p, [cmd] + later, q)
  {
    hide Sessions.Execute;
    hide EnvSessions.Execute;
    hide Registries.Execute;
    hide ServiceSessions.Fails;
    hide ServiceSessions.AsksToSave;
    FirstOf(cmd, later);
    match cmd
    case OnJobs(job) => assert ([job] + JobsOf(later))[1..] == JobsOf(later);
    case OnEnvs(env) => assert ([env] + EnvsOf(later))[1..] == EnvsOf(later);
    case OnServices(call) => assert ([call] + CallsOf(later))[1..] == CallsOf(later);
  }

  /** In a run that ends, every registry has gone through a run of its own commands, as far as they were reached. */
  lemma {:induction false} RunProjects(p: Process, cmds: seq<Command>)
    ensures Run(p, cmds).Ended? ==> Projected(p, Executed(p, cmds), Run(p, cmds).process)
    decreases |cmds|
  {
    hide Execute;
    hide Projected;
    if cmds == [] {
      ProjectedNothing(p);
    } else {
      var step := Execute(p, cmds[0]);
      if step.Continue? {
        RunProjects(step.process, cmds[1..]);
        if Run(step.process, cmds[1..]).Ended? {
          var last := Run(step.process, cmds[1..]).process;
          ProjectedStep(p, cmds[0], step.process, Executed(step.process, cmds[1..]), last);
        }
      } else if step.Stop? {
        ProjectedStop(p, cmds[0], step.process);
      }
    }
  }

  // ---- a run from its registries' own runs ----

  /** The jobs after their own commands; unlike `RunCommands` it tells a run that goes on from one that stopped. */
  ghost function JobsRun(s: Sessions.Registry, cmds: seq<Sessions.Command>): Sessions.Step
    decreases |cmds|
  {
    if cmds == [] then Sessions.Continue(s) else
      var step := Sessions.Execute(s, cmds[0]);
      if step.Continue? then JobsRun(step.registry, cmds[1..]) else step
  }

  function EnvsRun(s: EnvSessions.Registry, cmds: seq<EnvSessions.Command>): EnvSessions.Step
    decreases |cmds|
  {
    if cmds == [] then EnvSessions.Continue(s) else
      var step := EnvSessions.Execute(s, cmds[0]);
      if step.Continue? then EnvsRun(step.registry, cmds[1..]) else step
  }

  datatype CallStep = Going(process: ServiceSessions.Process) | Over(process: ServiceSessions.Process) | Died

  function OneCall(p: ServiceSessions.Process, call: ServiceSessions.Call): CallStep {
    match Registries.Execute(p.state, call.cmd)
    case None => Died
    case Some(next) =>
      var q := ServiceSessions.Process(next, p.reformat || ServiceSessions.AsksToSave(p.state, call));
      if ServiceSessions.Fails(p.state, call) then Over(q) else Going(q)
  }

  function CallsRun(p: ServiceSessions.Process, calls: seq<ServiceSessions.Call>): CallStep
    decreases |calls|
  {
    if calls == [] then Going(p) else
      var step := OneCall(p, calls[0]);
      if step.Going? then CallsRun(step.process, calls[1..]) else step
  }

  /** The runs of the registries alone, from the same starts. */
  lemma {:induction false} JobsRunExactly(s: Sessions.Registry, cmds: seq<Sessions.Command>)
    ensures Sessions.RunCommands(s, cmds) ==
            if JobsRun(s, cmds).Crash? then None else Some(JobsRun(s, cmds).registry.jobs)
    decreases |cmds|
  {
    if cmds != [] && Sessions.Execute(s, cmds[0]).Continue? {
      JobsRunExactly(Sessions.Execute(s, cmds[0]).registry, cmds[1..]);
    }
  }

  lemma {:induction false} EnvsRunExactly(s: EnvSessions.Registry, cmds: seq<EnvSessions.Command>)
    ensures var step := EnvsRun(s, cmds);
            EnvSessions.RunCommands(s, cmds) ==
            if step.Crash? then EnvSessions.Crashed else if step.Corrupt? then EnvSessions.Overwritten
            else EnvSessions.Ended(step.registry.envs)
    decreases |cmds|
  {
    if cmds != [] && EnvSessions.Execute(s, cmds[0]).Continue? {
      EnvsRunExactly(EnvSessions.Execute(s, cmds[0]).registry, cmds[1..]);
    }
  }

  lemma {:induction false} CallsRunExactly(p: ServiceSessions.Process, calls: seq<ServiceSessions.Call>)
    ensures ServiceSessions.RunCalls(p, calls) ==
            if CallsRun(p, calls).Died? then None else Some(CallsRun(p, calls).process)
    decreases |calls|
  {
    if calls != [] && OneCall(p, calls[0]).Going? {
      CallsRunExactly(OneCall(p, calls[0]).process, calls[1..]);
    }
  }

  datatype Views = Views(jobs: Sessions.Step, envs: EnvSessions.Step, services: CallStep)

  /** Each registry after its own commands of a list, whatever becomes of the others. */
  ghost function ViewsOf(p: Process, cmds: seq<Command>): Views {
    Views(JobsRun(p.jobs, JobsOf(cmds)), EnvsRun(p.envs, EnvsOf(cmds)), CallsRun(p.services, CallsOf(cmds)))
  }

  /** No registry's run has ended. */
  predicate AllGoOn(v: Views) {
    v.jobs.Continue? && v.envs.Continue? && v.services.Going?
  }

  /** What the registries' runs amount to together: one that dies takes all with it. */
  function Together(v: Views): Ending {
    if v.jobs.Crash? || v.envs.Crash? || v.services.Died? then Crashed
    else if v.envs.Corrupt? then Overwritten
    else Ended(Process(v.jobs.registry, v.envs.registry, v.services.process))
  }

  lemma ViewsOfNothing(p: Process)
    ensures ViewsOf(p, []) == Views(Sessions.Continue(p.jobs), EnvSessions.Continue(p.envs), Going(p.services))
  {
  }

  lemma FirstJob(s: Sessions.Registry, job: Sessions.Command, more: seq<Sessions.Command>)
    ensures var step := Sessions.Execute(s, job);
            JobsRun(s, [job] + more) == if step.Continue? then JobsRun(step.registry, more) else step
  {
    assert ([job] + more)[1..] == more;
  }

  lemma FirstEnv(s: EnvSessions.Registry, env: EnvSessions.Command, more: seq<EnvSessions.Command>)
    ensures var step := EnvSessions.Execute(s, env);
            EnvsRun(s, [env] + more) == if step.Continue? then EnvsRun(step.registry, more) else step
  {
    assert ([env] + more)[1..] == more;
  }

  lemma FirstCall(p: ServiceSessions.Process, call: ServiceSessions.Call, more: seq<ServiceSessions.Call>)
    ensures var step := OneCall(p, call);
            CallsRun(p, [call] + more) == if step.Going? then CallsRun(step.process, more) else step
  {
    assert ([call] + more)[1..] == more;
  }

  /** One command ends the run, in the way its registry's run ends, or leaves a process with the same views later on. */
  lemma ViewsOfOne(p: Process, cmd: Command, later: seq<Command>)
    ensures var v := ViewsOf(p, [cmd]);
            if AllGoOn(v)
            then var next := Process(v.jobs.registry, v.envs.registry, v.services.process);
                 Execute(p, cmd) == Continue(next) && ViewsOf(p, [cmd] + later) == ViewsOf(next, later)
            else && !AllGoOn(ViewsOf(p, [cmd] + later))
                 && match Together(v)
                    case Ended(last) => Execute(p, cmd) == Stop(last)
                    case Crashed => Execute(p, cmd) == Crash
                    case Overwritten => Execute(p, cmd) == Overwrite
  {
    hide Sessions.Execute;
    hide EnvSessions.Execute;
    hide Registries.Execute;
    hide ServiceSessions.Fails;
    hide ServiceSessions.AsksToSave;
    FirstOf(cmd, []);
    FirstOf(cmd, later);
    assert [cmd] + [] == [cmd];
    match cmd
    case OnJobs(job) =>
      FirstJob(p.jobs, job, []);
      FirstJob(p.jobs, job, JobsOf(later));
    case OnEnvs(env) =>
      FirstEnv(p.envs, env, []);
      FirstEnv(p.envs, env, EnvsOf(later));
    case OnServices(call) =>
      FirstCall(p.services, call, []);
      FirstCall(p.services, call, CallsOf(later));
  }

  /**
   * A run of the whole program is what the registries' own runs amount to: on all commands if none of them ends, else
   * on the commands up to the first at which one ends. So it dies exactly when one of them dies there.
   */
  lemma {:induction false} RunIsTogether(p: Process, cmds: seq<Command>)
    ensures AllGoOn(ViewsOf(p, cmds)) ==> Run(p, cmds) == Together(ViewsOf(p, cmds))
    ensures forall k :: 0 <= k < |cmds| && AllGoOn(ViewsOf(p, cmds[..k])) && !AllGoOn(ViewsOf(p, cmds[..k + 1])) ==>
              Run(p, cmds) == Together(ViewsOf(p, cmds[..k + 1]))
    ensures !AllGoOn(ViewsOf(p, cmds)) ==>
              exists k :: 0 <= k < |cmds| && AllGoOn(ViewsOf(p, cmds[..k])) && !AllGoOn(ViewsOf(p, cmds[..k + 1]))
    decreases |cmds|
  {
    hide Execute;
    hide ViewsOf;
    ViewsOfNothing(p);
    if cmds != [] {
      var cmd, rest := cmds[0], cmds[1..];
      var v := ViewsOf(p, [cmd]);
      assert cmds == [cmd] + rest && cmds[..0] == [] && cmds[..1] == [cmd];
      ViewsOfOne(p, cmd, rest);
      assert rest[..|rest|] == rest;
      if AllGoOn(v) {
        var next := Process(v.jobs.registry, v.envs.registry, v.services.process);
        RunIsTogether(next, rest);
        forall k | 0 <= k <= |rest| ensures ViewsOf(p, cmds[..k + 1]) == ViewsOf(next, rest[..k]) {
          assert cmds[..k + 1] == [cmd] + rest[..k];
          ViewsOfOne(p, cmd, rest[..k]);
        }
        forall k | 0 <= k < |cmds| && AllGoOn(ViewsOf(p, cmds[..k])) && !AllGoOn(ViewsOf(p, cmds[..k + 1]))
          ensures Run(p, cmds) == Together(ViewsOf(p, cmds[..k + 1]))
        {
          assert k > 0 && ViewsOf(next, rest[..k - 1]) == ViewsOf(p, cmds[..k]);
          assert ViewsOf(next, rest[..k - 1 + 1]) == ViewsOf(p, cmds[..k + 1]);
        }
        if !AllGoOn(ViewsOf(p, cmds)) {
          var k :| 0 <= k < |rest| && AllGoOn(ViewsOf(next, rest[..k])) && !AllGoOn(ViewsOf(next, rest[..k + 1]));
          assert AllGoOn(ViewsOf(p, cmds[..k + 1])) && !AllGoOn(ViewsOf(p, cmds[..k + 1 + 1]));
        }
      } else {
        forall k | 1 <= k <= |cmds| ensures !AllGoOn(ViewsOf(p, cmds[..k])) {
          assert cmds[..k] == [cmd] + rest[..k - 1];
          ViewsOfOne(p, cmd, rest[..k - 1]);
        }
        assert !AllGoOn(ViewsOf(p, cmds[..0 + 1]));
      }
    }
  }

  /** A run dies exactly when some registry's own run dies at the command where the first of them ends. */
  lemma RunDiesExactly(p: Process, cmds: seq<Command>)
    ensures Run(p, cmds) == Crashed <==>
              exists k :: 0 <= k < |cmds| && AllGoOn(ViewsOf(p, cmds[..k])) && DiesIn(p, cmds[..k + 1])
    ensures Run(p, cmds) == Overwritten <==>
              exists k :: 0 <= k < |cmds| && AllGoOn(ViewsOf(p, cmds[..k])) && OverwritesIn(p, cmds[..k + 1])
  {
    hide Run;
    hide ViewsOf;
    RunIsTogether(p, cmds);
    if !AllGoOn(ViewsOf(p, cmds)) {
      var k :| 0 <= k < |cmds| && AllGoOn(ViewsOf(p, cmds[..k])) && !AllGoOn(ViewsOf(p, cmds[..k + 1]));
      DeathInViews(p, cmds[..k + 1]);
    }
    forall k | 0 <= k < |cmds| && AllGoOn(ViewsOf(p, cmds[..k]))
               && (DiesIn(p, cmds[..k + 1]) || OverwritesIn(p, cmds[..k + 1]))
      ensures Run(p, cmds) == if DiesIn(p, cmds[..k + 1]) then Crashed else Overwritten
    {
      DeathInViews(p, cmds[..k + 1]);
    }
  }

  /** Some registry's own run of its commands dies. */
  ghost predicate DiesIn(p: Process, cmds: seq<Command>) {
    || Sessions.RunCommands(p.jobs, JobsOf(cmds)) == None
    || EnvSessions.RunCommands(p.envs, EnvsOf(cmds)) == EnvSessions.Crashed
    || ServiceSessions.RunCalls(p.services, CallsOf(cmds)) == None
  }

  /** The envs' own run writes behind its array, and no other dies. */
  ghost predicate OverwritesIn(p: Process, cmds: seq<Command>) {
    !DiesIn(p, cmds) && EnvSessions.RunCommands(p.envs, EnvsOf(cmds)) == EnvSessions.Overwritten
  }

  lemma DeathInViews(p: Process, cmds: seq<Command>)
    ensures DiesIn(p, cmds) <==> Together(ViewsOf(p, cmds)) == Crashed
    ensures OverwritesIn(p, cmds) <==> Together(ViewsOf(p, cmds)) == Overwritten
  {
    JobsRunExactly(p.jobs, JobsOf(cmds));
    EnvsRunExactly(p.envs, EnvsOf(cmds));
    CallsRunExactly(p.services, CallsOf(cmds));
  }

  // ---- what every command keeps ----

  predicate Argument(cmd: Command) {
    match cmd
    case OnJobs(job) => Sessions.Argument(job)
    case OnEnvs(env) => EnvSessions.Argument(env) && EnvSessions.OneLine(env)
    case OnServices(call) => ServiceSessions.Argument(call)
  }

  /** Every rename is to the same name or one unused at that moment. */
  ghost predicate Fresh(p: Process, cmds: seq<Command>)
    decreases |cmds|
  {
    cmds == [] ||
    var step := Execute(p, cmds[0]);
    && (cmds[0].OnServices? ==> Registries.FreshRename(p.services.state, cmds[0].call.cmd))
    && (step.Continue? ==> Fresh(step.process, cmds[1..]))
  }

  /** What the four files say. */
  datatype Content = Content(jobs: seq<Jobs.Job>, envs: seq<Envs.Env>, rest: ServiceSessions.Content)

  /** All four registries are storable; the limits need not fit the services. */
  ghost predicate Sound(c: Content) {
    Jobs.GoodJobs(c.jobs) && Envs.LoadableEnvs(c.envs) && ServiceSessions.Startable(c.rest)
  }

  ghost predicate Storable(p: Process) {
    && Jobs.GoodJobs(p.jobs.jobs)
    && EnvSessions.HeldEnvs(p.envs.envs) && !Envs.HasNewline(p.envs.envs)
  }

  ghost predicate Running(p: Process, c: Content) {
    Storable(p) && ServiceSessions.ServicesRun(p.services, c.rest.services)
  }

  ghost predicate Finished(p: Process, c: Content) {
    Storable(p) && ServiceSessions.ServicesFinish(p.services, c.rest.services)
  }

  lemma RunningMayFinish(p: Process, c: Content)
    requires Running(p, c)
    ensures Finished(p, c)
  {
    ServiceSessions.RunningMayFinish(ServiceSessions.Unlimited(p.services), c.rest.services, []);
  }

  lemma StepKeeps(p: Process, cmd: Command, c: Content)
    requires Running(p, c) && Argument(cmd)
    requires cmd.OnServices? ==> Registries.FreshRename(p.services.state, cmd.call.cmd)
    ensures match Execute(p, cmd)
            case Continue(next) => Running(next, c)
            case Stop(last) => Finished(last, c)
            case Crash => true
            case Overwrite => true
  {
    hide Sessions.Execute;
    hide EnvSessions.Execute;
    hide Registries.Execute;
    hide ServiceSessions.Fails;
    hide ServiceSessions.AsksToSave;
    hide ServiceSessions.ServicesRun;
    hide ServiceSessions.ServicesFinish;
    hide Envs.HasNewline;
    RunningMayFinish(p, c);
    match cmd
    case OnJobs(job) => Sessions.CommandKeepsGood(p.jobs, job);
    case OnEnvs(env) => EnvSessions.StepKeepsHeld(p.envs, env);
    case OnServices(call) =>
      if Registries.Execute(p.services.state, call.cmd).Some? {
        ServiceSessions.ServicesStep(p.services, call, c.rest.services);
      }
  }

  lemma {:induction false} RunKeeps(p: Process, cmds: seq<Command>, c: Content)
    requires Running(p, c) && Fresh(p, cmds) && forall cmd :: cmd in cmds ==> Argument(cmd)
    ensures Run(p, cmds).Ended? ==> Finished(Run(p, cmds).process, c)
    decreases |cmds|
  {
    hide Execute;
    hide Running;
    hide Finished;
    hide Argument;
    if cmds == [] {
      RunningMayFinish(p, c);
    } else {
      StepKeeps(p, cmds[0], c);
      var step := Execute(p, cmds[0]);
      if step.Continue? {
        RunKeeps(step.process, cmds[1..], c);
      }
    }
  }

  // ---- the files ----

  datatype Disk = Disk(jobs: string, envs: string, rest: ServiceSessions.Disk)

  /** A start loads all four files, exits at the first that is refused, or writes behind an array. */
  datatype Start = Opened(content: Content) | Shut | Broken

  /** The start goes on behind a file that loads. */
  ghost function Then<R>(o: Outcome<R>, next: Start): Start {
    match o
    case Loaded(_) => next
    case Rejected => Shut
    case Corrupted => Broken
  }

  /** The loads in the order of `init`: services, jobs, envs, limits. */
  ghost function StartFrom(d: Disk): Start {
    var services, limits := Load(Services.SERVICES, d.rest.services), Load(Limits.LIMITS, d.rest.limits);
    var jobs, envs := Load(Jobs.JOBS, d.jobs), Load(Envs.ENVS, d.envs);
    Then(services, Then(jobs, Then(envs, Then(limits,
      if services.Loaded? && jobs.Loaded? && envs.Loaded? && limits.Loaded?
      then Opened(Content(jobs.rows, envs.rows, ServiceSessions.Content(services.rows, limits.rows))) else Shut))))
  }

  /** When a start opens, is shut, or breaks, by which of the four files loads first to what. */
  lemma StartExactly(d: Disk)
    ensures var services, limits := Load(Services.SERVICES, d.rest.services), Load(Limits.LIMITS, d.rest.limits);
            var jobs, envs := Load(Jobs.JOBS, d.jobs), Load(Envs.ENVS, d.envs);
            && (StartFrom(d).Opened? <==> services.Loaded? && jobs.Loaded? && envs.Loaded? && limits.Loaded?)
            && (StartFrom(d).Opened? ==>
                  StartFrom(d).content ==
                  Content(jobs.rows, envs.rows, ServiceSessions.Content(services.rows, limits.rows)))
            && (StartFrom(d) == Broken <==>
                  services.Loaded? && jobs.Loaded? && (envs.Corrupted? || (envs.Loaded? && limits.Corrupted?)))
  {
    hide Tokens;
    Services.NeverOutOfBounds(Tokens(Services.SERVICE_DELIMITERS, 0, d.rest.services), []);
    Jobs.NeverOutOfBounds(Tokens(Jobs.JOB_DELIMITERS, 0, d.jobs), []);
  }

  function Began(c: Content): Process {
    Process(Sessions.Registry(c.jobs, true), EnvSessions.Registry(c.envs, true), ServiceSessions.Began(c.rest))
  }

  /** The saves at the end: services, jobs, envs, and then the limits, where a second one kills the process. */
  ghost function SavedBy(p: Process, d: Disk): Disk {
    var s := p.services;
    Disk(Encode(Jobs.JOBS, p.jobs.jobs), Encode(Envs.ENVS, p.envs.envs),
         ServiceSessions.Disk(Services.SavedServices(d.rest.services, s.state.services),
                              if s.reformat then Limits.LimitsFile(d.rest.limits, s.state.limits) else d.rest.limits))
  }

  /** The files after one session, None when a write behind an array leaves nothing promised. */
  ghost function AfterSession(d: Disk, cmds: seq<Command>): Option<Disk> {
    match StartFrom(d)
    case Shut => Some(d)
    case Broken => None
    case Opened(c) =>
      match Run(Began(c), cmds)
      case Ended(p) => Some(SavedBy(p, d))
      case Crashed => Some(d)
      case Overwritten => None
  }

  /**
   * What a session that started leaves of the files: all of them as they were when some registry's run died first,
   * nothing to rely on exactly when the envs' run wrote behind its array first.
   */
  lemma DeadSessionChangesNothing(d: Disk, c: Content, cmds: seq<Command>)
    requires StartFrom(d) == Opened(c)
    ensures (exists k :: 0 <= k < |cmds| && AllGoOn(ViewsOf(Began(c), cmds[..k])) && DiesIn(Began(c), cmds[..k + 1]))
            ==> AfterSession(d, cmds) == Some(d)
    ensures AfterSession(d, cmds) == None <==>
            exists k :: 0 <= k < |cmds|
              && AllGoOn(ViewsOf(Began(c), cmds[..k])) && OverwritesIn(Began(c), cmds[..k + 1])
  {
    hide StartFrom;
    hide Run;
    hide ViewsOf;
    hide DiesIn;
    hide OverwritesIn;
    RunDiesExactly(Began(c), cmds);
  }

  ghost function AfterSessions(d: Disk, sessions: seq<seq<Command>>): Option<Disk>
    decreases |sessions|
  {
    if sessions == [] then Some(d) else
      match AfterSession(d, sessions[0])
      case None => None
      case Some(next) => AfterSessions(next, sessions[1..])
  }

  /** What a finished process leaves to the next one. */
  function Left(p: Process, c: Content): Content {
    Content(p.jobs.jobs, p.envs.envs, ServiceSessions.Left(p.services, c.rest))
  }

  /** The session without files; None when it writes behind an array. */
  ghost function Next(c: Content, cmds: seq<Command>): Option<Content> {
    match Run(Began(c), cmds)
    case Ended(p) => Some(Left(p, c))
    case Crashed => Some(c)
    case Overwritten => None
  }

  ghost function Replay(c: Content, sessions: seq<seq<Command>>): Option<Content>
    decreases |sessions|
  {
    if sessions == [] then Some(c) else
      match Next(c, sessions[0])
      case None => None
      case Some(next) => Replay(next, sessions[1..])
  }

  /** Every rename of the history is fresh. */
  ghost predicate FreshHistory(c: Content, sessions: seq<seq<Command>>)
    decreases |sessions|
  {
    sessions == [] ||
    (Fresh(Began(c), sessions[0])
     && (Next(c, sessions[0]).Some? ==> FreshHistory(Next(c, sessions[0]).value, sessions[1..])))
  }

  lemma BeganIsRunning(c: Content)
    requires Sound(c)
    ensures Running(Began(c), c)
  {
  }

  /** Loading what a finished process saved gives all four registries as the process leaves them. */
  lemma SaveIsDurable(p: Process, d: Disk, c: Content)
    requires Finished(p, c) && Sound(c) && StartFrom(d) == Opened(c)
    ensures Sound(Left(p, c)) && StartFrom(SavedBy(p, d)) == Opened(Left(p, c))
  {
    hide LoadFrom;
    hide Encode;
    hide Envs.HasNewline;
    hide ServiceSessions.ServicesFinish;
    hide ServiceSessions.Startable;
    hide ServiceSessions.Left;
    hide Services.SavedServices;
    hide Limits.LimitsFile;
    ServiceSessions.SaveIsDurable(p.services, d.rest);
    Jobs.JobsRoundTrip(p.jobs.jobs);
    Envs.EnvsRoundTripExactly(p.envs.envs);
  }

  /**
   * Whole histories of the whole program: from sound files, after any sessions of any commands with fresh renames, the
   * files are defined exactly when no session wrote behind an array; the next start then loads all four registries as
   * the same history gives them without files, and from at most one limit there never is more than one in the file.
   */
  lemma {:induction false} HistoryIsDurable(d: Disk, c: Content, sessions: seq<seq<Command>>)
    requires StartFrom(d) == Opened(c) && Sound(c) && FreshHistory(c, sessions)
    requires forall cmds, cmd :: cmds in sessions && cmd in cmds ==> Argument(cmd)
    ensures AfterSessions(d, sessions).Some? <==> Replay(c, sessions).Some?
    ensures Replay(c, sessions).Some? ==>
              var last := Replay(c, sessions).value;
              && StartFrom(AfterSessions(d, sessions).value) == Opened(last) && Sound(last)
              && (|c.rest.limits| <= 1 ==> |last.rest.limits| <= 1)
    decreases |sessions|
  {
    hide StartFrom;
    hide Run;
    hide Fresh;
    hide Sound;
    hide Finished;
    hide Running;
    hide SavedBy;
    hide Argument;
    if sessions != [] {
      BeganIsRunning(c);
      RunKeeps(Began(c), sessions[0], c);
      var ending := Run(Began(c), sessions[0]);
      if ending.Ended? {
        SaveIsDurable(ending.process, d, c);
        HistoryIsDurable(SavedBy(ending.process, d), Left(ending.process, c), sessions[1..]);
      } else if ending.Crashed? {
        HistoryIsDurable(d, c, sessions[1..]);
      }
    }
  }

  // ---- limits and services together ----

  /** One more command in the services' view of a run. */
  lemma FreshStep(p: Process, cmd: Command, later: seq<ServiceSessions.Call>)
    requires cmd.OnServices? && Argument(cmd) && Registries.FreshRename(p.services.state, cmd.call.cmd)
    requires ServiceSessions.Arguments(later)
    requires Execute(p, cmd).Continue? ==>
               ServiceSessions.FreshCalls(Execute(p, cmd).process.services.state, later)
    ensures ServiceSessions.FreshCalls(p.services.state, [cmd.call] + later)
    ensures ServiceSessions.Arguments([cmd.call] + later)
  {
    hide Registries.Execute;
    hide Registries.FreshRename;
    hide ServiceSessions.Fails;
    hide ServiceSessions.AsksToSave;
    hide ServiceSessions.Argument;
    assert ([cmd.call] + later)[1..] == later;
  }

  /** Commands on other registries leave the services' process alone. */
  lemma OthersLeaveServices(p: Process, cmd: Command)
    requires !cmd.OnServices? && Execute(p, cmd).Continue?
    ensures Execute(p, cmd).process.services == p.services
  {
  }

  lemma NoCalls(s: Registries.State)
    ensures ServiceSessions.FreshCalls(s, []) && ServiceSessions.Arguments([])
  {
  }

  /** Fresh renames of a run are fresh in the services' view of it. */
  lemma {:induction false} FreshProjects(p: Process, cmds: seq<Command>)
    requires Fresh(p, cmds) && forall cmd :: cmd in cmds ==> Argument(cmd)
    ensures ServiceSessions.FreshCalls(p.services.state, CallsOf(Executed(p, cmds)))
    ensures ServiceSessions.Arguments(CallsOf(Executed(p, cmds)))
    decreases |cmds|
  {
    hide Execute;
    hide CallsOf;
    hide Argument;
    hide ServiceSessions.FreshCalls;
    hide ServiceSessions.Arguments;
    NoCalls(p.services.state);
    NothingOf();
    if cmds != [] {
      var cmd, step := cmds[0], Execute(p, cmds[0]);
      var later := if step.Continue? then Executed(step.process, cmds[1..]) else [];
      FirstOf(cmd, later);
      if step.Continue? {
        FreshProjects(step.process, cmds[1..]);
      }
      if cmd.OnServices? {
        FreshStep(p, cmd, CallsOf(later));
      } else if step.Continue? {
        OthersLeaveServices(p, cmd);
      }
    }
  }

  lemma NothingOf()
    ensures CallsOf([]) == []
  {
  }

  /**
   * A session of the whole program with fresh renames leaves limits that fit the services exactly when its own service
   * commands, as far as they were reached, are settled.
   */
  lemma IntegrityIsKeptExactly(c: Content, cmds: seq<Command>)
    requires ServiceSessions.SoundContent(c.rest) && Fresh(Began(c), cmds)
    requires (forall cmd :: cmd in cmds ==> Argument(cmd)) && Run(Began(c), cmds).Ended?
    ensures ServiceSessions.SoundContent(Left(Run(Began(c), cmds).process, c).rest)
       <==> ServiceSessions.Settled(c.rest, CallsOf(Executed(Began(c), cmds)))
  {
    hide Run;
    hide Executed;
    hide ServiceSessions.Left;
    hide ServiceSessions.Settled;
    hide ServiceSessions.SoundContent;
    var calls := CallsOf(Executed(Began(c), cmds));
    RunProjects(Began(c), cmds);
    FreshProjects(Began(c), cmds);
    ServiceSessions.SessionKeepsIntegrityExactly(c.rest, calls);
  }

  // ---- one registry's failure is everybody's ----

  /** Files that a start refuses stay as they are, whatever sessions are tried. */
  lemma {:induction false} RefusedFilesStay(d: Disk, sessions: seq<seq<Command>>)
    requires StartFrom(d) == Shut
    ensures AfterSessions(d, sessions) == Some(d)
    decreases |sessions|
  {
    hide StartFrom;
    if sessions != [] {
      RefusedFilesStay(d, sessions[1..]);
    }
  }

  /** An effective rename to a name in use locks the program out: no later session changes any of the four files. */
  lemma UsedRenameLocksOut(d: Disk, c: Content, rename: ServiceSessions.Call, later: seq<seq<Command>>)
    requires StartFrom(d) == Opened(c) && Sound(c) && rename.cmd.Rename? && NulFree(rename.cmd.newName)
    requires Registries.RenameTakesEffect(
               Began(c).services.state, rename.cmd.oldName, rename.cmd.newName,
               rename.cmd.folderMoved, rename.cmd.cgroupMoved)
    requires !Registries.FreshRename(Began(c).services.state, rename.cmd)
    ensures var after := AfterSession(d, [OnServices(rename)]);
            after.Some? && AfterSessions(after.value, later) == after
  {
    hide LoadFrom;
    hide Encode;
    hide Services.SavedServices;
    hide Limits.LimitsFile;
    hide Limits.Renamed;
    var s, cmd, cmds := Began(c).services.state, rename.cmd, [OnServices(rename)];
    assert cmds[1..] == [];
    ServiceSessions.RenamedIsShort(s, cmd.oldName, cmd.newName);
    ServiceSessions.RenameReloadsExactly(s, cmd.oldName, cmd.newName, d.rest.services);
    var after := AfterSession(d, cmds);
    assert Run(Began(c), cmds).Ended?;
    assert StartFrom(after.value) == Shut;
    RefusedFilesStay(after.value, later);
  }

  /** A job added in a session that dies on its envs is lost. */
  lemma EnvCrashLosesJobs(d: Disk, c: Content, add: Sessions.Command, a: Envs.Env, b: Envs.Env)
    requires StartFrom(d) == Opened(c) && c.envs == []
    requires EnvSessions.ValidEnv(a) && EnvSessions.ValidEnv(b)
    requires Sessions.Execute(Sessions.Registry(c.jobs, true), add).Continue?
    ensures var cmds := [OnJobs(add), OnEnvs(EnvSessions.AddEnv(a)),
                         OnEnvs(EnvSessions.RemoveEnv(a.name, a.key)), OnEnvs(EnvSessions.AddEnv(b))];
            AfterSession(d, cmds) == Some(d)
  {
    hide StartFrom;
    hide Sessions.Execute;
    hide EnvSessions.Execute;
    var add1, remove, add2 := EnvSessions.AddEnv(a), EnvSessions.RemoveEnv(a.name, a.key), EnvSessions.AddEnv(b);
    var cmds := [OnJobs(add), OnEnvs(add1), OnEnvs(remove), OnEnvs(add2)];
    assert cmds[1..] == [OnEnvs(add1), OnEnvs(remove), OnEnvs(add2)];
    assert cmds[1..][1..] == [OnEnvs(remove), OnEnvs(add2)] && cmds[1..][1..][1..] == [OnEnvs(add2)];
    EnvSessions.AddThenRemove([], a);
    EnvSessions.AddToNothing(b);
    var p := Began(c);
    var q := p.(jobs := Sessions.Execute(p.jobs, add).registry);
    var gone := q.(envs := EnvSessions.Registry([], false));
    var held := q.(envs := EnvSessions.Registry([a], true));
    assert [] + [a] == [a];
    assert Run(gone, [OnEnvs(add2)]) == Crashed;
    assert Run(held, cmds[1..][1..]) == Crashed;
    assert Run(q, cmds[1..]) == Crashed;
  }
}
