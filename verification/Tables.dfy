/** The whole program as it runs: four tables, filled from four files, changed by commands, and written back. */
module Tables {
  import opened CStrings
  import opened Loader
  import opened Scanner
  import opened Table
  import opened Program
  import Jobs
  import Envs
  import Services
  import Limits
  import Registries
  import Sessions
  import EnvSessions
  import ServiceSessions

  /** How a command leaves the process. */
  datatype After = GoOn | Exit | Dead | Undefined

  /** What the whole run amounts to, when a process has come this far and these commands are left. */
  ghost predicate Stands(after: After, p: Process, whole: Ending, later: seq<Command>) {
    match after
    case GoOn => whole == Run(p, later)
    case Exit => whole == Ended(p)
    case Dead => whole == Crashed
    case Undefined => whole == Overwritten
  }

  lemma StandsAtEnd(after: After, p: Process, whole: Ending, later: seq<Command>)
    requires Stands(after, p, whole, later) && (after == GoOn ==> later == [])
    ensures Stands(after, p, whole, [])
  {
  }

  /** What a run does from its i-th command on. */
  lemma RunFrom(p: Process, cmds: seq<Command>, i: nat)
    requires i < |cmds|
    ensures Run(p, cmds[i..]) ==
            match Execute(p, cmds[i])
            case Continue(next) => Run(next, cmds[i + 1..])
            case Stop(last) => Ended(last)
            case Crash => Crashed
            case Overwrite => Overwritten
  {
    hide Execute;
    assert cmds[i..][0] == cmds[i] && cmds[i..][1..] == cmds[i + 1..];
  }

  lemma RunNothing(p: Process)
    ensures Run(p, []) == Ended(p)
  {
  }

  /** One command on services and limits, seen from the whole process. */
  lemma CallMeans(
    p: Process, call: ServiceSessions.Call, crashed: bool, failed: bool, asks: bool, after: Registries.State)
    requires ServiceSessions.Did(p.services.state, call, crashed, failed, asks, after)
    ensures var q := p.(services := ServiceSessions.Process(after, p.services.reformat || asks));
            Execute(p, OnServices(call)) == if crashed then Crash else if failed then Stop(q) else Continue(q)
  {
    hide Registries.Execute;
    hide ServiceSessions.Fails;
    hide ServiceSessions.AsksToSave;
  }

  /** How loading services and jobs ends, and with which records. */
  ghost predicate FirstEnds(end: LoadEnd, d: Disk, services: seq<Services.Service>, jobs: seq<Jobs.Job>) {
    match Load(Services.SERVICES, d.rest.services)
    case Loaded(rows) =>
      (match Load(Jobs.JOBS, d.jobs)
       case Loaded(more) => end == Complete && services == rows && jobs == more
       case Rejected => end == Refused
       case Corrupted => false)
    case Rejected => end == Refused
    case Corrupted => false
  }

  /** How loading envs and limits ends. */
  ghost predicate LastEnds(end: LoadEnd, d: Disk, envs: seq<Envs.Env>, limits: seq<Limits.Limit>) {
    match Load(Envs.ENVS, d.envs)
    case Loaded(rows) =>
      (match Load(Limits.LIMITS, d.rest.limits)
       case Loaded(more) => end == Complete && envs == rows && limits == more
       case Rejected => end == Refused
       case Corrupted => end == OutOfBounds)
    case Rejected => end == Refused
    case Corrupted => end == OutOfBounds
  }

  ghost predicate Starts(end: LoadEnd, p: Process, start: Start) {
    match start
    case Opened(c) => end == Complete && p == Began(c)
    case Shut => end == Refused
    case Broken => end == OutOfBounds
  }

  lemma StartMeans(first: LoadEnd, last: LoadEnd, d: Disk, c: Content, p: Process)
    requires FirstEnds(first, d, c.rest.services, c.jobs)
    requires first == Complete ==> LastEnds(last, d, c.envs, c.rest.limits)
    requires first == last == Complete ==> p == Began(c)
    ensures Starts(if first == Complete then last else first, p, StartFrom(d))
  {
    hide LoadFrom;
    hide Tokens;
  }

  class Globals {
    const jobs: Table<Jobs.Job>
    const envs: Table<Envs.Env>
    const services: Table<Services.Service>
    const limits: Table<Limits.Limit>
    /** `reformatLimits`. */
    var reformat: bool

    ghost predicate Valid()
      reads this, jobs, jobs.slots, envs, envs.slots, services, services.slots, limits, limits.slots
    {
      jobs.Backed() && Envs.EnvTable(envs) && services.Backed() && limits.Backed()
    }

    /** The abstract value: the process. */
    ghost function Value(): Process
      reads this, jobs, jobs.cells, envs, envs.cells, services, services.cells, limits, limits.cells
    {
      Process(Sessions.Registry(jobs.Rows(), jobs.slots != null),
              EnvSessions.Registry(envs.Rows(), envs.slots != null),
              ServiceSessions.Process(Registries.Value(services, limits), reformat))
    }

    /** Arrays and cells are those from before, or new. */
    twostate predicate Within()
      reads this, jobs, envs, services, limits
    {
      && (jobs.slots == null || jobs.slots == old(jobs.slots) || fresh(jobs.slots))
      && envs.Within() && services.Within() && limits.Within()
    }

    ghost predicate Agrees(after: After, step: Step)
      reads this, jobs, jobs.cells, envs, envs.cells, services, services.cells, limits, limits.cells
    {
      match step
      case Continue(p) => after == GoOn && Value() == p
      case Stop(p) => after == Exit && Value() == p
      case Crash => after == Dead
      case Overwrite => after == Undefined
    }

    /** The tables as `init` allocates them, empty. */
    constructor ()
      ensures Ready() && fresh(jobs) && fresh(envs) && fresh(services) && fresh(limits)
      ensures fresh(jobs.slots) && fresh(envs.slots) && fresh(services.slots) && fresh(limits.slots)
    {
      jobs := new Table<Jobs.Job>(Jobs.JOBS_SCALE);
      envs := new Table<Envs.Env>(Envs.ENVS_SCALE);
      services := new Table<Services.Service>(Services.SERVICES_SCALE);
      limits := new Table<Limits.Limit>(Limits.LIMITS_SCALE);
      reformat := false;
    }

    method ExecuteJob(job: Sessions.Command) returns (after: After)
      requires Valid()
      modifies jobs, jobs.slots
      ensures Valid() && Within()
      ensures Agrees(after, Execute(old(Value()), OnJobs(job)))
    {
      hide Sessions.Execute;
      var stop, crashed := Sessions.ExecuteOn(jobs, job);
      after := if crashed then Dead else if stop then Exit else GoOn;
    }

    method ExecuteEnv(env: EnvSessions.Command) returns (after: After)
      requires Valid()
      modifies envs, envs.slots, envs.cells
      ensures Valid() && Within()
      ensures Agrees(after, Execute(old(Value()), OnEnvs(env)))
    {
      hide EnvSessions.Execute;
      hide Envs.EnvTable;
      var how := EnvSessions.ExecuteOn(envs, env);
      after := match how
        case GoOn => GoOn
        case Exit => Exit
        case Dead => Dead
        case Undefined => Undefined;
    }

    /** The command on services and limits leaves jobs and envs alone. */
    method CallOn(call: ServiceSessions.Call) returns (crashed: bool, failed: bool, asks: bool)
      requires Valid()
      modifies services, services.slots, services.cells, limits, limits.slots, limits.cells
      ensures Valid() && services.Within() && limits.Within()
      ensures jobs.Rows() == old(jobs.Rows()) && envs.Rows() == old(envs.Rows())
      ensures ServiceSessions.Did(old(Registries.Value(services, limits)), call,
                                  crashed, failed, asks, Registries.Value(services, limits))
    {
      hide ServiceSessions.Did;
      crashed, failed, asks := ServiceSessions.ExecuteOn(services, limits, call);
    }

    method ExecuteCall(call: ServiceSessions.Call) returns (after: After)
      requires Valid()
      modifies `reformat, services, services.slots, services.cells, limits, limits.slots, limits.cells
      ensures Valid() && Within()
      ensures Agrees(after, Execute(old(Value()), OnServices(call)))
    {
      hide Execute;
      hide ServiceSessions.Did;
      hide Envs.EnvTable;
      ghost var p := Value();
      var crashed, failed, asks := CallOn(call);
      CallMeans(p, call, crashed, failed, asks, Registries.Value(services, limits));
      reformat := reformat || asks;
      after := if crashed then Dead else if failed then Exit else GoOn;
    }

    /** One command. */
    method ExecuteOn(cmd: Command) returns (after: After)
      requires Valid()
      modifies `reformat, jobs, jobs.slots, envs, envs.slots, envs.cells
      modifies services, services.slots, services.cells, limits, limits.slots, limits.cells
      ensures Valid() && Within()
      ensures Agrees(after, Execute(old(Value()), cmd))
    {
      hide Execute;
      match cmd
      case OnJobs(job) => after := ExecuteJob(job);
      case OnEnvs(env) => after := ExecuteEnv(env);
      case OnServices(call) => after := ExecuteCall(call);
    }

    /** One turn of the command loop; whole is what the run amounts to. */
    method Turn(cmds: seq<Command>, i: nat, ghost whole: Ending) returns (after: After)
      requires Valid() && i < |cmds| && Stands(GoOn, Value(), whole, cmds[i..])
      modifies `reformat, jobs, jobs.slots, envs, envs.slots, envs.cells
      modifies services, services.slots, services.cells, limits, limits.slots, limits.cells
      ensures Valid() && Within() && Stands(after, Value(), whole, cmds[i + 1..])
    {
      hide Execute;
      hide Run;
      hide Envs.EnvTable;
      RunFrom(Value(), cmds, i);
      after := ExecuteOn(cmds[i]);
    }

    /** The command loop of `main`, until a command ends the run. */
    method RunCommands(cmds: seq<Command>) returns (after: After)
      requires Valid()
      modifies `reformat, jobs, jobs.slots, envs, envs.slots, envs.cells
      modifies services, services.slots, services.cells, limits, limits.slots, limits.cells
      ensures Valid()
      ensures Stands(after, Value(), Run(old(Value()), cmds), [])
    {
      hide Run;
      hide Envs.EnvTable;
      var i := 0;
      after := GoOn;
      ghost var whole := Run(Value(), cmds);
      assert cmds[0..] == cmds;
      assert Stands(after, Value(), whole, cmds);
      hide Stands;
      while i < |cmds| && after == GoOn
        invariant i <= |cmds| && Valid() && Within()
        invariant Stands(after, Value(), whole, cmds[i..])
      {
        assert forall j :: 0 <= j < |envs.cells| ==> envs.cells[j] in envs.cells;
        assert forall j :: 0 <= j < |services.cells| ==> services.cells[j] in services.cells;
        assert forall j :: 0 <= j < |limits.cells| ==> limits.cells[j] in limits.cells;
        after := Turn(cmds, i, whole);
        i := i + 1;
      }
      StandsAtEnd(after, Value(), whole, cmds[i..]);
    }

    /** The saves at the end: services, jobs, envs, limits. */
    method Save(d: Disk) returns (after: Disk)
      requires Valid()
      ensures after == SavedBy(Value(), d)
    {
      hide Encode;
      hide Services.SavedServices;
      hide Limits.SavedLimits;
      EncodeNothing(Jobs.JOBS, []);
      var servicesFile := Services.SaveServices(services, d.rest.services);
      var jobsText := Jobs.EncodeJobs(jobs);
      var jobsFile := if jobsText.None? then "" else jobsText.value;
      var envsFile := Envs.SaveEnvs(envs);
      var limitsFile := d.rest.limits;
      if reformat {
        var text := Limits.SaveLimits(limits);
        limitsFile := if text.None? then limitsFile else text.value;
      }
      after := Disk(jobsFile, envsFile, ServiceSessions.Disk(servicesFile, limitsFile));
    }

    /** Services and jobs, in the order of `init`. */
    method LoadFirst(d: Disk) returns (end: LoadEnd)
      requires services.Open() && services.cells == [] && jobs.Open() && jobs.cells == []
      modifies jobs, jobs.slots, services, services.slots
      ensures services.Open() && services.Within()
      ensures jobs.Open() && (jobs.slots == old(jobs.slots) || fresh(jobs.slots))
      ensures FirstEnds(end, d, services.Rows(), jobs.Rows())
    {
      hide LoadFrom;
      hide Tokens;
      var state, lastIndex;
      end, state, lastIndex := Services.LoadServices(services, d.rest.services);
      if end == Complete {
        var ok, scan, last := Jobs.LoadJobs(jobs, d.jobs);
        end := if ok then Complete else Refused;
      }
    }

    /** Envs and limits behind them. */
    method LoadLast(d: Disk) returns (end: LoadEnd)
      requires Envs.EnvTable(envs) && envs.slots != null && envs.cells == []
      requires Shaped(limits, Limits.LOAD_SHAPE) && limits.cells == []
      modifies envs, envs.slots, limits, limits.slots
      ensures Envs.EnvTable(envs) && envs.slots != null && envs.Within()
      ensures limits.Open() && limits.Within()
      ensures LastEnds(end, d, envs.Rows(), limits.Rows())
    {
      hide LoadFrom;
      hide Tokens;
      var state, lastIndex;
      end, state, lastIndex := Envs.LoadEnvs(envs, d.envs);
      if end == Complete {
        end, state, lastIndex := Limits.InitLimits(limits, d.rest.limits);
      }
    }

    /** The tables as `init` allocates them: empty, with their arrays. */
    ghost predicate Ready()
      reads this, jobs, jobs.slots, envs, envs.slots, services, services.slots, limits, limits.slots
    {
      && services.Open() && services.cells == [] && jobs.Open() && jobs.cells == []
      && Envs.EnvTable(envs) && envs.slots != null && envs.cells == []
      && Shaped(limits, Limits.LOAD_SHAPE) && limits.cells == [] && !reformat
    }

    /** `init`: all four files, up to the first that does not load. */
    method LoadAll(d: Disk) returns (end: LoadEnd)
      requires Ready()
      modifies jobs, jobs.slots, envs, envs.slots, services, services.slots, limits, limits.slots
      ensures Valid() && Within() && Starts(end, Value(), StartFrom(d))
    {
      hide FirstEnds;
      hide LastEnds;
      hide Starts;
      hide StartFrom;
      var first := LoadFirst(d);
      end := first;
      assert envs.cells == [] && limits.cells == [];
      if first == Complete {
        end := LoadLast(d);
      }
      ghost var c := Content(jobs.Rows(), envs.Rows(), ServiceSessions.Content(services.Rows(), limits.Rows()));
      StartMeans(first, end, d, c, Value());
    }

    /** The commands and the saves behind them. */
    method RunAndSave(d: Disk, cmds: seq<Command>) returns (result: Option<Disk>)
      requires Valid()
      modifies `reformat, jobs, jobs.slots, envs, envs.slots, envs.cells
      modifies services, services.slots, services.cells, limits, limits.slots, limits.cells
      ensures result == match Run(old(Value()), cmds)
                        case Ended(p) => Some(SavedBy(p, d))
                        case Crashed => Some(d)
                        case Overwritten => None
    {
      hide Run;
      hide SavedBy;
      hide Envs.EnvTable;
      var after := RunCommands(cmds);
      RunNothing(Value());
      if after == Dead {
        return Some(d);
      }
      if after == Undefined {
        return None;
      }
      var saved := Save(d);
      result := Some(saved);
    }
  }

  /** The process after `init`. */
  method Init(d: Disk) returns (g: Globals, end: LoadEnd)
    ensures g.Valid() && Starts(end, g.Value(), StartFrom(d))
    ensures fresh(g) && fresh(g.jobs) && fresh(g.envs) && fresh(g.services) && fresh(g.limits)
    ensures g.jobs.slots == null || fresh(g.jobs.slots)
    ensures g.envs.slots == null || fresh(g.envs.slots)
    ensures g.services.slots == null || fresh(g.services.slots)
    ensures g.limits.slots == null || fresh(g.limits.slots)
    ensures fresh(g.envs.cells) && fresh(g.services.cells) && fresh(g.limits.cells)
  {
    hide Starts;
    hide StartFrom;
    hide Envs.EnvTable;
    g := new Globals();
    end := g.LoadAll(d);
    assert forall j :: 0 <= j < |g.envs.cells| ==> g.envs.cells[j] in g.envs.cells;
    assert forall j :: 0 <= j < |g.services.cells| ==> g.services.cells[j] in g.services.cells;
    assert forall j :: 0 <= j < |g.limits.cells| ==> g.limits.cells[j] in g.limits.cells;
  }

  /** A complete run of the program: load, execute until a command ends it, save. */
  method RunProgram(d: Disk, cmds: seq<Command>) returns (result: Option<Disk>)
    ensures result == AfterSession(d, cmds)
  {
    hide StartFrom;
    hide Run;
    hide SavedBy;
    hide Envs.EnvTable;
    var g, end := Init(d);
    if end == Complete {
      result := g.RunAndSave(d, cmds);
    } else {
      result := if end == Refused then Some(d) else None;
    }
  }
}
