/**
 * Whole runs of the command-line program on the services and limits registries: load both files, execute commands on
 * both tables, save the services and, if a command asked for it, the limits.
 */
module ServiceSessions {
  import opened CStrings
  import opened Scanner
  import opened Table
  import opened Validators
  import opened Services
  import opened Registries
  import Limits

  /**
   * A command as `main` runs it. custom: `set-limit` with a cpu limit and a custom or extreme memory size; strict:
   * `set-limit` fails without such a service, as it does with a cpu limit; for memory alone the code leaves that open.
   */
  datatype Call = Call(cmd: Command, custom: bool, strict: bool)

  /** Both registries and whether the limits are to be saved. */
  datatype Process = Process(state: State, reformat: bool)

  /** The command ends the run with an error status. */
  predicate Fails(s: State, call: Call) {
    match call.cmd
    case Add(name, repo, clone) =>
      || !ValidServiceText(name, MAX_NAME) || !ValidServiceText(repo, MAX_PATH)
      || First(s.services, ClashWith(Service(name, repo, 0, clone == Done))) < |s.services| || clone == Failed
    case Start(_, _) => false
    case SetLimit(name, _, _, applied) =>
      var k := First(s.services, ServiceNamed(name));
      if k == |s.services| then call.strict || call.custom
      else s.services[k].pid != 0 && (!applied || !s.limitsLive)
    case Rename(_, newName, _, _) => !ValidServiceText(newName, MAX_NAME)
    case Delete(_, _) => false
  }

  /** The command asks for the limits to be saved; a custom `set-limit` does so only when it fails. */
  predicate AsksToSave(s: State, call: Call) {
    match call.cmd
    case Add(_, _, _) => false
    case Start(_, _) => false
    case SetLimit(_, _, _, _) => Fails(s, call) == call.custom
    case Rename(_, _, _, _) => !Fails(s, call)
    case Delete(_, _) => true
  }

  /** The process at the end of the run, None when it died. */
  function RunCalls(p: Process, calls: seq<Call>): Option<Process>
    decreases |calls|
  {
    if calls == [] then Some(p) else
      match Execute(p.state, calls[0].cmd)
      case None => None
      case Some(next) =>
        var q := Process(next, p.reformat || AsksToSave(p.state, calls[0]));
        if Fails(p.state, calls[0]) then Some(q) else RunCalls(q, calls[1..])
  }

  /** Every rename is to the same name or one unused at that moment. */
  predicate FreshCalls(s: State, calls: seq<Call>)
    decreases |calls|
  {
    calls == [] || (FreshRename(s, calls[0].cmd) &&
      match Execute(s, calls[0].cmd)
      case None => true
      case Some(next) => Fails(s, calls[0]) || FreshCalls(next, calls[1..]))
  }

  /** Command-line arguments are C strings. */
  predicate Argument(call: Call) {
    match call.cmd
    case Add(name, repo, _) => NulFree(name) && NulFree(repo)
    case Rename(_, newName, _, _) => NulFree(newName)
    case Start(_, _) => true
    case SetLimit(_, _, _, _) => true
    case Delete(_, _) => true
  }

  // ---- what every command keeps ----

  /** A service within the bounds of the validators. */
  predicate ShortService(s: Service) {
    GoodService(s) && |s.name| <= MAX_NAME && |s.repo| <= MAX_PATH
  }

  ghost predicate ShortServices(services: seq<Service>) {
    forall x :: x in services ==> ShortService(x)
  }

  ghost predicate AllCloned(services: seq<Service>) {
    forall x :: x in services ==> x.cloned
  }

  ghost predicate GoodNames(limits: seq<Limits.Limit>) {
    forall l :: l in limits ==> Limits.GoodLimit(l)
  }

  /** Both registries are consistent and storable. */
  ghost predicate Sound(s: State) {
    Integrity(s) && ShortServices(s.services) && GoodNames(s.limits)
  }

  /** Between two commands of a run that started with some services and with the saved limits. */
  ghost predicate Running(p: Process, start: seq<Service>, saved: seq<Limits.Limit>) {
    && Sound(p.state) && AllCloned(p.state.services)
    && (p.state.servicesLive && p.state.services == [] ==> start == [])
    && (!p.reformat ==> Attached(saved, p.state.services))
  }

  /** At the end of a run, where the last service may not have been cloned; no limit belongs to it. */
  ghost predicate Finished(p: Process, start: seq<Service>, saved: seq<Limits.Limit>) {
    && Sound(p.state)
    && (Cloned(p.state.services) == [] && p.state.services != [] ==> start == [])
    && Attached(p.state.limits, Cloned(p.state.services))
    && (!p.reformat ==> Attached(saved, Cloned(p.state.services)))
  }

  lemma {:induction false} AllClonedIsKept(services: seq<Service>)
    requires AllCloned(services)
    ensures Cloned(services) == services
  {
    if services != [] {
      assert services[0] in services && forall x :: x in services[1..] ==> x in services;
      AllClonedIsKept(services[1..]);
    }
  }

  lemma RunningMayFinish(p: Process, start: seq<Service>, saved: seq<Limits.Limit>)
    requires Running(p, start, saved)
    ensures Finished(p, start, saved)
  {
    AllClonedIsKept(p.state.services);
  }

  lemma MoreNames(limits: seq<Limits.Limit>, services: seq<Service>, more: seq<Service>)
    requires Attached(limits, services)
    requires forall i :: 0 <= i < |services| ==> i < |more| && more[i].name == services[i].name
    ensures Attached(limits, more)
  {
    forall i | 0 <= i < |limits| ensures HasName(more, limits[i].name) {
      var j :| 0 <= j < |services| && services[j].name == limits[i].name;
      assert more[j].name == limits[i].name;
    }
  }

  lemma ServiceTextIsClean(s: string, max: nat)
    requires ValidServiceText(s, max)
    ensures '^' !in s && '#' !in s && |s| <= max
  {
  }

  lemma AddStep(p: Process, name: string, repo: string, clone: Clone, start: seq<Service>, saved: seq<Limits.Limit>)
    requires Running(p, start, saved) && NulFree(name) && NulFree(repo)
    requires TryAdd(p.state, name, repo, clone).Some?
    ensures var call := Call(Add(name, repo, clone), false, false);
            var q := Process(TryAdd(p.state, name, repo, clone).value, p.reformat);
            if Fails(p.state, call) then Finished(q, start, saved) else Running(q, start, saved)
  {
    hide First;
    var s, next, service := p.state, TryAdd(p.state, name, repo, clone).value, Service(name, repo, 0, clone == Done);
    RunningMayFinish(p, start, saved);
    AddKeepsIntegrity(s, name, repo, clone);
    if next != s {
      ServiceTextIsClean(name, MAX_NAME);
      ServiceTextIsClean(repo, MAX_PATH);
      ClonedPrefix(s.services, service);
      AllClonedIsKept(s.services);
      MoreNames(s.limits, s.services, next.services);
      if !p.reformat {
        MoreNames(saved, s.services, next.services);
      }
      assert s.services + [] == s.services;
    }
  }

  lemma StartStep(p: Process, name: string, pid: u32, start: seq<Service>, saved: seq<Limits.Limit>)
    requires Running(p, start, saved)
    ensures Running(Process(TryStart(p.state, name, pid), p.reformat), start, saved)
  {
    hide First;
    var s, next := p.state, TryStart(p.state, name, pid);
    StartKeepsIntegrity(s, name, pid);
    UpdateAtFirst(s.services, ServiceNamed(name), WithPid(pid));
    forall i | 0 <= i < |next.services| ensures ShortService(next.services[i]) && next.services[i].cloned {
      assert ShortService(s.services[i]) && s.services[i].cloned;
    }
    if !p.reformat {
      MoreNames(saved, s.services, next.services);
    }
  }

  lemma LimitStep(
    p: Process, name: string, cpu: u64, memory: u128, applied: bool, reformat: bool,
    start: seq<Service>, saved: seq<Limits.Limit>)
    requires Running(p, start, saved) && (p.reformat ==> reformat)
    ensures Running(Process(TryLimit(p.state, name, cpu, memory, applied), reformat), start, saved)
  {
    hide First;
    var s, next := p.state, TryLimit(p.state, name, cpu, memory, applied);
    LimitKeepsIntegrity(s, name, cpu, memory, applied);
    if next != s {
      var k := First(s.services, ServiceNamed(name));
      assert ServiceNamed(name)(s.services[k]) && s.services[k] in s.services;
      forall l | l in next.limits ensures Limits.GoodLimit(l) {
        assert l in s.limits || l.name == name;
      }
    }
  }

  lemma RenameStep(
    p: Process, name: string, newName: string, folderMoved: bool, cgroupMoved: bool,
    start: seq<Service>, saved: seq<Limits.Limit>)
    requires Running(p, start, saved) && NulFree(newName)
    requires newName == name || !HasService(p.state, newName)
    ensures Running(Process(TryRename(p.state, name, newName, folderMoved, cgroupMoved), true), start, saved)
  {
    hide First;
    var s, next := p.state, TryRename(p.state, name, newName, folderMoved, cgroupMoved);
    if RenameTakesEffect(s, name, newName, folderMoved, cgroupMoved) {
      FreshRenameKeepsIntegrity(s, name, newName);
      ServiceTextIsClean(newName, MAX_NAME);
      UpdateAtFirst(s.services, ServiceNamed(name), WithName(newName));
      UpdateAtFirst(s.limits, Limits.LimitNamed(name), Limits.WithName(newName));
      forall i | 0 <= i < |next.services| ensures ShortService(next.services[i]) && next.services[i].cloned {
        assert ShortService(s.services[i]) && s.services[i].cloned;
      }
      forall i | 0 <= i < |next.limits| ensures Limits.GoodLimit(next.limits[i]) {
        assert Limits.GoodLimit(s.limits[i]);
      }
    }
  }

  lemma DeleteStep(p: Process, name: string, folderDeleted: bool, start: seq<Service>, saved: seq<Limits.Limit>)
    requires Running(p, start, saved)
    ensures Running(Process(TryDelete(p.state, name, folderDeleted), true), start, saved)
  {
    hide First;
    DeleteKeepsIntegrity(p.state, name, folderDeleted);
    WithoutIndex(p.state.services, ServiceNamed(name));
    WithoutIndex(p.state.limits, Limits.LimitNamed(name));
  }

  /** A command leaves the run going or ends it, with everything in place for the save. */
  lemma CallStep(p: Process, call: Call, start: seq<Service>, saved: seq<Limits.Limit>)
    requires Running(p, start, saved) && Argument(call) && FreshRename(p.state, call.cmd)
    requires Execute(p.state, call.cmd).Some?
    ensures var q := Process(Execute(p.state, call.cmd).value, p.reformat || AsksToSave(p.state, call));
            if Fails(p.state, call) then Finished(q, start, saved) else Running(q, start, saved)
  {
    hide Running;
    hide Finished;
    hide First;
    match call.cmd
    case Add(name, repo, clone) => AddStep(p, name, repo, clone, start, saved);
    case Start(name, pid) => StartStep(p, name, pid, start, saved);
    case SetLimit(name, cpu, memory, applied) =>
      var q := Process(Execute(p.state, call.cmd).value, p.reformat || AsksToSave(p.state, call));
      LimitStep(p, name, cpu, memory, applied, q.reformat, start, saved);
      RunningMayFinish(q, start, saved);
    case Rename(name, newName, folderMoved, cgroupMoved) =>
      if Fails(p.state, call) {
        RunningMayFinish(p, start, saved);
      } else {
        RenameStep(p, name, newName, folderMoved, cgroupMoved, start, saved);
      }
    case Delete(name, folderDeleted) => DeleteStep(p, name, folderDeleted, start, saved);
  }

  lemma {:induction false} CallsFinish(p: Process, calls: seq<Call>, start: seq<Service>, saved: seq<Limits.Limit>)
    requires Running(p, start, saved) && FreshCalls(p.state, calls) && forall call :: call in calls ==> Argument(call)
    ensures RunCalls(p, calls).Some? ==> Finished(RunCalls(p, calls).value, start, saved)
    decreases |calls|
  {
    hide Running;
    hide Finished;
    hide Fails;
    hide AsksToSave;
    hide Execute;
    hide Argument;
    if calls == [] {
      RunningMayFinish(p, start, saved);
    } else if Execute(p.state, calls[0].cmd).Some? {
      CallStep(p, calls[0], start, saved);
      if !Fails(p.state, calls[0]) {
        var q := Process(Execute(p.state, calls[0].cmd).value, p.reformat || AsksToSave(p.state, calls[0]));
        CallsFinish(q, calls[1..], start, saved);
      }
    }
  }

  // ---- the files ----

  datatype Disk = Disk(services: string, limits: string)

  ghost predicate Opens(d: Disk) {
    Load(SERVICES, d.services).Loaded? && Load(Limits.LIMITS, d.limits).Loaded?
  }

  /** What the two files say. */
  datatype Content = Content(services: seq<Service>, limits: seq<Limits.Limit>)

  ghost function Read(d: Disk): Content
    requires Opens(d)
  {
    Content(Load(SERVICES, d.services).rows, Load(Limits.LIMITS, d.limits).rows)
  }

  function Began(c: Content): Process {
    Process(State(c.services, c.limits, true, true), false)
  }

  /**
   * The files after the commands of one run: the services are saved, and then the limits, if some command asked for
   * it; a second limit kills the process there, and the limits file stays.
   */
  ghost function AfterSession(d: Disk, calls: seq<Call>): Disk
    requires Opens(d)
  {
    match RunCalls(Began(Read(d)), calls)
    case None => d
    case Some(p) =>
      Disk(SavedServices(d.services, p.state.services),
           if p.reformat then Limits.LimitsFile(d.limits, p.state.limits) else d.limits)
  }

  /** What a finished process leaves to the next one. */
  function Left(p: Process, c: Content): Content {
    Content(Cloned(p.state.services), if p.reformat then Limits.Kept(c.limits, p.state.limits) else c.limits)
  }

  /** The same session without any file. */
  function Next(c: Content, calls: seq<Call>): Content {
    match RunCalls(Began(c), calls)
    case None => c
    case Some(p) => Left(p, c)
  }

  /** Both registries are storable and fit each other, and all services are cloned. */
  ghost predicate SoundContent(c: Content) {
    Sound(Began(c).state) && AllCloned(c.services)
  }

  predicate Arguments(calls: seq<Call>) {
    forall call :: call in calls ==> Argument(call)
  }

  lemma ShortLineFits(s: Service)
    requires ShortService(s)
    ensures |ServiceLine(s)| <= LINE_MAX
  {
    PidTextIsShort(s.pid);
  }

  // ---- the services' half, whatever the limits ----

  /** The process as if it had no limits. */
  function Unlimited(p: Process): Process {
    Process(p.state.(limits := []), true)
  }

  /** What `Running` says of the services; of the limits only that their names can be stored. */
  ghost predicate ServicesRun(p: Process, start: seq<Service>) {
    Running(Unlimited(p), start, []) && GoodNames(p.state.limits)
  }

  ghost predicate ServicesFinish(p: Process, start: seq<Service>) {
    Finished(Unlimited(p), start, []) && GoodNames(p.state.limits)
  }

  /** The services can be stored, and the limits' names; the limits need not fit the services. */
  ghost predicate Startable(c: Content) {
    ServicesRun(Began(c), c.services)
  }

  /** The services do not depend on the limits there are. */
  lemma ServicesIgnoreLimits(s: State, call: Call)
    ensures var u := s.(limits := []);
            && Fails(u, call) == Fails(s, call)
            && Execute(u, call.cmd).Some? == Execute(s, call.cmd).Some?
            && (Execute(s, call.cmd).Some? ==>
                  && Execute(u, call.cmd).value.services == Execute(s, call.cmd).value.services
                  && Execute(u, call.cmd).value.servicesLive == Execute(s, call.cmd).value.servicesLive)
            && (FreshRename(u, call.cmd) <==> FreshRename(s, call.cmd))
  {
    hide First;
    hide Without;
    hide UpdateFirst;
    hide ValidServiceText;
    hide Limits.Upserted;
    hide Limits.Renamed;
  }

  /** A command gives a limit the name of a service or a valid name. */
  lemma NamesStayGood(s: State, call: Call)
    requires ShortServices(s.services) && GoodNames(s.limits) && Argument(call) && Execute(s, call.cmd).Some?
    ensures GoodNames(Execute(s, call.cmd).value.limits)
  {
    hide First;
    var next := Execute(s, call.cmd).value;
    match call.cmd
    case Add(_, _, _) =>
    case Start(_, _) =>
    case SetLimit(name, _, _, _) =>
      var k := First(s.services, ServiceNamed(name));
      if k < |s.services| {
        assert ServiceNamed(name)(s.services[k]) && s.services[k] in s.services;
        assert forall l :: l in next.limits ==> l in s.limits || l.name == name;
      }
    case Rename(name, newName, _, _) =>
      UpdateAtFirst(s.limits, Limits.LimitNamed(name), Limits.WithName(newName));
      if next != s {
        ServiceTextIsClean(newName, MAX_NAME);
        assert forall l :: l in next.limits ==> l in s.limits || l.name == newName;
      }
    case Delete(name, _) =>
      WithoutIndex(s.limits, Limits.LimitNamed(name));
  }

  /** The limits of a finished list do not matter to its services' half. */
  lemma UnlimitedMatters(p: Process, q: Process, start: seq<Service>)
    requires p.state.services == q.state.services && p.state.servicesLive == q.state.servicesLive
    ensures Running(p, start, []) ==> Running(Unlimited(q), start, [])
    ensures Finished(p, start, []) ==> Finished(Unlimited(q), start, [])
  {
  }

  lemma ServicesStep(p: Process, call: Call, start: seq<Service>)
    requires ServicesRun(p, start) && Argument(call) && FreshRename(p.state, call.cmd)
    requires Execute(p.state, call.cmd).Some?
    ensures var q := Process(Execute(p.state, call.cmd).value, p.reformat || AsksToSave(p.state, call));
            if Fails(p.state, call) then ServicesFinish(q, start) else ServicesRun(q, start)
  {
    hide Execute;
    hide Fails;
    hide AsksToSave;
    hide Running;
    hide Finished;
    hide FreshRename;
    var u := Unlimited(p);
    ServicesIgnoreLimits(p.state, call);
    CallStep(u, call, start, []);
    UnlimitedIsShort(p, start);
    NamesStayGood(p.state, call);
    var q := Process(Execute(p.state, call.cmd).value, p.reformat || AsksToSave(p.state, call));
    UnlimitedMatters(Process(Execute(u.state, call.cmd).value, u.reformat || AsksToSave(u.state, call)), q, start);
  }

  lemma UnlimitedIsShort(p: Process, start: seq<Service>)
    requires Running(Unlimited(p), start, [])
    ensures ShortServices(p.state.services)
  {
  }

  lemma {:induction false} ServicesCallsFinish(p: Process, calls: seq<Call>, start: seq<Service>)
    requires ServicesRun(p, start) && FreshCalls(p.state, calls) && Arguments(calls)
    ensures RunCalls(p, calls).Some? ==> ServicesFinish(RunCalls(p, calls).value, start)
    decreases |calls|
  {
    hide Running;
    hide Finished;
    hide Fails;
    hide AsksToSave;
    hide Execute;
    hide Argument;
    if calls == [] {
      RunningMayFinish(Unlimited(p), start, []);
    } else if Execute(p.state, calls[0].cmd).Some? {
      ServicesStep(p, calls[0], start);
      if !Fails(p.state, calls[0]) {
        var q := Process(Execute(p.state, calls[0].cmd).value, p.reformat || AsksToSave(p.state, calls[0]));
        ServicesCallsFinish(q, calls[1..], start);
      }
    }
  }

  lemma FinishedIsStorable(p: Process, start: seq<Service>)
    requires ServicesFinish(p, start)
    ensures GoodServices(p.state.services)
    ensures forall x :: x in p.state.services && x.cloned ==> |ServiceLine(x)| <= LINE_MAX
    ensures Cloned(p.state.services) == [] && p.state.services != [] ==> start == []
  {
    forall x | x in p.state.services && x.cloned ensures |ServiceLine(x)| <= LINE_MAX {
      ShortLineFits(x);
    }
  }

  /** Cutting the memory leaves the names. */
  lemma ClampedNames(limits: seq<Limits.Limit>)
    requires GoodNames(limits)
    ensures GoodNames(Limits.AllClamped(limits))
  {
    var cut := Limits.AllClamped(limits);
    forall i | 0 <= i < |cut| ensures Limits.GoodLimit(cut[i]) {
      assert limits[i] in limits;
    }
  }

  lemma LeftIsStartable(p: Process, c: Content)
    requires ServicesFinish(p, c.services) && GoodNames(c.limits)
    ensures Startable(Left(p, c))
  {
    FinishedIsStorable(p, c.services);
    ClampedNames(p.state.limits);
    ClonedMembers(p.state.services);
    ClonedStaysDistinct(p.state.services);
  }

  /** What a finished process saves, the next start loads, for both registries. */
  lemma SaveIsDurable(p: Process, d: Disk)
    requires Opens(d) && ServicesFinish(p, Read(d).services) && Startable(Read(d))
    ensures var c := Read(d);
            && Load(SERVICES, SavedServices(d.services, p.state.services)) == Loaded(Left(p, c).services)
            && Load(Limits.LIMITS, if p.reformat then Limits.LimitsFile(d.limits, p.state.limits) else d.limits)
               == Loaded(Left(p, c).limits)
            && Startable(Left(p, c))
  {
    hide LoadFrom;
    hide SavedServices;
    hide Limits.LimitsFile;
    hide Limits.Kept;
    hide Finished;
    hide Running;
    FinishedIsStorable(p, Read(d).services);
    ServicesRoundTrip(d.services, p.state.services);
    Limits.SavedLimitsReload(d.limits, Read(d).limits, p.state.limits);
    LeftIsStartable(p, Read(d));
  }

  /** One session whose renames are fresh: both files afterwards load to what the session leaves without files. */
  lemma SessionIsDurable(d: Disk, calls: seq<Call>)
    requires Opens(d) && Startable(Read(d)) && Arguments(calls) && FreshCalls(Began(Read(d)).state, calls)
    ensures var after := AfterSession(d, calls);
            Opens(after) && Read(after) == Next(Read(d), calls) && Startable(Read(after))
  {
    hide LoadFrom;
    hide SavedServices;
    hide Limits.LimitsFile;
    hide ServicesRun;
    hide ServicesFinish;
    hide Startable;
    var c := Read(d);
    assert ServicesRun(Began(c), c.services) by {
      StartableRuns(c);
    }
    ServicesCallsFinish(Began(c), calls, c.services);
    var run := RunCalls(Began(c), calls);
    if run.Some? {
      SaveIsDurable(run.value, d);
    }
  }

  lemma StartableRuns(c: Content)
    requires Startable(c)
    ensures ServicesRun(Began(c), c.services)
  {
  }

  // ---- histories ----

  ghost function AfterSessions(d: Disk, sessions: seq<seq<Call>>): Disk
    decreases |sessions|
  {
    if sessions == [] || !Opens(d) then d else AfterSessions(AfterSession(d, sessions[0]), sessions[1..])
  }

  function Replay(c: Content, sessions: seq<seq<Call>>): Content
    decreases |sessions|
  {
    if sessions == [] then c else Replay(Next(c, sessions[0]), sessions[1..])
  }

  /** Every rename of the history is fresh. */
  predicate FreshHistory(c: Content, sessions: seq<seq<Call>>)
    decreases |sessions|
  {
    sessions == [] ||
    (FreshCalls(Began(c).state, sessions[0]) && FreshHistory(Next(c, sessions[0]), sessions[1..]))
  }

  /**
   * Whole-history durability of both registries: after any sessions with fresh renames the files load, to exactly what
   * the same history gives without files; and from at most one limit there never is more than one in the file.
   */
  lemma {:induction false} SessionsAreDurable(d: Disk, sessions: seq<seq<Call>>)
    requires Opens(d) && Startable(Read(d)) && FreshHistory(Read(d), sessions)
    requires forall calls :: calls in sessions ==> Arguments(calls)
    ensures var after := AfterSessions(d, sessions);
            && Opens(after) && Read(after) == Replay(Read(d), sessions) && Startable(Read(after))
            && (|Read(d).limits| <= 1 ==> |Read(after).limits| <= 1)
    decreases |sessions|
  {
    hide LoadFrom;
    hide RunCalls;
    hide FreshCalls;
    hide Startable;
    hide Arguments;
    if sessions != [] {
      SessionIsDurable(d, sessions[0]);
      SessionsAreDurable(AfterSession(d, sessions[0]), sessions[1..]);
    }
  }

  // ---- limits and services together ----

  /** If the session dies at a second limit, the limits of the old file belong to services that are still there. */
  ghost predicate Settled(c: Content, calls: seq<Call>) {
    match RunCalls(Began(c), calls)
    case None => true
    case Some(p) => p.reformat && |p.state.limits| > 1 ==> Attached(c.limits, Cloned(p.state.services))
  }

  lemma LeftIsSoundExactly(p: Process, c: Content)
    requires Finished(p, c.services, c.limits) && SoundContent(c)
    ensures SoundContent(Left(p, c)) <==>
              (p.reformat && |p.state.limits| > 1 ==> Attached(c.limits, Cloned(p.state.services)))
  {
    var saved := Cloned(p.state.services);
    SoundIsStorable(p.state);
    ClonedMembers(p.state.services);
    ClonedStaysDistinct(p.state.services);
    ClampedAttachment(p.state.limits, saved);
    ClampedNames(p.state.limits);
  }

  lemma SoundIsStorable(s: State)
    requires Sound(s)
    ensures GoodServices(s.services) && Limits.GoodLimits(s.limits)
    ensures forall x :: x in s.services && x.cloned ==> |ServiceLine(x)| <= LINE_MAX
  {
    forall x | x in s.services && x.cloned ensures |ServiceLine(x)| <= LINE_MAX {
      ShortLineFits(x);
    }
  }

  lemma SoundIsStartable(c: Content)
    requires SoundContent(c)
    ensures Startable(c)
  {
  }

  /** A session with fresh renames leaves limits that fit the services exactly when it is settled. */
  lemma SessionKeepsIntegrityExactly(c: Content, calls: seq<Call>)
    requires SoundContent(c) && Arguments(calls) && FreshCalls(Began(c).state, calls)
    ensures SoundContent(Next(c, calls)) <==> Settled(c, calls)
  {
    hide Limits.Kept;
    CallsFinish(Began(c), calls, c.services, c.limits);
    var run := RunCalls(Began(c), calls);
    if run.Some? {
      LeftIsSoundExactly(run.value, c);
    }
  }

  /** After every session of the history, limits and services fit each other. */
  ghost predicate AlwaysSound(c: Content, sessions: seq<seq<Call>>)
    decreases |sessions|
  {
    SoundContent(c) && (sessions == [] || AlwaysSound(Next(c, sessions[0]), sessions[1..]))
  }

  ghost predicate SettledHistory(c: Content, sessions: seq<seq<Call>>)
    decreases |sessions|
  {
    sessions == [] || (Settled(c, sessions[0]) && SettledHistory(Next(c, sessions[0]), sessions[1..]))
  }

  /** Over a whole history with fresh renames, limits and services always fit each other exactly when all is settled. */
  lemma {:induction false} SessionsKeepIntegrityExactly(c: Content, sessions: seq<seq<Call>>)
    requires SoundContent(c) && FreshHistory(c, sessions)
    requires forall calls :: calls in sessions ==> Arguments(calls)
    ensures AlwaysSound(c, sessions) <==> SettledHistory(c, sessions)
    decreases |sessions|
  {
    hide SoundContent;
    hide Settled;
    hide Next;
    hide Arguments;
    hide FreshCalls;
    if sessions != [] {
      SessionKeepsIntegrityExactly(c, sessions[0]);
      if Settled(c, sessions[0]) {
        SessionsKeepIntegrityExactly(Next(c, sessions[0]), sessions[1..]);
      }
    }
  }

  // ---- sessions that lose limits ----

  /** A standard limit command on a running service, without trouble. */
  function SetOn(name: string, cpu: u64, memory: u128): Call {
    Call(SetLimit(name, cpu, memory, true), false, true)
  }

  /** A running service, the first of its name. */
  predicate Runs(services: seq<Service>, name: string) {
    var k := First(services, ServiceNamed(name));
    k < |services| && services[k].pid != 0
  }

  lemma SetOnStep(s: State, name: string, cpu: u64, memory: u128)
    requires Runs(s.services, name) && s.limitsLive
    ensures var call := SetOn(name, cpu, memory);
            && Execute(s, call.cmd) == Some(s.(limits := Limits.Upserted(s.limits, Limits.Limit(name, cpu, memory))))
            && !Fails(s, call) && AsksToSave(s, call)
  {
    hide First;
    hide Limits.Upserted;
  }

  /** One more command in front of a run. */
  lemma RunStep(p: Process, call: Call, later: seq<Call>)
    requires Execute(p.state, call.cmd).Some? && !Fails(p.state, call)
    ensures RunCalls(p, [call] + later) ==
            RunCalls(Process(Execute(p.state, call.cmd).value, p.reformat || AsksToSave(p.state, call)), later)
  {
    assert ([call] + later)[1..] == later;
  }

  /** Two limits set in one session, where there were none, are both lost. */
  lemma TwoLimitsAreLost(c: Content, a: Limits.Limit, b: Limits.Limit)
    requires c.limits == [] && a.name != b.name && Runs(c.services, a.name) && Runs(c.services, b.name)
    ensures var calls := [SetOn(a.name, a.cpu, a.memory)] + ([SetOn(b.name, b.cpu, b.memory)] + []);
            var run := RunCalls(Began(c), calls);
            && run.Some? && run.value.state.limits == [a, b] && run.value.state.services == c.services
            && Next(c, calls).limits == []
  {
    hide First;
    hide Runs;
    hide Execute;
    hide Fails;
    hide AsksToSave;
    var p := Began(c);
    UpsertedNew([], a);
    UpsertedNew([a], b);
    assert [] + [a] == [a] && [a] + [b] == [a, b];
    var q := Process(p.state.(limits := [a]), true);
    var e := Process(p.state.(limits := [a, b]), true);
    SetOnStep(p.state, a.name, a.cpu, a.memory);
    SetOnStep(q.state, b.name, b.cpu, b.memory);
    RunStep(p, SetOn(a.name, a.cpu, a.memory), [SetOn(b.name, b.cpu, b.memory)] + []);
    RunStep(q, SetOn(b.name, b.cpu, b.memory), []);
    assert RunCalls(e, []) == Some(e);
  }

  lemma UpsertedNew(limits: seq<Limits.Limit>, l: Limits.Limit)
    requires forall i :: 0 <= i < |limits| ==> limits[i].name != l.name
    ensures Limits.Upserted(limits, l) == limits + [l]
  {
    FirstUnique(limits, Limits.LimitNamed(l.name), |limits|);
  }

  /**
   * Limits set on two services and the service of a third limit deleted, in one session: the file keeps the third
   * limit, which then has no service.
   */
  lemma DeletedServiceKeepsLimit(x: Service, y: Service, z: Service, a: Limits.Limit, b: Limits.Limit, c: Limits.Limit)
    requires x.cloned && y.cloned && z.cloned && x.pid != 0 && y.pid != 0 && z.pid != 0
    requires x.name == a.name && y.name == b.name && z.name == c.name
    requires a.name != b.name && a.name != c.name && b.name != c.name
    ensures var delete := Call(Command.Delete(a.name, true), false, true);
            var calls := [SetOn(b.name, b.cpu, b.memory)] + ([SetOn(c.name, c.cpu, c.memory)] + ([delete] + []));
            var next := Next(Content([x, y, z], [a]), calls);
            next == Content([y, z], [a]) && !Attached(next.limits, next.services)
  {
    hide Execute;
    hide Fails;
    hide AsksToSave;
    hide First;
    hide Runs;
    hide Limits.Upserted;
    var p, services := Began(Content([x, y, z], [a])), [x, y, z];
    var set1, set2 := SetOn(b.name, b.cpu, b.memory), SetOn(c.name, c.cpu, c.memory);
    var delete := Call(Command.Delete(a.name, true), false, true);
    RunsAt(services, 1);
    RunsAt(services, 2);
    UpsertedNew([a], b);
    UpsertedNew([a, b], c);
    assert [a] + [b] == [a, b] && [a, b] + [c] == [a, b, c];
    var q := Process(p.state.(limits := [a, b]), true);
    var r := Process(p.state.(limits := [a, b, c]), true);
    var e := Process(State([y, z], [b, c], true, true), true);
    SetOnStep(p.state, b.name, b.cpu, b.memory);
    SetOnStep(q.state, c.name, c.cpu, c.memory);
    DeleteFirst(r.state, delete, x, [y, z], a, [b, c]);
    RunStep(p, set1, [set2] + ([delete] + []));
    RunStep(q, set2, [delete] + []);
    RunStep(r, delete, []);
    assert RunCalls(e, []) == Some(e);
    AllClonedIsKept([y, z]);
  }

  lemma RunsAt(services: seq<Service>, k: nat)
    requires k < |services| && services[k].pid != 0 && forall i :: 0 <= i < k ==> services[i].name != services[k].name
    ensures Runs(services, services[k].name)
  {
    FirstUnique(services, ServiceNamed(services[k].name), k);
  }

  lemma DeleteFirst(
    s: State, delete: Call, x: Service, rest: seq<Service>, a: Limits.Limit, others: seq<Limits.Limit>)
    requires delete.cmd == Command.Delete(x.name, true) && x.name == a.name && rest != [] && others != []
    requires s.services == [x] + rest && s.limits == [a] + others && s.servicesLive && s.limitsLive
    ensures Execute(s, delete.cmd) == Some(State(rest, others, true, true))
    ensures !Fails(s, delete) && AsksToSave(s, delete)
  {
    FirstUnique(s.services, ServiceNamed(x.name), 0);
    FirstUnique(s.limits, Limits.LimitNamed(x.name), 0);
    assert s.services[..0] + s.services[1..] == rest && s.limits[..0] + s.limits[1..] == others;
  }

  /** Two empty files, as an installation creates them, are sound. */
  lemma EmptyFilesAreSound()
    ensures Opens(Disk("", "")) && SoundContent(Read(Disk("", ""))) && Startable(Read(Disk("", "")))
  {
    ScanNothing(SERVICE_DELIMITERS, 0, "");
    ScanNothing(Limits.LIMIT_DELIMITERS, 0, "");
    LoadUnfinished(SERVICES, [], []);
    LoadUnfinished(Limits.LIMITS, [], []);
    SoundIsStartable(Read(Disk("", "")));
  }

  // ---- when a run survives ----

  /** The command registers a service. */
  predicate Registers(s: State, cmd: Command) {
    && cmd.Add? && ValidServiceText(cmd.name, MAX_NAME) && ValidServiceText(cmd.repo, MAX_PATH)
    && First(s.services, ClashWith(Service(cmd.name, cmd.repo, 0, cmd.clone == Done))) == |s.services|
  }

  /** The registries with the services' array in place. */
  function Live(s: State): State {
    s.(servicesLive := true)
  }

  /** What a command does while the services' array is in place; a clone that exits is left out. */
  function OnLive(s: State, cmd: Command): State {
    match Execute(Live(s), cmd)
    case Some(next) => Live(next)
    case None => Live(s)
  }

  /** No service is registered after the list was emptied in this run, and no clone exits; used: it once held some. */
  predicate Careful(s: State, used: bool, calls: seq<Call>)
    decreases |calls|
  {
    calls == [] ||
    (&& (Registers(s, calls[0].cmd) ==> calls[0].cmd.clone != Aborted && !(used && s.services == []))
     && (Fails(s, calls[0]) || Careful(OnLive(s, calls[0].cmd), used || s.services != [], calls[1..])))
  }

  /** A command does on the table what it does on an array in place, or dies where the careful run forbids it. */
  ghost predicate Agrees(s: State, used: bool, call: Call) {
    && (Execute(s, call.cmd).None? <==>
          Registers(s, call.cmd) && (call.cmd.clone == Aborted || (used && s.services == [])))
    && (Execute(s, call.cmd).Some? ==>
          var next := Execute(s, call.cmd).value;
          && Live(next) == OnLive(s, call.cmd)
          && (next.servicesLive <==> !((used || s.services != []) && next.services == [])))
    && Fails(Live(s), call) == Fails(s, call) && (Registers(Live(s), call.cmd) <==> Registers(s, call.cmd))
    && OnLive(Live(s), call.cmd) == OnLive(s, call.cmd)
  }

  lemma AddAgrees(s: State, used: bool, call: Call)
    requires call.cmd.Add? && (s.servicesLive <==> !(used && s.services == []))
    ensures Agrees(s, used, call)
  {
    hide First;
    hide ValidServiceText;
    hide ClashWith;
  }

  lemma StartOrLimitAgrees(s: State, used: bool, call: Call)
    requires (call.cmd.Start? || call.cmd.SetLimit?) && (s.servicesLive <==> !(used && s.services == []))
    ensures Agrees(s, used, call)
  {
    hide First;
    hide Limits.Upserted;
  }

  lemma RenameAgrees(s: State, used: bool, call: Call)
    requires call.cmd.Rename? && (s.servicesLive <==> !(used && s.services == []))
    ensures Agrees(s, used, call)
  {
    hide First;
    hide ValidServiceText;
    hide Limits.Renamed;
  }

  lemma DeleteAgrees(s: State, used: bool, call: Call)
    requires call.cmd.Delete? && (s.servicesLive <==> !(used && s.services == []))
    ensures Agrees(s, used, call)
  {
    hide First;
    hide Without;
    WithoutIndex(s.services, ServiceNamed(call.cmd.deleted));
  }

  lemma StepOnLive(s: State, used: bool, call: Call)
    requires s.servicesLive <==> !(used && s.services == [])
    ensures Agrees(s, used, call)
  {
    hide Agrees;
    match call.cmd
    case Add(_, _, _) => AddAgrees(s, used, call);
    case Start(_, _) => StartOrLimitAgrees(s, used, call);
    case SetLimit(_, _, _, _) => StartOrLimitAgrees(s, used, call);
    case Rename(_, _, _, _) => RenameAgrees(s, used, call);
    case Delete(_, _) => DeleteAgrees(s, used, call);
  }

  function RunLive(s: State, calls: seq<Call>): State
    decreases |calls|
  {
    if calls == [] then s else
      var next := OnLive(s, calls[0].cmd);
      if Fails(s, calls[0]) then next else RunLive(next, calls[1..])
  }

  /** A run reaches its end exactly when it is careful, and then it has done what it does to arrays in place. */
  lemma {:induction false} CallsSurviveExactly(p: Process, used: bool, calls: seq<Call>)
    requires p.state.servicesLive <==> !(used && p.state.services == [])
    ensures RunCalls(p, calls).Some? <==> Careful(Live(p.state), used, calls)
    ensures RunCalls(p, calls).Some? ==> Live(RunCalls(p, calls).value.state) == RunLive(Live(p.state), calls)
    decreases |calls|
  {
    hide Execute;
    hide Fails;
    hide Registers;
    hide AsksToSave;
    hide OnLive;
    if calls != [] {
      StepOnLive(p.state, used, calls[0]);
      if Execute(p.state, calls[0].cmd).Some? && !Fails(p.state, calls[0]) {
        var q := Process(Execute(p.state, calls[0].cmd).value, p.reformat || AsksToSave(p.state, calls[0]));
        CallsSurviveExactly(q, used || p.state.services != [], calls[1..]);
      }
    }
  }

  /** A valid add whose clone succeeds. */
  predicate GoodAdd(call: Call) {
    && call.cmd.Add? && call.cmd.clone == Done
    && ValidServiceText(call.cmd.name, MAX_NAME) && ValidServiceText(call.cmd.repo, MAX_PATH)
  }

  lemma AddToNothing(s: State, call: Call)
    requires GoodAdd(call) && s.services == []
    ensures var added := [Service(call.cmd.name, call.cmd.repo, 0, true)];
            Execute(s, call.cmd) == if s.servicesLive then Some(s.(services := added)) else None
    ensures !Fails(s, call)
  {
    var service := Service(call.cmd.name, call.cmd.repo, 0, true);
    assert [] + [service] == [service];
  }

  lemma DeleteTheLast(s: State, service: Service)
    requires s.services == [service] && s.servicesLive && s.limits == []
    ensures Execute(s, Command.Delete(service.name, true)) == Some(s.(services := [], servicesLive := false))
  {
    FirstUnique([service], ServiceNamed(service.name), 0);
    assert [service][..0] + [service][1..] == [];
  }

  /** The shortest fatal run: add a service, delete it, add another one. */
  lemma AddAfterEmptyingCrashes(a: Call, b: Call, reformat: bool)
    requires GoodAdd(a) && GoodAdd(b)
    ensures RunCalls(Process(State([], [], true, true), reformat),
                     [a, Call(Command.Delete(a.cmd.name, true), false, false), b]) == None
  {
    hide Execute;
    hide ValidServiceText;
    var delete, s0 := Call(Command.Delete(a.cmd.name, true), false, false), State([], [], true, true);
    var calls, service := [a, delete, b], Service(a.cmd.name, a.cmd.repo, 0, true);
    assert calls[1..] == [delete, b] && calls[1..][1..] == [b];
    AddToNothing(s0, a);
    var s1 := s0.(services := [service]);
    DeleteTheLast(s1, service);
    var s2 := s1.(services := [], servicesLive := false);
    AddToNothing(s2, b);
    assert RunCalls(Process(s2, true), [b]) == None;
    assert RunCalls(Process(s1, reformat || AsksToSave(s0, a)), calls[1..]) == None;
  }

  // ---- which limits a session keeps ----

  /** Some call that the run executes asks for the limits to be saved. */
  predicate SomeAsks(s: State, calls: seq<Call>)
    decreases |calls|
  {
    calls != [] &&
    (AsksToSave(s, calls[0]) ||
     (!Fails(s, calls[0]) && Execute(s, calls[0].cmd).Some? && SomeAsks(Execute(s, calls[0].cmd).value, calls[1..])))
  }

  lemma {:induction false} ReformatExactly(p: Process, calls: seq<Call>)
    ensures RunCalls(p, calls).Some? ==>
              (RunCalls(p, calls).value.reformat <==> p.reformat || SomeAsks(p.state, calls))
    decreases |calls|
  {
    hide Execute;
    hide Fails;
    hide AsksToSave;
    if calls != [] && Execute(p.state, calls[0].cmd).Some? && !Fails(p.state, calls[0]) {
      var q := Process(Execute(p.state, calls[0].cmd).value, p.reformat || AsksToSave(p.state, calls[0]));
      ReformatExactly(q, calls[1..]);
    }
  }

  /**
   * The limits that a finished session ends with are what the next start loads exactly when some executed call asked
   * to save and they are at most one, of a memory below 2^63, or otherwise when they are those of the old file.
   */
  lemma LimitsAreKeptExactly(d: Disk, calls: seq<Call>)
    requires Opens(d) && Startable(Read(d)) && Arguments(calls) && FreshCalls(Began(Read(d)).state, calls)
    requires RunCalls(Began(Read(d)), calls).Some?
    ensures var c, limits := Read(d), RunCalls(Began(Read(d)), calls).value.state.limits;
            Load(Limits.LIMITS, AfterSession(d, calls).limits) == Loaded(limits)
            <==> if SomeAsks(Began(c).state, calls) && |limits| <= 1 then Limits.FitLong(limits) else limits == c.limits
  {
    hide LoadFrom;
    hide SavedServices;
    hide SomeAsks;
    hide Limits.LimitsFile;
    hide Limits.FitLong;
    hide Limits.AllClamped;
    var c := Read(d);
    ReformatExactly(Began(c), calls);
    SessionIsDurable(d, calls);
    Limits.ClampedExactly(RunCalls(Began(c), calls).value.state.limits);
  }

  /** A custom limit with a cpu limit, set on a running service without trouble, is lost at the end of its session. */
  lemma CustomLimitIsLost(d: Disk, cmd: Command, strict: bool)
    requires Opens(d) && cmd.SetLimit? && cmd.applied
    requires StatusOf(Began(Read(d)).state, cmd.limited, true) == Kept
    ensures var calls := [Call(cmd, true, strict)];
            var run := RunCalls(Began(Read(d)), calls);
            && AfterSession(d, calls).limits == d.limits
            && run.Some?
            && run.value.state.limits == Limits.Upserted(Read(d).limits, Limits.Limit(cmd.limited, cmd.cpu, cmd.memory))
  {
    hide LoadFrom;
    hide First;
    hide Limits.Upserted;
    hide Fails;
    var call, p := Call(cmd, true, strict), Began(Read(d));
    LimitStatusExactly(p.state, call);
    RunOne(p, call);
  }

  lemma RunOne(p: Process, call: Call)
    requires Execute(p.state, call.cmd).Some?
    ensures RunCalls(p, [call]) ==
            Some(Process(Execute(p.state, call.cmd).value, p.reformat || AsksToSave(p.state, call)))
  {
    hide Execute;
    hide AsksToSave;
    hide Fails;
    assert [call][1..] == [];
    assert RunCalls(Process(Execute(p.state, call.cmd).value, p.reformat || AsksToSave(p.state, call)), []).Some?;
  }

  // ---- a rename to a name in use ----

  /** Cloned services, different from each other, whose lines can be saved. */
  ghost predicate SavableServices(services: seq<Service>) {
    DistinctServices(services) && ShortServices(services) && AllCloned(services)
  }

  /**
   * An effective rename of a cloned list, saved: the next start loads the renamed services exactly when the name was
   * fresh; after any other rename it refuses the services file, and so does every later one.
   */
  lemma RenameReloadsExactly(s: State, name: string, newName: string, file: string)
    requires SavableServices(s.services) && NulFree(newName)
    requires RenameTakesEffect(s, name, newName, true, true)
    ensures var after := TryRename(s, name, newName, true, true).services;
            Load(SERVICES, SavedServices(file, after)) ==
            if newName == name || !HasService(s, newName) then Loaded(after) else Rejected
  {
    hide LoadFrom;
    hide First;
    hide UpdateFirst;
    hide Limits.Renamed;
    hide ValidServiceText;
    var after := TryRename(s, name, newName, true, true).services;
    RenamedIsShort(s, name, newName);
    AllClonedIsKept(after);
    forall x | x in after ensures |ServiceLine(x)| <= LINE_MAX && Storable(SERVICES, x) {
      ShortLineFits(x);
      GoodServiceIsStorable(x);
    }
    UncutLinesAreEncoded(after);
    RoundTripExactly(SERVICES, after);
    RenamedClashesExactly(s, name, newName);
  }

  lemma RenamedIsShort(s: State, name: string, newName: string)
    requires SavableServices(s.services) && NulFree(newName)
    requires RenameTakesEffect(s, name, newName, true, true)
    ensures var after := TryRename(s, name, newName, true, true).services;
            ShortServices(after) && AllCloned(after) && |after| == |s.services|
  {
    hide First;
    var after := TryRename(s, name, newName, true, true).services;
    ServiceTextIsClean(newName, MAX_NAME);
    UpdateAtFirst(s.services, ServiceNamed(name), WithName(newName));
    forall i | 0 <= i < |after| ensures ShortService(after[i]) && after[i].cloned {
      assert ShortService(s.services[i]) && s.services[i].cloned;
    }
  }

  lemma RenamedClashesExactly(s: State, name: string, newName: string)
    requires DistinctServices(s.services) && RenameTakesEffect(s, name, newName, true, true)
    ensures NoClash(SERVICES, TryRename(s, name, newName, true, true).services)
       <==> newName == name || !HasService(s, newName)
  {
    hide First;
    var after := TryRename(s, name, newName, true, true).services;
    NamedExactly(s.services, name);
    NamedExactly(s.services, newName);
    UpdateAtFirst(s.services, ServiceNamed(name), WithName(newName));
    var k, j := First(s.services, ServiceNamed(name)), First(s.services, ServiceNamed(newName));
    if newName == name || !HasService(s, newName) {
      FreshRenameKeepsIntegrity(s.(limits := []), name, newName);
    } else {
      assert SERVICES.clash(after[k], after[j]) && SERVICES.clash(after[j], after[k]);
    }
  }

  // ---- a command on the two tables ----

  /** What `main` makes of the status of `set-limit`. */
  lemma LimitStatusExactly(s: State, call: Call)
    requires call.cmd.SetLimit?
    ensures var status := StatusOf(s, call.cmd.limited, call.cmd.applied);
            Fails(s, call) <==> status == Refused || (status == NoService && (call.strict || call.custom))
  {
  }

  lemma AddFailsExactly(s: State, call: Call)
    requires call.cmd.Add? && Execute(s, call.cmd).Some?
    ensures Fails(s, call) <==> Execute(s, call.cmd).value == s || call.cmd.clone == Failed
  {
  }

  /** The abstract command took s to after, with its end of the run and its wish to save the limits. */
  ghost predicate Did(s: State, call: Call, crashed: bool, failed: bool, asks: bool, after: State) {
    && crashed == Execute(s, call.cmd).None?
    && (!crashed ==> after == Execute(s, call.cmd).value && failed == Fails(s, call) && asks == AsksToSave(s, call))
  }

  method AddOn(services: Table<Service>, limits: Table<Limits.Limit>, call: Call) returns (crashed: bool, failed: bool)
    requires services.Backed() && limits.Backed() && call.cmd.Add?
    modifies services, services.slots
    ensures services.Backed() && limits.Backed()
    ensures services.Within()
    ensures Did(old(Value(services, limits)), call, crashed, failed, false, Value(services, limits))
  {
    hide First;
    hide ValidServiceText;
    hide TryAdd;
    ghost var s := Value(services, limits);
    var ok;
    AddLeavesLimits(s, call.cmd.name, call.cmd.repo, call.cmd.clone);
    crashed, ok := AddProject(services, s, call.cmd.name, call.cmd.repo, call.cmd.clone);
    if !crashed {
      AddFailsExactly(s, call);
    }
    failed := !ok;
  }

  method LimitOn(services: Table<Service>, limits: Table<Limits.Limit>, call: Call) returns (failed: bool, asks: bool)
    requires services.Backed() && limits.Backed() && call.cmd.SetLimit?
    modifies limits, limits.slots, limits.cells
    ensures services.Backed() && limits.Backed()
    ensures limits.Within()
    ensures Did(old(Value(services, limits)), call, false, failed, asks, Value(services, limits))
  {
    hide First;
    hide TryLimit;
    var cmd := call.cmd;
    ghost var s := Value(services, limits);
    LimitLeavesServices(s, cmd.limited, cmd.cpu, cmd.memory, cmd.applied);
    LimitStatusExactly(s, call);
    var status := SetResourceLimit(services, limits, cmd.limited, cmd.cpu, cmd.memory, cmd.applied);
    failed := status == Refused || (status == NoService && (call.strict || call.custom));
    asks := failed == call.custom;
  }

  method RenameOn(services: Table<Service>, limits: Table<Limits.Limit>, call: Call) returns (failed: bool)
    requires services.Backed() && limits.Backed() && call.cmd.Rename?
    modifies services.cells, limits.cells
    ensures services.Backed() && limits.Backed()
    ensures Did(old(Value(services, limits)), call, false, failed, !failed, Value(services, limits))
  {
    hide Did;
    hide ValidServiceText;
    hide TryRename;
    var cmd := call.cmd;
    ghost var s := Value(services, limits);
    RenameMeans(s, call);
    var ok := IsValidServiceText(cmd.newName, MAX_NAME);
    if ok {
      RenameService(services, limits, cmd.oldName, cmd.newName, cmd.folderMoved, cmd.cgroupMoved);
    }
    failed := !ok;
  }

  lemma RenameMeans(s: State, call: Call)
    requires call.cmd.Rename?
    ensures var cmd := call.cmd;
            var next := TryRename(s, cmd.oldName, cmd.newName, cmd.folderMoved, cmd.cgroupMoved);
            var ok := ValidServiceText(cmd.newName, MAX_NAME);
            Did(s, call, false, !ok, ok,
                if ok then State(next.services, next.limits, s.servicesLive, s.limitsLive) else s)
  {
  }

  method StartOn(services: Table<Service>, limits: Table<Limits.Limit>, call: Call)
    requires services.Backed() && limits.Backed() && call.cmd.Start?
    modifies services.cells
    ensures services.Backed() && limits.Backed()
    ensures Did(old(Value(services, limits)), call, false, false, false, Value(services, limits))
  {
    hide First;
    hide TryStart;
    StartLeavesLimits(Value(services, limits), call.cmd.target, call.cmd.pid);
    SetPid(services, call.cmd.target, call.cmd.pid);
  }

  method DeleteOn(services: Table<Service>, limits: Table<Limits.Limit>, call: Call)
    requires services.Backed() && limits.Backed() && call.cmd.Delete?
    modifies services, services.slots, limits, limits.slots
    ensures services.Backed() && limits.Backed()
    ensures services.Within() && limits.Within()
    ensures Did(old(Value(services, limits)), call, false, false, true, Value(services, limits))
  {
    hide First;
    hide TryDelete;
    DeleteService(services, limits, call.cmd.deleted, call.cmd.folderDeleted);
  }

  /** One command on both tables. */
  method ExecuteOn(services: Table<Service>, limits: Table<Limits.Limit>, call: Call)
    returns (crashed: bool, failed: bool, asks: bool)
    requires services.Backed() && limits.Backed()
    modifies services, services.slots, services.cells, limits, limits.slots, limits.cells
    ensures services.Backed() && limits.Backed()
    ensures services.Within() && limits.Within()
    ensures Did(old(Value(services, limits)), call, crashed, failed, asks, Value(services, limits))
  {
    hide Did;
    crashed, failed, asks := false, false, false;
    match call.cmd
    case Add(_, _, _) => crashed, failed := AddOn(services, limits, call);
    case Start(_, _) => StartOn(services, limits, call);
    case SetLimit(_, _, _, _) => failed, asks := LimitOn(services, limits, call);
    case Rename(_, _, _, _) =>
      failed := RenameOn(services, limits, call);
      asks := !failed;
    case Delete(_, _) =>
      DeleteOn(services, limits, call);
      asks := true;
  }

  lemma AddLeavesLimits(s: State, name: string, repo: string, clone: Clone)
    ensures var o := TryAdd(s, name, repo, clone);
            o.Some? ==> o.value == s.(services := o.value.services)
  {
  }

  lemma StartLeavesLimits(s: State, name: string, pid: u32)
    ensures TryStart(s, name, pid) == s.(services := UpdateFirst(s.services, ServiceNamed(name), WithPid(pid)))
  {
  }

  lemma LimitLeavesServices(s: State, name: string, cpu: u64, memory: u128, applied: bool)
    ensures var next := TryLimit(s, name, cpu, memory, applied); next == s.(limits := next.limits)
  {
  }
}
