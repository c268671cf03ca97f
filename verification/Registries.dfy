/**
 * The services and limits registries together: every run of add, start, set-limit, rename and delete keeps names and
 * repositories distinct and every limit attached to a service.
 */
module Registries {
  import opened CStrings
  import Loader
  import opened Scanner
  import opened Table
  import opened Validators
  import opened Services
  import Limits

  /** How `git clone` ends: success, a reported failure, or an exit of the whole program. */
  datatype Clone = Done | Failed | Aborted

  /** The commands, each with what it finds out about the world. */
  datatype Command =
    | Add(name: string, repo: string, clone: Clone)
    | Start(target: string, pid: u32)
    | SetLimit(limited: string, cpu: u64, memory: u128, applied: bool)
    | Rename(oldName: string, newName: string, folderMoved: bool, cgroupMoved: bool)
    | Delete(deleted: string, folderDeleted: bool)

  /** Both registries inside a process, with whether their pointer arrays are still there. */
  datatype State = State(services: seq<Service>, limits: seq<Limits.Limit>, servicesLive: bool, limitsLive: bool)

  predicate HasService(s: State, name: string) {
    First(s.services, ServiceNamed(name)) < |s.services|
  }

  function TryAdd(s: State, name: string, repo: string, clone: Clone): Option<State> {
    var service := Service(name, repo, 0, clone == Done);
    if !ValidServiceText(name, MAX_NAME) || !ValidServiceText(repo, MAX_PATH) then Some(s)
    else if First(s.services, ClashWith(service)) < |s.services| then Some(s)
    else if !s.servicesLive || clone == Aborted then None
    else Some(s.(services := s.services + [service]))
  }

  function WithPid(pid: u32): Service -> Service {
    (x: Service) => x.(pid := pid)
  }

  function WithName(newName: string): Service -> Service {
    (x: Service) => x.(name := newName)
  }

  function TryStart(s: State, name: string, pid: u32): State {
    s.(services := UpdateFirst(s.services, ServiceNamed(name), WithPid(pid)))
  }

  function TryLimit(s: State, name: string, cpu: u64, memory: u128, applied: bool): State {
    var k := First(s.services, ServiceNamed(name));
    if k == |s.services| || s.services[k].pid == 0 || !applied || !s.limitsLive then s
    else s.(limits := Limits.Upserted(s.limits, Limits.Limit(name, cpu, memory)))
  }

  /** Whether a rename gets past every check and actually renames. */
  predicate RenameTakesEffect(s: State, name: string, newName: string, folderMoved: bool, cgroupMoved: bool) {
    && ValidServiceText(newName, MAX_NAME) && s.servicesLive && HasService(s, name)
    && folderMoved && cgroupMoved && s.limitsLive
  }

  function TryRename(s: State, name: string, newName: string, folderMoved: bool, cgroupMoved: bool): State {
    if !RenameTakesEffect(s, name, newName, folderMoved, cgroupMoved) then s
    else s.(services := UpdateFirst(s.services, ServiceNamed(name), WithName(newName)),
            limits := Limits.Renamed(s.limits, name, newName))
  }

  function TryDelete(s: State, name: string, folderDeleted: bool): State {
    if !s.servicesLive || !HasService(s, name) || !folderDeleted then s
    else
      var limits := Without(s.limits, Limits.LimitNamed(name));
      State(Without(s.services, ServiceNamed(name)), limits,
            |s.services| > 1, s.limitsLive && (limits != [] || s.limits == []))
  }

  /** One command; None is the death of the process. */
  function Execute(s: State, cmd: Command): Option<State> {
    match cmd
    case Add(name, repo, clone) => TryAdd(s, name, repo, clone)
    case Start(name, pid) => Some(TryStart(s, name, pid))
    case SetLimit(name, cpu, memory, applied) => Some(TryLimit(s, name, cpu, memory, applied))
    case Rename(name, newName, folderMoved, cgroupMoved) => Some(TryRename(s, name, newName, folderMoved, cgroupMoved))
    case Delete(name, folderDeleted) => Some(TryDelete(s, name, folderDeleted))
  }

  function Run(s: State, cmds: seq<Command>): Option<State>
    decreases |cmds|
  {
    if cmds == [] then Some(s) else
      match Execute(s, cmds[0])
      case None => None
      case Some(next) => Run(next, cmds[1..])
  }

  /** A rename to the same name, or to one that no service has. */
  predicate FreshRename(s: State, cmd: Command) {
    cmd.Rename? ==> cmd.newName == cmd.oldName || !HasService(s, cmd.newName)
  }

  predicate FreshRenames(s: State, cmds: seq<Command>)
    decreases |cmds|
  {
    cmds == [] || (FreshRename(s, cmds[0]) &&
      match Execute(s, cmds[0])
      case None => true
      case Some(next) => FreshRenames(next, cmds[1..]))
  }

  /** The cross-registry invariant. */
  ghost predicate Integrity(s: State) {
    && DistinctServices(s.services)
    && DistinctLimits(s.limits)
    && Attached(s.limits, s.services)
    && (!s.servicesLive ==> s.services == [])
    && (!s.limitsLive ==> s.limits == [])
  }

  ghost predicate DistinctServices(services: seq<Service>) {
    forall i, j :: 0 <= i < j < |services| ==>
      services[i].name != services[j].name && services[i].repo != services[j].repo
  }

  ghost predicate DistinctLimits(limits: seq<Limits.Limit>) {
    forall i, j :: 0 <= i < j < |limits| ==> limits[i].name != limits[j].name
  }

  ghost predicate HasName(services: seq<Service>, name: string) {
    exists j :: 0 <= j < |services| && services[j].name == name
  }

  ghost predicate Attached(limits: seq<Limits.Limit>, services: seq<Service>) {
    forall i :: 0 <= i < |limits| ==> HasName(services, limits[i].name)
  }

  lemma NamedExactly(services: seq<Service>, name: string)
    ensures var k := First(services, ServiceNamed(name));
            if k < |services| then services[k].name == name && HasName(services, name) else !HasName(services, name)
  {
  }

  lemma LimitNamedExactly(limits: seq<Limits.Limit>, name: string)
    ensures var m := First(limits, Limits.LimitNamed(name));
            && (m < |limits| ==> limits[m].name == name)
            && forall i :: 0 <= i < m ==> limits[i].name != name
  {
  }

  lemma NoClashAtEnd(services: seq<Service>, service: Service)
    requires First(services, ClashWith(service)) == |services|
    ensures forall i :: 0 <= i < |services| ==> services[i].name != service.name && services[i].repo != service.repo
  {
  }

  lemma AddKeepsIntegrity(s: State, name: string, repo: string, clone: Clone)
    requires Integrity(s)
    ensures TryAdd(s, name, repo, clone).Some? ==> Integrity(TryAdd(s, name, repo, clone).value)
  {
    var service, o := Service(name, repo, 0, clone == Done), TryAdd(s, name, repo, clone);
    if o.Some? && o.value != s {
      NoClashAtEnd(s.services, service);
      forall i | 0 <= i < |s.limits| ensures HasName(o.value.services, s.limits[i].name) {
        var j :| 0 <= j < |s.services| && s.services[j].name == s.limits[i].name;
        assert o.value.services[j] == s.services[j];
      }
    }
  }

  lemma StartKeepsIntegrity(s: State, name: string, pid: u32)
    requires Integrity(s)
    ensures Integrity(TryStart(s, name, pid))
  {
    var after := TryStart(s, name, pid).services;
    assert forall i :: 0 <= i < |after| ==> after[i].name == s.services[i].name && after[i].repo == s.services[i].repo;
    forall i | 0 <= i < |s.limits| ensures HasName(after, s.limits[i].name) {
      assert HasName(s.services, s.limits[i].name);
      var j :| 0 <= j < |s.services| && s.services[j].name == s.limits[i].name;
      assert after[j].name == s.limits[i].name;
    }
  }

  lemma LimitKeepsIntegrity(s: State, name: string, cpu: u64, memory: u128, applied: bool)
    requires Integrity(s)
    ensures Integrity(TryLimit(s, name, cpu, memory, applied))
  {
  }

  lemma DeleteKeepsIntegrity(s: State, name: string, folderDeleted: bool)
    requires Integrity(s)
    ensures Integrity(TryDelete(s, name, folderDeleted))
  {
    hide First;
    hide Without;
    if s.servicesLive && HasService(s, name) && folderDeleted {
      WithoutIndex(s.services, ServiceNamed(name));
      WithoutIndex(s.limits, Limits.LimitNamed(name));
      NamedExactly(s.services, name);
      RestStaysDistinct(s.services, s.limits, name);
      RestStaysAttached(s.services, s.limits, name);
    }
  }

  lemma RestStaysDistinct(services: seq<Service>, limits: seq<Limits.Limit>, name: string)
    requires DistinctServices(services) && DistinctLimits(limits)
    ensures DistinctServices(Without(services, ServiceNamed(name)))
    ensures DistinctLimits(Without(limits, Limits.LimitNamed(name)))
  {
    hide First;
    hide Without;
    var k, m := First(services, ServiceNamed(name)), First(limits, Limits.LimitNamed(name));
    var rest, left := Without(services, ServiceNamed(name)), Without(limits, Limits.LimitNamed(name));
    WithoutIndex(services, ServiceNamed(name));
    WithoutIndex(limits, Limits.LimitNamed(name));
    forall i, j | 0 <= i < j < |rest| ensures rest[i].name != rest[j].name && rest[i].repo != rest[j].repo {
      if k < |services| {
        assert rest[i] == services[if i < k then i else i + 1] && rest[j] == services[if j < k then j else j + 1];
      }
    }
    forall i, j | 0 <= i < j < |left| ensures left[i].name != left[j].name {
      if m < |limits| {
        assert left[i] == limits[if i < m then i else i + 1] && left[j] == limits[if j < m then j else j + 1];
      }
    }
  }

  /** With the service and the limit of one name gone, every other limit still has its service. */
  lemma RestStaysAttached(services: seq<Service>, limits: seq<Limits.Limit>, name: string)
    requires DistinctServices(services) && DistinctLimits(limits)
    requires Attached(limits, services) && HasName(services, name)
    ensures Attached(Without(limits, Limits.LimitNamed(name)), Without(services, ServiceNamed(name)))
  {
    hide First;
    hide Without;
    var rest, left := Without(services, ServiceNamed(name)), Without(limits, Limits.LimitNamed(name));
    forall i | 0 <= i < |left| ensures HasName(rest, left[i].name) {
      OtherLimitStays(limits, name, i);
      OtherServiceStays(services, name, left[i].name);
    }
  }

  /** The limits that remain after a removal were there before, under other names. */
  lemma OtherLimitStays(limits: seq<Limits.Limit>, name: string, i: nat)
    requires DistinctLimits(limits) && i < |Without(limits, Limits.LimitNamed(name))|
    ensures var l := Without(limits, Limits.LimitNamed(name))[i];
            l.name != name && exists j :: 0 <= j < |limits| && limits[j] == l
  {
    hide First;
    var m := First(limits, Limits.LimitNamed(name));
    var j := if i < m then i else i + 1;
    LimitNamedExactly(limits, name);
    WithoutIndex(limits, Limits.LimitNamed(name));
    assert limits[j] == Without(limits, Limits.LimitNamed(name))[i];
  }

  /** A removal keeps every service of another name. */
  lemma OtherServiceStays(services: seq<Service>, name: string, other: string)
    requires HasName(services, other) && other != name
    ensures HasName(Without(services, ServiceNamed(name)), other)
  {
    hide First;
    var k := First(services, ServiceNamed(name));
    var j :| 0 <= j < |services| && services[j].name == other;
    NamedExactly(services, name);
    WithoutIndex(services, ServiceNamed(name));
    assert Without(services, ServiceNamed(name))[if j < k then j else j - 1] == services[j];
  }

  lemma FreshRenameKeepsIntegrity(s: State, name: string, newName: string)
    requires Integrity(s) && RenameTakesEffect(s, name, newName, true, true)
    requires newName == name || !HasService(s, newName)
    ensures Integrity(TryRename(s, name, newName, true, true))
  {
    var after := TryRename(s, name, newName, true, true);
    NamedExactly(s.services, name);
    NamedExactly(s.services, newName);
    LimitNamedExactly(s.limits, name);
    assert forall j :: 0 <= j < |s.services| && newName != name ==> s.services[j].name != newName;
    assert DistinctServices(after.services);
    RenamedLimitsStayDistinct(s.services, s.limits, name, newName);
    RenamedStaysAttached(s.services, s.limits, name, newName);
  }

  /** No limit has the new name already, because its service would. */
  lemma RenamedLimitsStayDistinct(services: seq<Service>, limits: seq<Limits.Limit>, name: string, newName: string)
    requires DistinctLimits(limits) && Attached(limits, services)
    requires newName == name || !HasName(services, newName)
    ensures DistinctLimits(Limits.Renamed(limits, name, newName))
  {
  }

  lemma RenamedStaysAttached(services: seq<Service>, limits: seq<Limits.Limit>, name: string, newName: string)
    requires DistinctServices(services) && DistinctLimits(limits)
    requires Attached(limits, services) && HasName(services, name)
    ensures Attached(Limits.Renamed(limits, name, newName),
                     UpdateFirst(services, ServiceNamed(name), WithName(newName)))
  {
    var k, m := First(services, ServiceNamed(name)), First(limits, Limits.LimitNamed(name));
    var named := services[k := services[k].(name := newName)];
    var left := Limits.Renamed(limits, name, newName);
    NamedExactly(services, name);
    LimitNamedExactly(limits, name);
    forall i | 0 <= i < |left| ensures HasName(named, left[i].name) {
      if i == m {
        assert named[k].name == newName == left[m].name;
      } else {
        assert left[i] == limits[i] && limits[i].name != name;
        var j :| 0 <= j < |services| && services[j].name == limits[i].name;
        assert named[j] == services[j];
      }
    }
  }

  /** A rename that takes effect keeps the invariant exactly when the new name is the old one or unused. */
  lemma RenameKeepsIntegrityExactly(s: State, name: string, newName: string)
    requires Integrity(s) && RenameTakesEffect(s, name, newName, true, true)
    ensures Integrity(TryRename(s, name, newName, true, true)) <==> newName == name || !HasService(s, newName)
  {
    if newName == name || !HasService(s, newName) {
      FreshRenameKeepsIntegrity(s, name, newName);
    } else {
      var after := TryRename(s, name, newName, true, true).services;
      var k, j := First(s.services, ServiceNamed(name)), First(s.services, ServiceNamed(newName));
      NamedExactly(s.services, name);
      NamedExactly(s.services, newName);
      assert after[k].name == newName == after[j].name;
    }
  }

  lemma CommandKeepsIntegrity(s: State, cmd: Command)
    requires Integrity(s) && FreshRename(s, cmd)
    ensures Execute(s, cmd).Some? ==> Integrity(Execute(s, cmd).value)
  {
    match cmd
    case Add(name, repo, clone) => AddKeepsIntegrity(s, name, repo, clone);
    case Start(name, pid) => StartKeepsIntegrity(s, name, pid);
    case SetLimit(name, cpu, memory, applied) => LimitKeepsIntegrity(s, name, cpu, memory, applied);
    case Rename(name, newName, folderMoved, cgroupMoved) =>
      if RenameTakesEffect(s, name, newName, folderMoved, cgroupMoved) {
        FreshRenameKeepsIntegrity(s, name, newName);
      }
    case Delete(name, folderDeleted) => DeleteKeepsIntegrity(s, name, folderDeleted);
  }

  /** Over every run whose renames are fresh when they happen, the registries stay consistent. */
  lemma {:induction false} RunKeepsIntegrity(s: State, cmds: seq<Command>)
    requires Integrity(s) && FreshRenames(s, cmds)
    ensures Run(s, cmds).Some? ==> Integrity(Run(s, cmds).value)
    decreases |cmds|
  {
    if cmds != [] {
      CommandKeepsIntegrity(s, cmds[0]);
      var next := Execute(s, cmds[0]);
      if next.Some? {
        RunKeepsIntegrity(next.value, cmds[1..]);
      }
    }
  }

  ghost predicate HasClonedName(services: seq<Service>, name: string) {
    exists j :: 0 <= j < |services| && services[j].cloned && services[j].name == name
  }

  /** Every limit belongs to a service that was cloned. */
  ghost predicate LimitsOnCloned(s: State) {
    forall i :: 0 <= i < |s.limits| ==> HasClonedName(s.services, s.limits[i].name)
  }

  /** The services after a save and a restart: with services but none cloned, whatever the old file holds. */
  ghost function Reloaded(file: string, services: seq<Service>): Outcome<Service> {
    if services != [] && Cloned(services) == [] then Load(SERVICES, file) else Loaded(Cloned(services))
  }

  /**
   * Saving both registries and starting again: the cloned services come back, or the old file's where none is cloned;
   * the limits come back with their memory cut, or the old file's where there are two or more. What comes back fits
   * together exactly when the limits are attached; where both files are new, when each limit has a cloned service.
   */
  lemma ReloadKeepsIntegrityExactly(s: State, file: string, limitsFile: string, saved: seq<Limits.Limit>)
    requires Integrity(s) && GoodServices(s.services) && Limits.GoodLimits(s.limits)
    requires forall x :: x in s.services && x.cloned ==> |ServiceLine(x)| <= LINE_MAX
    requires Load(Limits.LIMITS, limitsFile) == Loaded(saved)
    ensures Load(SERVICES, SavedServices(file, s.services)) == Reloaded(file, s.services)
    ensures Load(Limits.LIMITS, Limits.LimitsFile(limitsFile, s.limits)) == Loaded(Limits.Kept(saved, s.limits))
    ensures Reloaded(file, s.services).Loaded? ==>
              var back, limits := Reloaded(file, s.services).rows, Limits.Kept(saved, s.limits);
              && (Integrity(State(back, limits, true, true)) <==> Attached(limits, back))
              && (|s.limits| <= 1 && (s.services == [] || Cloned(s.services) != []) ==>
                    (Attached(limits, back) <==> LimitsOnCloned(s)))
  {
    hide LoadFrom;
    hide Tokens;
    hide Cloned;
    ServicesRoundTrip(file, s.services);
    Limits.SavedLimitsReload(limitsFile, saved, s.limits);
    ClonedStaysDistinct(s.services);
    ClonedAttachment(s);
    LoadedServicesAreGood(file);
    Limits.LoadedLimitsAreGood(limitsFile);
    NothingCloned(s.services);
    if Reloaded(file, s.services).Loaded? {
      GoodServicesAreDistinct(Reloaded(file, s.services).rows);
      KeptIsDistinct(saved, s.limits);
      ClampedAttachment(s.limits, Cloned(s.services));
    }
  }

  lemma NothingCloned(services: seq<Service>)
    ensures services == [] ==> Cloned(services) == []
  {
  }

  lemma KeptIsDistinct(saved: seq<Limits.Limit>, limits: seq<Limits.Limit>)
    requires Limits.GoodLimits(saved)
    ensures DistinctLimits(Limits.Kept(saved, limits))
  {
    forall i, j | 0 <= i < j < |saved| ensures saved[i].name != saved[j].name {
      assert !Limits.LIMITS.clash(saved[i], saved[j]);
    }
  }

  /** Cutting the memory leaves the names. */
  lemma ClampedAttachment(limits: seq<Limits.Limit>, services: seq<Service>)
    ensures Attached(Limits.AllClamped(limits), services) <==> Attached(limits, services)
  {
    var cut := Limits.AllClamped(limits);
    assert forall i :: 0 <= i < |limits| ==> cut[i].name == limits[i].name;
  }

  lemma GoodServicesAreDistinct(services: seq<Service>)
    ensures GoodServices(services) ==> DistinctServices(services)
  {
    if GoodServices(services) {
      forall i, j | 0 <= i < j < |services|
        ensures services[i].name != services[j].name && services[i].repo != services[j].repo
      {
        assert !SERVICES.clash(services[i], services[j]);
      }
    }
  }

  lemma ClonedStaysDistinct(services: seq<Service>)
    requires GoodServices(services)
    ensures DistinctServices(Cloned(services))
  {
    ClonedKeepsGood(services);
    GoodServicesAreDistinct(Cloned(services));
  }

  lemma ClonedAttachment(s: State)
    ensures Attached(s.limits, Cloned(s.services)) <==> LimitsOnCloned(s)
  {
    hide Cloned;
    var saved := Cloned(s.services);
    ClonedMembers(s.services);
    if Attached(s.limits, saved) {
      forall i | 0 <= i < |s.limits| ensures HasClonedName(s.services, s.limits[i].name) {
        assert HasName(saved, s.limits[i].name);
        var j :| 0 <= j < |saved| && saved[j].name == s.limits[i].name;
        assert saved[j] in saved;
        var q :| 0 <= q < |s.services| && s.services[q] == saved[j];
      }
    }
    if LimitsOnCloned(s) {
      forall i | 0 <= i < |s.limits| ensures HasName(saved, s.limits[i].name) {
        assert HasClonedName(s.services, s.limits[i].name);
        var j :| 0 <= j < |s.services| && s.services[j].cloned && s.services[j].name == s.limits[i].name;
        assert s.services[j] in s.services;
        var q :| 0 <= q < |saved| && saved[q] == s.services[j];
      }
    }
  }

  // ---- the commands on the two tables ----

  /** The abstract value of the two tables. */
  ghost function Value(services: Table<Service>, limits: Table<Limits.Limit>): State
    reads services, services.cells, limits, limits.cells
  {
    State(services.Rows(), limits.Rows(), services.slots != null, limits.slots != null)
  }

  /** The registration of `addProject` with the outcome of the clone; a crash is a null array or the clone's exit. */
  method AddProject(services: Table<Service>, ghost s: State, name: string, repo: string, clone: Clone)
    returns (crashed: bool, ok: bool)
    requires services.Backed() && s.services == services.Rows() && s.servicesLive == (services.slots != null)
    modifies services, services.slots
    ensures services.Backed()
    ensures services.Within()
    ensures crashed == TryAdd(s, name, repo, clone).None?
    ensures !crashed ==> services.Rows() == TryAdd(s, name, repo, clone).value.services
    ensures !crashed ==> (services.slots != null) == s.servicesLive
    ensures !crashed ==> ok == (TryAdd(s, name, repo, clone).value != s && clone != Failed)
  {
    hide First;
    hide ValidServiceText;
    var nameOk := IsValidServiceText(name, MAX_NAME);
    var repoOk := IsValidServiceText(repo, MAX_PATH);
    if !nameOk || !repoOk {
      return false, false;
    }
    var service := Service(name, repo, 0, clone == Done);
    if services.slots == null {
      return true, false;
    }
    Loader.ClashIsFirst(SERVICES, services.Rows(), service, ClashWith(service));
    var added := AddService(services, service);
    return added && clone == Aborted, added && clone == Done;
  }

  /** A service is given the process id of its run, zero when it is stopped. */
  method SetPid(services: Table<Service>, name: string, pid: u32)
    requires services.Backed()
    modifies services.cells
    ensures services.Backed()
    ensures services.Rows() == UpdateFirst(old(services.Rows()), ServiceNamed(name), WithPid(pid))
  {
    var k := services.FindFirst(ServiceNamed(name));
    UpdateAtFirst(services.Rows(), ServiceNamed(name), WithPid(pid));
    if k < services.count {
      services.Overwrite(k, services.slots[k].rec.(pid := pid));
    }
  }

  datatype LimitStatus = NoService | NotRunning | Kept | Refused

  /** How a limit command ends: it is refused by the foreign call or by a null array of limits. */
  function StatusOf(s: State, name: string, applied: bool): LimitStatus {
    var k := First(s.services, ServiceNamed(name));
    if k == |s.services| then NoService
    else if s.services[k].pid == 0 then NotRunning
    else if applied && s.limitsLive then Kept else Refused
  }

  /** `setCpuResourceLimit` and `setMemoryLimit` once the foreign limit calls have answered. */
  method SetResourceLimit(
    services: Table<Service>, limits: Table<Limits.Limit>, name: string, cpu: u64, memory: u128, applied: bool)
    returns (status: LimitStatus)
    requires services.Backed() && limits.Backed()
    modifies limits, limits.slots, limits.cells
    ensures limits.Backed()
    ensures limits.Within()
    ensures limits.Rows() == TryLimit(old(Value(services, limits)), name, cpu, memory, applied).limits
    ensures (limits.slots != null) == old(limits.slots != null)
    ensures status == StatusOf(old(Value(services, limits)), name, applied)
  {
    hide First;
    var k := services.FindFirst(ServiceNamed(name));
    if k == services.count {
      return NoService;
    }
    if services.slots[k].rec.pid == 0 {
      return NotRunning;
    }
    var ok := false;
    if applied {
      ok := Limits.CreateLimit(limits, name, cpu, memory);
    }
    status := if ok then Kept else Refused;
  }

  /** `renameService`, the registry part: the folder and the cgroup first, then the limit, then the service. */
  method RenameService(
    services: Table<Service>, limits: Table<Limits.Limit>,
    name: string, newName: string, folderMoved: bool, cgroupMoved: bool)
    requires services.Backed() && limits.Backed()
    modifies services.cells, limits.cells
    ensures services.Backed() && limits.Backed()
    ensures services.Rows() == TryRename(old(Value(services, limits)), name, newName, folderMoved, cgroupMoved).services
    ensures limits.Rows() == TryRename(old(Value(services, limits)), name, newName, folderMoved, cgroupMoved).limits
  {
    hide Limits.Renamed;
    hide First;
    hide UpdateFirst;
    hide ValidServiceText;
    var nameOk := IsValidServiceText(newName, MAX_NAME);
    if !nameOk || services.slots == null {
      return;
    }
    var k := services.FindFirst(ServiceNamed(name));
    if k < services.count && folderMoved && cgroupMoved {
      RenameBoth(services, limits, name, newName, k);
    }
  }

  /** The limit first; without an array of limits that fails, and the service keeps its name. */
  method RenameBoth(services: Table<Service>, limits: Table<Limits.Limit>, name: string, newName: string, k: nat)
    requires services.Backed() && limits.Backed()
    requires k < services.count && k == First(services.Rows(), ServiceNamed(name))
    modifies services.cells, limits.cells
    ensures services.Backed() && limits.Backed()
    ensures services.Rows() ==
            if limits.slots == null then old(services.Rows())
            else UpdateFirst(old(services.Rows()), ServiceNamed(name), WithName(newName))
    ensures limits.Rows() ==
            if limits.slots == null then old(limits.Rows()) else Limits.Renamed(old(limits.Rows()), name, newName)
  {
    hide Limits.Renamed;
    hide First;
    hide UpdateFirst;
    var ok := Limits.RenameLimit(limits, name, newName);
    assert services.Backed() && services.Rows() == old(services.Rows());
    if ok {
      RenameRecord(services, name, newName, k);
    }
  }

  method RenameRecord(services: Table<Service>, name: string, newName: string, k: nat)
    requires services.Backed() && k < services.count && k == First(services.Rows(), ServiceNamed(name))
    modifies services.cells
    ensures services.Backed()
    ensures services.Rows() == UpdateFirst(old(services.Rows()), ServiceNamed(name), WithName(newName))
  {
    UpdateAtFirst(services.Rows(), ServiceNamed(name), WithName(newName));
    services.Overwrite(k, services.slots[k].rec.(name := newName));
  }

  /** `normalDeleteServices`: the folder first, then the service, then its limit. */
  method DeleteService(services: Table<Service>, limits: Table<Limits.Limit>, name: string, folderDeleted: bool)
    requires services.Backed() && limits.Backed()
    modifies services, services.slots, limits, limits.slots
    ensures services.Backed() && limits.Backed()
    ensures services.Within() && limits.Within()
    ensures Value(services, limits) == TryDelete(old(Value(services, limits)), name, folderDeleted)
  {
    hide Without;
    if services.slots == null {
      return;
    }
    var k := services.FindFirst(ServiceNamed(name));
    if k < services.count && folderDeleted {
      DeleteBoth(services, limits, name, k);
    }
  }

  method RemoveRecord(services: Table<Service>, name: string, ghost k: nat)
    requires services.Backed() && k < services.count && k == First(services.Rows(), ServiceNamed(name))
    modifies services, services.slots
    ensures services.Backed()
    ensures services.Within()
    ensures services.Rows() == Without(old(services.Rows()), ServiceNamed(name))
    ensures (services.slots != null) == (old(services.count) > 1)
    ensures services.slots == null || services.slots == old(services.slots)
  {
    hide First;
    hide Without;
    var found := services.RemoveFirst(ServiceNamed(name));
  }

  /** The record goes from both tables; an emptied table gives up its array. */
  method DeleteBoth(services: Table<Service>, limits: Table<Limits.Limit>, name: string, ghost k: nat)
    requires services.Backed() && limits.Backed()
    requires k < services.count && k == First(services.Rows(), ServiceNamed(name))
    modifies services, services.slots, limits, limits.slots
    ensures services.Backed() && limits.Backed()
    ensures services.Within() && limits.Within()
    ensures services.Rows() == Without(old(services.Rows()), ServiceNamed(name))
    ensures limits.Rows() == Without(old(limits.Rows()), Limits.LimitNamed(name))
    ensures (services.slots != null) == (old(services.count) > 1)
    ensures (limits.slots != null) == (old(limits.slots != null) && (limits.count > 0 || old(limits.count) == 0))
  {
    hide First;
    hide Without;
    RemoveRecord(services, name, k);
    assert limits.Backed() && limits.Rows() == old(limits.Rows());
    Limits.RemoveLimit(limits, name);
  }
}
