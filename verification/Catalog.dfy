/**
 * The registries as maps. While keys are distinct, a table is a map from key to record, and every command on the
 * ordered table is the obvious operation on the map.
 */
module Catalog {
  import opened CStrings
  import opened Scanner
  import opened Table
  import Jobs
  import Envs
  import EnvSessions
  import Limits
  import ServiceSessions
  import Sessions
  import opened Services
  import opened Registries
  import opened Validators

  ghost predicate DistinctKeys<R, K>(rows: seq<R>, key: R -> K) {
    forall i, j :: 0 <= i < j < |rows| ==> key(rows[i]) != key(rows[j])
  }

  ghost function AsMap<R, K(!new)>(rows: seq<R>, key: R -> K): map<K, R>
    requires DistinctKeys(rows, key)
  {
    map i | 0 <= i < |rows| :: key(rows[i]) := rows[i]
  }

  /** p picks out the records of key k. */
  ghost predicate Picks<R(!new), K>(p: R -> bool, key: R -> K, k: K) {
    forall r :: p(r) <==> key(r) == k
  }

  lemma FoundExactly<R(!new), K(!new)>(rows: seq<R>, key: R -> K, p: R -> bool, k: K)
    requires DistinctKeys(rows, key) && Picks(p, key, k)
    ensures k in AsMap(rows, key) <==> First(rows, p) < |rows|
    ensures k in AsMap(rows, key) ==> AsMap(rows, key)[k] == rows[First(rows, p)]
  {
  }

  lemma EntryAt<R, K(!new)>(rows: seq<R>, key: R -> K, i: nat)
    requires DistinctKeys(rows, key) && i < |rows|
    ensures key(rows[i]) in AsMap(rows, key) && AsMap(rows, key)[key(rows[i])] == rows[i]
  {
  }

  lemma EntryOf<R, K(!new)>(rows: seq<R>, key: R -> K, k: K) returns (i: nat)
    requires DistinctKeys(rows, key) && k in AsMap(rows, key)
    ensures i < |rows| && key(rows[i]) == k && AsMap(rows, key)[k] == rows[i]
  {
    i :| 0 <= i < |rows| && key(rows[i]) == k;
  }

  lemma AppendIsUpdate<R, K(!new)>(rows: seq<R>, key: R -> K, r: R)
    requires DistinctKeys(rows, key) && key(r) !in AsMap(rows, key)
    ensures DistinctKeys(rows + [r], key)
    ensures AsMap(rows + [r], key) == AsMap(rows, key)[key(r) := r]
  {
    hide AsMap;
    var after, m := rows + [r], AsMap(rows, key);
    forall i | 0 <= i < |rows| ensures key(rows[i]) != key(r) {
      EntryAt(rows, key, i);
    }
    assert DistinctKeys(after, key);
    var now, wanted := AsMap(after, key), m[key(r) := r];
    EntryAt(after, key, |rows|);
    forall k | k in m ensures k in now {
      var i := EntryOf(rows, key, k);
      EntryAt(after, key, i);
    }
    forall k | k in now ensures k in wanted && now[k] == wanted[k] {
      var i := EntryOf(after, key, k);
      if i < |rows| {
        EntryAt(rows, key, i);
      }
    }
  }

  lemma WithoutIsRemoval<R(!new), K(!new)>(rows: seq<R>, key: R -> K, p: R -> bool, k: K)
    requires DistinctKeys(rows, key) && Picks(p, key, k)
    ensures DistinctKeys(Without(rows, p), key)
    ensures AsMap(Without(rows, p), key) == AsMap(rows, key) - {k}
  {
    hide First;
    hide AsMap;
    FoundExactly(rows, key, p, k);
    if First(rows, p) < |rows| {
      assert p(rows[First(rows, p)]);
      RemoveIndex(rows, key, First(rows, p));
    }
  }

  lemma RemoveKeepsDistinct<R, K>(rows: seq<R>, key: R -> K, f: nat)
    requires DistinctKeys(rows, key) && f < |rows|
    ensures DistinctKeys(rows[..f] + rows[f + 1..], key)
  {
  }

  lemma RemoveIndex<R(!new), K(!new)>(rows: seq<R>, key: R -> K, f: nat)
    requires DistinctKeys(rows, key) && f < |rows|
    ensures DistinctKeys(rows[..f] + rows[f + 1..], key)
    ensures AsMap(rows[..f] + rows[f + 1..], key) == AsMap(rows, key) - {key(rows[f])}
  {
    hide AsMap;
    RemoveKeepsDistinct(rows, key, f);
    var rest := rows[..f] + rows[f + 1..];
    var m, left := AsMap(rows, key), AsMap(rest, key);
    forall q | q in m && q != key(rows[f]) ensures q in left {
      var i := EntryOf(rows, key, q);
      EntryAt(rest, key, if i < f then i else i - 1);
    }
    forall q | q in left ensures q in m && q != key(rows[f]) && left[q] == m[q] {
      var i := EntryOf(rest, key, q);
      EntryAt(rows, key, if i < f then i else i + 1);
    }
  }

  /** Replacing the record of key k by one of key q moves the entry. */
  lemma ReplaceIsMove<R(!new), K(!new)>(rows: seq<R>, key: R -> K, p: R -> bool, k: K, r: R)
    requires DistinctKeys(rows, key) && Picks(p, key, k) && k in AsMap(rows, key)
    requires key(r) == k || key(r) !in AsMap(rows, key)
    ensures First(rows, p) < |rows|
    ensures DistinctKeys(rows[First(rows, p) := r], key)
    ensures AsMap(rows[First(rows, p) := r], key) == (AsMap(rows, key) - {k})[key(r) := r]
  {
    hide First;
    FoundExactly(rows, key, p, k);
    assert p(rows[First(rows, p)]);
    ReplaceIndex(rows, key, First(rows, p), r);
  }

  lemma ReplaceKeepsDistinct<R, K(!new)>(rows: seq<R>, key: R -> K, f: nat, r: R)
    requires DistinctKeys(rows, key) && f < |rows|
    requires key(r) == key(rows[f]) || key(r) !in AsMap(rows, key)
    ensures DistinctKeys(rows[f := r], key)
  {
  }

  /** What a replacement at f does to the entry of one key. */
  lemma ReplaceEntry<R, K(!new)>(rows: seq<R>, key: R -> K, f: nat, r: R, q: K)
    requires DistinctKeys(rows, key) && f < |rows| && DistinctKeys(rows[f := r], key)
    requires key(r) == key(rows[f]) || key(r) !in AsMap(rows, key)
    ensures var m, left := AsMap(rows, key), AsMap(rows[f := r], key);
            if q == key(r) then q in left && left[q] == r
            else if q in m && q != key(rows[f]) then q in left && left[q] == m[q]
            else q !in left
  {
    hide AsMap;
    var after := rows[f := r];
    EntryAt(after, key, f);
    if q in AsMap(rows, key) && q != key(rows[f]) {
      var i := EntryOf(rows, key, q);
      EntryAt(after, key, i);
    } else if q in AsMap(after, key) && q != key(r) {
      var i := EntryOf(after, key, q);
      EntryAt(rows, key, i);
    }
  }

  lemma ReplaceIndex<R, K(!new)>(rows: seq<R>, key: R -> K, f: nat, r: R)
    requires DistinctKeys(rows, key) && f < |rows|
    requires key(r) == key(rows[f]) || key(r) !in AsMap(rows, key)
    ensures DistinctKeys(rows[f := r], key)
    ensures AsMap(rows[f := r], key) == (AsMap(rows, key) - {key(rows[f])})[key(r) := r]
  {
    ReplaceKeepsDistinct(rows, key, f, r);
    hide AsMap;
    hide DistinctKeys;
    var left, wanted := AsMap(rows[f := r], key), (AsMap(rows, key) - {key(rows[f])})[key(r) := r];
    forall q ensures (q in left <==> q in wanted) && (q in left ==> left[q] == wanted[q]) {
      ReplaceEntry(rows, key, f, r, q);
    }
  }

  lemma {:induction false} MapSize<R, K(!new)>(rows: seq<R>, key: R -> K)
    requires DistinctKeys(rows, key)
    ensures |AsMap(rows, key)| == |rows|
    ensures AsMap(rows, key) == map[] <==> rows == []
  {
    if rows != [] {
      var front, last := rows[..|rows| - 1], rows[|rows| - 1];
      assert rows == front + [last];
      assert key(last) !in AsMap(front, key);
      MapSize(front, key);
      AppendIsUpdate(front, key, last);
    }
  }

  // ---- jobs ----

  function JobName(): Jobs.Job -> string {
    (j: Jobs.Job) => j.name
  }

  lemma GoodJobsHaveDistinctNames(jobs: seq<Jobs.Job>)
    requires Jobs.GoodJobs(jobs)
    ensures DistinctKeys(jobs, JobName())
  {
  }

  /** When the array is there, adding a job is creating one entry, for a name and a file that no job has. */
  lemma AddJobMeaning(
    s: Sessions.Registry, name: string, path: string, fileExists: bool, interval: u64, stamp: i64)
    requires Jobs.GoodJobs(s.jobs) && s.live
    ensures DistinctKeys(s.jobs, JobName())
    ensures var m, job := AsMap(s.jobs, JobName()), Jobs.Job(name, path, stamp, interval, 0);
            var step := Sessions.Execute(s, Sessions.AddJob(name, path, fileExists, interval, stamp));
            if ValidJobText(name, MAX_NAME) && ValidJobText(path, MAX_PATH) && fileExists && interval != 0
               && name !in m && (forall n :: n in m ==> m[n].path != path)
            then step.Continue? && DistinctKeys(step.registry.jobs, JobName())
                 && AsMap(step.registry.jobs, JobName()) == m[name := job]
            else step == Sessions.Stop(s)
  {
    GoodJobsHaveDistinctNames(s.jobs);
    var m, job := AsMap(s.jobs, JobName()), Jobs.Job(name, path, stamp, interval, 0);
    if ClashesWith(Jobs.JOBS, s.jobs, job) {
      hide AsMap;
      hide DistinctKeys;
      var i :| 0 <= i < |s.jobs| && Jobs.JOBS.clash(s.jobs[i], job);
      EntryAt(s.jobs, JobName(), i);
    } else {
      hide AsMap;
      hide DistinctKeys;
      forall n | n in m ensures n != name && m[n].path != path {
        var i := EntryOf(s.jobs, JobName(), n);
        assert !Jobs.JOBS.clash(s.jobs[i], job);
      }
      AppendIsUpdate(s.jobs, JobName(), job);
    }
  }

  /** Removing a job removes its entry and fails exactly when there is none. */
  lemma DropJobMeaning(s: Sessions.Registry, name: string)
    requires Jobs.GoodJobs(s.jobs) && s.live
    ensures DistinctKeys(s.jobs, JobName())
    ensures var m, step := AsMap(s.jobs, JobName()), Sessions.Execute(s, Sessions.DropJob(name));
            if name in m
            then step.Continue? && DistinctKeys(step.registry.jobs, JobName())
                 && AsMap(step.registry.jobs, JobName()) == m - {name}
            else step == Sessions.Stop(s)
  {
    hide First;
    hide AsMap;
    GoodJobsHaveDistinctNames(s.jobs);
    FoundExactly(s.jobs, JobName(), Jobs.Named(name), name);
    WithoutIsRemoval(s.jobs, JobName(), Jobs.Named(name), name);
  }

  // ---- environment variables ----

  type EnvMap = map<(string, string), Envs.Env>

  function EnvKey(): Envs.Env -> (string, string) {
    (e: Envs.Env) => (e.name, e.key)
  }

  ghost function EnvView(rows: seq<Envs.Env>): EnvMap
    requires DistinctKeys(rows, EnvKey())
  {
    AsMap(rows, EnvKey())
  }

  /** What a command means on the map, and whether the run goes on. */
  function EnvMeaning(m: EnvMap, cmd: EnvSessions.Command): (EnvMap, bool) {
    match cmd
    case AddEnv(e) =>
      if !EnvSessions.ValidEnv(e) then (m, false)
      else (if (e.name, e.key) in m then m else m[(e.name, e.key) := e], true)
    case UpdateEnv(name, key, value) =>
      if !EnvSessions.ValidEnv(Envs.Env(name, key, value)) || (name, key) !in m then (m, false)
      else (m[(name, key) := m[(name, key)].(value := value)], true)
    case RemoveEnv(name, key) => (m - {(name, key)}, (name, key) in m)
  }

  function EnvMeanings(m: EnvMap, cmds: seq<EnvSessions.Command>): EnvMap
    decreases |cmds|
  {
    if cmds == [] then m else
      var (next, goesOn) := EnvMeaning(m, cmds[0]);
      if goesOn then EnvMeanings(next, cmds[1..]) else next
  }

  /** The command creates an entry. */
  predicate Creates(m: EnvMap, cmd: EnvSessions.Command) {
    cmd.AddEnv? && EnvSessions.ValidEnv(cmd.added) && (cmd.added.name, cmd.added.key) !in m
  }

  /** No entry is created in a map of forty, nor in one that was emptied in this run; used: it once held entries. */
  predicate CarefulOnMap(m: EnvMap, used: bool, cmds: seq<EnvSessions.Command>)
    decreases |cmds|
  {
    cmds == [] ||
    var (next, goesOn) := EnvMeaning(m, cmds[0]);
    && (Creates(m, cmds[0]) ==> |m| < Envs.ENVS_GROWN && !(used && m == map[]))
    && (goesOn ==> CarefulOnMap(next, used || m != map[], cmds[1..]))
  }

  lemma AddEnvMeaning(rows: seq<Envs.Env>, e: Envs.Env)
    requires DistinctKeys(rows, EnvKey())
    ensures DistinctKeys(Envs.Added(rows, e), EnvKey())
    ensures EnvView(Envs.Added(rows, e)) ==
            if (e.name, e.key) in EnvView(rows) then EnvView(rows) else EnvView(rows)[(e.name, e.key) := e]
    ensures (e.name, e.key) in EnvView(rows) <==> EnvSessions.Has(rows, e.name, e.key)
  {
    FoundExactly(rows, EnvKey(), Envs.Keyed(e.name, e.key), (e.name, e.key));
    if (e.name, e.key) !in EnvView(rows) {
      AppendIsUpdate(rows, EnvKey(), e);
    }
  }

  lemma UpdateEnvMeaning(rows: seq<Envs.Env>, name: string, key: string, value: string)
    requires DistinctKeys(rows, EnvKey())
    ensures DistinctKeys(Envs.Updated(rows, name, key, value), EnvKey())
    ensures (name, key) in EnvView(rows) <==> EnvSessions.Has(rows, name, key)
    ensures (name, key) in EnvView(rows) ==>
              EnvView(Envs.Updated(rows, name, key, value)) ==
              EnvView(rows)[(name, key) := EnvView(rows)[(name, key)].(value := value)]
  {
    hide First;
    hide AsMap;
    var m, p := EnvView(rows), Envs.Keyed(name, key);
    FoundExactly(rows, EnvKey(), p, (name, key));
    if (name, key) in m {
      var e := m[(name, key)].(value := value);
      assert (m - {(name, key)})[(name, key) := e] == m[(name, key) := e];
      ReplaceIsMove(rows, EnvKey(), p, (name, key), e);
    }
  }

  /** One command on the ordered list is that command on the map. */
  lemma EnvStepMeaning(rows: seq<Envs.Env>, cmd: EnvSessions.Command)
    requires DistinctKeys(rows, EnvKey())
    ensures var (next, goesOn) := EnvSessions.OnList(rows, cmd);
            DistinctKeys(next, EnvKey()) && EnvMeaning(EnvView(rows), cmd) == (EnvView(next), goesOn)
    ensures Creates(EnvView(rows), cmd) <==> EnvSessions.Appends(rows, cmd)
  {
    hide First;
    hide AsMap;
    hide EnvSessions.ValidEnv;
    match cmd
    case AddEnv(e) => AddEnvMeaning(rows, e);
    case UpdateEnv(name, key, value) => UpdateEnvMeaning(rows, name, key, value);
    case RemoveEnv(name, key) =>
      FoundExactly(rows, EnvKey(), Envs.Keyed(name, key), (name, key));
      WithoutIsRemoval(rows, EnvKey(), Envs.Keyed(name, key), (name, key));
  }

  lemma {:induction false} ListRunIsMapRun(rows: seq<Envs.Env>, used: bool, cmds: seq<EnvSessions.Command>)
    requires DistinctKeys(rows, EnvKey())
    ensures DistinctKeys(EnvSessions.RunOnList(rows, cmds), EnvKey())
    ensures EnvView(EnvSessions.RunOnList(rows, cmds)) == EnvMeanings(EnvView(rows), cmds)
    ensures EnvSessions.Careful(rows, used, cmds) <==> CarefulOnMap(EnvView(rows), used, cmds)
    decreases |cmds|
  {
    hide EnvSessions.OnList;
    hide EnvSessions.Appends;
    hide EnvMeaning;
    hide Creates;
    hide AsMap;
    hide DistinctKeys;
    if cmds != [] {
      EnvStepMeaning(rows, cmds[0]);
      MapSize(rows, EnvKey());
      var (next, goesOn) := EnvSessions.OnList(rows, cmds[0]);
      if goesOn {
        ListRunIsMapRun(next, used || rows != [], cmds[1..]);
      }
    }
  }

  /**
   * A run of commands on the table reaches its end exactly when it is careful on a map from (name, key) to the
   * variable, and then it is that run on the map.
   */
  lemma EnvRunIsMapRun(rows: seq<Envs.Env>, cmds: seq<EnvSessions.Command>)
    requires DistinctKeys(rows, EnvKey())
    ensures var ending := EnvSessions.RunCommands(EnvSessions.Registry(rows, true), cmds);
            && (ending.Ended? <==> CarefulOnMap(EnvView(rows), false, cmds))
            && (ending.Ended? ==> DistinctKeys(ending.envs, EnvKey())
                                  && EnvView(ending.envs) == EnvMeanings(EnvView(rows), cmds))
  {
    EnvSessions.RunSurvivesExactly(EnvSessions.Registry(rows, true), false, cmds);
    ListRunIsMapRun(rows, false, cmds);
  }

  /** A bulk rename without collisions moves every entry of the old name to the new one and leaves the others. */
  lemma EnvRenameMeaning(rows: seq<Envs.Env>, name: string, newName: string)
    requires DistinctKeys(rows, EnvKey()) && !Envs.Collides(rows, name, newName)
    ensures var after := Envs.Renamed(rows, name, newName);
            && DistinctKeys(after, EnvKey())
            && (forall n, k :: (n, k) in EnvView(after) <==>
                  if n == newName then (name, k) in EnvView(rows) || (newName, k) in EnvView(rows)
                  else n != name && (n, k) in EnvView(rows))
            && (forall k :: (name, k) in EnvView(rows) ==>
                  EnvView(after)[(newName, k)] == Envs.Env(newName, k, EnvView(rows)[(name, k)].value))
            && (forall n, k :: (n, k) in EnvView(rows) && n != name ==>
                  EnvView(after)[(n, k)] == EnvView(rows)[(n, k)])
  {
    hide AsMap;
    var after := Envs.Renamed(rows, name, newName);
    RenamedIsDistinct(rows, name, newName);
    forall n, k | (n, k) in EnvView(after)
      ensures if n == newName then (name, k) in EnvView(rows) || (newName, k) in EnvView(rows)
              else n != name && (n, k) in EnvView(rows)
    {
      var i := EntryOf(after, EnvKey(), (n, k));
      EntryAt(rows, EnvKey(), i);
    }
    forall n, k | (n, k) in EnvView(rows)
      ensures var m := if n == name then newName else n;
              (m, k) in EnvView(after)
              && EnvView(after)[(m, k)] == Envs.Env(m, k, EnvView(rows)[(n, k)].value)
              && EnvView(rows)[(n, k)] == Envs.Env(n, k, EnvView(rows)[(n, k)].value)
    {
      var i := EntryOf(rows, EnvKey(), (n, k));
      EntryAt(after, EnvKey(), i);
    }
  }

  lemma RenamedIsDistinct(rows: seq<Envs.Env>, name: string, newName: string)
    requires DistinctKeys(rows, EnvKey()) && !Envs.Collides(rows, name, newName)
    ensures DistinctKeys(Envs.Renamed(rows, name, newName), EnvKey())
  {
    var after := Envs.Renamed(rows, name, newName);
    forall i, j | 0 <= i < j < |after| ensures EnvKey()(after[i]) != EnvKey()(after[j]) {
      assert EnvKey()(rows[i]) != EnvKey()(rows[j]);
    }
  }

  // ---- services and their limits ----

  datatype View = View(services: map<string, Service>, limits: map<string, Limits.Limit>)

  function ServiceName(): Service -> string {
    (s: Service) => s.name
  }

  function LimitName(): Limits.Limit -> string {
    (l: Limits.Limit) => l.name
  }

  ghost predicate Viewable(s: State) {
    DistinctKeys(s.services, ServiceName()) && DistinctKeys(s.limits, LimitName())
  }

  ghost function ViewOf(s: State): View
    requires Viewable(s)
  {
    View(AsMap(s.services, ServiceName()), AsMap(s.limits, LimitName()))
  }

  lemma IntegrityIsViewable(s: State)
    requires Integrity(s)
    ensures Viewable(s)
    ensures ViewOf(s).limits.Keys <= ViewOf(s).services.Keys
  {
  }

  /** What a limit command means on the maps: the entry of the name is replaced or created, if the service runs. */
  lemma LimitMeaning(s: State, name: string, cpu: u64, memory: u128, applied: bool)
    requires Integrity(s)
    ensures Viewable(s) && Viewable(TryLimit(s, name, cpu, memory, applied))
    ensures var v, after := ViewOf(s), TryLimit(s, name, cpu, memory, applied);
            if name in v.services && v.services[name].pid != 0 && applied && s.limitsLive
            then && ViewOf(after) == v.(limits := v.limits[name := Limits.Limit(name, cpu, memory)])
                 && after.servicesLive == s.servicesLive && after.limitsLive
            else after == s
    ensures var v := ViewOf(s);
            StatusOf(s, name, applied) ==
            if name !in v.services then NoService else if v.services[name].pid == 0 then NotRunning
            else if applied && s.limitsLive then Kept else Refused
  {
    hide First;
    hide AsMap;
    IntegrityIsViewable(s);
    var limit, m := Limits.Limit(name, cpu, memory), ViewOf(s).limits;
    FoundExactly(s.services, ServiceName(), ServiceNamed(name), name);
    FoundExactly(s.limits, LimitName(), Limits.LimitNamed(name), name);
    if name in m {
      assert (m - {name})[name := limit] == m[name := limit];
      ReplaceIsMove(s.limits, LimitName(), Limits.LimitNamed(name), name, limit);
    } else {
      AppendIsUpdate(s.limits, LimitName(), limit);
    }
  }

  /** Starting a service is storing its process id, and nothing else. */
  lemma StartMeaning(s: State, name: string, pid: u32)
    requires Integrity(s)
    ensures Viewable(s) && Viewable(TryStart(s, name, pid))
    ensures var v := ViewOf(s);
            ViewOf(TryStart(s, name, pid)) ==
            if name in v.services then v.(services := v.services[name := v.services[name].(pid := pid)]) else v
    ensures TryStart(s, name, pid).servicesLive == s.servicesLive && TryStart(s, name, pid).limitsLive == s.limitsLive
  {
    hide First;
    hide AsMap;
    IntegrityIsViewable(s);
    var m := ViewOf(s).services;
    FoundExactly(s.services, ServiceName(), ServiceNamed(name), name);
    UpdateAtFirst(s.services, ServiceNamed(name), WithPid(pid));
    if name in m {
      var started := m[name].(pid := pid);
      assert (m - {name})[name := started] == m[name := started];
      ReplaceIsMove(s.services, ServiceName(), ServiceNamed(name), name, started);
    }
  }

  /** A started service takes a limit; one whose process id is zero does not. */
  lemma LimitAfterStart(s: State, name: string, pid: u32, cpu: u64, memory: u128)
    requires Integrity(s) && s.limitsLive && HasName(s.services, name)
    ensures var started := TryStart(s, name, pid);
            var after := TryLimit(started, name, cpu, memory, true);
            && Viewable(s) && Viewable(after)
            && StatusOf(started, name, true) == (if pid != 0 then Kept else NotRunning)
            && ViewOf(after).limits ==
               if pid != 0 then ViewOf(s).limits[name := Limits.Limit(name, cpu, memory)] else ViewOf(s).limits
  {
    hide First;
    hide AsMap;
    StartKeepsIntegrity(s, name, pid);
    StartMeaning(s, name, pid);
    var started := TryStart(s, name, pid);
    NamedExactly(s.services, name);
    IntegrityIsViewable(s);
    FoundExactly(s.services, ServiceName(), ServiceNamed(name), name);
    FoundExactly(started.services, ServiceName(), ServiceNamed(name), name);
    LimitMeaning(started, name, cpu, memory, true);
  }

  /** A delete that takes effect removes the name from both maps; a map that it empties loses its array. */
  lemma DeleteMeaning(s: State, name: string, folderDeleted: bool)
    requires Integrity(s)
    ensures Viewable(s) && Viewable(TryDelete(s, name, folderDeleted))
    ensures var v, after := ViewOf(s), TryDelete(s, name, folderDeleted);
            if s.servicesLive && name in v.services && folderDeleted
            then && ViewOf(after) == View(v.services - {name}, v.limits - {name})
                 && (after.servicesLive <==> v.services.Keys != {name})
                 && (after.limitsLive <==> s.limitsLive && v.limits.Keys != {name})
            else after == s
  {
    hide First;
    hide AsMap;
    hide Without;
    IntegrityIsViewable(s);
    FoundExactly(s.services, ServiceName(), ServiceNamed(name), name);
    WithoutIsRemoval(s.services, ServiceName(), ServiceNamed(name), name);
    WithoutIsRemoval(s.limits, LimitName(), Limits.LimitNamed(name), name);
    LimitsLeft(s.limits, name);
    ServicesLeft(s.services, name);
  }

  /** A table is emptied exactly by removing the one key of its map. */
  lemma EmptiedExactly<R(!new), K(!new)>(rows: seq<R>, key: R -> K, p: R -> bool, k: K)
    requires DistinctKeys(rows, key) && Picks(p, key, k)
    ensures rows != [] && Without(rows, p) == [] <==> AsMap(rows, key).Keys == {k}
    ensures k in AsMap(rows, key) ==> (|rows| > 1 <==> AsMap(rows, key).Keys != {k})
  {
    hide First;
    hide AsMap;
    WithoutIsRemoval(rows, key, p, k);
    FoundExactly(rows, key, p, k);
    WithoutIndex(rows, p);
    MapSize(rows, key);
    MapSize(Without(rows, p), key);
    var m := AsMap(rows, key);
    if Without(rows, p) == [] && rows != [] {
      assert m - {k} == map[];
      assert forall q :: q in m ==> q == k || q in m - {k};
    }
    if m.Keys == {k} {
      assert forall q :: q in m - {k} ==> q in m.Keys && q != k;
      assert m - {k} == map[];
      assert k in m.Keys;
    }
  }

  lemma LimitsLeft(limits: seq<Limits.Limit>, name: string)
    requires DistinctKeys(limits, LimitName())
    ensures var left := Without(limits, Limits.LimitNamed(name));
            left != [] || limits == [] <==> AsMap(limits, LimitName()).Keys != {name}
  {
    EmptiedExactly(limits, LimitName(), Limits.LimitNamed(name), name);
  }

  lemma ServicesLeft(services: seq<Service>, name: string)
    requires DistinctKeys(services, ServiceName())
    ensures name in AsMap(services, ServiceName()) ==>
              (|services| > 1 <==> AsMap(services, ServiceName()).Keys != {name})
  {
    EmptiedExactly(services, ServiceName(), ServiceNamed(name), name);
  }

  /**
   * A fresh rename moves the service's entry, and the limit's if there is one, to the new name, exactly when the name
   * is valid, the service is there, both arrays are, and folder and cgroup could be moved; otherwise nothing changes.
   */
  lemma RenameMeaning(s: State, name: string, newName: string, folderMoved: bool, cgroupMoved: bool)
    requires Integrity(s) && (newName == name || !HasService(s, newName))
    ensures Viewable(s) && Viewable(TryRename(s, name, newName, folderMoved, cgroupMoved))
    ensures var v, after := ViewOf(s), TryRename(s, name, newName, folderMoved, cgroupMoved);
            if ValidServiceText(newName, MAX_NAME) && name in v.services && folderMoved && cgroupMoved && s.limitsLive
            then && ViewOf(after) == View(
                      (v.services - {name})[newName := v.services[name].(name := newName)],
                      if name in v.limits then (v.limits - {name})[newName := v.limits[name].(name := newName)]
                      else v.limits)
                 && after.servicesLive == s.servicesLive && after.limitsLive == s.limitsLive
            else after == s
  {
    hide First;
    hide AsMap;
    IntegrityIsViewable(s);
    var v := ViewOf(s);
    FoundExactly(s.services, ServiceName(), ServiceNamed(name), name);
    MapSize(s.services, ServiceName());
    if RenameTakesEffect(s, name, newName, folderMoved, cgroupMoved) {
      RenameMoves(s, name, newName, folderMoved, cgroupMoved);
    } else if name in v.services {
      assert s.services != [];
    }
  }

  lemma RenameMoves(s: State, name: string, newName: string, folderMoved: bool, cgroupMoved: bool)
    requires Integrity(s) && RenameTakesEffect(s, name, newName, folderMoved, cgroupMoved)
    requires newName == name || !HasService(s, newName)
    ensures Viewable(s) && Viewable(TryRename(s, name, newName, folderMoved, cgroupMoved))
    ensures var v := ViewOf(s);
            && name in v.services
            && ViewOf(TryRename(s, name, newName, folderMoved, cgroupMoved)) == View(
                 (v.services - {name})[newName := v.services[name].(name := newName)],
                 if name !in v.limits then v.limits
                 else (v.limits - {name})[newName := v.limits[name].(name := newName)])
  {
    hide First;
    hide AsMap;
    IntegrityIsViewable(s);
    var v := ViewOf(s);
    FoundExactly(s.services, ServiceName(), ServiceNamed(name), name);
    FoundExactly(s.services, ServiceName(), ServiceNamed(newName), newName);
    FoundExactly(s.limits, LimitName(), Limits.LimitNamed(name), name);
    ReplaceIsMove(s.services, ServiceName(), ServiceNamed(name), name, v.services[name].(name := newName));
    if name in v.limits {
      ReplaceIsMove(s.limits, LimitName(), Limits.LimitNamed(name), name, v.limits[name].(name := newName));
    }
  }

  /** The name is free and so is the repository. */
  ghost predicate Vacant(v: View, name: string, repo: string) {
    name !in v.services && forall n :: n in v.services ==> v.services[n].repo != repo
  }

  /**
   * An add of a valid name and repository, neither taken, creates one entry, cloned or not, or kills the process, for
   * lack of an array or with its clone; any other add changes nothing.
   */
  lemma AddMeaning(s: State, name: string, repo: string, clone: Clone)
    requires Integrity(s)
    ensures Viewable(s)
    ensures var v, service, after := ViewOf(s), Service(name, repo, 0, clone == Done), TryAdd(s, name, repo, clone);
            if !ValidServiceText(name, MAX_NAME) || !ValidServiceText(repo, MAX_PATH) || !Vacant(v, name, repo)
            then after == Some(s)
            else if !s.servicesLive || clone == Aborted then after == None
            else && after.Some? && Viewable(after.value)
                 && ViewOf(after.value) == v.(services := v.services[name := service])
                 && after.value.servicesLive && after.value.limitsLive == s.limitsLive
  {
    hide AsMap;
    hide ValidServiceText;
    IntegrityIsViewable(s);
    var v, service := ViewOf(s), Service(name, repo, 0, clone == Done);
    var k := First(s.services, Services.ClashWith(service));
    if k < |s.services| {
      assert Services.ClashWith(service)(s.services[k]);
      EntryAt(s.services, ServiceName(), k);
    } else {
      NoClashAtEnd(s.services, service);
      forall n | n in v.services ensures n != name && v.services[n].repo != repo {
        var i := EntryOf(s.services, ServiceName(), n);
      }
      AppendIsUpdate(s.services, ServiceName(), service);
    }
  }

  /** How a command leaves the run and whether it asks for the limits to be saved, in terms of the maps. */
  lemma CallMeaning(s: State, call: ServiceSessions.Call)
    requires Integrity(s)
    ensures Viewable(s)
    ensures var v := ViewOf(s);
            match call.cmd
            case Add(name, repo, clone) =>
              && (ServiceSessions.Fails(s, call) <==>
                    !ValidServiceText(name, MAX_NAME) || !ValidServiceText(repo, MAX_PATH) || !Vacant(v, name, repo)
                    || clone == Failed)
              && !ServiceSessions.AsksToSave(s, call)
            case Start(_, _) => !ServiceSessions.Fails(s, call) && !ServiceSessions.AsksToSave(s, call)
            case SetLimit(name, _, _, applied) =>
              var failed := if name in v.services then v.services[name].pid != 0 && !(applied && s.limitsLive)
                            else call.strict || call.custom;
              && (ServiceSessions.Fails(s, call) <==> failed)
              && (ServiceSessions.AsksToSave(s, call) <==> if call.custom then failed else !failed)
            case Rename(_, newName, _, _) =>
              var valid := ValidServiceText(newName, MAX_NAME);
              (ServiceSessions.Fails(s, call) <==> !valid) && (ServiceSessions.AsksToSave(s, call) <==> valid)
            case Delete(_, _) => !ServiceSessions.Fails(s, call) && ServiceSessions.AsksToSave(s, call)
  {
    hide First;
    hide AsMap;
    hide ValidServiceText;
    IntegrityIsViewable(s);
    match call.cmd
    case Add(name, repo, clone) => ServiceKnownExactly(s, name, repo, clone);
    case Start(_, _) =>
    case SetLimit(name, cpu, memory, applied) =>
      LimitMeaning(s, name, cpu, memory, applied);
      ServiceSessions.LimitStatusExactly(s, call);
    case Rename(_, _, _, _) =>
    case Delete(_, _) =>
  }

  lemma ServiceKnownExactly(s: State, name: string, repo: string, clone: Clone)
    requires Integrity(s) && Viewable(s)
    ensures First(s.services, Services.ClashWith(Service(name, repo, 0, clone == Done))) == |s.services|
       <==> Vacant(ViewOf(s), name, repo)
  {
    hide AsMap;
    var v, service := ViewOf(s), Service(name, repo, 0, clone == Done);
    var k := First(s.services, Services.ClashWith(service));
    if k < |s.services| {
      assert Services.ClashWith(service)(s.services[k]);
      EntryAt(s.services, ServiceName(), k);
    } else {
      NoClashAtEnd(s.services, service);
      forall n | n in v.services ensures n != name && v.services[n].repo != repo {
        var i := EntryOf(s.services, ServiceName(), n);
      }
    }
  }
}
