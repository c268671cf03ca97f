/**
 * The job daemon. Once per cycle it loads the jobs file, runs every due job, writes the file back, advances its tick
 * counter and forgets the table. It saves with the job count the launching process had when it forked.
 */
module Daemon {
  import opened Arithmetic
  import opened CStrings
  import opened Scanner
  import opened Table
  import opened Jobs
  import opened Schedule

  /** What an attempt to run a due job leaves behind: nothing, or the pid read from the pipe and the current time. */
  datatype Attempt = Unchanged | Ran(pid: u32, when: i64)

  function Apply(job: Job, attempt: Attempt): Job {
    match attempt
    case Unchanged => job
    case Ran(pid, when) => job.(pid := pid, lastRun := when)
  }

  ghost predicate Runnable(jobs: seq<Job>) {
    forall i :: 0 <= i < |jobs| ==> jobs[i].interval > 0
  }

  /** The table after running every job due at this tick. */
  function RunDue(jobs: seq<Job>, tick: nat, attempts: nat -> Attempt): (after: seq<Job>)
    requires Runnable(jobs)
    ensures |after| == |jobs|
  {
    seq(|jobs|, i requires 0 <= i < |jobs| =>
      if Due(jobs[i].interval, tick) then Apply(jobs[i], attempts(i)) else jobs[i])
  }

  lemma RunDueAt(jobs: seq<Job>, tick: nat, attempts: nat -> Attempt, i: nat)
    requires Runnable(jobs) && i < |jobs|
    ensures RunDue(jobs, tick, attempts)[i] ==
            if Due(jobs[i].interval, tick) then Apply(jobs[i], attempts(i)) else jobs[i]
  {
  }

  /** The names of the jobs attempted at this tick. */
  ghost function DueNames(jobs: seq<Job>, tick: nat): set<string>
    requires Runnable(jobs)
  {
    set i | 0 <= i < |jobs| && Due(jobs[i].interval, tick) :: jobs[i].name
  }

  /** The daemon between cycles: the jobs file, its counter, and the names attempted in every completed cycle. */
  datatype State = Alive(file: string, tick: u64, log: seq<set<string>>) | Dead

  function NextTick(tick: u64): u64 {
    (tick + 1) % TICKS
  }

  /** The text `save_jobs_daemon` writes: nothing when the forking process had no jobs. None: it dereferences null. */
  ghost function Saved(forkCount: nat, jobs: seq<Job>): Option<string> {
    if forkCount == 0 then Some("")
    else if jobs == [] then None
    else Some(Encode(JOBS, jobs))
  }

  /** One turn of the daemon loop. A file that does not load costs a turn but no tick. */
  ghost function Cycle(s: State, forkCount: nat, attempts: nat -> Attempt): State {
    if s.Dead? || !Load(JOBS, s.file).Loaded? then s
    else
      var jobs := Load(JOBS, s.file).rows;
      LoadedAreRunnable(s.file);
      match Saved(forkCount, RunDue(jobs, s.tick, attempts))
      case None => Dead
      case Some(text) => Alive(text, NextTick(s.tick), s.log + [DueNames(jobs, s.tick)])
  }

  ghost function Cycles(s: State, forkCount: nat, world: nat -> (nat -> Attempt), n: nat): State {
    if n == 0 then s else Cycle(Cycles(s, forkCount, world, n - 1), forkCount, world(n - 1))
  }

  lemma LoadedAreRunnable(file: string)
    ensures Load(JOBS, file).Loaded? ==> Runnable(Load(JOBS, file).rows)
  {
    LoadedJobsAreGood(file);
    if Load(JOBS, file).Loaded? {
      var jobs := Load(JOBS, file).rows;
      assert forall i :: 0 <= i < |jobs| ==> jobs[i] in jobs;
    }
  }

  /** Same jobs in the same order: only pid and last-run time may differ. */
  ghost predicate SameSchedule(a: seq<Job>, b: seq<Job>) {
    && |a| == |b|
    && forall i :: 0 <= i < |a| ==> a[i].name == b[i].name && a[i].path == b[i].path && a[i].interval == b[i].interval
  }

  lemma SameScheduleKeepsGood(a: seq<Job>, b: seq<Job>)
    requires GoodJobs(a) && SameSchedule(a, b)
    ensures GoodJobs(b)
  {
    forall i, j | 0 <= i < j < |b| ensures !JOBS.clash(b[i], b[j]) {
      assert !JOBS.clash(a[i], a[j]);
    }
    forall i | 0 <= i < |b| ensures GoodJob(b[i]) {
      assert a[i] in a;
    }
  }

  /** Running jobs touches only pid and last-run time. */
  lemma RunDueKeepsSchedule(jobs: seq<Job>, tick: nat, attempts: nat -> Attempt)
    requires Runnable(jobs)
    ensures SameSchedule(jobs, RunDue(jobs, tick, attempts))
  {
    forall i | 0 <= i < |jobs|
      ensures RunDue(jobs, tick, attempts)[i] in {jobs[i], Apply(jobs[i], attempts(i))}
    {
    }
  }

  /**
   * Exactly when a cycle keeps the jobs: a loadable file still lists the same jobs after it just if the count at fork
   * and the list loaded are both zero or both nonzero. Otherwise the daemon erases the file or dies.
   */
  lemma CycleKeepsJobsExactly(s: State, forkCount: nat, attempts: nat -> Attempt)
    requires s.Alive? && Load(JOBS, s.file).Loaded?
    ensures var jobs, next := Load(JOBS, s.file).rows, Cycle(s, forkCount, attempts);
            (next.Alive? && Load(JOBS, next.file).Loaded? && SameSchedule(jobs, Load(JOBS, next.file).rows))
            <==> (forkCount == 0 <==> jobs == [])
  {
    var jobs := Load(JOBS, s.file).rows;
    LoadedAreRunnable(s.file);
    LoadedJobsAreGood(s.file);
    var after := RunDue(jobs, s.tick, attempts);
    RunDueKeepsSchedule(jobs, s.tick, attempts);
    SameScheduleKeepsGood(jobs, after);
    JobsRoundTrip(after);
    JobsRoundTrip([]);
  }

  /** How many completed cycles attempted the job of this name. */
  ghost function TimesRun(log: seq<set<string>>, name: string): nat {
    if log == [] then 0 else
      TimesRun(log[..|log| - 1], name) + if name in log[|log| - 1] then 1 else 0
  }

  lemma TimesRunStep(log: seq<set<string>>, names: set<string>, name: string)
    ensures TimesRun(log + [names], name) == TimesRun(log, name) + if name in names then 1 else 0
  {
  }

  lemma DueNamesExact(jobs: seq<Job>, tick: nat, k: nat)
    requires GoodJobs(jobs) && Runnable(jobs) && k < |jobs|
    ensures jobs[k].name in DueNames(jobs, tick) <==> Due(jobs[k].interval, tick)
  {
  }

  /** The job at position k after n cycles: as the latest successful attempt at a due tick left it. */
  ghost function History(job: Job, k: nat, world: nat -> (nat -> Attempt), n: nat): Job {
    if n == 0 then job
    else if job.interval > 0 && Due(job.interval, (n - 1) % TICKS)
    then Apply(History(job, k, world, n - 1), world(n - 1)(k))
    else History(job, k, world, n - 1)
  }

  lemma {:induction false} HistoryKeepsSchedule(job: Job, k: nat, world: nat -> (nat -> Attempt), n: nat)
    ensures var h := History(job, k, world, n); h.name == job.name && h.path == job.path && h.interval == job.interval
  {
    if n > 0 {
      HistoryKeepsSchedule(job, k, world, n - 1);
    }
  }

  /** What every number of completed cycles keeps, seen from the job list that the run started with. */
  ghost predicate Faithful(start: seq<Job>, s: State, n: nat, world: nat -> (nat -> Attempt)) {
    && s.Alive? && s.tick == n % TICKS && |s.log| == n
    && Load(JOBS, s.file).Loaded? && SameSchedule(start, Load(JOBS, s.file).rows)
    && (forall k :: 0 <= k < |start| ==> Load(JOBS, s.file).rows[k] == History(start[k], k, world, n))
    && forall k :: 0 <= k < |start| && start[k].interval > 0 ==>
         TimesRun(s.log, start[k].name) == DueCount(start[k].interval, n)
  }

  /** The file after a cycle that keeps the jobs is exactly the list after running the due ones. */
  lemma CycleWritesRunJobs(s: State, forkCount: nat, attempts: nat -> Attempt)
    requires s.Alive? && Load(JOBS, s.file).Loaded? && Load(JOBS, s.file).rows != [] && forkCount != 0
    ensures Runnable(Load(JOBS, s.file).rows)
    ensures var next := Cycle(s, forkCount, attempts);
            next.Alive? && Load(JOBS, next.file) == Loaded(RunDue(Load(JOBS, s.file).rows, s.tick, attempts))
  {
    hide LoadFrom;
    hide Encode;
    var jobs := Load(JOBS, s.file).rows;
    LoadedAreRunnable(s.file);
    LoadedJobsAreGood(s.file);
    RunDueKeepsSchedule(jobs, s.tick, attempts);
    SameScheduleKeepsGood(jobs, RunDue(jobs, s.tick, attempts));
    JobsRoundTrip(RunDue(jobs, s.tick, attempts));
  }

  /** Running the due jobs takes every job one step on in its history. */
  lemma HistoryStep(start: seq<Job>, jobs: seq<Job>, tick: nat, n: nat, world: nat -> (nat -> Attempt))
    requires Runnable(jobs) && |jobs| == |start| && tick == n % TICKS
    requires forall k :: 0 <= k < |start| ==> jobs[k] == History(start[k], k, world, n)
    ensures forall k :: 0 <= k < |start| ==> RunDue(jobs, tick, world(n))[k] == History(start[k], k, world, n + 1)
  {
    forall k | 0 <= k < |start| ensures RunDue(jobs, tick, world(n))[k] == History(start[k], k, world, n + 1) {
      HistoryKeepsSchedule(start[k], k, world, n);
    }
  }

  /** The names attempted in a cycle advance the count of every job that is due. */
  lemma LogStep(start: seq<Job>, jobs: seq<Job>, log: seq<set<string>>, n: nat)
    requires GoodJobs(jobs) && Runnable(jobs) && SameSchedule(start, jobs)
    requires forall k :: 0 <= k < |start| && start[k].interval > 0 ==>
               TimesRun(log, start[k].name) == DueCount(start[k].interval, n)
    ensures forall k :: 0 <= k < |start| && start[k].interval > 0 ==>
              TimesRun(log + [DueNames(jobs, n % TICKS)], start[k].name) == DueCount(start[k].interval, n + 1)
  {
    hide GoodJobs;
    hide DueNames;
    hide TimesRun;
    var names := DueNames(jobs, n % TICKS);
    forall k | 0 <= k < |start| && start[k].interval > 0
      ensures TimesRun(log + [names], start[k].name) == DueCount(start[k].interval, n + 1)
    {
      TimesRunStep(log, names, start[k].name);
      DueNamesExact(jobs, n % TICKS, k);
    }
  }

  lemma SameScheduleTwice(a: seq<Job>, b: seq<Job>, c: seq<Job>)
    requires SameSchedule(a, b) && SameSchedule(b, c)
    ensures SameSchedule(a, c)
  {
  }

  lemma CycleIsFaithful(start: seq<Job>, s: State, n: nat, forkCount: nat, world: nat -> (nat -> Attempt))
    requires GoodJobs(start) && start != [] && forkCount != 0
    requires Faithful(start, s, n, world)
    ensures Faithful(start, Cycle(s, forkCount, world(n)), n + 1, world)
  {
    hide LoadFrom;
    hide Encode;
    hide RunDue;
    hide DueNames;
    hide TimesRun;
    hide DueCount;
    hide History;
    hide SameSchedule;
    hide GoodJobs;
    hide Runnable;
    var jobs := Load(JOBS, s.file).rows;
    SameScheduleSize(start, jobs);
    CycleWritesRunJobs(s, forkCount, world(n));
    LoadedJobsAreGood(s.file);
    RunDueKeepsSchedule(jobs, s.tick, world(n));
    SameScheduleTwice(start, jobs, RunDue(jobs, s.tick, world(n)));
    HistoryStep(start, jobs, s.tick, n, world);
    LogStep(start, jobs, s.log, n);
    DivisionStep(n, TICKS);
  }

  lemma SameScheduleSize(a: seq<Job>, b: seq<Job>)
    requires SameSchedule(a, b)
    ensures |a| == |b|
  {
  }

  /**
   * The whole run: when the launching process had jobs and the file lists some, after any number n of cycles the file
   * lists the same jobs in the same order, and the job of interval I was attempted exactly as often as a multiple of
   * I was reached; nobody but the daemon touching the file.
   */
  lemma {:induction false} DaemonRunIsFaithful(
    file: string, forkCount: nat, world: nat -> (nat -> Attempt), n: nat)
    requires Load(JOBS, file).Loaded? && Load(JOBS, file).rows != [] && forkCount != 0
    ensures Faithful(Load(JOBS, file).rows, Cycles(Alive(file, 0, []), forkCount, world, n), n, world)
  {
    hide LoadFrom;
    var start := Load(JOBS, file).rows;
    LoadedJobsAreGood(file);
    if n > 0 {
      DaemonRunIsFaithful(file, forkCount, world, n - 1);
      CycleIsFaithful(start, Cycles(Alive(file, 0, []), forkCount, world, n - 1), n - 1, forkCount, world);
    }
  }

  /** In cycle j the tick was a multiple of the interval and the job's attempt reported a run. */
  predicate RanAt(world: nat -> (nat -> Attempt), k: nat, interval: nat, j: nat)
    requires interval > 0
  {
    (j % TICKS) % interval == 0 && world(j)(k).Ran?
  }

  /** m is the last such cycle below n. */
  ghost predicate LatestRun(world: nat -> (nat -> Attempt), k: nat, interval: nat, m: nat, n: nat)
    requires interval > 0
  {
    m < n && RanAt(world, k, interval, m) && forall j :: m < j < n ==> !RanAt(world, k, interval, j)
  }

  ghost predicate NeverRun(world: nat -> (nat -> Attempt), k: nat, interval: nat, n: nat)
    requires interval > 0
  {
    forall j :: 0 <= j < n ==> !RanAt(world, k, interval, j)
  }

  lemma HistoryStepOf(job: Job, k: nat, world: nat -> (nat -> Attempt), n: nat)
    requires job.interval > 0
    ensures var before, after := History(job, k, world, n), History(job, k, world, n + 1);
            if RanAt(world, k, job.interval, n) then after.pid == world(n)(k).pid && after.lastRun == world(n)(k).when
            else after == before
    ensures History(job, k, world, 0) == job
  {
  }

  /** A history ends with pid and time of the latest run, or as it began. */
  lemma {:induction false} HistoryIsLatest(job: Job, k: nat, world: nat -> (nat -> Attempt), n: nat)
    requires job.interval > 0
    ensures NeverRun(world, k, job.interval, n) ==> History(job, k, world, n) == job
    ensures forall m :: LatestRun(world, k, job.interval, m, n) ==>
              var h := History(job, k, world, n); h.pid == world(m)(k).pid && h.lastRun == world(m)(k).when
  {
    hide History;
    hide RanAt;
    if n == 0 {
      HistoryStepOf(job, k, world, 0);
    } else {
      HistoryIsLatest(job, k, world, n - 1);
      HistoryStepOf(job, k, world, n - 1);
      if RanAt(world, k, job.interval, n - 1) {
        assert forall m :: LatestRun(world, k, job.interval, m, n) ==> m == n - 1;
      } else {
        assert forall m :: LatestRun(world, k, job.interval, m, n) ==> LatestRun(world, k, job.interval, m, n - 1);
      }
    }
  }

  /**
   * What the file says of a job after n cycles: the pid and the time that its latest run reported, in the last cycle
   * whose tick its interval divides and whose attempt worked; without such a cycle, those it started with.
   */
  lemma LatestRunIsKept(file: string, forkCount: nat, world: nat -> (nat -> Attempt), n: nat, k: nat)
    requires Load(JOBS, file).Loaded? && k < |Load(JOBS, file).rows| && forkCount != 0
    ensures var job, s := Load(JOBS, file).rows[k], Cycles(Alive(file, 0, []), forkCount, world, n);
            && job.interval > 0 && s.Alive? && Load(JOBS, s.file).Loaded? && k < |Load(JOBS, s.file).rows|
            && var row := Load(JOBS, s.file).rows[k];
            && row.name == job.name && row.path == job.path && row.interval == job.interval
            && (NeverRun(world, k, job.interval, n) ==> row.pid == job.pid && row.lastRun == job.lastRun)
            && (forall m :: LatestRun(world, k, job.interval, m, n) ==>
                  row.pid == world(m)(k).pid && row.lastRun == world(m)(k).when)
  {
    hide LoadFrom;
    hide LatestRun;
    hide NeverRun;
    LoadedAreRunnable(file);
    DaemonRunIsFaithful(file, forkCount, world, n);
    HistoryIsLatest(Load(JOBS, file).rows[k], k, world, n);
  }

  /** Without jobs at the fork the file is empty after every cycle; with some, an empty file kills the daemon. */
  lemma {:induction false} MismatchedCycles(
    s: State, forkCount: nat, world: nat -> (nat -> Attempt), n: nat)
    requires s.Alive? && Load(JOBS, s.file).Loaded? && n > 0
    ensures var after := Cycles(s, forkCount, world, n);
            && (forkCount == 0 ==> after.Alive? && Load(JOBS, after.file) == Loaded([]))
            && (forkCount != 0 && Load(JOBS, s.file).rows == [] ==> after.Dead?)
  {
    hide LoadFrom;
    hide Encode;
    JobsRoundTrip([]);
    EncodeNothing(JOBS, []);
    if n > 1 {
      MismatchedCycles(s, forkCount, world, n - 1);
    } else {
      assert Cycles(s, forkCount, world, 0) == s;
    }
  }

  /**
   * Over any number of cycles: the file still lists the same jobs exactly when the count at fork and the list at the
   * start are both zero or both nonzero. Otherwise the first cycle has already erased the file or killed the daemon.
   */
  lemma CyclesKeepJobsExactly(file: string, forkCount: nat, world: nat -> (nat -> Attempt), n: nat)
    requires Load(JOBS, file).Loaded? && n > 0
    ensures var jobs, after := Load(JOBS, file).rows, Cycles(Alive(file, 0, []), forkCount, world, n);
            (after.Alive? && Load(JOBS, after.file).Loaded? && SameSchedule(jobs, Load(JOBS, after.file).rows))
            <==> (forkCount == 0 <==> jobs == [])
  {
    hide LoadFrom;
    if Load(JOBS, file).rows != [] && forkCount != 0 {
      DaemonRunIsFaithful(file, forkCount, world, n);
    } else {
      MismatchedCycles(Alive(file, 0, []), forkCount, world, n);
    }
  }

  /** Before the counter wraps: the job at k has been attempted ceil(n / I) times in n cycles. */
  lemma AttemptsAreCeiling(file: string, forkCount: nat, world: nat -> (nat -> Attempt), n: nat, k: nat)
    requires Load(JOBS, file).Loaded? && k < |Load(JOBS, file).rows| && forkCount != 0 && n <= TICKS
    ensures var job, s := Load(JOBS, file).rows[k], Cycles(Alive(file, 0, []), forkCount, world, n);
            job.interval > 0 && s.Alive? && TimesRun(s.log, job.name) == Ceil(n, job.interval)
  {
    hide LoadFrom;
    LoadedAreRunnable(file);
    DaemonRunIsFaithful(file, forkCount, world, n);
    DueCountBeforeWrap(Load(JOBS, file).rows[k].interval, n);
  }

  /** A file that does not load stalls the daemon: no tick, no run, no write, however long it waits. */
  lemma {:induction false} UnloadableFileStalls(s: State, forkCount: nat, world: nat -> (nat -> Attempt), n: nat)
    requires s.Alive? && !Load(JOBS, s.file).Loaded?
    ensures Cycles(s, forkCount, world, n) == s
  {
    if n > 0 {
      UnloadableFileStalls(s, forkCount, world, n - 1);
    }
  }

  // ---- the loop body as a program ----

  class Process {
    /** The jobs file, shared with the command-line program. */
    var file: string
    /** `waitedTime`. */
    var tick: u64
    /** The daemon's table, empty between cycles. */
    const jobs: Table<Job>
    /** `numberOfJobs`, inherited at fork. */
    const forkCount: nat
    ghost var log: seq<set<string>>

    ghost predicate Valid()
      reads this, jobs, jobs.slots
    {
      jobs.Open() && jobs.cells == []
    }

    /** The abstract value of a daemon that has not crashed. */
    ghost function Value(): State
      reads this
    {
      Alive(file, tick, log)
    }

    constructor (file: string, forkCount: nat)
      ensures Valid() && Value() == Alive(file, 0, []) && this.forkCount == forkCount
      ensures fresh(jobs) && fresh(jobs.slots)
    {
      this.file, this.tick, this.forkCount, this.log := file, 0, forkCount, [];
      this.jobs := new Table<Job>(JOBS_SCALE);
    }

    /** The loop over the table: every due job gets its attempt's pid and time written into its record. */
    method RunDueJobs(attempts: nat -> Attempt)
      requires jobs.Open() && Runnable(jobs.Rows())
      modifies jobs.cells
      ensures jobs.Open()
      ensures jobs.Rows() == RunDue(old(jobs.Rows()), tick, attempts)
    {
      hide RunDue;
      hide Due;
      ghost var rows := jobs.Rows();
      var i := 0;
      while i < jobs.count
        invariant i <= jobs.count && jobs.Open()
        invariant forall j :: 0 <= j < i ==> jobs.Rows()[j] == RunDue(rows, tick, attempts)[j]
        invariant forall j :: i <= j < jobs.count ==> jobs.Rows()[j] == rows[j]
      {
        var cell := jobs.slots[i];
        assert cell.rec == jobs.Rows()[i];
        RunDueAt(rows, tick, attempts, i);
        if Due(cell.rec.interval, tick) {
          cell.rec := Apply(cell.rec, attempts(i));
        }
        i := i + 1;
      }
      assert jobs.Rows() == RunDue(rows, tick, attempts);
    }

    /** `save_jobs_daemon`. */
    method Save() returns (crashed: bool)
      requires jobs.Open()
      modifies `file
      ensures crashed == Saved(forkCount, jobs.Rows()).None?
      ensures !crashed ==> file == Saved(forkCount, jobs.Rows()).value
    {
      crashed := false;
      if forkCount == 0 {
        file := "";
      } else {
        var text := EncodeJobs(jobs);
        if text.None? {
          crashed := true;
        } else {
          file := text.value;
        }
      }
    }

    /** The rest of a turn once the table is loaded: run, save, count the tick, forget the table. */
    method RunAndSave(attempts: nat -> Attempt) returns (crashed: bool)
      requires jobs.Open() && Runnable(jobs.Rows())
      modifies this, jobs, jobs.slots, jobs.cells
      ensures var after := RunDue(old(jobs.Rows()), old(tick), attempts);
              var text := Saved(forkCount, after);
              && crashed == text.None?
              && (!crashed ==> Valid() && Value() == Alive(text.value, NextTick(old(tick)),
                                                           old(log) + [DueNames(old(jobs.Rows()), old(tick))]))
      ensures jobs.slots == old(jobs.slots) || fresh(jobs.slots)
    {
      hide RunDue;
      hide Runnable;
      hide DueNames;
      hide Saved;
      ghost var rows := jobs.Rows();
      RunDueJobs(attempts);
      crashed := Save();
      if !crashed {
        log := log + [DueNames(rows, tick)];
        tick := NextTick(tick);
        jobs.Restart(JOBS_SCALE);
      }
    }

    /** One turn of the loop in `runJobsDaemon`. */
    method Turn(attempts: nat -> Attempt) returns (crashed: bool)
      requires Valid()
      modifies this, jobs, jobs.slots
      ensures if crashed then Cycle(old(Value()), forkCount, attempts) == Dead
              else Valid() && Value() == Cycle(old(Value()), forkCount, attempts)
      ensures jobs.slots == old(jobs.slots) || fresh(jobs.slots)
    {
      hide LoadFrom;
      hide Tokens;
      hide RunDue;
      hide Runnable;
      hide DueNames;
      hide Saved;
      hide Cycle;
      ghost var before := Value();
      assert jobs.Rows() == [];
      var ok, state, lastIndex := LoadJobs(jobs, file);
      CycleOf(before, forkCount, attempts);
      if ok {
        assert Load(JOBS, before.file) == Loaded(jobs.Rows());
        crashed := RunAndSave(attempts);
      } else {
        crashed := false;
        jobs.Restart(JOBS_SCALE);
      }
    }
  }

  /** One turn, by what the file loads to. */
  lemma CycleOf(s: State, forkCount: nat, attempts: nat -> Attempt)
    requires s.Alive?
    ensures !Load(JOBS, s.file).Loaded? ==> Cycle(s, forkCount, attempts) == s
    ensures Load(JOBS, s.file).Loaded? ==>
              var jobs := Load(JOBS, s.file).rows;
              && Runnable(jobs)
              && Cycle(s, forkCount, attempts) ==
                 match Saved(forkCount, RunDue(jobs, s.tick, attempts))
                 case None => Dead
                 case Some(text) => Alive(text, NextTick(s.tick), s.log + [DueNames(jobs, s.tick)])
  {
    LoadedAreRunnable(s.file);
  }
}
