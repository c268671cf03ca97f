/** The jobs registry: its file format, its scanner and saver, and the operations on the in-memory table. */
module Jobs {
  import opened CStrings
  import opened Decimal
  import opened Loader
  import opened Scanner
  import opened Table

  datatype Job = Job(name: string, path: string, lastRun: i64, interval: u64, pid: u32)

  const JOB_DELIMITERS: seq<char> := ['^', '#', '$', '@', '\n']

  /** The increment by which job arrays grow. */
  const JOBS_SCALE := 4

  function JobFields(j: Job): seq<string> {
    [j.name, j.path, Print(j.lastRun), Print(Signed64(j.interval)), Print(Signed32(j.pid))]
  }

  function DecodeJob(fs: seq<string>): Job {
    Job(Field(fs, 0), Field(fs, 1), Atol(Field(fs, 2)), Unsigned64(Atol(Field(fs, 3))), Unsigned32(Atoi(Field(fs, 4))))
  }

  /** The loader exits as soon as it reads an interval of zero. */
  predicate ZeroInterval(k: nat, field: string) {
    k == 3 && Unsigned64(Atol(field)) == 0
  }

  predicate SameNameOrPath(a: Job, b: Job) {
    a.name == b.name || a.path == b.path
  }

  const JOBS: Codec<Job> :=
    Codec(JOB_DELIMITERS, JobFields, DecodeJob, ZeroInterval, SameNameOrPath, (n: nat) => true)

  /** One line of the jobs file, as the format string `%s^%s#%li$%li@%i\n` prints it. */
  function JobLine(j: Job): string {
    j.name + "^" + j.path + "#" + Print(j.lastRun) + "$" + Print(Signed64(j.interval)) + "@"
    + Print(Signed32(j.pid)) + "\n"
  }

  lemma JobLineIsJoin(j: Job)
    ensures JobLine(j) == Join(JOB_DELIMITERS, 0, JobFields(j))
  {
    var ds, fs := JOB_DELIMITERS, JobFields(j);
    var l4, l3, l2, l1 := Join(ds, 4, fs[4..]), Join(ds, 3, fs[3..]), Join(ds, 2, fs[2..]), Join(ds, 1, fs[1..]);
    JoinTail(ds, 4, fs);
    JoinTail(ds, 3, fs);
    JoinTail(ds, 2, fs);
    JoinTail(ds, 1, fs);
    JoinTail(ds, 0, fs);
    assert fs[0..] == fs && l4 == fs[4] + "\n";
    var a := fs[0] + "^";
    AppendField(a, fs[1], "#", l2);
    AppendField(a + fs[1] + "#", fs[2], "$", l3);
    AppendField(a + fs[1] + "#" + fs[2] + "$", fs[3], "@", l4);
    AppendAssoc(a + fs[1] + "#" + fs[2] + "$" + fs[3] + "@", fs[4], "\n");
  }

  /** The columns of a line: the interval and the pid as signed numbers of their widths. */
  lemma JobColumns(j: Job)
    ensures JobLine(j) == j.name + "^" + j.path + "#"
                          + (if j.lastRun < 0 then "-" + Digits(0 - j.lastRun) else Digits(j.lastRun)) + "$"
                          + (if j.interval < 9223372036854775808 then Digits(j.interval)
                             else "-" + Digits(18446744073709551616 - j.interval)) + "@"
                          + (if j.pid < 2147483648 then Digits(j.pid) else "-" + Digits(4294967296 - j.pid)) + "\n"
  {
    PrintText(j.lastRun);
    UnsignedColumn(j.interval);
    SignedText(0, j.pid);
  }

  /** A job of interval 60, never run, as it is written. */
  lemma JobLineExample()
    ensures JobLine(Job("a", "/b", 0, 60, 0)) == "a^/b#0$60@0\n"
  {
    hide Digits;
    DigitsExamples();
    JobColumns(Job("a", "/b", 0, 60, 0));
  }

  /** One whose numbers all print negative. */
  lemma NegativeJobLineExample()
    ensures JobLine(Job("c", "/d", -12, 18446744073709551615, 4294967295)) == "c^/d#-12$-1@-1\n"
  {
    hide Digits;
    DigitsExamples();
    JobColumns(Job("c", "/d", -12, 18446744073709551615, 4294967295));
  }

  /** What every stored job satisfies. */
  predicate GoodJob(j: Job) {
    '^' !in j.name && '#' !in j.path && NulFree(j.name) && NulFree(j.path) && j.interval != 0
  }

  lemma PrintedFieldsAreClean(v: int)
    ensures '^' !in Print(v) && '#' !in Print(v) && '$' !in Print(v) && '@' !in Print(v) && '\n' !in Print(v)
    ensures NulFree(Print(v))
  {
  }

  lemma GoodJobIsStorable(j: Job)
    requires GoodJob(j)
    ensures Storable(JOBS, j)
  {
    var ds, fs := JOB_DELIMITERS, JobFields(j);
    AtolPrint(j.lastRun);
    UnsignedLongRoundTrip(j.interval);
    PidRoundTrip(j.pid);
    PrintedFieldsAreClean(j.lastRun);
    PrintedFieldsAreClean(Signed64(j.interval));
    PrintedFieldsAreClean(Signed32(j.pid));
    assert Clean(ds, 4, fs[4..]) by { assert fs[4..][1..] == []; }
    assert Clean(ds, 3, fs[3..]) by { assert fs[3..][1..] == fs[4..]; }
    assert Clean(ds, 2, fs[2..]) by { assert fs[2..][1..] == fs[3..]; }
    assert Clean(ds, 1, fs[1..]) by { assert fs[1..][1..] == fs[2..]; }
  }

  /** A job list that the loader can have produced. */
  ghost predicate GoodJobs(jobs: seq<Job>) {
    NoClash(JOBS, jobs) && forall j :: j in jobs ==> GoodJob(j)
  }

  /** Saving a good job list and loading it again is the identity, ends between two records and uses up the file. */
  lemma JobsRoundTrip(jobs: seq<Job>)
    requires GoodJobs(jobs)
    ensures Load(JOBS, Encode(JOBS, jobs)) == Loaded(jobs)
    ensures Remainder(JOB_DELIMITERS, 0, Encode(JOBS, jobs)) == "" && EndPhase(JOBS, Encode(JOBS, jobs)) == 0
  {
    forall j | j in jobs ensures Storable(JOBS, j) {
      GoodJobIsStorable(j);
    }
    RoundTrip(JOBS, jobs);
  }

  /** Whatever the file contains, a load that succeeds yields a good job list. */
  lemma LoadedJobsAreGood(data: string)
    ensures Load(JOBS, data).Loaded? ==> GoodJobs(Load(JOBS, data).rows)
  {
    TokensAreClean(JOB_DELIMITERS, 0, data);
    forall fs: seq<string> | |fs| == 5 && Clean(JOB_DELIMITERS, 0, fs) && !Aborts(JOBS, fs)
      ensures GoodJob(DecodeJob(fs))
    {
      assert !JOBS.aborts(3, fs[3]);
      assert Clean(JOB_DELIMITERS, 1, fs[1..]);
    }
    LoadedRows(JOBS, Tokens(JOB_DELIMITERS, 0, data), [], GoodJob);
  }

  /** No field of an interval is zero, be it of a job whose line is not finished. */
  predicate NoZeroInterval(ts: seq<string>) {
    forall k: nat :: k < |ts| && k % 5 == 3 ==> Unsigned64(Atol(ts[k])) != 0
  }

  ghost predicate DistinctJobs(jobs: seq<Job>) {
    forall i, j :: 0 <= i < j < |jobs| ==> jobs[i].name != jobs[j].name && jobs[i].path != jobs[j].path
  }

  lemma QuietExactly(ts: seq<string>)
    ensures Quiet(JOBS, ts) <==> NoZeroInterval(ts)
  {
    hide Atol;
    if Quiet(JOBS, ts) {
      forall k: nat | k < |ts| && k % 5 == 3 ensures Unsigned64(Atol(ts[k])) != 0 {
        assert !JOBS.aborts(k % |JOBS.ds|, ts[k]);
      }
    }
  }

  lemma DistinctExactly(jobs: seq<Job>)
    ensures NoClash(JOBS, jobs) <==> DistinctJobs(jobs)
  {
    if NoClash(JOBS, jobs) {
      forall i, j | 0 <= i < j < |jobs| ensures jobs[i].name != jobs[j].name && jobs[i].path != jobs[j].path {
        assert !JOBS.clash(jobs[i], jobs[j]);
      }
    }
  }

  lemma NothingClashes()
    ensures NoClash(JOBS, [])
  {
  }

  /** A jobs file loads exactly when it has no zero interval and no name or path twice; and then to its jobs. */
  lemma JobsLoadExactly(data: string)
    ensures var ts := Tokens(JOB_DELIMITERS, 0, data);
            Load(JOBS, data) == if NoZeroInterval(ts) && DistinctJobs(Groups(JOBS, ts)) then Loaded(Groups(JOBS, ts))
                                else Rejected
  {
    hide Tokens;
    hide LoadFrom;
    hide Groups;
    hide Quiet;
    hide NoZeroInterval;
    hide NoClash;
    hide DistinctJobs;
    var ts := Tokens(JOB_DELIMITERS, 0, data);
    var jobs := Groups(JOBS, ts);
    assert [] + jobs == jobs;
    NothingClashes();
    LoadsExactly(JOBS, ts, []);
    QuietExactly(ts);
    DistinctExactly(jobs);
    NeverOutOfBounds(ts, []);
  }

  /** The job array always has room, so a load of jobs is never anything but a list or an exit. */
  lemma {:induction false} NeverOutOfBounds(ts: seq<string>, rows: seq<Job>)
    ensures !LoadFrom(JOBS, ts, rows).Corrupted?
    decreases |ts|
  {
    if !Aborts(JOBS, ts) && |ts| >= 5 {
      NeverOutOfBounds(ts[5..], rows + [DecodeJob(ts[..5])]);
    }
  }

  // ---- the in-memory table ----

  function Named(name: string): Job -> bool {
    (j: Job) => j.name == name
  }

  function ClashWith(job: Job): Job -> bool {
    (j: Job) => SameNameOrPath(j, job)
  }

  /** `loadJob` and `loadJobDaemon`: grow first, refuse a known name or runnable file, then append. */
  method LoadJob(t: Table<Job>, job: Job) returns (ok: bool)
    requires t.Open()
    modifies t, t.slots
    ensures t.Open() && (t.slots == old(t.slots) || fresh(t.slots)) && t.freed == old(t.freed)
    ensures old(t.cells) <= t.cells && forall i :: old(|t.cells|) <= i < |t.cells| ==> fresh(t.cells[i])
    ensures ok == !ClashesWith(JOBS, old(t.Rows()), job)
    ensures t.Rows() == if ok then old(t.Rows()) + [job] else old(t.Rows())
  {
    hide ClashesWith;
    hide First;
    t.Grow(t.capacity + JOBS_SCALE, t.capacity + JOBS_SCALE);
    var k := t.FindFirst(ClashWith(job));
    ClashIsFirst(JOBS, t.Rows(), job, ClashWith(job));
    if k < t.count {
      return false;
    }
    t.Push(job);
    return true;
  }

  datatype JobScan = FindName | FindRunnable | FindTime | FindInterval | FindPid

  /** The scanner's local variables: what it looks for and the fields of the current record read so far. */
  datatype Reading = Reading(state: JobScan, name: string, path: string, lastRun: i64, interval: u64)

  function FieldNumber(s: JobScan): nat {
    match s
    case FindName => 0
    case FindRunnable => 1
    case FindTime => 2
    case FindInterval => 3
    case FindPid => 4
  }

  /** The switch of the scanner for the first four states; None is the exit on an interval of zero. */
  function TakeField(r: Reading, field: string): Option<Reading>
    requires r.state != FindPid
  {
    match r.state
    case FindName => Some(r.(name := field, state := FindRunnable))
    case FindRunnable => Some(r.(path := field, state := FindTime))
    case FindTime => Some(r.(lastRun := Atol(field), state := FindInterval))
    case FindInterval =>
      var number := Unsigned64(Atol(field));
      if number == 0 then None else Some(r.(interval := number, state := FindPid))
  }

  /** The variables hold what the pending fields of the current record say. */
  ghost predicate Reads(r: Reading, pending: seq<string>) {
    && |pending| == FieldNumber(r.state)
    && (|pending| > 0 ==> pending[0] == r.name)
    && (|pending| > 1 ==> pending[1] == r.path)
    && (|pending| > 2 ==> Atol(pending[2]) == r.lastRun)
    && (|pending| > 3 ==> Unsigned64(Atol(pending[3])) == r.interval)
  }

  lemma TakeFieldReads(r: Reading, pending: seq<string>, field: string)
    requires Reads(r, pending) && r.state != FindPid
    ensures TakeField(r, field).None? <==> ZeroInterval(|pending|, field)
    ensures TakeField(r, field).Some? ==> Reads(TakeField(r, field).value, pending + [field])
  {
  }

  /** The scanner's last state: a complete record is handed to `loadJob`. */
  method DeliverJob(
    t: Table<Job>, r: Reading, data: string, lastIndex: nat, i: nat,
    ghost pending: seq<string>, ghost whole: Outcome<Job>)
    returns (ok: bool)
    requires t.Open() && Reads(r, pending) && r.state == FindPid
    requires ScanAt(JOBS, pending, data, lastIndex, i, t.Rows(), whole) && i < |data| && data[i] == '\n'
    modifies t, t.slots
    ensures t.Open() && (t.slots == old(t.slots) || fresh(t.slots)) && t.freed == old(t.freed)
    ensures old(t.cells) <= t.cells && forall i :: old(|t.cells|) <= i < |t.cells| ==> fresh(t.cells[i])
    ensures if ok then ScanAt(JOBS, [], data, i + 1, i + 1, t.Rows(), whole) else whole == Rejected
  {
    var field := CutAtNul(data[lastIndex..i]);
    var job := Job(r.name, r.path, r.lastRun, r.interval, Unsigned32(Atoi(field)));
    ScanDeliver(JOBS, pending, data, lastIndex, i, t.Rows(), whole);
    assert job == DecodeJob(pending + [field]);
    ok := LoadJob(t, job);
  }

  /** The scanner's other states: a field is stored in its variable. */
  method StoreField(
    r: Reading, data: string, lastIndex: nat, i: nat,
    ghost pending: seq<string>, ghost rows: seq<Job>, ghost whole: Outcome<Job>)
    returns (next: Option<Reading>)
    requires Reads(r, pending) && r.state != FindPid
    requires ScanAt(JOBS, pending, data, lastIndex, i, rows, whole)
    requires i < |data| && data[i] == JOB_DELIMITERS[|pending|]
    ensures next.None? ==> whole == Rejected
    ensures next.Some? ==> var fields := pending + [CutAtNul(data[lastIndex..i])];
            Reads(next.value, fields) && ScanAt(JOBS, fields, data, i + 1, i + 1, rows, whole)
  {
    var field := CutAtNul(data[lastIndex..i]);
    ScanTake(JOBS, pending, data, lastIndex, i, rows, whole);
    TakeFieldReads(r, pending, field);
    next := TakeField(r, field);
  }

  /** The five-state scanner of `loadJobs` and `loadJobsDaemon`. */
  method LoadJobs(t: Table<Job>, data: string) returns (ok: bool, state: JobScan, lastIndex: nat)
    requires t.Open()
    modifies t, t.slots
    ensures t.Open() && (t.slots == old(t.slots) || fresh(t.slots)) && t.freed == old(t.freed)
    ensures old(t.cells) <= t.cells && forall i :: old(|t.cells|) <= i < |t.cells| ==> fresh(t.cells[i])
    ensures LoadFrom(JOBS, Tokens(JOB_DELIMITERS, 0, data), old(t.Rows())) == if ok then Loaded(t.Rows()) else Rejected
    ensures ok ==> lastIndex <= |data| && data[lastIndex..] == Remainder(JOB_DELIMITERS, 0, data)
    ensures ok ==> FieldNumber(state) == EndPhase(JOBS, data)
  {
    hide LoadFrom;
    hide ScanAt;
    ghost var whole := LoadFrom(JOBS, Tokens(JOB_DELIMITERS, 0, data), t.Rows());
    ghost var pending: seq<string> := [];
    var r, i := Reading(FindName, "", "", 0, 0), 0;
    state, lastIndex := r.state, 0;
    ScanBegin(JOBS, data, t.Rows());
    while i < |data|
      invariant lastIndex <= i <= |data|
      invariant ScanAt(JOBS, pending, data, lastIndex, i, t.Rows(), whole) && Reads(r, pending)
      invariant t.Open() && (t.slots == old(t.slots) || fresh(t.slots)) && t.freed == old(t.freed)
      invariant old(t.cells) <= t.cells && forall i :: old(|t.cells|) <= i < |t.cells| ==> fresh(t.cells[i])
    {
      if data[i] != JOB_DELIMITERS[FieldNumber(r.state)] {
        ScanSkip(JOBS, pending, data, lastIndex, i, t.Rows(), whole);
      } else if r.state == FindPid {
        ok := DeliverJob(t, r, data, lastIndex, i, pending, whole);
        if !ok {
          return;
        }
        r, pending, lastIndex := r.(state := FindName), [], i + 1;
      } else {
        var next := StoreField(r, data, lastIndex, i, pending, t.Rows(), whole);
        if next.None? {
          ok := false;
          return;
        }
        r, pending, lastIndex := next.value, pending + [CutAtNul(data[lastIndex..i])], i + 1;
      }
      i := i + 1;
    }
    ScanFinish(JOBS, pending, data, lastIndex, t.Rows(), whole);
    ok, state := true, r.state;
  }

  /** The accumulator loop of `save_jobs` and `save_jobs_daemon`; None is the null pointer it starts from. */
  method EncodeJobs(t: Table<Job>) returns (text: Option<string>)
    requires t.Valid()
    ensures text == if t.Rows() == [] then None else Some(Encode(JOBS, t.Rows()))
  {
    text := None;
    var i := 0;
    while i < t.count
      invariant i <= t.count
      invariant text == if i == 0 then None else Some(Encode(JOBS, t.Rows()[..i]))
    {
      var job := t.slots[i].rec;
      var before := if text.None? then "" else text.value;
      EncodeAppend(JOBS, t.Rows()[..i], job);
      JobLineIsJoin(job);
      assert t.Rows()[..i] + [job] == t.Rows()[..i + 1];
      text := Some(before + JobLine(job));
      i := i + 1;
    }
    assert t.Rows()[..i] == t.Rows();
  }

  /** `createJob`: a new name and a new runnable file are appended, never run so far. */
  method CreateJob(t: Table<Job>, name: string, path: string, interval: u64, stamp: i64) returns (ok: bool)
    requires t.Open()
    modifies t, t.slots
    ensures t.Open() && (t.slots == old(t.slots) || fresh(t.slots)) && t.freed == old(t.freed)
    ensures old(t.cells) <= t.cells && forall i :: old(|t.cells|) <= i < |t.cells| ==> fresh(t.cells[i])
    ensures var job := Job(name, path, stamp, interval, 0);
            && ok == !ClashesWith(JOBS, old(t.Rows()), job)
            && t.Rows() == if ok then old(t.Rows()) + [job] else old(t.Rows())
  {
    hide ClashesWith;
    hide First;
    var job := Job(name, path, stamp, interval, 0);
    var k := t.FindFirst(ClashWith(job));
    ClashIsFirst(JOBS, t.Rows(), job, ClashWith(job));
    if k < t.count {
      return false;
    }
    ok := t.Append(job, t.count + JOBS_SCALE, t.count + JOBS_SCALE);
  }

  /** `removeJob`: the first job of that name goes; the last one takes the array with it. */
  method RemoveJob(t: Table<Job>, name: string) returns (ok: bool)
    requires t.Backed()
    modifies t, t.slots
    ensures t.Backed()
    ensures t.Rows() == Without(old(t.Rows()), Named(name))
    ensures ok == (old(t.slots) == null || First(old(t.Rows()), Named(name)) < old(t.count))
    ensures t.slots == if t.count < old(t.count) && t.count == 0 then null else old(t.slots)
  {
    if t.slots == null && t.count == 0 {
      return true;
    }
    ok := t.RemoveFirst(Named(name));
  }
}
