/**
 * Interrupting a save of the jobs file. `writeData` backs the file up, resizes it, takes the lock file, copies, and
 * gives the lock file back; the signal handler puts the backup in place. The handler may run between any two steps
 * and in the middle of the copy; the run ends with it.
 */
module Recovery {
  import opened CStrings
  import opened Files
  import opened Scanner
  import opened Jobs

  const JOBS_FILE := "/usr/lib/mrn/data/jobs"
  const JOBS_COPY := "/usr/lib/mrn/data/jobs.backup"
  const JOBS_SYNC := "/usr/lib/mrn/data/jobs_sync"

  /** The points of `writeData` after its backup at which a signal can arrive. */
  datatype Point =
    | BackedUp
    | Truncated
    | Locked
    | Copying(done: nat)
    | Copied
    | Unlocked

  /** The backup is skipped while the process has no jobs. */
  function AfterBackup(fs: Files, count: nat): Files {
    var touched := Touch(fs, JOBS_FILE);
    if count == 0 then touched else Backup(touched, JOBS_FILE, JOBS_COPY)
  }

  /** The files at one point of a save of data. */
  function At(fs: Files, count: nat, data: string, point: Point): Files {
    var saved := AfterBackup(fs, count);
    var sized := Resize(Content(fs, JOBS_FILE), |data|);
    match point
    case BackedUp => saved
    case Truncated => saved[JOBS_FILE := sized]
    case Locked => saved[JOBS_FILE := sized][JOBS_SYNC := "locked"]
    case Copying(done) =>
      var k := if done < |data| then done else |data|;
      saved[JOBS_FILE := data[..k] + sized[k..]][JOBS_SYNC := "locked"]
    case Copied => saved[JOBS_FILE := data][JOBS_SYNC := "locked"]
    case Unlocked => saved[JOBS_FILE := data][JOBS_SYNC := "free"]
  }

  const PAGE := 4096

  /**
   * What reading a mapped file as a C string yields. The last page of a mapping is filled up with zero bytes; a file
   * that fills its last page is followed by whatever lies behind the mapping.
   */
  function AsCString(content: string, behind: string): string {
    if |content| % PAGE == 0 then CutAtNul(content + behind) else CutAtNul(content)
  }

  /** `applyBackupForjobs`: the backup as a C string, if there is one; it locks and unlocks on the way. */
  function Restore(fs: Files, count: nat, behind: string): Files {
    if count == 0 then fs
    else
      var touched := Touch(fs, JOBS_COPY);
      var text := if Content(touched, JOBS_COPY) == "" then "" else AsCString(Content(touched, JOBS_COPY), behind);
      if text == "" then touched else Touch(touched, JOBS_FILE)[JOBS_FILE := text][JOBS_SYNC := "free"]
  }

  lemma PathsDiffer()
    ensures JOBS_FILE != JOBS_COPY && JOBS_FILE != JOBS_SYNC && JOBS_COPY != JOBS_SYNC
  {
  }

  /** The lock file is taken from before the copy until after it, and free at the end. */
  lemma LockAtEveryPoint(fs: Files, count: nat, data: string, point: Point)
    ensures point.Locked? || point.Copying? || point.Copied? ==>
              Content(At(fs, count, data, point), JOBS_SYNC) == "locked"
    ensures point.Unlocked? ==> Content(At(fs, count, data, point), JOBS_SYNC) == "free"
    ensures point.BackedUp? || point.Truncated? ==>
              Content(At(fs, count, data, point), JOBS_SYNC) == Content(fs, JOBS_SYNC)
  {
  }

  /** Of the length of data: data up to done, then the old bytes, then zero bytes. */
  predicate Mixed(now: string, before: string, data: string, done: nat) {
    && |now| == |data|
    && forall i :: 0 <= i < |data| ==>
         now[i] == if i < done then data[i] else if i < |before| then before[i] else '\0'
  }

  /** What the jobs file holds at each point. */
  lemma JobsFileAtEveryPoint(fs: Files, count: nat, data: string, point: Point)
    ensures var before, now := Content(fs, JOBS_FILE), Content(At(fs, count, data, point), JOBS_FILE);
            match point
            case BackedUp => now == before
            case Truncated => Mixed(now, before, data, 0)
            case Locked => Mixed(now, before, data, 0)
            case Copying(done) => Mixed(now, before, data, done)
            case Copied => now == data
            case Unlocked => now == data
  {
    PathsDiffer();
  }

  lemma CopyAtEveryPoint(fs: Files, count: nat, data: string, point: Point)
    ensures Content(At(fs, count, data, point), JOBS_COPY) ==
            if count > 0 && Content(fs, JOBS_FILE) != "" then Content(fs, JOBS_FILE) else Content(fs, JOBS_COPY)
  {
  }

  lemma CutOfAppended(content: string, behind: string)
    ensures NulFree(content) ==> CutAtNul(content + behind) == content + CutAtNul(behind)
    ensures NulFree(CutAtNul(content)) && (!NulFree(content) ==> CutAtNul(content + behind) == CutAtNul(content))
  {
    hide IndexOf;
    var i, j := IndexOf('\0', content), IndexOf('\0', behind);
    assert content[..|content|] == content;
    if i == |content| {
      assert (content + behind)[..i + j] == content + behind[..j];
      IndexOfUnique('\0', content + behind, i + j);
    } else {
      assert (content + behind)[..i] == content[..i];
      IndexOfUnique('\0', content + behind, i);
    }
  }

  /** What the handler appends to a backup: the C string behind a mapping without a filled-up last page. */
  function Excess(content: string, behind: string): string {
    if |content| % PAGE == 0 then CutAtNul(behind) else ""
  }

  /** The handler gives back the bytes from before the save and their excess, and leaves the lock file free. */
  lemma HandlerRestores(fs: Files, count: nat, data: string, point: Point, behind: string)
    requires count > 0 && Content(fs, JOBS_FILE) != "" && NulFree(Content(fs, JOBS_FILE))
    ensures var before, after := Content(fs, JOBS_FILE), Restore(At(fs, count, data, point), count, behind);
            && Content(after, JOBS_FILE) == before + Excess(before, behind)
            && Content(after, JOBS_SYNC) == "free"
  {
    hide CutAtNul;
    var before := Content(fs, JOBS_FILE);
    CopyAtEveryPoint(fs, count, data, point);
    CutOfAppended(before, behind);
    CutAtNulIdentity(before);
    assert before + "" == before;
  }

  /** The handler gives back the old bytes at every point. */
  ghost predicate AlwaysRestored(fs: Files, count: nat, data: string, behind: string) {
    forall point :: Content(Restore(At(fs, count, data, point), count, behind), JOBS_FILE) == Content(fs, JOBS_FILE)
  }

  /** What the handler leaves at a point: the text of the backup, or the file as it was. */
  lemma RestoredText(fs: Files, count: nat, data: string, point: Point, behind: string)
    requires count > 0
    ensures var now := At(fs, count, data, point);
            var copy, after := Content(now, JOBS_COPY), Content(Restore(now, count, behind), JOBS_FILE);
            after == if copy == "" || AsCString(copy, behind) == "" then Content(now, JOBS_FILE)
                     else AsCString(copy, behind)
  {
    PathsDiffer();
  }

  /** The handler changes no other file, and nothing at all for a process without jobs or without a backup. */
  lemma HandlerLeavesOthers(fs: Files, count: nat, behind: string, path: string)
    ensures path !in {JOBS_FILE, JOBS_SYNC} || count == 0 || Content(fs, JOBS_COPY) == ""
            || AsCString(Content(fs, JOBS_COPY), behind) == "" ==>
              Content(Restore(fs, count, behind), path) == Content(fs, path)
    ensures count == 0 ==> Restore(fs, count, behind) == fs
  {
    PathsDiffer();
  }

  lemma CStringIsNulFree(content: string, behind: string)
    ensures NulFree(AsCString(content, behind))
  {
    CutOfAppended(content, behind);
    CutOfAppended(content + behind, "");
  }

  /**
   * For a process with jobs, saving text that is neither empty nor contains NUL: the old bytes come back from every
   * point exactly when they were not empty, contained no NUL, and were not read on behind their mapping.
   */
  lemma HandlerRestoresExactly(fs: Files, count: nat, data: string, behind: string)
    requires count > 0 && data != "" && NulFree(data)
    ensures var before := Content(fs, JOBS_FILE);
            AlwaysRestored(fs, count, data, behind) <==> before != "" && NulFree(before) && Excess(before, behind) == ""
  {
    hide CutAtNul;
    var before := Content(fs, JOBS_FILE);
    if before != "" && NulFree(before) {
      forall point ensures Content(Restore(At(fs, count, data, point), count, behind), JOBS_FILE)
                        == before + Excess(before, behind) {
        HandlerRestores(fs, count, data, point, behind);
      }
      assert before + Excess(before, behind) == before <==> Excess(before, behind) == "";
      assert Content(Restore(At(fs, count, data, Unlocked), count, behind), JOBS_FILE)
          == before + Excess(before, behind);
    } else {
      RestoredText(fs, count, data, Unlocked, behind);
      CopyAtEveryPoint(fs, count, data, Unlocked);
      CStringIsNulFree(Content(At(fs, count, data, Unlocked), JOBS_COPY), behind);
      assert Content(Restore(At(fs, count, data, Unlocked), count, behind), JOBS_FILE) != before;
    }
  }

  lemma LineIsNulFree(j: Job)
    requires GoodJob(j)
    ensures NulFree(JobLine(j)) && JobLine(j) != ""
  {
    PrintedFieldsAreClean(j.lastRun);
    PrintedFieldsAreClean(Signed64(j.interval));
    PrintedFieldsAreClean(Signed32(j.pid));
  }

  lemma {:induction false} JobsTextIsNulFree(jobs: seq<Job>)
    requires forall j :: j in jobs ==> GoodJob(j)
    ensures NulFree(Encode(JOBS, jobs)) && (jobs != [] ==> Encode(JOBS, jobs) != "")
  {
    if jobs != [] {
      LineIsNulFree(jobs[0]);
      JobLineIsJoin(jobs[0]);
      JobsTextIsNulFree(jobs[1..]);
    }
  }

  /** Text behind a job list completes no record and does not make the loader exit. */
  ghost predicate NoRecord(text: string) {
    var ts := Tokens(JOB_DELIMITERS, 0, text);
    |ts| < 5 && !Aborts(JOBS, ts)
  }

  /**
   * An interrupted save of any new job list leaves a file from which the old, nonempty job list is loaded, exactly
   * when what was read behind the backup's mapping, if anything, completes no record.
   */
  lemma InterruptedSaveKeepsJobs(
    fs: Files, count: nat, kept: seq<Job>, replacement: seq<Job>, point: Point, behind: string)
    requires count > 0 && GoodJobs(kept) && kept != [] && Content(fs, JOBS_FILE) == Encode(JOBS, kept)
    ensures var after := Restore(At(fs, count, Encode(JOBS, replacement), point), count, behind);
            Load(JOBS, Content(after, JOBS_FILE)) == Loaded(kept)
            <==> NoRecord(Excess(Encode(JOBS, kept), behind))
  {
    hide LoadFrom;
    hide Encode;
    hide Tokens;
    hide Aborts;
    hide At;
    hide Restore;
    hide Excess;
    var excess := Excess(Encode(JOBS, kept), behind);
    JobsTextIsNulFree(kept);
    HandlerRestores(fs, count, Encode(JOBS, replacement), point, behind);
    forall j | j in kept ensures Storable(JOBS, j) {
      GoodJobIsStorable(j);
    }
    assert [] + kept == kept;
    LoadEncoded(JOBS, kept, excess, []);
    LoadsNothingExactly(Tokens(JOB_DELIMITERS, 0, excess), kept);
  }

  lemma LoadsNothingExactly(ts: seq<string>, rows: seq<Job>)
    ensures LoadFrom(JOBS, ts, rows) == Loaded(rows) <==> |ts| < 5 && !Aborts(JOBS, ts)
  {
    if !Aborts(JOBS, ts) && |ts| >= 5 {
      LoadGrows(JOBS, ts[5..], rows + [DecodeJob(ts[..5])]);
    }
  }

  /** One more byte copied is the next point. */
  lemma CopyOneMore(fs: Files, count: nat, data: string, i: nat)
    requires i < |data|
    ensures var sized := Resize(Content(fs, JOBS_FILE), |data|);
            At(fs, count, data, Copying(i))[JOBS_FILE := data[..i + 1] + sized[i + 1..]]
            == At(fs, count, data, Copying(i + 1))
  {
    PathsDiffer();
  }

  lemma CopyEnds(fs: Files, count: nat, data: string)
    ensures At(fs, count, data, Locked) == At(fs, count, data, Copying(0))
    ensures At(fs, count, data, Copying(|data|)) == At(fs, count, data, Copied)
    ensures JOBS_FILE in At(fs, count, data, Locked)
    ensures At(fs, count, data, Locked)[JOBS_FILE] == Resize(Content(fs, JOBS_FILE), |data|)
  {
    PathsDiffer();
    var sized := Resize(Content(fs, JOBS_FILE), |data|);
    assert data[..0] + sized[0..] == sized && data[..|data|] + sized[|data|..] == data;
  }

  /** The points in the order in which a save of data passes them. */
  function Points(data: string): seq<Point> {
    [BackedUp, Truncated, Locked] + seq(|data|, (i: nat) => Copying(i + 1)) + [Unlocked]
  }

  /** The files seen are those of the points. */
  ghost predicate Passes(trace: seq<Files>, fs: Files, count: nat, data: string, points: seq<Point>) {
    |trace| == |points| && forall i :: 0 <= i < |trace| ==> trace[i] == At(fs, count, data, points[i])
  }

  lemma PassesOn(a: seq<Files>, b: seq<Files>, fs: Files, count: nat, data: string, p: seq<Point>, q: seq<Point>)
    requires Passes(a, fs, count, data, p) && Passes(b, fs, count, data, q)
    ensures Passes(a + b, fs, count, data, p + q)
  {
  }

  /** `memcpy` into the mapped file, byte by byte. trace are the files after every change. */
  method CopyMapped(disk: FileSystem, ghost fs: Files, ghost count: nat, data: string) returns (ghost trace: seq<Files>)
    requires disk.files == At(fs, count, data, Locked)
    modifies disk
    ensures disk.files == At(fs, count, data, Copied)
    ensures Passes(trace, fs, count, data, seq(|data|, (i: nat) => Copying(i + 1)))
  {
    hide At;
    CopyEnds(fs, count, data);
    var sized, i := disk.files[JOBS_FILE], 0;
    trace := [];
    while i < |data|
      invariant i <= |data| && |trace| == i
      invariant disk.files == At(fs, count, data, Copying(i))
      invariant forall k :: 0 <= k < i ==> trace[k] == At(fs, count, data, Copying(k + 1))
    {
      CopyOneMore(fs, count, data, i);
      disk.files := disk.files[JOBS_FILE := data[..i + 1] + sized[i + 1..]];
      trace := trace + [disk.files];
      i := i + 1;
    }
  }

  /** `writeData`, uninterrupted: from the backup on, the files after every change are those of the points. */
  method WriteData(disk: FileSystem, count: nat, data: string) returns (ghost trace: seq<Files>)
    modifies disk
    ensures disk.files == At(old(disk.files), count, data, Unlocked)
    ensures Passes(trace, old(disk.files), count, data, Points(data))
  {
    hide At;
    ghost var fs := disk.files;
    BackUpFirst(disk, count, data);
    trace := [disk.files];
    ghost var taken := Take(disk, fs, count, data);
    trace := trace + taken;
    ghost var copied := CopyMapped(disk, fs, count, data);
    UnlockIsLast(fs, count, data);
    disk.files := disk.files[JOBS_SYNC := "free"];
    PassesOn(trace, copied, fs, count, data, [BackedUp, Truncated, Locked], seq(|data|, (i: nat) => Copying(i + 1)));
    trace := trace + copied;
    PassesOn(trace, [disk.files], fs, count, data, Points(data)[..3 + |data|], [Unlocked]);
    trace := trace + [disk.files];
    assert Points(data)[..3 + |data|] + [Unlocked] == Points(data);
  }

  lemma UnlockIsLast(fs: Files, count: nat, data: string)
    ensures At(fs, count, data, Copied)[JOBS_SYNC := "free"] == At(fs, count, data, Unlocked)
  {
    PathsDiffer();
  }

  /** Open the jobs file and back it up, unless the process has no jobs. */
  method BackUpFirst(disk: FileSystem, count: nat, ghost data: string)
    modifies disk
    ensures disk.files == At(old(disk.files), count, data, BackedUp)
  {
    PathsDiffer();
    disk.files := Touch(disk.files, JOBS_FILE);
    if count != 0 {
      disk.DoBackup(JOBS_FILE, JOBS_COPY);
    }
  }

  /** Resize the jobs file and take the lock file. */
  method Take(disk: FileSystem, ghost fs: Files, ghost count: nat, data: string) returns (ghost trace: seq<Files>)
    requires disk.files == At(fs, count, data, BackedUp)
    modifies disk
    ensures disk.files == At(fs, count, data, Locked)
    ensures Passes(trace, fs, count, data, [Truncated, Locked])
  {
    PathsDiffer();
    disk.files := disk.files[JOBS_FILE := Resize(disk.files[JOBS_FILE], |data|)];
    trace := [disk.files];
    disk.files := disk.files[JOBS_SYNC := "locked"];
    trace := trace + [disk.files];
  }
}
