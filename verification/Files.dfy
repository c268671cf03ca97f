/** Snapshot copies between files: `doBackup`, and time shift, which is a list of them forwards and backwards. */
module Files {

  /** The files by path; a path that was never created is absent. */
  type Files = map<string, string>

  function Content(fs: Files, path: string): string {
    if path in fs then fs[path] else ""
  }

  /** Opening with O_CREAT makes a missing file an empty one. */
  function Touch(fs: Files, path: string): Files {
    if path in fs then fs else fs[path := ""]
  }

  /** `ftruncate`: cut, or extend with zero bytes. */
  function Resize(s: string, length: nat): (r: string)
    ensures |r| == length
  {
    if length <= |s| then s[..length] else s + seq(length - |s|, (i: nat) => '\0')
  }

  /** `doBackup`: an empty or missing source copies nothing. */
  function Backup(fs: Files, src: string, dst: string): Files {
    var touched := Touch(fs, src);
    if Content(fs, src) == "" then touched else touched[dst := Content(fs, src)]
  }

  type Pairs = seq<(string, string)>

  function BackupAll(fs: Files, pairs: Pairs): Files
    decreases |pairs|
  {
    if pairs == [] then fs else BackupAll(Backup(fs, pairs[0].0, pairs[0].1), pairs[1..])
  }

  /** The same copies in the opposite direction. */
  function Swapped(pairs: Pairs): Pairs {
    seq(|pairs|, i requires 0 <= i < |pairs| => (pairs[i].1, pairs[i].0))
  }

  /** All paths of the list are pairwise different. */
  ghost predicate Distinct(pairs: Pairs) {
    && (forall i, j :: 0 <= i < j < |pairs| ==> pairs[i].0 != pairs[j].0 && pairs[i].1 != pairs[j].1)
    && (forall i, j :: 0 <= i < |pairs| && 0 <= j < |pairs| ==> pairs[i].0 != pairs[j].1)
  }

  ghost predicate IsTarget(pairs: Pairs, path: string) {
    exists i :: 0 <= i < |pairs| && pairs[i].1 == path
  }

  lemma SwappedStaysDistinct(pairs: Pairs)
    requires Distinct(pairs)
    ensures Distinct(Swapped(pairs))
  {
  }

  /** Only targets change. */
  lemma {:induction false} OthersKeepContent(fs: Files, pairs: Pairs, path: string)
    requires !IsTarget(pairs, path)
    ensures Content(BackupAll(fs, pairs), path) == Content(fs, path)
    decreases |pairs|
  {
    if pairs != [] {
      assert pairs[0].1 != path;
      assert !IsTarget(pairs[1..], path) by {
        forall i | 0 <= i < |pairs[1..]| ensures pairs[1..][i].1 != path {
          assert pairs[1..][i] == pairs[i + 1];
        }
      }
      OthersKeepContent(Backup(fs, pairs[0].0, pairs[0].1), pairs[1..], path);
    }
  }

  /** Each target ends with its source's content if that is not empty, and untouched otherwise. */
  lemma {:induction false} TargetsGetSources(fs: Files, pairs: Pairs, k: nat)
    requires Distinct(pairs) && k < |pairs|
    ensures Content(BackupAll(fs, pairs), pairs[k].1)
         == if Content(fs, pairs[k].0) != "" then Content(fs, pairs[k].0) else Content(fs, pairs[k].1)
    decreases |pairs|
  {
    var src, dst, rest := pairs[0].0, pairs[0].1, pairs[1..];
    var next := Backup(fs, src, dst);
    assert Distinct(rest) by {
      assert forall i :: 0 <= i < |rest| ==> rest[i] == pairs[i + 1];
    }
    if k == 0 {
      forall i | 0 <= i < |rest| ensures rest[i].1 != dst {
        assert rest[i] == pairs[i + 1];
      }
      OthersKeepContent(next, rest, dst);
    } else {
      assert rest[k - 1] == pairs[k];
      TargetsGetSources(next, rest, k - 1);
    }
  }

  /** A list of copies creates its sources where they are missing, and the targets of those that are not empty. */
  lemma {:induction false} CreatedExactly(fs: Files, pairs: Pairs, path: string)
    requires Distinct(pairs)
    ensures path in BackupAll(fs, pairs) <==>
              path in fs
              || (exists i :: 0 <= i < |pairs| && pairs[i].0 == path)
              || (exists i :: 0 <= i < |pairs| && pairs[i].1 == path && Content(fs, pairs[i].0) != "")
    decreases |pairs|
  {
    if pairs != [] {
      var rest, next := pairs[1..], Backup(fs, pairs[0].0, pairs[0].1);
      assert forall i :: 0 <= i < |rest| ==> rest[i] == pairs[i + 1];
      assert forall i :: 0 <= i < |rest| ==> Content(next, rest[i].0) == Content(fs, rest[i].0);
      CreatedExactly(next, rest, path);
      assert forall i :: 1 <= i < |pairs| ==> pairs[i] == rest[i - 1];
    }
  }

  /**
   * Time shift: create, then anything at all that leaves the snapshots alone, then apply. A live file gets back what
   * it held when the shift was created; if it was empty then, an older snapshot; and failing that it stays as it is.
   */
  lemma TimeShiftRestores(before: Files, changed: Files, pairs: Pairs, k: nat)
    requires Distinct(pairs) && k < |pairs|
    requires forall i :: 0 <= i < |pairs| ==>
               Content(changed, pairs[i].1) == Content(BackupAll(before, pairs), pairs[i].1)
    ensures var (live, snapshot) := pairs[k];
            Content(BackupAll(changed, Swapped(pairs)), live) ==
            if Content(before, live) != "" then Content(before, live)
            else if Content(before, snapshot) != "" then Content(before, snapshot)
            else Content(changed, live)
  {
    TargetsGetSources(before, pairs, k);
    SwappedStaysDistinct(pairs);
    TargetsGetSources(changed, Swapped(pairs), k);
    assert Swapped(pairs)[k] == (pairs[k].1, pairs[k].0);
  }

  /** Applying the same snapshots twice is applying them once. */
  lemma ApplyIsIdempotent(fs: Files, pairs: Pairs, path: string)
    requires Distinct(pairs)
    ensures var once := BackupAll(fs, pairs);
            Content(BackupAll(once, pairs), path) == Content(once, path)
  {
    var once := BackupAll(fs, pairs);
    if IsTarget(pairs, path) {
      var k :| 0 <= k < |pairs| && pairs[k].1 == path;
      assert !IsTarget(pairs, pairs[k].0);
      OthersKeepContent(fs, pairs, pairs[k].0);
      TargetsGetSources(fs, pairs, k);
      TargetsGetSources(once, pairs, k);
    } else {
      OthersKeepContent(once, pairs, path);
    }
  }

  // ---- the sixteen pairs of the program ----

  const DATA := "/usr/lib/mrn/data/"
  const SNAPSHOTS := "/usr/lib/mrn/backup/"

  const NAMES: seq<string> := [
    "job_cpu_limit", "job_cpu_limit.backup", "job_daemon_pid", "job_daemon.backup",
    "job_mem_limit", "job_mem_limit.backup", "jobs", "jobs.backup",
    "jobs_sync", "jobs_sync.backup", "projects", "projects.backup",
    "updateStatus", "updateStatus.backup", "env", "env.backup"
  ]

  /** Live file and snapshot of every name, in the order in which they are copied. */
  const PAIRS: Pairs := seq(|NAMES|, i requires 0 <= i < |NAMES| => (DATA + NAMES[i], SNAPSHOTS + NAMES[i]))

  lemma NamesAreDistinct(i: nat, j: nat)
    requires i < j < |NAMES|
    ensures NAMES[i] != NAMES[j]
  {
  }

  lemma PrefixIsInjective(prefix: string, a: string, b: string)
    requires prefix + a == prefix + b
    ensures a == b
  {
    assert (prefix + a)[|prefix|..] == a && (prefix + b)[|prefix|..] == b;
  }

  lemma ProgramPathsAreDistinct()
    ensures Distinct(PAIRS)
  {
    forall i, j | 0 <= i < j < |PAIRS| ensures PAIRS[i].0 != PAIRS[j].0 && PAIRS[i].1 != PAIRS[j].1 {
      NamesAreDistinct(i, j);
      if DATA + NAMES[i] == DATA + NAMES[j] {
        PrefixIsInjective(DATA, NAMES[i], NAMES[j]);
      }
      if SNAPSHOTS + NAMES[i] == SNAPSHOTS + NAMES[j] {
        PrefixIsInjective(SNAPSHOTS, NAMES[i], NAMES[j]);
      }
    }
    forall i, j | 0 <= i < |PAIRS| && 0 <= j < |PAIRS| ensures PAIRS[i].0 != PAIRS[j].1 {
      assert (DATA + NAMES[i])[13] == DATA[13] == 'd' && (SNAPSHOTS + NAMES[j])[13] == SNAPSHOTS[13] == 'b';
    }
  }

  /** The program's own time shift, by the name of a file. */
  lemma ProgramShiftRestores(before: Files, changed: Files, name: string)
    requires name in NAMES
    requires forall n :: n in NAMES ==>
               Content(changed, "/usr/lib/mrn/backup/" + n)
               == Content(BackupAll(before, PAIRS), "/usr/lib/mrn/backup/" + n)
    ensures var live, snapshot := "/usr/lib/mrn/data/" + name, "/usr/lib/mrn/backup/" + name;
            Content(BackupAll(changed, Swapped(PAIRS)), live) ==
            if Content(before, live) != "" then Content(before, live)
            else if Content(before, snapshot) != "" then Content(before, snapshot)
            else Content(changed, live)
  {
    hide BackupAll;
    ProgramPathsAreDistinct();
    var k :| 0 <= k < |NAMES| && NAMES[k] == name;
    assert PAIRS[k] == ("/usr/lib/mrn/data/" + name, "/usr/lib/mrn/backup/" + name);
    TimeShiftRestores(before, changed, PAIRS, k);
  }

  // ---- the file operations as a program ----

  class FileSystem {
    var files: Files

    constructor (files: Files)
      ensures this.files == files
    {
      this.files := files;
    }

    /** `copyBackup`: size the destination, then overwrite all of it. */
    method CopyBackup(data: string, dst: string)
      requires data != ""
      modifies this
      ensures files == old(files)[dst := data]
    {
      files := Touch(files, dst);
      files := files[dst := Resize(files[dst], |data|)];
      files := files[dst := data + files[dst][|data|..]];
      assert data + Resize(Content(old(files), dst), |data|)[|data|..] == data;
    }

    method DoBackup(src: string, dst: string)
      requires src != dst
      modifies this
      ensures files == Backup(old(files), src, dst)
    {
      files := Touch(files, src);
      var data := files[src];
      if data == "" {
        return;
      }
      CopyBackup(data, dst);
    }

    /** The chain of copies of `createTimeShift`, and of the first part of `applyTimeShift` on the swapped list. */
    method CopyAll(pairs: Pairs)
      requires forall i :: 0 <= i < |pairs| ==> pairs[i].0 != pairs[i].1
      modifies this
      ensures files == BackupAll(old(files), pairs)
    {
      var i := 0;
      assert pairs[0..] == pairs;
      while i < |pairs|
        invariant i <= |pairs|
        invariant BackupAll(files, pairs[i..]) == BackupAll(old(files), pairs)
      {
        assert pairs[i..][0] == pairs[i] && pairs[i..][1..] == pairs[i + 1..];
        DoBackup(pairs[i].0, pairs[i].1);
        i := i + 1;
      }
    }

    method CreateTimeShift()
      modifies this
      ensures files == BackupAll(old(files), PAIRS)
    {
      ProgramPathsAreDistinct();
      CopyAll(PAIRS);
    }

    method ApplyTimeShift()
      modifies this
      ensures files == BackupAll(old(files), Swapped(PAIRS))
    {
      ProgramPathsAreDistinct();
      CopyAll(Swapped(PAIRS));
    }
  }
}
