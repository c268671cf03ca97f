/** The services registry: which services are saved, through which buffer, and how they are read back. */
module Services {
  import opened CStrings
  import opened Decimal
  import opened Loader
  import opened Scanner
  import opened Table
  import opened Validators

  datatype Service = Service(name: string, repo: string, pid: u32, cloned: bool)

  const SERVICE_DELIMITERS: seq<char> := ['^', '#', '\n']
  const SERVICES_SCALE := 4

  /** The characters that fit the 318-byte line buffer in front of its NUL. */
  const LINE_MAX := 317

  function ServiceFields(s: Service): seq<string> {
    [s.name, s.repo, Print(Signed32(s.pid))]
  }

  function DecodeService(fs: seq<string>): Service {
    Service(Field(fs, 0), Field(fs, 1), Unsigned32(Atoi(Field(fs, 2))), true)
  }

  predicate SameNameOrRepo(a: Service, b: Service) {
    a.name == b.name || a.repo == b.repo
  }

  const SERVICES: Codec<Service> :=
    Codec(SERVICE_DELIMITERS, ServiceFields, DecodeService, NeverAborts, SameNameOrRepo, (n: nat) => true)

  /** One line of the projects file: `%s^%s#%i\n`. */
  function ServiceLine(s: Service): string {
    s.name + "^" + s.repo + "#" + Print(Signed32(s.pid)) + "\n"
  }

  lemma ServiceLineExample()
    ensures ServiceLine(Service("a", "b", 12, true)) == "a^b#12\n"
  {
    hide Digits;
    DigitsExamples();
  }

  /** What `snprintf` leaves of a line in the buffer. */
  function CutLine(line: string): string {
    if |line| <= LINE_MAX then line else line[..LINE_MAX]
  }

  function Cloned(rows: seq<Service>): seq<Service> {
    if rows == [] then [] else (if rows[0].cloned then [rows[0]] else []) + Cloned(rows[1..])
  }

  lemma {:induction false} ClonedMembers(rows: seq<Service>)
    ensures forall s :: s in Cloned(rows) <==> s in rows && s.cloned
  {
    if rows != [] {
      ClonedMembers(rows[1..]);
      assert rows == [rows[0]] + rows[1..];
    }
  }

  /** The text that the saver accumulates. */
  function CutLines(rows: seq<Service>): string {
    if rows == [] then "" else CutLine(ServiceLine(rows[0])) + CutLines(rows[1..])
  }

  /** The projects file after a save: left alone when there are services but none is cloned. */
  function SavedServices(file: string, rows: seq<Service>): string {
    if rows != [] && Cloned(rows) == [] then file else CutLines(Cloned(rows))
  }

  predicate GoodService(s: Service) {
    '^' !in s.name && '#' !in s.repo && NulFree(s.name) && NulFree(s.repo)
  }

  ghost predicate GoodServices(rows: seq<Service>) {
    NoClash(SERVICES, rows) && forall s :: s in rows ==> GoodService(s)
  }

  /** Whatever the file contains, a load that succeeds yields good services, all of them cloned. */
  lemma LoadedServicesAreGood(file: string)
    ensures Load(SERVICES, file).Loaded? ==>
              var rows := Load(SERVICES, file).rows; GoodServices(rows) && forall s :: s in rows ==> s.cloned
  {
    TokensAreClean(SERVICE_DELIMITERS, 0, file);
    forall fs: seq<string> | |fs| == 3 && Clean(SERVICE_DELIMITERS, 0, fs) && !Aborts(SERVICES, fs)
      ensures GoodAndCloned(DecodeService(fs))
    {
      assert Clean(SERVICE_DELIMITERS, 1, fs[1..]);
    }
    LoadedRows(SERVICES, Tokens(SERVICE_DELIMITERS, 0, file), [], GoodAndCloned);
  }

  predicate GoodAndCloned(s: Service) {
    GoodService(s) && s.cloned
  }

  lemma ServiceLineIsJoin(s: Service)
    ensures ServiceLine(s) == Join(SERVICE_DELIMITERS, 0, ServiceFields(s))
  {
    var ds, fs := SERVICE_DELIMITERS, ServiceFields(s);
    JoinTail(ds, 2, fs);
    JoinTail(ds, 1, fs);
    JoinTail(ds, 0, fs);
    assert fs[0..] == fs && Join(ds, 2, fs[2..]) == fs[2] + "\n";
    AppendField(fs[0] + "^", fs[1], "#", fs[2] + "\n");
    AppendAssoc(fs[0] + "^" + fs[1] + "#", fs[2], "\n");
  }

  lemma GoodServiceIsStorable(s: Service)
    requires GoodService(s) && s.cloned
    ensures Storable(SERVICES, s)
  {
    var ds, fs := SERVICE_DELIMITERS, ServiceFields(s);
    PidRoundTrip(s.pid);
    PrintAlphabet(Signed32(s.pid), '\n');
    PrintAlphabet(Signed32(s.pid), '\0');
    assert Clean(ds, 2, fs[2..]) by { assert fs[2..][1..] == []; }
    assert Clean(ds, 1, fs[1..]) by { assert fs[1..][1..] == fs[2..]; }
  }

  lemma {:induction false} UncutLinesAreEncoded(rows: seq<Service>)
    requires forall s :: s in rows ==> |ServiceLine(s)| <= LINE_MAX
    ensures CutLines(rows) == Encode(SERVICES, rows)
  {
    if rows != [] {
      ServiceLineIsJoin(rows[0]);
      UncutLinesAreEncoded(rows[1..]);
    }
  }

  lemma {:induction false} ClonedPrefix(rows: seq<Service>, s: Service)
    ensures Cloned(rows + [s]) == Cloned(rows) + if s.cloned then [s] else []
  {
    if rows == [] {
      assert rows + [s] == [s] && [s][1..] == [];
    } else {
      var first := if rows[0].cloned then [rows[0]] else [];
      assert (rows + [s])[1..] == rows[1..] + [s];
      ClonedPrefix(rows[1..], s);
      AppendAssoc(first, Cloned(rows[1..]), if s.cloned then [s] else []);
    }
  }

  lemma {:induction false} ClonedKeepsGood(rows: seq<Service>)
    requires GoodServices(rows)
    ensures GoodServices(Cloned(rows))
  {
    if rows != [] {
      var rest := Cloned(rows[1..]);
      ClonedMembers(rows[1..]);
      ClonedKeepsGood(rows[1..]);
      if rows[0].cloned {
        forall j | 0 <= j < |rest| ensures !SERVICES.clash(rows[0], rest[j]) {
          assert rest[j] in rest;
          var i :| 0 <= i < |rows[1..]| && rows[1..][i] == rest[j];
          assert !SERVICES.clash(rows[0], rows[i + 1]);
        }
      }
    }
  }

  /** The validators of services keep out the delimiters that close name and repository, and spaces. */
  lemma ValidatorsMatchFormat(s: string, max: nat)
    ensures ValidServiceText(s, max) <==>
              |s| <= max && ' ' !in s && forall k :: 0 <= k < 2 ==> SERVICE_DELIMITERS[k] !in s
    ensures forall k :: 0 <= k < 3 ==> SERVICE_DELIMITERS[k] == "^#\n"[k]
  {
    assert SERVICE_DELIMITERS[0] == '^' && SERVICE_DELIMITERS[1] == '#';
  }

  /** A pid prints with at most eleven characters. */
  lemma PidTextIsShort(pid: u32)
    ensures |Print(Signed32(pid))| <= 11
  {
    var v: int := Signed32(pid);
    assert Pow10(10) == 10_000_000_000;
    DigitCount(if v < 0 then -v else v, 10);
  }

  /** The validators bound a line far below the buffer: at most 20 + 100 + 11 characters and three delimiters. */
  lemma ValidatedLineFits(s: Service)
    requires ValidServiceText(s.name, MAX_NAME) && ValidServiceText(s.repo, MAX_PATH)
    ensures |ServiceLine(s)| <= 134
  {
    PidTextIsShort(s.pid);
  }

  /**
   * Save then load: the cloned services come back in order, with their names, repositories and pids, and the file is
   * used up; with services but none cloned the old file stays.
   */
  lemma ServicesRoundTrip(file: string, rows: seq<Service>)
    requires GoodServices(rows)
    requires forall s :: s in rows && s.cloned ==> |ServiceLine(s)| <= LINE_MAX
    ensures var after := SavedServices(file, rows);
            if rows != [] && Cloned(rows) == [] then after == file
            else Load(SERVICES, after) == Loaded(Cloned(rows))
                 && Remainder(SERVICE_DELIMITERS, 0, after) == "" && EndPhase(SERVICES, after) == 0
  {
    var saved := Cloned(rows);
    ClonedMembers(rows);
    ClonedKeepsGood(rows);
    forall s | s in saved ensures Storable(SERVICES, s) {
      GoodServiceIsStorable(s);
    }
    UncutLinesAreEncoded(saved);
    RoundTrip(SERVICES, saved);
  }

  /** The text of a record without its end closes fewer than three fields. */
  lemma CutRecordIsUnfinished(ds: seq<char>, fs: seq<string>, front: string, back: string)
    requires |fs| == |ds| > 0 && Clean(ds, 0, fs) && front + back == Join(ds, 0, fs) && back != ""
    ensures |Tokens(ds, 0, front)| < |ds|
  {
    hide Tokens;
    hide Remainder;
    hide Join;
    hide Clean;
    hide CutAtNul;
    var line, ts, rest := front + back, Tokens(ds, 0, front), Remainder(ds, 0, front);
    var k := Phase(ds, 0, ts);
    PhaseOfFields(ds, 0, fs);
    ScanJoined(ds, 0, fs, "");
    ScanNothing(ds, 0, "");
    assert line + "" == line && fs + [] == fs;
    ScanConcatenation(ds, 0, front, back);
    if |ts| >= |ds| {
      assert |ts + Tokens(ds, k, rest + back)| == |ds|;
      NoTokensNoProgress(ds, k, rest + back);
    }
  }

  /** A single cloned service survives exactly when its line fits the buffer. */
  lemma ServiceSurvivesExactly(s: Service)
    requires GoodService(s) && s.cloned
    ensures Load(SERVICES, SavedServices("", [s])) == Loaded([s]) <==> |ServiceLine(s)| <= LINE_MAX
  {
    hide LoadFrom;
    hide Tokens;
    hide Clean;
    var line := ServiceLine(s);
    assert [s][1..] == [] && Cloned([s]) == [s];
    assert CutLines([s]) == CutLine(line) + "" == CutLine(line);
    assert NoClash(SERVICES, [s]);
    if |line| <= LINE_MAX {
      ServicesRoundTrip("", [s]);
    } else {
      var front, back := line[..LINE_MAX], line[LINE_MAX..];
      assert front + back == line;
      ServiceLineIsJoin(s);
      GoodServiceIsStorable(s);
      CutRecordIsUnfinished(SERVICE_DELIMITERS, ServiceFields(s), front, back);
      LoadUnfinished(SERVICES, Tokens(SERVICE_DELIMITERS, 0, front), []);
    }
  }

  lemma NoTokensNoProgress(ds: seq<char>, k: nat, data: string)
    requires k < |ds| && Tokens(ds, k, data) == []
    ensures Remainder(ds, k, data) == data
  {
  }

  // ---- the in-memory table ----

  function ServiceNamed(name: string): Service -> bool {
    (s: Service) => s.name == name
  }

  function ClashWith(service: Service): Service -> bool {
    (s: Service) => SameNameOrRepo(s, service)
  }

  const SERVICE_GROWTH: Growth := Growth((n: nat) => n + SERVICES_SCALE, (n: nat) => n + SERVICES_SCALE)

  /** The recorded capacity is backed by slots. */
  const SERVICE_SHAPE: Shape := (count: nat, capacity: nat, length: nat) => count <= capacity <= length

  /** The registration half of `addProject` and all of `loadProject`: refuse a known repository or name, append. */
  method AddService(t: Table<Service>, service: Service) returns (ok: bool)
    requires t.Open()
    modifies t, t.slots
    ensures t.Open() && (t.slots == old(t.slots) || fresh(t.slots)) && t.freed == old(t.freed)
    ensures t.Within()
    ensures ok == !ClashesWith(SERVICES, old(t.Rows()), service)
    ensures t.Rows() == if ok then old(t.Rows()) + [service] else old(t.Rows())
  {
    hide ClashesWith;
    var end := LoadRecord(SERVICES, SERVICE_GROWTH, t, service, SERVICE_SHAPE);
    ok := end == Complete;
  }

  /** The three-state scanner of `loadServices`. */
  method LoadServices(t: Table<Service>, data: string) returns (end: LoadEnd, state: nat, lastIndex: nat)
    requires t.Open()
    modifies t, t.slots
    ensures t.Open() && (t.slots == old(t.slots) || fresh(t.slots)) && t.freed == old(t.freed)
    ensures t.Within()
    ensures LoadFrom(SERVICES, Tokens(SERVICE_DELIMITERS, 0, data), old(t.Rows())) == ToOutcome(end, t.Rows())
    ensures end != OutOfBounds
    ensures end == Complete ==> lastIndex <= |data| && data[lastIndex..] == Remainder(SERVICE_DELIMITERS, 0, data)
    ensures end == Complete ==> state == EndPhase(SERVICES, data)
  {
    hide LoadFrom;
    NeverOutOfBounds(Tokens(SERVICE_DELIMITERS, 0, data), t.Rows());
    end, state, lastIndex := LoadFile(SERVICES, SERVICE_GROWTH, t, data, SERVICE_SHAPE);
  }

  lemma {:induction false} NeverOutOfBounds(ts: seq<string>, rows: seq<Service>)
    ensures !LoadFrom(SERVICES, ts, rows).Corrupted?
    decreases |ts|
  {
    if !Aborts(SERVICES, ts) && |ts| >= 3 {
      NeverOutOfBounds(ts[3..], rows + [DecodeService(ts[..3])]);
    }
  }

  lemma {:induction false} CutLinesAppend(rows: seq<Service>, s: Service)
    ensures CutLines(rows + [s]) == CutLines(rows) + CutLine(ServiceLine(s))
  {
    if rows == [] {
      assert rows + [s] == [s] && [s][1..] == [];
    } else {
      assert (rows + [s])[1..] == rows[1..] + [s];
      CutLinesAppend(rows[1..], s);
      AppendAssoc(CutLine(ServiceLine(rows[0])), CutLines(rows[1..]), CutLine(ServiceLine(s)));
    }
  }

  /** The accumulated text, None while there is none. */
  ghost function Collected(rows: seq<Service>): Option<string> {
    if Cloned(rows) == [] then None else Some(CutLines(Cloned(rows)))
  }

  lemma CollectedStart(rows: seq<Service>)
    requires rows == []
    ensures Collected(rows) == None
  {
  }

  lemma CollectedStep(rows: seq<Service>, s: Service)
    ensures Collected(rows + [s]) ==
            if s.cloned
            then Some((if Collected(rows).None? then "" else Collected(rows).value) + CutLine(ServiceLine(s)))
            else Collected(rows)
  {
    hide Cloned;
    var saved := Cloned(rows);
    ClonedPrefix(rows, s);
    CutLinesAppend(saved, s);
    assert saved + [] == saved;
    if s.cloned {
      assert Cloned(rows + [s]) == saved + [s];
    }
  }

  lemma {:induction false} NoneCloned(rows: seq<Service>)
    requires forall i :: 0 <= i < |rows| ==> !rows[i].cloned
    ensures Cloned(rows) == []
  {
    if rows != [] {
      NoneCloned(rows[1..]);
    }
  }

  /** The search loop of `save_services`. */
  method FindCloned(t: Table<Service>) returns (findToSave: bool)
    requires t.Valid()
    ensures findToSave <==> Cloned(t.Rows()) != []
  {
    findToSave := false;
    var i := 0;
    while i < t.count
      invariant i <= t.count
      invariant forall j :: 0 <= j < i ==> !t.Rows()[j].cloned
    {
      if t.slots[i].rec.cloned {
        assert t.Rows()[i] in t.Rows();
        ClonedMembers(t.Rows());
        return true;
      }
      i := i + 1;
    }
    NoneCloned(t.Rows());
  }

  /** The accumulator loop of `save_services`; None is the null pointer it starts from. */
  method CollectLines(t: Table<Service>) returns (text: Option<string>)
    requires t.Valid()
    ensures text == Collected(t.Rows())
  {
    hide Collected;
    ghost var rows := t.Rows();
    CollectedStart(rows[..0]);
    text := None;
    var i := 0;
    while i < t.count
      invariant i <= t.count
      invariant text == Collected(rows[..i])
    {
      var service := t.slots[i].rec;
      assert rows[..i] + [service] == rows[..i + 1];
      CollectedStep(rows[..i], service);
      if service.cloned {
        var before := if text.None? then "" else text.value;
        text := Some(before + CutLine(ServiceLine(service)));
      }
      i := i + 1;
    }
    assert rows[..i] == rows;
  }

  /** `save_services`: look for a cloned service, collect the lines of all of them, replace the file. */
  method SaveServices(t: Table<Service>, file: string) returns (after: string)
    requires t.Valid()
    ensures after == SavedServices(file, t.Rows())
  {
    var findToSave := FindCloned(t);
    if !findToSave && t.count > 0 {
      return file;
    }
    if t.count == 0 && |file| == 0 {
      return file;
    }
    var text := CollectLines(t);
    after := if text.None? then "" else text.value;
  }
}
