/** The resource-limits registry: 128-bit memory and 64-bit cpu limits by service name. */
module Limits {
  import opened CStrings
  import opened Decimal
  import opened Loader
  import opened Scanner
  import opened Table

  datatype Limit = Limit(name: string, cpu: u64, memory: u128)

  const LIMIT_DELIMITERS: seq<char> := ['^', '#', '\n']
  const LIMITS_SCALE := 4

  /** The memory column is `atoll`'s result converted to an unsigned 128-bit integer. */
  function Unsigned128(x: i64): u128 {
    if x < 0 then x + 0x1_0000_0000_0000_0000_0000_0000_0000_0000 else x
  }

  function LimitFields(l: Limit): seq<string> {
    [l.name, Digits(l.memory), Print(Signed64(l.cpu))]
  }

  function DecodeLimit(fs: seq<string>): Limit {
    Limit(Field(fs, 0), Unsigned64(Atol(Field(fs, 2))), Unsigned128(Atol(Field(fs, 1))))
  }

  predicate SameName(a: Limit, b: Limit) {
    a.name == b.name
  }

  /**
   * `loadLimit` grows with `realloc(limits, newCapacity)`, a count of bytes: at four records the array shrinks to one
   * pointer, so a fifth record is written outside it.
   */
  const LIMITS: Codec<Limit> :=
    Codec(LIMIT_DELIMITERS, LimitFields, DecodeLimit, NeverAborts, SameName, (n: nat) => n < LIMITS_SCALE)

  /** One line of the limits file: `%s^%s#%li\n`. */
  function LimitLine(l: Limit): string {
    l.name + "^" + Digits(l.memory) + "#" + Print(Signed64(l.cpu)) + "\n"
  }

  lemma LimitLineExample()
    ensures LimitLine(Limit("a", 60, 12)) == "a^12#60\n"
  {
    hide Digits;
    DigitsExamples();
  }

  lemma LimitLineIsJoin(l: Limit)
    ensures LimitLine(l) == Join(LIMIT_DELIMITERS, 0, LimitFields(l))
  {
    var ds, fs := LIMIT_DELIMITERS, LimitFields(l);
    JoinTail(ds, 2, fs);
    JoinTail(ds, 1, fs);
    JoinTail(ds, 0, fs);
    assert fs[0..] == fs && Join(ds, 2, fs[2..]) == fs[2] + "\n";
    AppendField(fs[0] + "^", fs[1], "#", fs[2] + "\n");
    AppendAssoc(fs[0] + "^" + fs[1] + "#", fs[2], "\n");
  }

  /** A limit whose name cannot close its own field. */
  predicate GoodLimit(l: Limit) {
    '^' !in l.name && NulFree(l.name)
  }

  /** The job memory limit, alone in its file: the text fits the 129 bytes read and comes back exactly below 2^63. */
  lemma MemoryTextRoundTrip(n: u128)
    ensures |Digits(n)| <= 129
    ensures Unsigned128(Atol(Digits(n))) == n <==> n < 0x8000_0000_0000_0000
  {
    DigitsOf128(n);
    AtolPrint(n);
  }

  lemma LimitFieldsAreClean(l: Limit)
    requires GoodLimit(l)
    ensures Clean(LIMIT_DELIMITERS, 0, LimitFields(l))
  {
    var ds, fs := LIMIT_DELIMITERS, LimitFields(l);
    PrintAlphabet(l.memory, '#');
    PrintAlphabet(l.memory, '\0');
    PrintAlphabet(Signed64(l.cpu), '\n');
    PrintAlphabet(Signed64(l.cpu), '\0');
    assert Clean(ds, 2, fs[2..]) by { assert fs[2..][1..] == []; }
    assert Clean(ds, 1, fs[1..]) by { assert fs[1..][1..] == fs[2..]; }
  }

  /** The limit that the loader makes of a saved one: the memory is at most the largest long. */
  function Clamped(l: Limit): Limit {
    l.(memory := if l.memory < 0x8000_0000_0000_0000 then l.memory else 0x7FFF_FFFF_FFFF_FFFF)
  }

  /** A negative memory column is read as a number just below 2^128. */
  lemma NegativeMemory(fs: seq<string>)
    requires |fs| == 3 && Atol(fs[1]) < 0
    ensures DecodeLimit(fs).memory == 340282366920938463463374607431768211456 + Atol(fs[1])
  {
  }

  lemma LimitReadsClamped(l: Limit)
    requires GoodLimit(l)
    ensures ReadsAs(LIMITS, l, Clamped(l))
  {
    LimitFieldsAreClean(l);
    AtolPrint(l.memory);
    UnsignedLongRoundTrip(l.cpu);
  }

  /** A limit is stored faithfully exactly when its memory fits a signed 64-bit integer. */
  lemma LimitIsStorableExactly(l: Limit)
    requires GoodLimit(l)
    ensures Storable(LIMITS, l) <==> l.memory < 0x8000_0000_0000_0000
  {
    LimitReadsClamped(l);
  }

  ghost predicate GoodLimits(rows: seq<Limit>) {
    NoClash(LIMITS, rows) && forall l :: l in rows ==> GoodLimit(l)
  }

  /** Every memory limit fits a signed 64-bit integer. */
  predicate FitLong(rows: seq<Limit>) {
    forall i :: 0 <= i < |rows| ==> rows[i].memory < 0x8000_0000_0000_0000
  }

  function AllClamped(rows: seq<Limit>): seq<Limit> {
    seq(|rows|, i requires 0 <= i < |rows| => Clamped(rows[i]))
  }

  lemma ClampedExactly(rows: seq<Limit>)
    ensures AllClamped(rows) == rows <==> FitLong(rows)
  {
    if AllClamped(rows) == rows {
      forall i | 0 <= i < |rows| ensures rows[i].memory < 0x8000_0000_0000_0000 {
        assert AllClamped(rows)[i] == rows[i];
      }
    }
  }

  lemma AllReadClamped(rows: seq<Limit>)
    requires GoodLimits(rows)
    ensures AllReadAs(LIMITS, rows, AllClamped(rows)) && NoClash(LIMITS, AllClamped(rows))
  {
    hide ReadsAs;
    forall i | 0 <= i < |rows| ensures ReadsAs(LIMITS, rows[i], AllClamped(rows)[i]) {
      LimitReadsClamped(rows[i]);
    }
    forall i, j | 0 <= i < j < |rows| ensures !LIMITS.clash(AllClamped(rows)[i], AllClamped(rows)[j]) {
      assert !LIMITS.clash(rows[i], rows[j]);
    }
  }

  /**
   * A clean limits file, whoever wrote it: up to four limits load, their memory cut to the largest long; a fifth is
   * written outside the array.
   */
  lemma CleanFileLoadsExactly(rows: seq<Limit>)
    requires GoodLimits(rows)
    ensures Load(LIMITS, Encode(LIMITS, rows)) == if |rows| <= LIMITS_SCALE then Loaded(AllClamped(rows)) else Corrupted
  {
    hide LoadFrom;
    hide Encode;
    hide AllReadAs;
    hide Tokens;
    AllReadClamped(rows);
    assert [] + AllClamped(rows) == AllClamped(rows) && Encode(LIMITS, rows) + "" == Encode(LIMITS, rows);
    if |rows| <= LIMITS_SCALE {
      LoadImages(LIMITS, rows, AllClamped(rows), "", []);
      ScanNothing(LIMIT_DELIMITERS, 0, "");
      LoadUnfinished(LIMITS, [], AllClamped(rows));
    } else {
      OverfullCorrupts(LIMITS, rows, AllClamped(rows), "", [], LIMITS_SCALE);
    }
  }

  /** Whatever the file contains, a load that succeeds yields good limits, and at most four. */
  lemma LoadedLimitsAreGood(file: string)
    ensures Load(LIMITS, file).Loaded? ==>
              GoodLimits(Load(LIMITS, file).rows) && |Load(LIMITS, file).rows| <= LIMITS_SCALE
  {
    var ts := Tokens(LIMIT_DELIMITERS, 0, file);
    TokensAreClean(LIMIT_DELIMITERS, 0, file);
    LoadedRows(LIMITS, ts, [], GoodLimit);
    LoadedFits(LIMITS, ts, [], LIMITS_SCALE);
  }

  // ---- what `saveLimits` writes ----

  /** The test that every record after the first has to fail to be saved: a `size_t` compared with -1. */
  predicate AtMostMinusOne(size: u64) {
    size <= Unsigned64(-1)
  }

  /** The comparison is unsigned, so it holds of every size. */
  lemma AlwaysAtMostMinusOne(size: u64)
    ensures AtMostMinusOne(size)
  {
  }

  /** The text that is saved; None: the process dies at the second record, before anything is written. */
  function SavedLimits(rows: seq<Limit>): Option<string> {
    if |rows| <= 1 then Some(Encode(LIMITS, rows)) else None
  }

  /** The limits file after the save. */
  function LimitsFile(file: string, rows: seq<Limit>): string {
    match SavedLimits(rows)
    case Some(text) => text
    case None => file
  }

  /** What the next start finds: the limits just saved, their memory cut, or those of the old file. */
  function Kept(saved: seq<Limit>, rows: seq<Limit>): seq<Limit> {
    if |rows| <= 1 then AllClamped(rows) else saved
  }

  /** Every save leaves a file that loads: at most one new limit, or what the old file held. */
  lemma SavedLimitsReload(file: string, saved: seq<Limit>, rows: seq<Limit>)
    requires (forall l :: l in rows ==> GoodLimit(l)) && Load(LIMITS, file) == Loaded(saved)
    ensures Load(LIMITS, LimitsFile(file, rows)) == Loaded(Kept(saved, rows))
  {
    hide LoadFrom;
    hide Encode;
    if |rows| <= 1 {
      CleanFileLoadsExactly(rows);
    }
  }

  /** Limits are saved and come back exactly when there is at most one, of a memory below 2^63. */
  lemma LimitsRoundTripExactly(rows: seq<Limit>)
    requires GoodLimits(rows)
    ensures SavedLimits(rows).Some? && Load(LIMITS, SavedLimits(rows).value) == Loaded(rows)
       <==> |rows| <= 1 && FitLong(rows)
  {
    hide LoadFrom;
    hide Encode;
    hide FitLong;
    CleanFileLoadsExactly(rows);
    ClampedExactly(rows);
  }

  /**
   * Whatever the old file held, the next start loads the limits of this process exactly when they are at most one, of
   * a memory below 2^63, or are two or more and those that the old file held already.
   */
  lemma LimitsComeBackExactly(file: string, saved: seq<Limit>, rows: seq<Limit>)
    requires (forall l :: l in rows ==> GoodLimit(l)) && Load(LIMITS, file) == Loaded(saved)
    ensures Load(LIMITS, LimitsFile(file, rows)) == Loaded(rows)
       <==> (|rows| <= 1 && FitLong(rows)) || (|rows| > 1 && rows == saved)
  {
    hide LoadFrom;
    SavedLimitsReload(file, saved, rows);
    ClampedExactly(rows);
  }

  /** The shortest fatal save. */
  lemma SecondLimitIsFatal(a: Limit, b: Limit, file: string)
    ensures SavedLimits([a, b]) == None && LimitsFile(file, [a, b]) == file
  {
  }

  /** A single limit is saved and loaded back exactly when its memory is below 2^63. */
  lemma SingleLimitRoundTripExactly(l: Limit)
    requires GoodLimit(l)
    ensures SavedLimits([l]) == Some(Encode(LIMITS, [l]))
    ensures Load(LIMITS, Encode(LIMITS, [l])) == Loaded([l]) <==> l.memory < 0x8000_0000_0000_0000
  {
    hide LoadFrom;
    hide Encode;
    LimitsRoundTripExactly([l]);
    assert [l][0] == l;
  }

  // ---- the in-memory table ----

  function LimitNamed(name: string): Limit -> bool {
    (l: Limit) => l.name == name
  }

  /** `loadLimit` passes the new capacity to `realloc` as a number of bytes, eight for a pointer. */
  const LIMIT_GROWTH: Growth :=
    Growth((capacity: nat) => (capacity + LIMITS_SCALE) / 8, (capacity: nat) => capacity + LIMITS_SCALE)

  /** The table as `main` allocates it for loading: four slots, and as many recorded. */
  const LOAD_SHAPE: Shape :=
    (count: nat, capacity: nat, length: nat) => count <= capacity && capacity == LIMITS_SCALE == length

  /** `loadLimit`: refuse a known name, grow by a byte count, append or write behind the array. */
  method LoadLimit(t: Table<Limit>, limit: Limit) returns (end: LoadEnd)
    requires Shaped(t, LOAD_SHAPE)
    modifies t, t.slots
    ensures Shaped(t, LOAD_SHAPE) && t.freed == old(t.freed)
    ensures end == if ClashesWith(LIMITS, old(t.Rows()), limit) then Refused
                   else if old(t.count) >= LIMITS_SCALE then OutOfBounds
                   else Complete
    ensures t.Rows() == if end == Complete then old(t.Rows()) + [limit] else old(t.Rows())
  {
    hide ClashesWith;
    end := LoadRecord(LIMITS, LIMIT_GROWTH, t, limit, LOAD_SHAPE);
  }

  /** The three-state scanner of `initLimits`. */
  method InitLimits(t: Table<Limit>, data: string) returns (end: LoadEnd, state: nat, lastIndex: nat)
    requires Shaped(t, LOAD_SHAPE)
    modifies t, t.slots
    ensures Shaped(t, LOAD_SHAPE) && (t.slots == old(t.slots) || fresh(t.slots)) && t.freed == old(t.freed)
    ensures t.Within()
    ensures LoadFrom(LIMITS, Tokens(LIMIT_DELIMITERS, 0, data), old(t.Rows())) == ToOutcome(end, t.Rows())
    ensures end == Complete ==> lastIndex <= |data| && data[lastIndex..] == Remainder(LIMIT_DELIMITERS, 0, data)
    ensures end == Complete ==> state == EndPhase(LIMITS, data)
  {
    hide LoadFrom;
    end, state, lastIndex := LoadFile(LIMITS, LIMIT_GROWTH, t, data, LOAD_SHAPE);
  }

  /** `saveLimits`: the accumulator loop, which dies at the second record; None stands for that. */
  method SaveLimits(t: Table<Limit>) returns (file: Option<string>)
    requires t.Valid()
    ensures file == SavedLimits(t.Rows())
  {
    ghost var rows := t.Rows();
    var text, first, i := "", true, 0;
    while i < t.count
      invariant i <= t.count && i <= 1 && first == (i == 0)
      invariant text == Encode(LIMITS, rows[..i])
    {
      var limit := t.slots[i].rec;
      LimitLineIsJoin(limit);
      if first {
        assert rows[..1] == [limit] && [limit][1..] == [];
        text := LimitLine(limit);
        first := false;
      } else {
        var size := (|text| + |LimitLine(limit)|) % 0x1_0000_0000_0000_0000;
        AlwaysAtMostMinusOne(size);
        if AtMostMinusOne(size) {
          return None;
        }
      }
      i := i + 1;
    }
    assert rows[..i] == rows;
    file := Some(text);
  }

  /** The table value after `createLimit`. */
  function Upserted(rows: seq<Limit>, limit: Limit): seq<Limit> {
    var k := First(rows, LimitNamed(limit.name));
    if k < |rows| then rows[k := limit] else rows + [limit]
  }

  /** `createLimit`: overwrite both numbers of the first limit of that name, or append one; nothing without an array. */
  method CreateLimit(t: Table<Limit>, name: string, cpu: u64, memory: u128) returns (ok: bool)
    requires t.Backed()
    modifies t, t.slots, t.cells
    ensures t.Backed() && (t.slots == old(t.slots) || fresh(t.slots)) && t.freed == old(t.freed)
    ensures t.Within()
    ensures ok == (old(t.slots) != null) == (t.slots != null)
    ensures t.Rows() == if ok then Upserted(old(t.Rows()), Limit(name, cpu, memory)) else old(t.Rows())
  {
    if t.slots == null {
      return false;
    }
    var k := t.FindFirst(LimitNamed(name));
    if k < t.count {
      t.Overwrite(k, t.slots[k].rec.(cpu := cpu, memory := memory));
      return true;
    }
    var inside := t.Append(Limit(name, cpu, memory), t.capacity + LIMITS_SCALE, t.capacity + LIMITS_SCALE);
    return true;
  }

  /** `removeLimit`: the deletion machine; a missing name is no error. */
  method RemoveLimit(t: Table<Limit>, name: string)
    requires t.Backed()
    modifies t, t.slots
    ensures t.Backed()
    ensures t.Within()
    ensures t.Rows() == Without(old(t.Rows()), LimitNamed(name))
    ensures t.slots == if t.count < old(t.count) && t.count == 0 then null else old(t.slots)
  {
    var found := t.RemoveFirst(LimitNamed(name));
  }

  function WithName(newName: string): Limit -> Limit {
    (l: Limit) => l.(name := newName)
  }

  /** The table value after `renameLimit`. */
  function Renamed(rows: seq<Limit>, name: string, newName: string): seq<Limit> {
    UpdateFirst(rows, LimitNamed(name), WithName(newName))
  }

  /** `renameLimit`: the first limit of that name gets the new one; it fails only when the array is gone. */
  method RenameLimit(t: Table<Limit>, name: string, newName: string) returns (ok: bool)
    requires t.Backed()
    modifies t.cells
    ensures t.Backed() && ok == (t.slots != null)
    ensures t.Rows() == if ok then Renamed(old(t.Rows()), name, newName) else old(t.Rows())
  {
    if t.slots == null {
      return false;
    }
    var k := t.FindFirst(LimitNamed(name));
    if k < t.count {
      t.Overwrite(k, t.slots[k].rec.(name := newName));
    }
    return true;
  }
}
