/** The environment-variable registry: (service name, key, value) triples, unique by name and key. */
module Envs {
  import opened CStrings
  import opened Loader
  import opened Scanner
  import opened Table

  datatype Env = Env(name: string, key: string, value: string)

  const ENV_DELIMITERS: seq<char> := ['`', '^', '\n']
  const ENVS_SCALE := 20

  /** Slots after the first growth, and the capacity recorded for them: the growth stores a byte count. */
  const ENVS_GROWN := 40
  const ENVS_BELIEVED := 320

  function EnvFields(e: Env): seq<string> {
    [e.name, e.key, e.value]
  }

  function DecodeEnv(fs: seq<string>): Env {
    Env(Field(fs, 0), Field(fs, 1), Field(fs, 2))
  }

  predicate SameNameAndKey(a: Env, b: Env) {
    a.key == b.key && a.name == b.name
  }

  const ENVS: Codec<Env> :=
    Codec(ENV_DELIMITERS, EnvFields, DecodeEnv, NeverAborts, SameNameAndKey, (n: nat) => n < ENVS_GROWN)

  /** One line of the env file. */
  function EnvLine(e: Env): string {
    e.name + "`" + e.key + "^" + e.value + "\n"
  }

  lemma EnvLineIsJoin(e: Env)
    ensures EnvLine(e) == Join(ENV_DELIMITERS, 0, EnvFields(e))
  {
    var ds, fs := ENV_DELIMITERS, EnvFields(e);
    JoinTail(ds, 2, fs);
    JoinTail(ds, 1, fs);
    JoinTail(ds, 0, fs);
    assert fs[0..] == fs && Join(ds, 2, fs[2..]) == fs[2] + "\n";
    AppendField(fs[0] + "`", fs[1], "^", fs[2] + "\n");
    AppendAssoc(fs[0] + "`" + fs[1] + "^", fs[2], "\n");
  }

  /** What validated arguments and loaded envs guarantee; a newline may still be anywhere. */
  predicate ReadableEnv(e: Env) {
    '`' !in e.name && '^' !in e.key && NulFree(e.name) && NulFree(e.key) && NulFree(e.value)
  }

  lemma EnvIsStorableExactly(e: Env)
    requires ReadableEnv(e)
    ensures Storable(ENVS, e) <==> '\n' !in e.value
  {
    var ds, fs := ENV_DELIMITERS, EnvFields(e);
    assert Clean(ds, 2, fs[2..]) <==> '\n' !in e.value by { assert fs[2..][1..] == []; }
    assert Clean(ds, 1, fs[1..]) <==> Clean(ds, 2, fs[2..]) by { assert fs[1..][1..] == fs[2..]; }
    assert Clean(ds, 0, fs) <==> Clean(ds, 1, fs[1..]);
    assert DecodeEnv(fs) == e;
  }

  /** Distinct readable envs. */
  ghost predicate ReadableEnvs(rows: seq<Env>) {
    NoClash(ENVS, rows) && forall e :: e in rows ==> ReadableEnv(e)
  }

  predicate HasNewline(rows: seq<Env>) {
    exists e :: e in rows && '\n' in e.value
  }

  /** Any list that a load yields is readable, without newlines in values, and within the forty slots. */
  ghost predicate LoadableEnvs(rows: seq<Env>) {
    ReadableEnvs(rows) && !HasNewline(rows) && |rows| <= ENVS_GROWN
  }

  predicate LoadableEnv(e: Env) {
    ReadableEnv(e) && '\n' !in e.value
  }

  lemma LoadedEnvsAreLoadable(file: string)
    ensures Load(ENVS, file).Loaded? ==> LoadableEnvs(Load(ENVS, file).rows)
  {
    var ts := Tokens(ENV_DELIMITERS, 0, file);
    TokensAreClean(ENV_DELIMITERS, 0, file);
    forall fs: seq<string> | |fs| == 3 && Clean(ENV_DELIMITERS, 0, fs) && !Aborts(ENVS, fs)
      ensures LoadableEnv(DecodeEnv(fs))
    {
      assert Clean(ENV_DELIMITERS, 1, fs[1..]);
      assert Clean(ENV_DELIMITERS, 2, fs[1..][1..]);
    }
    LoadedRows(ENVS, ts, [], LoadableEnv);
    LoadedFits(ENVS, ts, [], ENVS_GROWN);
  }

  lemma LineSplit(e: Env, cut: string, rest: string, later: string)
    requires e.value == cut + ['\n'] + rest
    ensures EnvLine(e) + later == e.name + ['`'] + (e.key + ['^'] + (cut + ['\n'] + (rest + "\n" + later)))
  {
  }

  lemma PrependThree(a: string, b: string, c: string, more: seq<string>)
    ensures [a] + ([b] + ([c] + more)) == [a, b, c] + more
  {
  }

  /** The first three fields found in text that starts with an env line: the value stops at its first newline. */
  lemma ValueIsCut(e: Env, cut: string, rest: string, later: string)
    requires ReadableEnv(e) && e.value == cut + ['\n'] + rest && '\n' !in cut
    ensures Tokens(ENV_DELIMITERS, 0, EnvLine(e) + later)
         == [e.name, e.key, cut] + Tokens(ENV_DELIMITERS, 0, rest + "\n" + later)
  {
    hide Tokens;
    hide Remainder;
    hide CutAtNul;
    var ds, behind := ENV_DELIMITERS, rest + "\n" + later;
    var third := cut + ['\n'] + behind;
    var second := e.key + ['^'] + third;
    LineSplit(e, cut, rest, later);
    ScanField(ds, 0, e.name, second);
    ScanField(ds, 1, e.key, third);
    ScanField(ds, 2, cut, behind);
    CutAtNulIdentity(e.name);
    CutAtNulIdentity(e.key);
    CutAtNulIdentity(cut);
    var more := Tokens(ds, 0, behind);
    PrependThree(e.name, e.key, cut, more);
  }

  /** A list loaded from such text holds the cut value, so not the original one. */
  lemma CutValueIsLoaded(e: Env, later: string, before: seq<Env>)
    requires ReadableEnv(e) && '\n' in e.value
    ensures var o := LoadFrom(ENVS, Tokens(ENV_DELIMITERS, 0, EnvLine(e) + later), before);
            o.Loaded? ==> exists cut: string :: cut != e.value && before + [e.(value := cut)] <= o.rows
  {
    hide Tokens;
    var cut, rest := FirstField('\n', e.value);
    ValueIsCut(e, cut, rest, later);
    var fs, more := [e.name, e.key, cut], Tokens(ENV_DELIMITERS, 0, rest + "\n" + later);
    LoadGroup(ENVS, fs, more, before);
    LoadGrows(ENVS, more, before + [DecodeEnv(fs)]);
    assert DecodeEnv(fs) == e.(value := cut) && cut != e.value;
  }

  /** Position of the first env whose value contains a newline. */
  function FirstBroken(rows: seq<Env>): nat {
    First(rows, (e: Env) => '\n' in e.value)
  }

  /**
   * Save then load is the identity exactly when there are at most forty envs and no value contains a newline: the
   * validators let one pass, the scanner ends the value there.
   */
  lemma EnvsRoundTripExactly(rows: seq<Env>)
    requires ReadableEnvs(rows)
    ensures Load(ENVS, Encode(ENVS, rows)) == Loaded(rows) <==> |rows| <= ENVS_GROWN && !HasNewline(rows)
  {
    hide LoadFrom;
    hide Tokens;
    var k := FirstBroken(rows);
    if |rows| > ENVS_GROWN {
      LoadedFits(ENVS, Tokens(ENV_DELIMITERS, 0, Encode(ENVS, rows)), [], ENVS_GROWN);
    } else if k == |rows| {
      forall e | e in rows ensures Storable(ENVS, e) && '\n' !in e.value {
        EnvIsStorableExactly(e);
      }
      RoundTrip(ENVS, rows);
    } else {
      BrokenValueIsNoticed(rows, k);
      assert rows[k] in rows;
    }
  }

  /** A saved list of more than forty envs makes every later start write behind the array. */
  lemma FortyFirstEnvCorrupts(rows: seq<Env>)
    requires ReadableEnvs(rows) && !HasNewline(rows) && |rows| > ENVS_GROWN
    ensures Load(ENVS, Encode(ENVS, rows)) == Corrupted
  {
    hide LoadFrom;
    hide Tokens;
    hide ReadsAs;
    forall i | 0 <= i < |rows| ensures ReadsAs(ENVS, rows[i], rows[i]) {
      assert rows[i] in rows;
      EnvIsStorableExactly(rows[i]);
      assert Storable(ENVS, rows[i]);
    }
    assert [] + rows == rows && Encode(ENVS, rows) + "" == Encode(ENVS, rows);
    OverfullCorrupts(ENVS, rows, rows, "", [], ENVS_GROWN);
  }

  lemma BrokenValueIsNoticed(rows: seq<Env>, k: nat)
    requires ReadableEnvs(rows) && |rows| <= ENVS_GROWN && k < |rows| && '\n' in rows[k].value
    requires forall i :: 0 <= i < k ==> '\n' !in rows[i].value
    ensures Load(ENVS, Encode(ENVS, rows)) != Loaded(rows)
  {
    hide Tokens;
    hide LoadFrom;
    hide Encode;
    hide EnvLine;
    var e, later := rows[k], Encode(ENVS, rows[k + 1..]);
    FrontIsLoaded(rows, k);
    CutValueIsLoaded(e, later, rows[..k]);
    var o := Load(ENVS, Encode(ENVS, rows));
    if o.Loaded? {
      var cut: string :| cut != e.value && rows[..k] + [e.(value := cut)] <= o.rows;
      assert (rows[..k] + [e.(value := cut)])[k] == e.(value := cut);
    }
  }

  /** The envs in front of the first broken one are loaded as they were. */
  lemma FrontIsLoaded(rows: seq<Env>, k: nat)
    requires ReadableEnvs(rows) && |rows| <= ENVS_GROWN && k < |rows|
    requires forall i :: 0 <= i < k ==> '\n' !in rows[i].value
    ensures Load(ENVS, Encode(ENVS, rows)) ==
            LoadFrom(ENVS, Tokens(ENV_DELIMITERS, 0, EnvLine(rows[k]) + Encode(ENVS, rows[k + 1..])), rows[..k])
    ensures ReadableEnv(rows[k])
  {
    hide Tokens;
    hide LoadFrom;
    hide Encode;
    hide Storable;
    hide EnvLine;
    forall i | 0 <= i < k ensures Storable(ENVS, rows[i]) {
      assert rows[i] in rows;
      EnvIsStorableExactly(rows[i]);
    }
    EnvLineIsJoin(rows[k]);
    LoadFront(ENVS, rows, k);
    assert rows[k] in rows;
  }

  // ---- the abstract operations ----

  function Keyed(name: string, key: string): Env -> bool {
    (e: Env) => e.name == name && e.key == key
  }

  function Added(rows: seq<Env>, e: Env): seq<Env> {
    if First(rows, Keyed(e.name, e.key)) < |rows| then rows else rows + [e]
  }

  function Updated(rows: seq<Env>, name: string, key: string, value: string): seq<Env> {
    var k := First(rows, Keyed(name, key));
    if k < |rows| then rows[k := rows[k].(value := value)] else rows
  }

  function Renamed(rows: seq<Env>, name: string, newName: string): seq<Env> {
    seq(|rows|, i requires 0 <= i < |rows| => if rows[i].name == name then rows[i].(name := newName) else rows[i])
  }

  ghost predicate Unique(rows: seq<Env>) {
    NoClash(ENVS, rows)
  }

  lemma AddedKeepsUnique(rows: seq<Env>, e: Env)
    requires Unique(rows)
    ensures Unique(Added(rows, e))
  {
  }

  lemma UpdatedKeepsUnique(rows: seq<Env>, name: string, key: string, value: string)
    requires Unique(rows)
    ensures Unique(Updated(rows, name, key, value))
  {
  }

  lemma WithoutKeepsUnique(rows: seq<Env>, p: Env -> bool)
    requires Unique(rows)
    ensures Unique(Without(rows, p))
  {
  }

  lemma AddedThenWithout(rows: seq<Env>, e: Env)
    requires Unique(rows) && First(rows, Keyed(e.name, e.key)) == |rows|
    ensures Without(Added(rows, e), Keyed(e.name, e.key)) == rows
  {
    hide First;
    FirstUnique(rows + [e], Keyed(e.name, e.key), |rows|);
    assert (rows + [e])[..|rows|] == rows && (rows + [e])[|rows| + 1..] == [];
  }

  /** Some env of the new name shares a key with one that is renamed. */
  predicate Collides(rows: seq<Env>, name: string, newName: string) {
    exists i, j :: 0 <= i < |rows| && 0 <= j < |rows|
      && rows[i].name == name && rows[j].name == newName && rows[i].key == rows[j].key
  }

  /** A bulk rename keeps the pairs distinct exactly when the names are equal or no key collides. */
  lemma RenameKeepsUniqueExactly(rows: seq<Env>, name: string, newName: string)
    requires Unique(rows)
    ensures Unique(Renamed(rows, name, newName)) <==> name == newName || !Collides(rows, name, newName)
  {
    var after := Renamed(rows, name, newName);
    if name != newName && Collides(rows, name, newName) {
      var i, j :| 0 <= i < |rows| && 0 <= j < |rows|
        && rows[i].name == name && rows[j].name == newName && rows[i].key == rows[j].key;
      assert ENVS.clash(after[i], after[j]) && ENVS.clash(after[j], after[i]);
    } else {
      forall i, j | 0 <= i < j < |after| ensures !ENVS.clash(after[i], after[j]) {
        assert !ENVS.clash(rows[i], rows[j]);
      }
    }
  }

  // ---- the in-memory table ----

  /** `addEnv` and `loadEnv` allocate the right number of bytes and record that number as the capacity. */
  const ENV_GROWTH: Growth :=
    Growth((capacity: nat) => capacity + ENVS_SCALE, (capacity: nat) => 8 * (capacity + ENVS_SCALE))

  /** The two shapes a live env table goes through. */
  const ENV_SHAPE: Shape := (count: nat, capacity: nat, length: nat) =>
    count <= length && ((capacity == ENVS_SCALE == length) || (capacity == ENVS_BELIEVED && length == ENVS_GROWN))

  /** An env table, live or given up; giving up the array leaves the capacity as it was. */
  ghost predicate EnvTable(t: Table<Env>)
    reads t, t.slots
  {
    && t.Valid() && (t.capacity == ENVS_SCALE || t.capacity == ENVS_BELIEVED)
    && (t.slots != null ==> ENV_SHAPE(t.count, t.capacity, t.slots.Length))
  }

  /** One more env fits exactly while the array is there and holds fewer than forty. */
  lemma RoomExactly(t: Table<Env>)
    requires EnvTable(t)
    ensures t.Room(t.capacity + ENVS_SCALE) <==> t.slots != null && t.count < ENVS_GROWN
  {
  }

  /** How an add ends: the pair is there, it is appended, or the write goes through null or behind the array. */
  datatype AddEnd = Duplicate | Appended | NullWrite | BehindArray

  /** `addEnv`: look for the pair, grow to a byte count, append. */
  method AppendEnv(t: Table<Env>, e: Env) returns (end: AddEnd)
    requires EnvTable(t)
    modifies t, t.slots
    ensures EnvTable(t) && (t.slots == old(t.slots) || fresh(t.slots)) && t.freed == old(t.freed)
    ensures forall cell :: cell in t.cells ==> cell in old(t.cells) || fresh(cell)
    ensures end == if First(old(t.Rows()), Keyed(e.name, e.key)) < old(t.count) then Duplicate
                   else if old(t.slots) == null then NullWrite
                   else if old(t.count) >= ENVS_GROWN then BehindArray
                   else Appended
    ensures t.Rows() == if end == Appended then old(t.Rows()) + [e] else old(t.Rows())
    ensures (t.slots == null) == (old(t.slots) == null)
  {
    var k := t.FindFirst(Keyed(e.name, e.key));
    if k < t.count {
      return Duplicate;
    }
    if t.slots == null {
      return NullWrite;
    }
    var inside := t.Append(e, t.capacity + ENVS_SCALE, 8 * (t.capacity + ENVS_SCALE));
    end := if inside then Appended else BehindArray;
  }

  /** The three-state scanner of `loadEnvs`. */
  method LoadEnvs(t: Table<Env>, data: string) returns (end: LoadEnd, state: nat, lastIndex: nat)
    requires EnvTable(t) && t.slots != null
    modifies t, t.slots
    ensures EnvTable(t) && t.slots != null && (t.slots == old(t.slots) || fresh(t.slots)) && t.freed == old(t.freed)
    ensures forall cell :: cell in t.cells ==> cell in old(t.cells) || fresh(cell)
    ensures LoadFrom(ENVS, Tokens(ENV_DELIMITERS, 0, data), old(t.Rows())) == ToOutcome(end, t.Rows())
    ensures end == Complete ==> lastIndex <= |data| && data[lastIndex..] == Remainder(ENV_DELIMITERS, 0, data)
    ensures end == Complete ==> state == EndPhase(ENVS, data)
  {
    hide LoadFrom;
    end, state, lastIndex := LoadFile(ENVS, ENV_GROWTH, t, data, ENV_SHAPE);
  }

  /** `saveEnvs`: the accumulated lines of all envs. */
  method SaveEnvs(t: Table<Env>) returns (file: string)
    requires t.Valid()
    ensures file == Encode(ENVS, t.Rows())
  {
    hide Encode;
    ghost var rows := t.Rows();
    EncodeNothing(ENVS, rows[..0]);
    var i := 0;
    file := "";
    while i < t.count
      invariant i <= t.count
      invariant file == Encode(ENVS, rows[..i])
    {
      var e := t.slots[i].rec;
      assert rows[..i] + [e] == rows[..i + 1];
      EncodeAppend(ENVS, rows[..i], e);
      EnvLineIsJoin(e);
      file := file + EnvLine(e);
      i := i + 1;
    }
    assert rows[..i] == rows;
  }

  /** `removeEnv`: the deletion machine. */
  method DeleteEnv(t: Table<Env>, name: string, key: string) returns (ok: bool)
    requires EnvTable(t)
    modifies t, t.slots
    ensures EnvTable(t)
    ensures ok == (First(old(t.Rows()), Keyed(name, key)) < old(t.count))
    ensures t.Rows() == Without(old(t.Rows()), Keyed(name, key))
    ensures t.slots == if ok && t.count == 0 then null else old(t.slots)
    ensures forall cell :: cell in t.cells ==> cell in old(t.cells)
  {
    ok := t.RemoveFirst(Keyed(name, key));
  }

  /** `updateEnv`: overwrite the value of the first env of that pair. */
  method ChangeEnv(t: Table<Env>, name: string, key: string, value: string) returns (ok: bool)
    requires t.Valid()
    modifies t.cells
    ensures t.Valid()
    ensures ok == (First(old(t.Rows()), Keyed(name, key)) < t.count)
    ensures t.Rows() == Updated(old(t.Rows()), name, key, value)
  {
    var k := t.FindFirst(Keyed(name, key));
    if k < t.count {
      t.Overwrite(k, t.slots[k].rec.(value := value));
      return true;
    }
    return false;
  }

  /** `renameEnv`: every env of the old name gets the new one. */
  method RenameEnv(t: Table<Env>, name: string, newName: string) returns (ok: bool)
    requires t.Valid()
    modifies t.cells
    ensures t.Valid() && ok == (t.slots != null)
    ensures t.Rows() == if ok then Renamed(old(t.Rows()), name, newName) else old(t.Rows())
  {
    if t.slots == null {
      return false;
    }
    ghost var rows := t.Rows();
    var i := 0;
    while i < t.count
      invariant i <= t.count && t.Valid()
      invariant forall j :: 0 <= j < i ==> t.Rows()[j] == Renamed(rows, name, newName)[j]
      invariant forall j :: i <= j < t.count ==> t.Rows()[j] == rows[j]
    {
      var e := t.slots[i].rec;
      assert e == t.Rows()[i];
      if e.name == name {
        t.Overwrite(i, e.(name := newName));
      }
      i := i + 1;
    }
    assert t.Rows() == Renamed(rows, name, newName);
    return true;
  }
}
