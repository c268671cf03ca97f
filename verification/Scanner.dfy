/**
 * The in-place scanners behind every registry file. A scanner looks for one delimiter at a time, cycling through a
 * fixed list; each delimiter found closes a field. `Tokens` says which fields that yields, `Codec` and `Load` what the
 * loaders make of them.
 */
module Scanner {
  import opened Arithmetic
  import opened CStrings

  function Next(ds: seq<char>, k: nat): (r: nat)
    requires k < |ds|
    ensures r < |ds|
  {
    if k + 1 == |ds| then 0 else k + 1
  }

  /** The closed fields of data when the scanner starts by looking for delimiter number k. */
  function Tokens(ds: seq<char>, k: nat, data: string): seq<string>
    requires k < |ds|
    decreases |data|
  {
    var j := IndexOf(ds[k], data);
    if j == |data| then [] else [CutAtNul(data[..j])] + Tokens(ds, Next(ds, k), data[j + 1..])
  }

  /** What is left of data after its last closed field: the bytes from `lastIndex` on. */
  function Remainder(ds: seq<char>, k: nat, data: string): string
    requires k < |ds|
    decreases |data|
  {
    var j := IndexOf(ds[k], data);
    if j == |data| then data else Remainder(ds, Next(ds, k), data[j + 1..])
  }

  /** The delimiter looked for after the fields ts. */
  function Phase(ds: seq<char>, k: nat, ts: seq<string>): (r: nat)
    requires k < |ds|
    ensures r < |ds|
    decreases |ts|
  {
    if ts == [] then k else Phase(ds, Next(ds, k), ts[1..])
  }

  /** Fields written one after the other, each closed by its delimiter. */
  function Join(ds: seq<char>, k: nat, ts: seq<string>): string
    requires k < |ds|
    decreases |ts|
  {
    if ts == [] then "" else ts[0] + [ds[k]] + Join(ds, Next(ds, k), ts[1..])
  }

  /** Every field lacks its own closing delimiter (and NUL); any other delimiter is allowed inside it. */
  predicate Clean(ds: seq<char>, k: nat, ts: seq<string>)
    requires k < |ds|
    decreases |ts|
  {
    ts == [] || (ds[k] !in ts[0] && NulFree(ts[0]) && Clean(ds, Next(ds, k), ts[1..]))
  }

  // ---- one step of the index loop ----

  lemma ScanField(ds: seq<char>, k: nat, field: string, rest: string)
    requires k < |ds| && ds[k] !in field
    ensures var data := field + [ds[k]] + rest;
            && Tokens(ds, k, data) == [CutAtNul(field)] + Tokens(ds, Next(ds, k), rest)
            && Remainder(ds, k, data) == Remainder(ds, Next(ds, k), rest)
  {
    var data := field + [ds[k]] + rest;
    assert data[..|field|] == field && data[|field| + 1..] == rest;
    IndexOfUnique(ds[k], data, |field|);
  }

  lemma ScanStep(ds: seq<char>, k: nat, data: string, last: nat, i: nat)
    requires k < |ds| && last <= i < |data|
    requires ds[k] !in data[last..i] && data[i] == ds[k]
    ensures Tokens(ds, k, data[last..]) == [CutAtNul(data[last..i])] + Tokens(ds, Next(ds, k), data[i + 1..])
    ensures Remainder(ds, k, data[last..]) == Remainder(ds, Next(ds, k), data[i + 1..])
  {
    var field, rest := data[last..i], data[i + 1..];
    SplitAt(data, last, i);
    ScanField(ds, k, field, rest);
  }

  lemma ScanNothing(ds: seq<char>, k: nat, data: string)
    requires k < |ds| && ds[k] !in data
    ensures Tokens(ds, k, data) == [] && Remainder(ds, k, data) == data
  {
  }

  // ---- scanning is exact ----

  lemma PhaseAfterField(ds: seq<char>, k: nat, field: string, later: seq<string>)
    requires k < |ds|
    ensures Phase(ds, k, [field] + later) == Phase(ds, Next(ds, k), later)
  {
  }

  /** A record's text from field k on. */
  lemma JoinTail(ds: seq<char>, k: nat, fs: seq<string>)
    requires k < |ds| == |fs|
    ensures Join(ds, k, fs[k..]) == fs[k] + [ds[k]] + if k + 1 == |ds| then "" else Join(ds, k + 1, fs[k + 1..])
  {
  }

  lemma JoinSplit(ds: seq<char>, k: nat, ts: seq<string>, tail: string)
    requires k < |ds| && ts != []
    ensures Join(ds, k, ts) + tail == ts[0] + [ds[k]] + (Join(ds, Next(ds, k), ts[1..]) + tail)
  {
  }

  /** Clean fields are found again, exactly, and the scan continues behind them as if it started there. */
  lemma {:induction false} ScanJoined(ds: seq<char>, k: nat, ts: seq<string>, tail: string)
    requires k < |ds| && Clean(ds, k, ts)
    ensures Tokens(ds, k, Join(ds, k, ts) + tail) == ts + Tokens(ds, Phase(ds, k, ts), tail)
    ensures Remainder(ds, k, Join(ds, k, ts) + tail) == Remainder(ds, Phase(ds, k, ts), tail)
    decreases |ts|
  {
    hide Tokens;
    hide Remainder;
    var data, phase := Join(ds, k, ts) + tail, Phase(ds, k, ts);
    var more := Tokens(ds, phase, tail);
    if ts == [] {
      assert data == tail;
    } else {
      var next, later := Next(ds, k), ts[1..];
      var rest := Join(ds, next, later) + tail;
      assert Tokens(ds, next, rest) == later + more && Remainder(ds, next, rest) == Remainder(ds, phase, tail) by {
        ScanJoined(ds, next, later, tail);
      }
      assert Tokens(ds, k, data) == [ts[0]] + Tokens(ds, next, rest)
          && Remainder(ds, k, data) == Remainder(ds, next, rest) by {
        JoinSplit(ds, k, ts, tail);
        ScanField(ds, k, ts[0], rest);
        CutAtNulIdentity(ts[0]);
      }
      assert ts + more == [ts[0]] + (later + more) by {
        assert ts == [ts[0]] + later;
        AppendAssoc([ts[0]], later, more);
      }
    }
  }

  lemma {:induction false} TokensAreClean(ds: seq<char>, k: nat, data: string)
    requires k < |ds|
    ensures Clean(ds, k, Tokens(ds, k, data))
    decreases |data|
  {
    var j := IndexOf(ds[k], data);
    if j < |data| {
      TokensAreClean(ds, Next(ds, k), data[j + 1..]);
    }
  }

  /** Nothing is lost: fields, delimiters and remainder rebuild the file, and the remainder closes no field. */
  lemma {:induction false} ScanIsLossless(ds: seq<char>, k: nat, data: string)
    requires k < |ds| && NulFree(data)
    ensures data == Join(ds, k, Tokens(ds, k, data)) + Remainder(ds, k, data)
    ensures ds[Phase(ds, k, Tokens(ds, k, data))] !in Remainder(ds, k, data)
    decreases |data|
  {
    hide Tokens;
    hide Remainder;
    if ds[k] in data {
      var next := Next(ds, k);
      var field, rest := FirstField(ds[k], data);
      var later, end := Tokens(ds, next, rest), Remainder(ds, next, rest);
      ScanIsLossless(ds, next, rest);
      ScanField(ds, k, field, rest);
      CutAtNulIdentity(field);
      PhaseAfterField(ds, k, field, later);
      assert ([field] + later)[1..] == later;
      JoinSplit(ds, k, [field] + later, end);
    } else {
      ScanNothing(ds, k, data);
    }
  }

  /** The scan of a NUL-free file is its only decomposition into clean fields and an unclosed remainder. */
  lemma ScanIsUnique(ds: seq<char>, k: nat, data: string, ts: seq<string>, rest: string)
    requires k < |ds| && NulFree(data)
    ensures ts == Tokens(ds, k, data) && rest == Remainder(ds, k, data)
       <==> Clean(ds, k, ts) && data == Join(ds, k, ts) + rest && ds[Phase(ds, k, ts)] !in rest
  {
    TokensAreClean(ds, k, data);
    ScanIsLossless(ds, k, data);
    if Clean(ds, k, ts) && data == Join(ds, k, ts) + rest && ds[Phase(ds, k, ts)] !in rest {
      ScanJoined(ds, k, ts, rest);
      ScanNothing(ds, Phase(ds, k, ts), rest);
    }
  }

  /** Scanning is compositional: whatever a leaves unclosed is scanned together with the data behind it. */
  lemma {:induction false} ScanConcatenation(ds: seq<char>, k: nat, a: string, b: string)
    requires k < |ds|
    ensures var ts, rest := Tokens(ds, k, a), Remainder(ds, k, a);
            && Tokens(ds, k, a + b) == ts + Tokens(ds, Phase(ds, k, ts), rest + b)
            && Remainder(ds, k, a + b) == Remainder(ds, Phase(ds, k, ts), rest + b)
    decreases |a|
  {
    if ds[k] !in a {
      ScanNothing(ds, k, a);
    } else {
      var next := Next(ds, k);
      var field, more := FirstField(ds[k], a);
      var later := Tokens(ds, next, more);
      var ts := [CutAtNul(field)] + later;
      ScanField(ds, k, field, more);
      ScanConcatenation(ds, next, more, b);
      PhaseAfterField(ds, k, CutAtNul(field), later);
      AppendAssoc(field + [ds[k]], more, b);
      ScanField(ds, k, field, more + b);
      AppendAssoc([CutAtNul(field)], later, Tokens(ds, Phase(ds, next, later), Remainder(ds, next, more) + b));
    }
  }

  lemma {:induction false} PhaseOfConcatenation(ds: seq<char>, k: nat, a: seq<string>, b: seq<string>)
    requires k < |ds|
    ensures Phase(ds, k, a + b) == Phase(ds, Phase(ds, k, a), b)
    decreases |a|
  {
    if a == [] {
      assert a + b == b;
    } else {
      assert (a + b)[1..] == a[1..] + b;
      PhaseOfConcatenation(ds, Next(ds, k), a[1..], b);
    }
  }

  lemma {:induction false} PhaseOfFields(ds: seq<char>, k: nat, ts: seq<string>)
    requires k < |ds| && k + |ts| <= |ds|
    ensures Phase(ds, k, ts) == if k + |ts| == |ds| then 0 else k + |ts|
    decreases |ts|
  {
    if ts != [] && k + 1 < |ds| {
      PhaseOfFields(ds, k + 1, ts[1..]);
    }
  }

  lemma {:induction false} CleanPrefix(ds: seq<char>, k: nat, a: seq<string>, b: seq<string>)
    requires k < |ds| && Clean(ds, k, a + b)
    ensures Clean(ds, k, a) && Clean(ds, Phase(ds, k, a), b)
    decreases |a|
  {
    if a == [] {
      assert a + b == b;
    } else {
      assert (a + b)[1..] == a[1..] + b;
      CleanPrefix(ds, Next(ds, k), a[1..], b);
    }
  }

  // ---- loading a registry file ----

  /**
   * One registry's file format and loading rules: the delimiters of a record, the fields a record prints, the record
   * that fields are read as, the fields on which the loader exits at once, the records it refuses to hold together,
   * and the record counts at which one more append stays inside the table's allocation.
   */
  datatype Codec<!R> = Codec(
    ds: seq<char>,
    fields: R -> seq<string>,
    decode: seq<string> -> R,
    aborts: (nat, string) -> bool,
    clash: (R, R) -> bool,
    fits: nat -> bool)

  /** The rule of a loader that exits on no field. */
  predicate NeverAborts(k: nat, field: string) {
    false
  }

  /** Field number k of a record, empty when the record has fewer fields. */
  function Field(fs: seq<string>, k: nat): string {
    if k < |fs| then fs[k] else ""
  }

  /** How loading ends: with the records, by exiting, or by writing past the allocation. */
  datatype Outcome<R> = Loaded(rows: seq<R>) | Rejected | Corrupted

  ghost predicate Aborts<R>(c: Codec<R>, ts: seq<string>) {
    exists k: nat :: k < |c.ds| && k < |ts| && c.aborts(k, ts[k])
  }

  ghost predicate ClashesWith<R>(c: Codec<R>, rows: seq<R>, r: R) {
    exists i :: 0 <= i < |rows| && c.clash(rows[i], r)
  }

  ghost predicate NoClash<R>(c: Codec<R>, rows: seq<R>) {
    forall i, j :: 0 <= i < j < |rows| ==> !c.clash(rows[i], rows[j])
  }

  /** Loading the fields ts into a table that already holds rows. */
  ghost function LoadFrom<R>(c: Codec<R>, ts: seq<string>, rows: seq<R>): Outcome<R>
    requires |c.ds| > 0
    decreases |ts|
  {
    if Aborts(c, ts) then Rejected
    else if |ts| < |c.ds| then Loaded(rows)
    else
      var r := c.decode(ts[..|c.ds|]);
      if ClashesWith(c, rows, r) then Rejected
      else if !c.fits(|rows|) then Corrupted
      else LoadFrom(c, ts[|c.ds|..], rows + [r])
  }

  ghost function Load<R>(c: Codec<R>, data: string): Outcome<R>
    requires |c.ds| > 0
  {
    LoadFrom(c, Tokens(c.ds, 0, data), [])
  }

  /** The file text of a list of records. */
  function Encode<R>(c: Codec<R>, rows: seq<R>): string
    requires |c.ds| > 0
  {
    if rows == [] then "" else Join(c.ds, 0, c.fields(rows[0])) + Encode(c, rows[1..])
  }

  lemma EncodeNothing<R>(c: Codec<R>, rows: seq<R>)
    requires |c.ds| > 0 && rows == []
    ensures Encode(c, rows) == ""
  {
  }

  lemma {:induction false} EncodeConcat<R>(c: Codec<R>, a: seq<R>, b: seq<R>)
    requires |c.ds| > 0
    ensures Encode(c, a + b) == Encode(c, a) + Encode(c, b)
  {
    if a == [] {
      assert a + b == b;
    } else {
      var first := Join(c.ds, 0, c.fields(a[0]));
      assert (a + b)[1..] == a[1..] + b;
      EncodeConcat(c, a[1..], b);
      AppendAssoc(first, Encode(c, a[1..]), Encode(c, b));
    }
  }

  /** A complete, acceptable-looking group of fields at the front of the scan. */
  lemma LoadGroup<R>(c: Codec<R>, fs: seq<string>, more: seq<string>, rows: seq<R>)
    requires |c.ds| > 0 && |fs| == |c.ds| && !Aborts(c, fs)
    ensures LoadFrom(c, fs + more, rows) ==
            if ClashesWith(c, rows, c.decode(fs)) then Rejected
            else if !c.fits(|rows|) then Corrupted
            else LoadFrom(c, more, rows + [c.decode(fs)])
  {
  }

  /** The number of the field that the scanner is in at the end of the file. */
  function EndPhase<R>(c: Codec<R>, data: string): nat
    requires |c.ds| > 0
  {
    Phase(c.ds, 0, Tokens(c.ds, 0, data))
  }

  /**
   * The state of an index loop: pending are the fields of the record being read, last is `lastIndex`, i the loop index,
   * rows the table so far; loading on from here is loading the whole file.
   */
  ghost predicate ScanAt<R>(
    c: Codec<R>, pending: seq<string>, data: string, last: nat, i: nat, rows: seq<R>, whole: Outcome<R>)
    requires |c.ds| > 0
  {
    && |pending| < |c.ds| && last <= i <= |data|
    && c.ds[|pending|] !in data[last..i]
    && !Aborts(c, pending)
    && LoadFrom(c, pending + Tokens(c.ds, |pending|, data[last..]), rows) == whole
    && Remainder(c.ds, |pending|, data[last..]) == Remainder(c.ds, 0, data)
    && Phase(c.ds, |pending|, Tokens(c.ds, |pending|, data[last..])) == EndPhase(c, data)
  }

  lemma ScanBegin<R>(c: Codec<R>, data: string, rows: seq<R>)
    requires |c.ds| > 0
    ensures ScanAt(c, [], data, 0, 0, rows, LoadFrom(c, Tokens(c.ds, 0, data), rows))
  {
    assert data[0..] == data;
    assert [] + Tokens(c.ds, 0, data) == Tokens(c.ds, 0, data);
  }

  lemma ScanSkip<R>(
    c: Codec<R>, pending: seq<string>, data: string, last: nat, i: nat, rows: seq<R>, whole: Outcome<R>)
    requires |c.ds| > 0 && ScanAt(c, pending, data, last, i, rows, whole)
    requires i < |data| && data[i] != c.ds[|pending|]
    ensures ScanAt(c, pending, data, last, i + 1, rows, whole)
  {
    hide Tokens;
    hide Remainder;
    hide LoadFrom;
    hide Phase;
    assert data[last..i + 1] == data[last..i] + [data[i]];
  }

  /** A delimiter closes a field: loading goes on with the field added to the pending ones. */
  lemma ScanClose<R>(
    c: Codec<R>, pending: seq<string>, data: string, last: nat, i: nat, rows: seq<R>, whole: Outcome<R>)
    requires |c.ds| > 0 && ScanAt(c, pending, data, last, i, rows, whole)
    requires i < |data| && data[i] == c.ds[|pending|]
    ensures var k, field := Next(c.ds, |pending|), CutAtNul(data[last..i]);
            && LoadFrom(c, pending + [field] + Tokens(c.ds, k, data[i + 1..]), rows) == whole
            && Remainder(c.ds, k, data[i + 1..]) == Remainder(c.ds, 0, data)
            && Phase(c.ds, k, Tokens(c.ds, k, data[i + 1..])) == EndPhase(c, data)
  {
    hide Tokens;
    hide Remainder;
    hide LoadFrom;
    hide Phase;
    var k, field := |pending|, CutAtNul(data[last..i]);
    ScanStep(c.ds, k, data, last, i);
    PhaseAfterField(c.ds, k, field, Tokens(c.ds, Next(c.ds, k), data[i + 1..]));
    AppendAssoc(pending, [field], Tokens(c.ds, Next(c.ds, k), data[i + 1..]));
  }

  lemma LoadAbort<R>(c: Codec<R>, pending: seq<string>, more: seq<string>, rows: seq<R>, k: nat)
    requires |c.ds| > 0 && k < |c.ds| && k < |pending| && c.aborts(k, pending[k])
    ensures LoadFrom(c, pending + more, rows) == Rejected
  {
    assert (pending + more)[k] == pending[k];
  }

  /** The loop's case of a field inside a record. */
  lemma ScanTake<R>(
    c: Codec<R>, pending: seq<string>, data: string, last: nat, i: nat, rows: seq<R>, whole: Outcome<R>)
    requires |c.ds| > 0 && ScanAt(c, pending, data, last, i, rows, whole)
    requires i < |data| && data[i] == c.ds[|pending|] && |pending| + 1 < |c.ds|
    ensures var field := CutAtNul(data[last..i]);
            if c.aborts(|pending|, field) then whole == Rejected
            else ScanAt(c, pending + [field], data, i + 1, i + 1, rows, whole)
  {
    hide Tokens;
    hide Remainder;
    hide LoadFrom;
    var k, field := |pending|, CutAtNul(data[last..i]);
    var more := Tokens(c.ds, Next(c.ds, k), data[i + 1..]);
    ScanClose(c, pending, data, last, i, rows, whole);
    if c.aborts(k, field) {
      LoadAbort(c, pending + [field], more, rows, k);
    } else {
      assert forall j: nat :: j < k ==> (pending + [field])[j] == pending[j];
    }
  }

  /** The loop's case of a field on which the loader exits. */
  lemma ScanAbort<R>(
    c: Codec<R>, pending: seq<string>, data: string, last: nat, i: nat, rows: seq<R>, whole: Outcome<R>)
    requires |c.ds| > 0 && ScanAt(c, pending, data, last, i, rows, whole)
    requires i < |data| && data[i] == c.ds[|pending|] && c.aborts(|pending|, CutAtNul(data[last..i]))
    ensures whole == Rejected
  {
    hide Tokens;
    hide LoadFrom;
    var k, field := |pending|, CutAtNul(data[last..i]);
    ScanClose(c, pending, data, last, i, rows, whole);
    LoadAbort(c, pending + [field], Tokens(c.ds, Next(c.ds, k), data[i + 1..]), rows, k);
  }

  /** The loop's case of a record completed. */
  lemma ScanDeliver<R>(
    c: Codec<R>, pending: seq<string>, data: string, last: nat, i: nat, rows: seq<R>, whole: Outcome<R>)
    requires |c.ds| > 0 && ScanAt(c, pending, data, last, i, rows, whole)
    requires i < |data| && data[i] == c.ds[|pending|] && |pending| + 1 == |c.ds|
    requires !c.aborts(|pending|, CutAtNul(data[last..i]))
    ensures var r := c.decode(pending + [CutAtNul(data[last..i])]);
            if ClashesWith(c, rows, r) then whole == Rejected
            else if !c.fits(|rows|) then whole == Corrupted
            else ScanAt(c, [], data, i + 1, i + 1, rows + [r], whole)
  {
    hide Tokens;
    hide Remainder;
    hide Phase;
    hide LoadFrom;
    var fs, more := pending + [CutAtNul(data[last..i])], Tokens(c.ds, 0, data[i + 1..]);
    ScanClose(c, pending, data, last, i, rows, whole);
    assert forall j: nat :: j < |pending| ==> fs[j] == pending[j];
    LoadGroup(c, fs, more, rows);
    assert [] + more == more;
  }

  lemma LoadUnfinished<R>(c: Codec<R>, pending: seq<string>, rows: seq<R>)
    requires |pending| < |c.ds| && !Aborts(c, pending)
    ensures LoadFrom(c, pending, rows) == Loaded(rows)
  {
  }

  /** The end of the file: an unfinished record is dropped. */
  lemma ScanFinish<R>(c: Codec<R>, pending: seq<string>, data: string, last: nat, rows: seq<R>, whole: Outcome<R>)
    requires |c.ds| > 0 && ScanAt(c, pending, data, last, |data|, rows, whole)
    ensures whole == Loaded(rows)
    ensures data[last..] == Remainder(c.ds, 0, data)
    ensures |pending| == EndPhase(c, data)
  {
    assert data[last..|data|] == data[last..];
    ScanNothing(c.ds, |pending|, data[last..]);
    assert pending + [] == pending;
    LoadUnfinished(c, pending, rows);
  }

  lemma {:induction false} EncodeAppend<R>(c: Codec<R>, rows: seq<R>, r: R)
    requires |c.ds| > 0
    ensures Encode(c, rows + [r]) == Encode(c, rows) + Join(c.ds, 0, c.fields(r))
  {
    if rows == [] {
      assert rows + [r] == [r] && [r][1..] == [];
    } else {
      assert (rows + [r])[1..] == rows[1..] + [r];
      EncodeAppend(c, rows[1..], r);
    }
  }

  /** Loading never drops records. */
  lemma {:induction false} LoadGrows<R>(c: Codec<R>, ts: seq<string>, before: seq<R>)
    requires |c.ds| > 0
    ensures LoadFrom(c, ts, before).Loaded? ==> before <= LoadFrom(c, ts, before).rows
    decreases |ts|
  {
    if !Aborts(c, ts) && |ts| >= |c.ds| {
      LoadGrows(c, ts[|c.ds|..], before + [c.decode(ts[..|c.ds|])]);
    }
  }

  /** The printed fields of r scan clean and are read as the record q. */
  ghost predicate ReadsAs<R>(c: Codec<R>, r: R, q: R)
    requires |c.ds| > 0
  {
    var fs := c.fields(r);
    |fs| == |c.ds| && Clean(c.ds, 0, fs) && !Aborts(c, fs) && c.decode(fs) == q
  }

  /** A record whose printed fields scan and decode back to it. */
  ghost predicate Storable<R>(c: Codec<R>, r: R)
    requires |c.ds| > 0
  {
    ReadsAs(c, r, r)
  }

  ghost predicate AllReadAs<R>(c: Codec<R>, rows: seq<R>, images: seq<R>)
    requires |c.ds| > 0
  {
    |rows| == |images| && forall i :: 0 <= i < |rows| ==> ReadsAs(c, rows[i], images[i])
  }

  /** Loading one saved record in front of more data. */
  lemma LoadRow<R>(c: Codec<R>, r: R, image: R, rest: string, before: seq<R>)
    requires |c.ds| > 0 && ReadsAs(c, r, image) && !ClashesWith(c, before, image)
    ensures LoadFrom(c, Tokens(c.ds, 0, Join(c.ds, 0, c.fields(r)) + rest), before)
         == if c.fits(|before|) then LoadFrom(c, Tokens(c.ds, 0, rest), before + [image]) else Corrupted
    ensures Remainder(c.ds, 0, Join(c.ds, 0, c.fields(r)) + rest) == Remainder(c.ds, 0, rest)
    ensures EndPhase(c, Join(c.ds, 0, c.fields(r)) + rest) == EndPhase(c, rest)
  {
    hide Tokens;
    hide Remainder;
    hide LoadFrom;
    hide Join;
    hide Phase;
    var fs := c.fields(r);
    ScanJoined(c.ds, 0, fs, rest);
    PhaseOfFields(c.ds, 0, fs);
    PhaseOfConcatenation(c.ds, 0, fs, Tokens(c.ds, 0, rest));
    LoadGroup(c, fs, Tokens(c.ds, 0, rest), before);
  }

  lemma FirstDoesNotClash<R>(c: Codec<R>, before: seq<R>, rows: seq<R>)
    requires rows != [] && NoClash(c, before + rows)
    ensures !ClashesWith(c, before, rows[0])
  {
    forall i | 0 <= i < |before| ensures !c.clash(before[i], rows[0]) {
      assert (before + rows)[i] == before[i] && (before + rows)[|before|] == rows[0];
    }
  }

  /** Saving then loading records that are read as compatible ones, within the allocation: those come back. */
  lemma {:induction false} LoadImages<R>(c: Codec<R>, rows: seq<R>, images: seq<R>, tail: string, before: seq<R>)
    requires |c.ds| > 0 && AllReadAs(c, rows, images) && NoClash(c, before + images)
    requires forall k: nat :: |before| <= k < |before| + |rows| ==> c.fits(k)
    ensures LoadFrom(c, Tokens(c.ds, 0, Encode(c, rows) + tail), before)
         == LoadFrom(c, Tokens(c.ds, 0, tail), before + images)
    ensures Remainder(c.ds, 0, Encode(c, rows) + tail) == Remainder(c.ds, 0, tail)
    ensures EndPhase(c, Encode(c, rows) + tail) == EndPhase(c, tail)
    decreases |rows|
  {
    hide Tokens;
    hide Remainder;
    hide LoadFrom;
    hide Join;
    if rows == [] {
      assert Encode(c, rows) + tail == tail && before + images == before;
    } else {
      var later, rest := rows[1..], Encode(c, rows[1..]) + tail;
      AppendAssoc(Join(c.ds, 0, c.fields(rows[0])), Encode(c, later), tail);
      FirstDoesNotClash(c, before, images);
      LoadRow(c, rows[0], images[0], rest, before);
      assert before + [images[0]] + images[1..] == before + images;
      LoadImages(c, later, images[1..], tail, before + [images[0]]);
    }
  }

  /** Saving then loading: records that are storable, compatible and within the allocation come back unchanged. */
  lemma LoadEncoded<R>(c: Codec<R>, rows: seq<R>, tail: string, before: seq<R>)
    requires |c.ds| > 0
    requires forall r :: r in rows ==> Storable(c, r)
    requires NoClash(c, before + rows)
    requires forall k: nat :: |before| <= k < |before| + |rows| ==> c.fits(k)
    ensures LoadFrom(c, Tokens(c.ds, 0, Encode(c, rows) + tail), before)
         == LoadFrom(c, Tokens(c.ds, 0, tail), before + rows)
    ensures Remainder(c.ds, 0, Encode(c, rows) + tail) == Remainder(c.ds, 0, tail)
    ensures EndPhase(c, Encode(c, rows) + tail) == EndPhase(c, tail)
  {
    forall i | 0 <= i < |rows| ensures ReadsAs(c, rows[i], rows[i]) {
      assert Storable(c, rows[i]);
    }
    LoadImages(c, rows, rows, tail, before);
  }

  lemma EncodeSplit<R>(c: Codec<R>, rows: seq<R>, k: nat)
    requires |c.ds| > 0 && k < |rows|
    ensures Encode(c, rows) == Encode(c, rows[..k]) + (Join(c.ds, 0, c.fields(rows[k])) + Encode(c, rows[k + 1..]))
  {
    assert rows == rows[..k] + rows[k..] && rows[k..][1..] == rows[k + 1..];
    EncodeConcat(c, rows[..k], rows[k..]);
  }

  /** Loading a saved list arrives at record k with the records before it. */
  lemma LoadFront<R>(c: Codec<R>, rows: seq<R>, k: nat)
    requires |c.ds| > 0 && NoClash(c, rows) && k < |rows|
    requires forall i :: 0 <= i < k ==> Storable(c, rows[i]) && c.fits(i)
    ensures Load(c, Encode(c, rows)) ==
            LoadFrom(c, Tokens(c.ds, 0, Join(c.ds, 0, c.fields(rows[k])) + Encode(c, rows[k + 1..])), rows[..k])
  {
    hide Tokens;
    hide LoadFrom;
    hide Join;
    hide Encode;
    hide Storable;
    var front := rows[..k];
    EncodeSplit(c, rows, k);
    assert [] + front == front;
    LoadEncoded(c, front, Join(c.ds, 0, c.fields(rows[k])) + Encode(c, rows[k + 1..]), []);
  }

  /** One record more than the allocation holds is written behind it, whatever follows in the file. */
  lemma {:induction false} OverfullCorrupts<R>(
    c: Codec<R>, rows: seq<R>, images: seq<R>, tail: string, before: seq<R>, room: nat)
    requires |c.ds| > 0 && AllReadAs(c, rows, images) && NoClash(c, before + images)
    requires |before| <= room < |before| + |rows| && !c.fits(room)
    ensures LoadFrom(c, Tokens(c.ds, 0, Encode(c, rows) + tail), before) == Corrupted
    decreases |rows|
  {
    hide Tokens;
    hide LoadFrom;
    hide Join;
    var later, rest := rows[1..], Encode(c, rows[1..]) + tail;
    AppendAssoc(Join(c.ds, 0, c.fields(rows[0])), Encode(c, later), tail);
    FirstDoesNotClash(c, before, images);
    LoadRow(c, rows[0], images[0], rest, before);
    if c.fits(|before|) {
      assert before + [images[0]] + images[1..] == before + images;
      OverfullCorrupts(c, later, images[1..], tail, before + [images[0]], room);
    }
  }

  /** No load yields more records than the allocation holds. */
  lemma {:induction false} LoadedFits<R>(c: Codec<R>, ts: seq<string>, before: seq<R>, room: nat)
    requires |c.ds| > 0 && |before| <= room && !c.fits(room)
    ensures LoadFrom(c, ts, before).Loaded? ==> |LoadFrom(c, ts, before).rows| <= room
    decreases |ts|
  {
    if !Aborts(c, ts) && |ts| >= |c.ds| {
      var r := c.decode(ts[..|c.ds|]);
      if !ClashesWith(c, before, r) && c.fits(|before|) {
        LoadedFits(c, ts[|c.ds|..], before + [r], room);
      }
    }
  }

  lemma RoundTrip<R>(c: Codec<R>, rows: seq<R>)
    requires |c.ds| > 0
    requires forall r :: r in rows ==> Storable(c, r)
    requires NoClash(c, rows)
    requires forall k: nat :: k < |rows| ==> c.fits(k)
    ensures Load(c, Encode(c, rows)) == Loaded(rows)
    ensures Remainder(c.ds, 0, Encode(c, rows)) == "" && EndPhase(c, Encode(c, rows)) == 0
  {
    assert [] + rows == rows && Encode(c, rows) + "" == Encode(c, rows);
    LoadEncoded(c, rows, "", []);
  }

  /** A record that clashes with an earlier one makes the loader exit, whatever follows. */
  lemma {:induction false} ClashIsRefused<R>(c: Codec<R>, rows: seq<R>, tail: string, before: seq<R>)
    requires |c.ds| > 0 && NoClash(c, before) && !NoClash(c, before + rows)
    requires forall r :: r in rows ==> Storable(c, r)
    requires forall k: nat :: |before| <= k < |before| + |rows| ==> c.fits(k)
    ensures LoadFrom(c, Tokens(c.ds, 0, Encode(c, rows) + tail), before) == Rejected
    decreases |rows|
  {
    hide Tokens;
    hide LoadFrom;
    hide Join;
    hide ReadsAs;
    assert before + [] == before;
    if rows != [] {
      var r, later := rows[0], rows[1..];
      var rest := Encode(c, later) + tail;
      AppendAssoc(Join(c.ds, 0, c.fields(r)), Encode(c, later), tail);
      assert Storable(c, r);
      if ClashesWith(c, before, r) {
        ClashingRow(c, r, rest, before);
      } else {
        LoadRow(c, r, r, rest, before);
        assert before + [r] + later == before + rows;
        ClashIsRefused(c, later, tail, before + [r]);
      }
    }
  }

  lemma ClashingRow<R>(c: Codec<R>, r: R, rest: string, before: seq<R>)
    requires |c.ds| > 0 && Storable(c, r) && ClashesWith(c, before, r)
    ensures LoadFrom(c, Tokens(c.ds, 0, Join(c.ds, 0, c.fields(r)) + rest), before) == Rejected
  {
    hide Tokens;
    hide LoadFrom;
    hide Join;
    hide Phase;
    var fs := c.fields(r);
    ScanJoined(c.ds, 0, fs, rest);
    PhaseOfFields(c.ds, 0, fs);
    LoadGroup(c, fs, Tokens(c.ds, 0, rest), before);
  }

  /** Storable records within the allocation come back exactly when they are compatible; otherwise no start succeeds. */
  lemma RoundTripExactly<R>(c: Codec<R>, rows: seq<R>)
    requires |c.ds| > 0
    requires forall r :: r in rows ==> Storable(c, r)
    requires forall k: nat :: k < |rows| ==> c.fits(k)
    ensures Load(c, Encode(c, rows)) == if NoClash(c, rows) then Loaded(rows) else Rejected
  {
    hide Tokens;
    hide LoadFrom;
    hide Storable;
    assert [] + rows == rows && Encode(c, rows) + "" == Encode(c, rows);
    if NoClash(c, rows) {
      RoundTrip(c, rows);
    } else {
      ClashIsRefused(c, rows, "", []);
    }
  }

  /** Whatever file is loaded, the records are pairwise compatible and each was decoded from clean fields. */
  lemma {:induction false} LoadedRows<R>(c: Codec<R>, ts: seq<string>, before: seq<R>, ok: R -> bool)
    requires |c.ds| > 0 && Clean(c.ds, 0, ts)
    requires forall fs: seq<string> ::
               |fs| == |c.ds| && Clean(c.ds, 0, fs) && !Aborts(c, fs) ==> ok(c.decode(fs))
    requires NoClash(c, before) && forall r :: r in before ==> ok(r)
    ensures var o := LoadFrom(c, ts, before);
            o.Loaded? ==> NoClash(c, o.rows) && before <= o.rows && forall r :: r in o.rows ==> ok(r)
    decreases |ts|
  {
    var n := |c.ds|;
    if !Aborts(c, ts) && |ts| >= n {
      var fs := ts[..n];
      assert ts == fs + ts[n..];
      CleanPrefix(c.ds, 0, fs, ts[n..]);
      PhaseOfFields(c.ds, 0, fs);
      var r := c.decode(fs);
      assert !Aborts(c, fs) by {
        assert forall k: nat :: k < n ==> fs[k] == ts[k];
      }
      if !ClashesWith(c, before, r) && c.fits(|before|) {
        LoadedRows(c, ts[n..], before + [r], ok);
      }
    }
  }

  // ---- exactly which files load, and to what ----

  /** The records that the complete groups of fields decode to, whether or not the loader accepts them. */
  function Groups<R>(c: Codec<R>, ts: seq<string>): seq<R>
    requires |c.ds| > 0
    decreases |ts|
  {
    if |ts| < |c.ds| then [] else [c.decode(ts[..|c.ds|])] + Groups(c, ts[|c.ds|..])
  }

  /** No field, whichever record it belongs to, and be that incomplete, makes the loader exit. */
  ghost predicate Quiet<R>(c: Codec<R>, ts: seq<string>)
    requires |c.ds| > 0
  {
    forall k: nat :: k < |ts| ==> !c.aborts(k % |c.ds|, ts[k])
  }

  lemma QuietSplit<R>(c: Codec<R>, ts: seq<string>)
    requires |c.ds| > 0
    ensures |ts| < |c.ds| ==> (Quiet(c, ts) <==> !Aborts(c, ts))
    ensures |ts| >= |c.ds| ==> (Quiet(c, ts) <==> !Aborts(c, ts) && Quiet(c, ts[|c.ds|..]))
  {
    var n := |c.ds|;
    forall k: nat | k < n ensures k % n == k {
      QuotientUnique(k, n, 0, k);
    }
    forall k: nat ensures (k + n) % n == k % n {
      QuotientUnique(k + n, n, k / n + 1, k % n);
    }
    if |ts| >= n {
      var later := ts[n..];
      if Quiet(c, ts) {
        forall k: nat | k < |later| ensures !c.aborts(k % n, later[k]) {
          assert later[k] == ts[k + n];
        }
      }
      if !Aborts(c, ts) && Quiet(c, later) {
        forall k: nat | k < |ts| ensures !c.aborts(k % n, ts[k]) {
          if k >= n {
            assert ts[k] == later[k - n] && k == (k - n) + n;
          }
        }
      }
    }
  }

  lemma NoClashStep<R>(c: Codec<R>, before: seq<R>, r: R, later: seq<R>)
    ensures NoClash(c, before + [r] + later) ==> !ClashesWith(c, before, r)
    ensures NoClash(c, before) && !ClashesWith(c, before, r) ==> NoClash(c, before + [r])
  {
    var all := before + [r] + later;
    assert all[|before|] == r && forall i :: 0 <= i < |before| ==> all[i] == before[i];
  }

  /**
   * Any fields at all load exactly when none of them makes the loader exit, no two of their records clash, and every
   * record finds room; and then they load to those records.
   */
  lemma {:induction false} LoadsExactly<R>(c: Codec<R>, ts: seq<string>, before: seq<R>)
    requires |c.ds| > 0 && NoClash(c, before)
    ensures var o, all := LoadFrom(c, ts, before), before + Groups(c, ts);
            && (o.Loaded? <==>
                  Quiet(c, ts) && NoClash(c, all) && forall k: nat :: |before| <= k < |all| ==> c.fits(k))
            && (o.Loaded? ==> o.rows == all)
    decreases |ts|
  {
    hide Quiet;
    hide Aborts;
    hide NoClash;
    hide ClashesWith;
    QuietSplit(c, ts);
    if |ts| < |c.ds| {
      assert before + Groups(c, ts) == before;
    } else {
      var r, later := c.decode(ts[..|c.ds|]), ts[|c.ds|..];
      assert before + [r] + Groups(c, later) == before + Groups(c, ts);
      NoClashStep(c, before, r, Groups(c, later));
      if !Aborts(c, ts) && !ClashesWith(c, before, r) && c.fits(|before|) {
        LoadsExactly(c, later, before + [r]);
      }
    }
  }
}
