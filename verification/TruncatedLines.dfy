/**
 * Services whose line does not fit the saver's buffer: the cut line runs into the next one, and however the pieces
 * fall together, the saved list never comes back.
 */
module TruncatedLines {
  import opened CStrings
  import opened Decimal
  import opened Scanner
  import opened Services

  /** The fields start with the names and repositories of the services, in order. */
  ghost predicate Spells(ts: seq<string>, rows: seq<Service>)
    decreases |rows|
  {
    rows == [] || (|ts| >= 3 && ts[0] == rows[0].name && ts[1] == rows[0].repo && Spells(ts[3..], rows[1..]))
  }

  lemma {:induction false} LoadedIsSpelled(ts: seq<string>, before: seq<Service>, rows: seq<Service>)
    requires LoadFrom(SERVICES, ts, before) == Loaded(before + rows)
    ensures Spells(ts, rows)
    decreases |rows|
  {
    if rows != [] {
      assert |before + rows| > |before|;
      var r := DecodeService(ts[..3]);
      LoadGrows(SERVICES, ts[3..], before + [r]);
      assert (before + rows)[|before|] == r;
      assert before + rows == (before + [r]) + rows[1..];
      LoadedIsSpelled(ts[3..], before + [r], rows[1..]);
    }
  }

  /** The first closed field of a text, and what follows it. */
  lemma NextField(k: nat, text: string) returns (field: string, rest: string)
    requires k < 3 && NulFree(text) && Tokens(SERVICE_DELIMITERS, k, text) != []
    ensures text == field + [SERVICE_DELIMITERS[k]] + rest && SERVICE_DELIMITERS[k] !in field
    ensures NulFree(field) && NulFree(rest)
    ensures Tokens(SERVICE_DELIMITERS, k, text) ==
            [field] + Tokens(SERVICE_DELIMITERS, Next(SERVICE_DELIMITERS, k), rest)
  {
    hide Tokens;
    hide CutAtNul;
    var ds := SERVICE_DELIMITERS;
    if ds[k] !in text {
      ScanNothing(ds, k, text);
    }
    field, rest := FirstField(ds[k], text);
    CutAtNulIdentity(field);
    ScanField(ds, k, field, rest);
  }

  /** A record as it is written. */
  function Written(name: string, repo: string, pid: string): string {
    name + "^" + repo + "#" + pid + "\n"
  }

  lemma WrittenIsJoin(name: string, repo: string, pid: string)
    ensures Written(name, repo, pid) == Join(SERVICE_DELIMITERS, 0, [name, repo, pid])
  {
    var ds, fs := SERVICE_DELIMITERS, [name, repo, pid];
    JoinTail(ds, 2, fs);
    JoinTail(ds, 1, fs);
    JoinTail(ds, 0, fs);
    assert fs[0..] == fs && Join(ds, 2, fs[2..]) == pid + "\n";
    AppendField(name + "^", repo, "#", pid + "\n");
    AppendAssoc(name + "^" + repo + "#", pid, "\n");
  }

  lemma ThreeFieldsAreClean(name: string, repo: string, pid: string)
    requires '^' !in name && '#' !in repo && '\n' !in pid && NulFree(name) && NulFree(repo) && NulFree(pid)
    ensures Clean(SERVICE_DELIMITERS, 0, [name, repo, pid])
  {
    var ds, fs := SERVICE_DELIMITERS, [name, repo, pid];
    assert Clean(ds, 2, fs[2..]) by { assert fs[2..][1..] == []; }
    assert Clean(ds, 1, fs[1..]) by { assert fs[1..][1..] == fs[2..]; }
  }

  /** The first three closed fields of a text, and what follows them. */
  lemma FirstRecord(text: string) returns (name: string, repo: string, pid: string, rest: string)
    requires NulFree(text) && |Tokens(SERVICE_DELIMITERS, 0, text)| >= 3
    ensures text == Written(name, repo, pid) + rest && NulFree(rest)
    ensures Tokens(SERVICE_DELIMITERS, 0, text) == [name, repo, pid] + Tokens(SERVICE_DELIMITERS, 0, rest)
    ensures Clean(SERVICE_DELIMITERS, 0, [name, repo, pid])
  {
    hide Tokens;
    hide Clean;
    hide NulFree;
    var more, last;
    name, more := NextField(0, text);
    repo, last := NextField(1, more);
    pid, rest := NextField(2, last);
    ThreeFieldsAreClean(name, repo, pid);
  }

  /** Inside one line, the name and the repository can be read only from its start. */
  lemma NotInside(name: string, repo: string, pid: string, at: nat, behind: string)
    requires '^' !in name && '#' !in repo && '^' !in pid && 0 < at <= |Written(name, repo, pid)|
    ensures Written(name, repo, pid)[at..] != name + "^" + repo + "#" + behind
  {
    var line, found, hash := Written(name, repo, pid), name + "^" + repo + "#" + behind, |name| + 1 + |repo|;
    var i := if at <= |name| then |name| - at else if at + |name| < hash then hash - at else |name|;
    if at + i < |line| {
      assert line[at + i] == line[at..][i];
      if at <= |name| {
        assert found[i] == name[i] && line[at + i] == '^';
      } else if at + |name| < hash {
        assert found[i] == repo[i - |name| - 1] && line[at + i] == '#';
      } else {
        assert found[i] == '^' && (at + i == hash || line[at + i] == (pid + "\n")[at + i - hash - 1]);
      }
    }
  }

  /** Services whose lines are written and read: good ones, in any number. */
  ghost predicate AllGood(rows: seq<Service>) {
    forall s :: s in rows ==> GoodService(s)
  }

  lemma RestIsGood(rows: seq<Service>)
    requires AllGood(rows) && rows != []
    ensures GoodService(rows[0]) && AllGood(rows[1..])
  {
    assert rows[0] in rows && forall s :: s in rows[1..] ==> s in rows;
  }

  lemma CutLineIsNulFree(s: Service)
    requires GoodService(s)
    ensures NulFree(CutLine(ServiceLine(s)))
  {
    PrintAlphabet(Signed32(s.pid), '\0');
  }

  /** What the saver wrote for a list is free of NULs. */
  lemma {:induction false} CutLinesAreNulFree(rows: seq<Service>)
    requires AllGood(rows)
    ensures NulFree(CutLines(rows))
  {
    hide CutLine;
    if rows != [] {
      RestIsGood(rows);
      CutLineIsNulFree(rows[0]);
      CutLinesAreNulFree(rows[1..]);
    }
  }

  /** A record that spells s, read from inside the line of s, ends behind that line. */
  lemma EndsBehind(s: Service, at: nat, later: string, pid: string, rest: string)
    requires GoodService(s) && 0 < at <= |CutLine(ServiceLine(s))|
    requires CutLine(ServiceLine(s))[at..] + later == Written(s.name, s.repo, pid) + rest
    ensures |rest| < |later|
  {
    var line, cut, record := ServiceLine(s), CutLine(ServiceLine(s)), Written(s.name, s.repo, pid);
    if |rest| >= |later| {
      PrintAlphabet(Signed32(s.pid), '^');
      var behind := line[at..][|s.name| + |s.repo| + 2..];
      assert record == (cut[at..] + later)[..|record|] == cut[at..][..|record|];
      assert line[at..][..|record|] == record;
      assert record[..|s.name| + |s.repo| + 2] == s.name + "^" + s.repo + "#";
      assert line[at..] == line[at..][..|s.name| + |s.repo| + 2] + behind;
      NotInside(s.name, s.repo, Print(Signed32(s.pid)), at, behind);
    }
  }

  /** A record that spells s, read from the start of its line when that is cut, ends behind it too. */
  lemma CutEndsBehind(s: Service, later: string, pid: string, rest: string)
    requires GoodService(s) && s.cloned && |ServiceLine(s)| > LINE_MAX
    requires CutLine(ServiceLine(s)) + later == Written(s.name, s.repo, pid) + rest
    requires Clean(SERVICE_DELIMITERS, 0, [s.name, s.repo, pid])
    ensures |rest| < |later|
  {
    var ds, record := SERVICE_DELIMITERS, Written(s.name, s.repo, pid);
    var line, cut := ServiceLine(s), CutLine(ServiceLine(s));
    if |rest| >= |later| {
      var tail := cut[|record|..];
      assert record == (cut + later)[..|record|] == cut[..|record|];
      assert cut == record + tail && line == cut + line[LINE_MAX..];
      WrittenIsJoin(s.name, s.repo, pid);
      ServiceLineIsJoin(s);
      GoodServiceIsStorable(s);
      CutRecordIsUnfinished(ds, ServiceFields(s), cut, line[LINE_MAX..]);
      ScanJoined(ds, 0, [s.name, s.repo, pid], tail);
    }
  }

  lemma SpellsFirst(a: string, b: string, c: string, more: seq<string>, rows: seq<Service>)
    requires rows != [] && Spells([a, b, c] + more, rows)
    ensures a == rows[0].name && b == rows[0].repo && Spells(more, rows[1..])
  {
    assert ([a, b, c] + more)[3..] == more;
  }

  lemma EndOfEnd(head: string, later: string, front: string, rest: string)
    requires head + later == front + rest && |rest| <= |later|
    ensures rest == later[|later| - |rest|..]
  {
    var text := head + later;
    assert rest == text[|text| - |rest|..] && later == text[|head|..];
  }

  /** The rest behind the first record is a proper part at the end of the later lines, so it spells nothing either. */
  lemma RestSpellsNothing(rows: seq<Service>, head: string, front: string, rest: string)
    requires AllGood(rows) && rows != []
    requires head + CutLines(rows[1..]) == front + rest && |rest| < |CutLines(rows[1..])|
    ensures !Spells(Tokens(SERVICE_DELIMITERS, 0, rest), rows[1..])
    decreases |rows|, 0
  {
    hide Tokens;
    hide Spells;
    var later := CutLines(rows[1..]);
    EndOfEnd(head, later, front, rest);
    RestIsGood(rows);
    PartSpellsNothing(rows[1..], |later| - |rest|);
  }

  /** No proper part at the end of what was written spells the list. */
  lemma {:induction false} PartSpellsNothing(rows: seq<Service>, at: nat)
    requires AllGood(rows) && rows != [] && 0 < at <= |CutLines(rows)|
    ensures !Spells(Tokens(SERVICE_DELIMITERS, 0, CutLines(rows)[at..]), rows)
    decreases |rows|, 1
  {
    hide Tokens;
    hide Clean;
    hide ServiceLine;
    hide CutLine;
    hide Written;
    var text, later, cut := CutLines(rows)[at..], CutLines(rows[1..]), CutLine(ServiceLine(rows[0]));
    if Spells(Tokens(SERVICE_DELIMITERS, 0, text), rows) {
      CutLinesAreNulFree(rows);
      RestIsGood(rows);
      var name, repo, pid, rest := FirstRecord(text);
      SpellsFirst(name, repo, pid, Tokens(SERVICE_DELIMITERS, 0, rest), rows);
      WrittenIsLong(name, repo, pid);
      if at <= |cut| {
        assert text == cut[at..] + later;
        EndsBehind(rows[0], at, later, pid, rest);
        RestSpellsNothing(rows, cut[at..], Written(name, repo, pid), rest);
      } else {
        var skipped := later[..at - |cut|];
        assert later == skipped + text;
        AppendAssoc(skipped, Written(name, repo, pid), rest);
        assert "" + later == later;
        RestSpellsNothing(rows, "", skipped + Written(name, repo, pid), rest);
      }
    }
  }

  lemma WrittenIsLong(name: string, repo: string, pid: string)
    ensures |Written(name, repo, pid)| > 0
  {
  }

  /** What was written with a cut line does not spell the list. */
  lemma {:induction false} CutListIsNotSpelled(rows: seq<Service>)
    requires AllGood(rows) && (forall s :: s in rows ==> s.cloned)
    requires exists s :: s in rows && |ServiceLine(s)| > LINE_MAX
    ensures !Spells(Tokens(SERVICE_DELIMITERS, 0, CutLines(rows)), rows)
    decreases |rows|
  {
    hide Tokens;
    hide Clean;
    hide ServiceLine;
    hide Written;
    var text, later, first := CutLines(rows), CutLines(rows[1..]), rows[0];
    RestIsGood(rows);
    if Spells(Tokens(SERVICE_DELIMITERS, 0, text), rows) {
      CutLinesAreNulFree(rows);
      var name, repo, pid, rest := FirstRecord(text);
      SpellsFirst(name, repo, pid, Tokens(SERVICE_DELIMITERS, 0, rest), rows);
      if |ServiceLine(first)| > LINE_MAX {
        CutEndsBehind(first, later, pid, rest);
        RestSpellsNothing(rows, CutLine(ServiceLine(first)), Written(name, repo, pid), rest);
      } else {
        WholeLine(first, later, name, repo, pid, rest);
        assert forall s :: s in rows ==> s == first || s in rows[1..];
        CutListIsNotSpelled(rows[1..]);
      }
    }
  }

  /** A whole line is read as it was written, up to its end. */
  lemma WholeLine(s: Service, later: string, name: string, repo: string, pid: string, rest: string)
    requires GoodService(s) && s.cloned
    requires Tokens(SERVICE_DELIMITERS, 0, ServiceLine(s) + later) ==
             [name, repo, pid] + Tokens(SERVICE_DELIMITERS, 0, rest)
    ensures Tokens(SERVICE_DELIMITERS, 0, rest) == Tokens(SERVICE_DELIMITERS, 0, later)
  {
    hide Tokens;
    hide Clean;
    var ds, fs := SERVICE_DELIMITERS, ServiceFields(s);
    ServiceLineIsJoin(s);
    GoodServiceIsStorable(s);
    ScanJoined(ds, 0, fs, later);
    PhaseOfFields(ds, 0, fs);
    var ts := Tokens(ds, 0, ServiceLine(s) + later);
    assert ts[3..] == Tokens(ds, 0, later) && ts[3..] == Tokens(ds, 0, rest);
  }

  /**
   * Saved services come back exactly when no line of a cloned one is cut: with a cut line, the text that is left never
   * loads to the list, however the pieces run together.
   */
  lemma ServicesRoundTripExactly(file: string, rows: seq<Service>)
    requires GoodServices(rows) && (rows == [] || Cloned(rows) != [])
    ensures Load(SERVICES, SavedServices(file, rows)) == Loaded(Cloned(rows))
       <==> forall s :: s in rows && s.cloned ==> |ServiceLine(s)| <= LINE_MAX
  {
    hide LoadFrom;
    hide Tokens;
    hide ServiceLine;
    var saved := Cloned(rows);
    ClonedMembers(rows);
    ClonedKeepsGood(rows);
    if forall s :: s in rows && s.cloned ==> |ServiceLine(s)| <= LINE_MAX {
      ServicesRoundTrip(file, rows);
    } else {
      CutListIsNotSpelled(saved);
      if Load(SERVICES, CutLines(saved)) == Loaded(saved) {
        assert [] + saved == saved;
        LoadedIsSpelled(Tokens(SERVICE_DELIMITERS, 0, CutLines(saved)), [], saved);
      }
    }
  }
}
