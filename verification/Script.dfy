/**
 * The mrn-run interpreter: a script is scanned into lines, a line into words, and each line changes directory or
 * executes.
 */
module Script {
  import opened CStrings

  /** s split at every c; a final c closes the last piece and opens no empty one. */
  function Pieces(c: char, s: string): seq<string>
    decreases |s|
  {
    if s == "" then [] else
      var j := IndexOf(c, s);
      if j == |s| then [s] else [s[..j]] + Pieces(c, s[j + 1..])
  }

  /** Pieces joined by single separators. */
  function Glue(c: char, ps: seq<string>): string {
    if ps == [] then "" else if |ps| == 1 then ps[0] else ps[0] + [c] + Glue(c, ps[1..])
  }

  predicate EndsWith(s: string, c: char) {
    s != "" && s[|s| - 1] == c
  }

  lemma PiecesFirst(c: char, first: string, rest: string)
    requires c !in first
    ensures Pieces(c, first + [c] + rest) == [first] + Pieces(c, rest)
  {
    var s := first + [c] + rest;
    assert s[..|first|] == first && s[|first| + 1..] == rest;
    IndexOfUnique(c, s, |first|);
  }

  lemma PiecesWhole(c: char, s: string)
    requires c !in s
    ensures Pieces(c, s) == if s == "" then [] else [s]
  {
  }

  lemma PiecesOfNothing(c: char, s: string)
    ensures Pieces(c, s) == [] <==> s == ""
  {
  }

  /** Nothing is lost: joining the pieces rebuilds the text, up to one final separator, and no piece contains one. */
  lemma {:induction false} PiecesAreLossless(c: char, s: string)
    ensures s == Glue(c, Pieces(c, s)) + if EndsWith(s, c) then [c] else ""
    ensures forall p :: p in Pieces(c, s) ==> c !in p
    decreases |s|
  {
    hide Pieces;
    if c !in s {
      PiecesWhole(c, s);
    } else {
      var first, rest := FirstField(c, s);
      var ps, tail := Pieces(c, rest), if EndsWith(rest, c) then [c] else "";
      PiecesFirst(c, first, rest);
      PiecesAreLossless(c, rest);
      assert ([first] + ps)[1..] == ps;
      PiecesOfNothing(c, rest);
      if rest == "" {
        assert s == first + [c];
      } else {
        assert Glue(c, [first] + ps) == first + [c] + Glue(c, ps);
        AppendAssoc(first + [c], Glue(c, ps), tail);
      }
    }
  }

  /** Behind a final separator the split starts afresh. */
  lemma {:induction false} PiecesOfConcatenation(c: char, a: string, b: string)
    requires a == "" || EndsWith(a, c)
    ensures Pieces(c, a + b) == Pieces(c, a) + Pieces(c, b)
    decreases |a|
  {
    if a == "" {
      assert a + b == b;
    } else {
      assert a[|a| - 1] in a;
      var first, rest := FirstField(c, a);
      PiecesFirst(c, first, rest);
      AppendAssoc(first + [c], rest, b);
      PiecesFirst(c, first, rest + b);
      assert rest != "" ==> rest[|rest| - 1] == a[|a| - 1];
      PiecesOfConcatenation(c, rest, b);
      AppendAssoc([first], Pieces(c, rest), Pieces(c, b));
    }
  }

  // ---- the tokenizer ----

  /** The argument slots of one command, the closing null included. */
  const ARGUMENTS := 20

  function Words(command: string): seq<string> {
    Pieces(' ', command)
  }

  /** One step of a splitting loop: the part scanned so far is last..i, without a separator. */
  lemma PiecesStep(c: char, s: string, last: nat, i: nat)
    requires last <= i < |s| && c !in s[last..i]
    ensures s[i] == c ==> Pieces(c, s[last..]) == [s[last..i]] + Pieces(c, s[i + 1..])
    ensures s[i] != c && i == |s| - 1 ==> Pieces(c, s[last..]) == [s[last..]]
  {
    if s[i] == c {
      SplitAt(s, last, i);
      PiecesFirst(c, s[last..i], s[i + 1..]);
    } else if i == |s| - 1 {
      assert s[last..] == s[last..i] + [s[i]];
      PiecesWhole(c, s[last..]);
    }
  }

  /** How often c occurs in s. */
  function Count(c: char, s: string): nat {
    if s == "" then 0 else (if s[0] == c then 1 else 0) + Count(c, s[1..])
  }

  lemma {:induction false} CountOfConcatenation(c: char, a: string, b: string)
    ensures Count(c, a + b) == Count(c, a) + Count(c, b)
  {
    if a == "" {
      assert a + b == b;
    } else {
      assert (a + b)[1..] == a[1..] + b;
      CountOfConcatenation(c, a[1..], b);
    }
  }

  lemma {:induction false} CountOfOthers(c: char, s: string)
    requires c !in s
    ensures Count(c, s) == 0
  {
    if s != "" {
      CountOfOthers(c, s[1..]);
    }
  }

  /** There is a piece for every separator, and one for what follows the last. */
  lemma {:induction false} PieceCount(c: char, s: string)
    ensures |Pieces(c, s)| == Count(c, s) + if s == "" || EndsWith(s, c) then 0 else 1
    decreases |s|
  {
    hide Pieces;
    if c !in s {
      PiecesWhole(c, s);
      CountOfOthers(c, s);
    } else {
      var first, rest := FirstField(c, s);
      PiecesFirst(c, first, rest);
      PieceCount(c, rest);
      CountOfOthers(c, first);
      CountOfConcatenation(c, first + [c], rest);
      CountOfConcatenation(c, first, [c]);
      assert [c][1..] == "";
      assert rest != "" ==> rest[|rest| - 1] == s[|s| - 1];
    }
  }

  /** A command fits the argument array exactly when it has fewer than nineteen spaces, or ends in the nineteenth. */
  lemma FitsExactly(command: string)
    ensures |Words(command)| < ARGUMENTS
       <==> Count(' ', command) < ARGUMENTS - 1 || (Count(' ', command) == ARGUMENTS - 1 && EndsWith(command, ' '))
  {
    PieceCount(' ', command);
  }

  /** n one-letter words. */
  function Letters(n: nat): string {
    if n == 0 then "" else "a" + [' '] + Letters(n - 1)
  }

  lemma {:induction false} LettersAreWords(n: nat)
    ensures |Words(Letters(n))| == n && NulFree(Letters(n))
  {
    hide Pieces;
    if n == 0 {
      PiecesOfNothing(' ', "");
    } else {
      PiecesFirst(' ', "a", Letters(n - 1));
      LettersAreWords(n - 1);
    }
  }

  /** The array holds the words and a closing null. */
  ghost predicate Holds(commands: array<Option<string>>, words: seq<string>)
    reads commands
  {
    && commands.Length == ARGUMENTS > |words|
    && (forall k :: 0 <= k < |words| ==> commands[k] == Some(words[k]))
    && commands[|words|] == None
  }

  /**
   * `getParse`: the words in the argument array, closed by a null. The array that grows for the twenty-first word is
   * never stored and the closing null needs a slot too, so the writes stay inside exactly below twenty words.
   */
  method GetParse(command: string) returns (commands: array<Option<string>>, numbers: nat, inside: bool)
    ensures fresh(commands)
    ensures inside <==> |Words(command)| < ARGUMENTS
    ensures inside ==> Holds(commands, Words(command)) && numbers == |Words(command)| + 1
  {
    hide Pieces;
    var lastIndex, found, i := 0, 0, 0;
    commands := new Option<string>[ARGUMENTS](_ => None);
    ghost var words: seq<string> := [];
    assert command[0..] == command;
    assert [] + Pieces(' ', command) == Words(command);
    while i < |command|
      invariant lastIndex <= i <= |command| && found == |words| <= ARGUMENTS
      invariant ' ' !in command[lastIndex..i]
      invariant i == |command| ==> lastIndex == i
      invariant words + Pieces(' ', command[lastIndex..]) == Words(command)
      invariant forall k :: 0 <= k < found ==> commands[k] == Some(words[k])
    {
      PiecesStep(' ', command, lastIndex, i);
      if command[i] == ' ' || i == |command| - 1 {
        var word := if command[i] == ' ' then command[lastIndex..i] else command[lastIndex..];
        if command[i] != ' ' {
          PiecesOfNothing(' ', command[i + 1..]);
        }
        AppendAssoc(words, [word], Pieces(' ', command[i + 1..]));
        if found >= ARGUMENTS {
          return commands, found, false;
        }
        commands[found] := Some(word);
        words := words + [word];
        lastIndex := i + 1;
        found := found + 1;
      } else {
        assert command[lastIndex..i + 1] == command[lastIndex..i] + [command[i]];
      }
      i := i + 1;
    }
    PiecesOfNothing(' ', command[lastIndex..]);
    assert words + [] == words;
    inside := found < ARGUMENTS;
    if inside {
      commands[found] := None;
    }
    numbers := found + 1;
  }

  /** The words of a command glue back to it, one final space aside, and none of them holds a space. */
  lemma WordsOf(command: string)
    ensures command == Glue(' ', Words(command)) + if EndsWith(command, ' ') then " " else ""
    ensures forall w :: w in Words(command) ==> ' ' !in w
  {
    PiecesAreLossless(' ', command);
  }

  // ---- the line scanner ----

  /**
   * What a line does. A line that is exactly `cd` copies a negative number of bytes; one of twenty words or more is
   * written past the argument array.
   */
  datatype Event = ChangeDirectory(path: string) | Execute(words: seq<string>) | BadCopy | Overrun

  function Meaning(line: string): Event {
    var command := CutAtNul(line);
    if |command| >= 2 && command[0] == 'c' && command[1] == 'd' then
      if |command| == 2 then BadCopy else ChangeDirectory(command[3..])
    else if |Words(command)| < ARGUMENTS then Execute(Words(command)) else Overrun
  }

  /** A line of n words is executed exactly for n below twenty. */
  lemma LongLineOverruns(n: nat)
    ensures Meaning(Letters(n)) == if n < ARGUMENTS then Execute(Words(Letters(n))) else Overrun
  {
    LettersAreWords(n);
    CutAtNulIdentity(Letters(n));
  }

  function Events(lines: seq<string>): seq<Event> {
    if lines == [] then [] else [Meaning(lines[0])] + Events(lines[1..])
  }

  /** The trace of a script: what its lines do, in order. */
  function Trace(data: string): seq<Event> {
    Events(Pieces('\n', data))
  }

  /** Whether event number k lets the interpreter go on: a failed change of directory or a bad write ends it. */
  predicate GoesOn(e: Event, k: nat, changed: nat -> bool) {
    match e
    case ChangeDirectory(_) => changed(k)
    case Execute(_) => true
    case BadCopy => false
    case Overrun => false
  }

  /** The part of a trace that is performed, its last event included; k is the number of its first event. */
  function Performed(trace: seq<Event>, k: nat, changed: nat -> bool): seq<Event> {
    if trace == [] then []
    else if !GoesOn(trace[0], k, changed) then [trace[0]]
    else [trace[0]] + Performed(trace[1..], k + 1, changed)
  }

  predicate Completes(trace: seq<Event>, k: nat, changed: nat -> bool) {
    trace == [] || (GoesOn(trace[0], k, changed) && Completes(trace[1..], k + 1, changed))
  }

  lemma {:induction false} EventsOfConcatenation(a: seq<string>, b: seq<string>)
    ensures Events(a + b) == Events(a) + Events(b)
  {
    if a == [] {
      assert a + b == b;
    } else {
      assert (a + b)[1..] == a[1..] + b;
      EventsOfConcatenation(a[1..], b);
      AppendAssoc([Meaning(a[0])], Events(a[1..]), Events(b));
    }
  }

  /** A script that ends its last line, followed by another, does what the first does and then what the second does. */
  lemma TraceOfConcatenation(a: string, b: string)
    requires a == "" || EndsWith(a, '\n')
    ensures Trace(a + b) == Trace(a) + Trace(b)
  {
    PiecesOfConcatenation('\n', a, b);
    EventsOfConcatenation(Pieces('\n', a), Pieces('\n', b));
  }

  lemma {:induction false} PerformedConcatenation(a: seq<Event>, b: seq<Event>, k: nat, changed: nat -> bool)
    ensures Performed(a + b, k, changed) ==
            Performed(a, k, changed) + if Completes(a, k, changed) then Performed(b, k + |a|, changed) else []
    decreases |a|
  {
    if a == [] {
      assert a + b == b;
    } else if GoesOn(a[0], k, changed) {
      var first, later := a[0], a[1..];
      var more := if Completes(later, k + 1, changed) then Performed(b, k + |a|, changed) else [];
      assert Performed(later + b, k + 1, changed) == Performed(later, k + 1, changed) + more by {
        PerformedConcatenation(later, b, k + 1, changed);
      }
      assert Performed(a + b, k, changed) == [first] + Performed(later + b, k + 1, changed) by {
        assert (a + b)[0] == first && (a + b)[1..] == later + b;
      }
      AppendAssoc([first], Performed(later, k + 1, changed), more);
    }
  }

  /** What is performed composes: the second script runs exactly when the first completes. */
  lemma RunOfConcatenation(a: string, b: string, changed: nat -> bool)
    requires a == "" || EndsWith(a, '\n')
    ensures Performed(Trace(a + b), 0, changed) ==
            Performed(Trace(a), 0, changed) +
            if Completes(Trace(a), 0, changed) then Performed(Trace(b), |Trace(a)|, changed) else []
  {
    hide Trace;
    hide Performed;
    hide Completes;
    TraceOfConcatenation(a, b);
    PerformedConcatenation(Trace(a), Trace(b), 0, changed);
  }

  // ---- what a line does ----

  /** A NUL-free line is what its bytes say. */
  lemma MeaningOf(line: string)
    requires NulFree(line)
    ensures "cd" <= line && |line| > 2 ==> Meaning(line) == ChangeDirectory(line[3..])
    ensures line == "cd" ==> Meaning(line) == BadCopy
    ensures !("cd" <= line) ==>
              if Count(' ', line) < 19 || (Count(' ', line) == 19 && EndsWith(line, ' '))
              then Meaning(line) == Execute(Words(line)) else Meaning(line) == Overrun
  {
    hide Pieces;
    hide Count;
    CutAtNulIdentity(line);
    FitsExactly(line);
  }

  lemma LinePrefix(line: string, rest: string)
    requires '\n' !in line
    ensures Trace(line + "\n" + rest) == [Meaning(line)] + Trace(rest)
  {
    hide Meaning;
    PiecesFirst('\n', line, rest);
    assert ([line] + Pieces('\n', rest))[1..] == Pieces('\n', rest);
  }

  lemma PerformedFirst(e: Event, later: seq<Event>, k: nat, changed: nat -> bool)
    ensures Performed([e] + later, k, changed) ==
            [e] + if GoesOn(e, k, changed) then Performed(later, k + 1, changed) else []
  {
    assert ([e] + later)[1..] == later;
  }

  /** A `cd` line changes to the path behind its space; the script goes on with the next line exactly if that worked. */
  lemma CdLine(path: string, rest: string, k: nat, changed: nat -> bool)
    requires '\n' !in path && NulFree(path)
    ensures Performed(Trace("cd " + path + "\n" + rest), k, changed) ==
            [ChangeDirectory(path)] + if changed(k) then Performed(Trace(rest), k + 1, changed) else []
  {
    hide Meaning;
    hide Trace;
    hide Performed;
    var line := "cd " + path;
    assert line[3..] == path && "cd" <= line;
    MeaningOf(line);
    LinePrefix(line, rest);
    PerformedFirst(ChangeDirectory(path), Trace(rest), k, changed);
  }

  /** Any other line of fewer than twenty words is executed as those words, and the script goes on. */
  lemma CommandLine(line: string, rest: string, k: nat, changed: nat -> bool)
    requires '\n' !in line && NulFree(line) && !("cd" <= line)
    requires Count(' ', line) < 19 || (Count(' ', line) == 19 && EndsWith(line, ' '))
    ensures exists words :: Performed(Trace(line + "\n" + rest), k, changed)
                         == [Execute(words)] + Performed(Trace(rest), k + 1, changed)
                      && line == Glue(' ', words) + (if EndsWith(line, ' ') then " " else "")
                      && forall w :: w in words ==> ' ' !in w
  {
    hide Meaning;
    hide Trace;
    hide Performed;
    hide Pieces;
    MeaningOf(line);
    LinePrefix(line, rest);
    PerformedFirst(Execute(Words(line)), Trace(rest), k, changed);
    WordsOf(line);
  }

  /** A line that writes out of bounds, `cd` alone or twenty words, is the last. */
  lemma FatalLine(line: string, rest: string, k: nat, changed: nat -> bool)
    requires '\n' !in line && NulFree(line)
    requires line == "cd"
          || (!("cd" <= line) && (Count(' ', line) > 19 || (Count(' ', line) == 19 && !EndsWith(line, ' '))))
    ensures Performed(Trace(line + "\n" + rest), k, changed) == [if line == "cd" then BadCopy else Overrun]
  {
    hide Meaning;
    hide Trace;
    hide Performed;
    MeaningOf(line);
    LinePrefix(line, rest);
    PerformedFirst(Meaning(line), Trace(rest), k, changed);
  }

  /** A final line without a newline does what it does with one. */
  lemma LastLine(line: string)
    requires '\n' !in line && line != ""
    ensures Trace(line) == [Meaning(line)]
  {
    hide Meaning;
    hide Pieces;
    PiecesWhole('\n', line);
    assert [line][1..] == [] && Events([]) == [] && [Meaning(line)] + [] == [Meaning(line)];
    assert Events([line]) == [Meaning(line)];
  }

  /** The commands executed, last one first: the list that the interpreter builds by prepending. */
  function Executed(done: seq<Event>): seq<seq<string>> {
    if done == [] then [] else
      var last := done[|done| - 1];
      (if last.Execute? then [last.words] else []) + Executed(done[..|done| - 1])
  }

  lemma ExecutedStep(done: seq<Event>, e: Event)
    ensures Executed(done + [e]) == (if e.Execute? then [e.words] else []) + Executed(done)
  {
  }

  /** One line: a change of directory, or words parsed into an argument array of their own. */
  method RunLine(line: string) returns (event: Event, exec: array<Option<string>>)
    ensures event == Meaning(line) && fresh(exec)
    ensures event.Execute? ==> Holds(exec, event.words)
  {
    hide Pieces;
    var command := CutAtNul(line);
    if |command| >= 2 && command[0] == 'c' && command[1] == 'd' {
      event := if |command| == 2 then BadCopy else ChangeDirectory(command[3..]);
      exec := new Option<string>[0];
      return;
    }
    var numbers, inside;
    exec, numbers, inside := GetParse(command);
    event := if inside then Execute(seq(numbers - 1, k requires 0 <= k < numbers - 1 reads exec =>
                                          if exec[k].Some? then exec[k].value else "")) else Overrun;
  }

  /** The loop's state: what is done, followed by what the unscanned rest does, is the whole run. */
  ghost predicate Doing(data: string, lastIndex: nat, done: seq<Event>, changed: nat -> bool) {
    && lastIndex <= |data|
    && done + Performed(Trace(data[lastIndex..]), |done|, changed) == Performed(Trace(data), 0, changed)
  }

  lemma DoingBegins(data: string, changed: nat -> bool)
    ensures Doing(data, 0, [], changed)
  {
    assert data[0..] == data;
  }

  /** A line ends before index i + 1: its event is done, and the run goes on behind it or ends. */
  lemma LineDone(data: string, lastIndex: nat, i: nat, line: string, done: seq<Event>, changed: nat -> bool)
    requires Doing(data, lastIndex, done, changed) && lastIndex <= i < |data|
    requires Pieces('\n', data[lastIndex..]) == [line] + Pieces('\n', data[i + 1..])
    ensures var e := Meaning(line);
            if GoesOn(e, |done|, changed) then Doing(data, i + 1, done + [e], changed)
            else done + [e] == Performed(Trace(data), 0, changed)
  {
    hide Pieces;
    hide Meaning;
    var e, rest := Meaning(line), data[i + 1..];
    LineStep(line, data[lastIndex..], rest, |done|, changed);
    var more := if GoesOn(e, |done|, changed) then Performed(Trace(rest), |done| + 1, changed) else [];
    AppendAssoc(done, [e], more);
    assert done + [e] + [] == done + [e];
  }

  lemma DoingEnds(data: string, done: seq<Event>, changed: nat -> bool)
    requires Doing(data, |data|, done, changed)
    ensures done == Performed(Trace(data), 0, changed)
  {
    PiecesOfNothing('\n', data[|data|..]);
    assert done + [] == done;
  }

  /** The lines of a text up to index i, where the current one ends. */
  lemma LineAt(data: string, lastIndex: nat, i: nat)
    requires lastIndex <= i < |data| && '\n' !in data[lastIndex..i] && (data[i] == '\n' || i == |data| - 1)
    ensures var line := if data[i] == '\n' then data[lastIndex..i] else data[lastIndex..];
            Pieces('\n', data[lastIndex..]) == [line] + Pieces('\n', data[i + 1..])
  {
    hide Pieces;
    PiecesStep('\n', data, lastIndex, i);
    if data[i] != '\n' {
      PiecesOfNothing('\n', data[i + 1..]);
    }
  }

  /** The argument arrays hold the commands, one each. */
  ghost predicate AllHold(execs: seq<array<Option<string>>>, commands: seq<seq<string>>)
    reads execs
  {
    |execs| == |commands| && forall k :: 0 <= k < |execs| ==> Holds(execs[k], commands[k])
  }

  /** The list after one more event: an executed command is prepended. */
  function Prepended(e: Event, exec: array<Option<string>>, execs: seq<array<Option<string>>>)
    : seq<array<Option<string>>>
  {
    if e.Execute? then [exec] + execs else execs
  }

  lemma PrependedHold(done: seq<Event>, e: Event, exec: array<Option<string>>, execs: seq<array<Option<string>>>)
    requires AllHold(execs, Executed(done)) && (e.Execute? ==> Holds(exec, e.words))
    ensures AllHold(Prepended(e, exec, execs), Executed(done + [e]))
  {
    hide Executed;
    hide Holds;
    ExecutedStep(done, e);
  }

  /** `runMrnFile`: the index loop over the script, with the list of the argument arrays executed. */
  method RunMrnFile(data: string, changed: nat -> bool)
    returns (done: seq<Event>, execs: seq<array<Option<string>>>)
    ensures done == Performed(Trace(data), 0, changed)
    ensures AllHold(execs, Executed(done))
  {
    hide Pieces;
    hide Doing;
    hide Meaning;
    hide Executed;
    hide Holds;
    done := [];
    execs := [];
    NothingExecuted(done);
    assert AllHold(execs, Executed(done));
    hide AllHold;
    hide GoesOn;
    hide Performed;
    hide Trace;
    hide Prepended;
    var lastIndex, i := 0, 0;
    DoingBegins(data, changed);
    while i < |data|
      invariant lastIndex <= i <= |data|
      invariant '\n' !in data[lastIndex..i]
      invariant i == |data| ==> lastIndex == i
      invariant AllHold(execs, Executed(done))
      invariant Doing(data, lastIndex, done, changed)
    {
      if data[i] == '\n' || i == |data| - 1 {
        var line := if data[i] == '\n' then data[lastIndex..i] else data[lastIndex..];
        LineAt(data, lastIndex, i);
        LineDone(data, lastIndex, i, line, done, changed);
        var event, exec := RunLine(line);
        PrependedHold(done, event, exec, execs);
        execs := Prepended(event, exec, execs);
        var goesOn := GoesOn(event, |done|, changed);
        done := done + [event];
        if !goesOn {
          return;
        }
        lastIndex := i + 1;
      } else {
        assert data[lastIndex..i + 1] == data[lastIndex..i] + [data[i]];
      }
      i := i + 1;
    }
    DoingEnds(data, done, changed);
  }

  lemma NothingExecuted(done: seq<Event>)
    requires done == []
    ensures Executed(done) == []
  {
  }

  lemma LineStep(line: string, text: string, rest: string, k: nat, changed: nat -> bool)
    requires Pieces('\n', text) == [line] + Pieces('\n', rest)
    ensures Performed(Trace(text), k, changed) ==
            [Meaning(line)] + if GoesOn(Meaning(line), k, changed) then Performed(Trace(rest), k + 1, changed) else []
  {
  }
}
