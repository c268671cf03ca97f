/** The argument checks that keep field delimiters out of the registries. */
module Validators {
  const MAX_NAME := 20
  const MAX_PATH := 100

  predicate JobDelimiter(c: char) {
    c == '^' || c == '#' || c == '$' || c == '@'
  }

  predicate ValidJobText(s: string, max: nat) {
    |s| <= max && forall i :: 0 <= i < |s| ==> !JobDelimiter(s[i])
  }

  predicate ValidServiceText(s: string, max: nat) {
    ' ' !in s && |s| <= max && '^' !in s && '#' !in s
  }

  predicate ValidEnvText(s: string) {
    '`' !in s && '^' !in s
  }

  /** The scan of `check_invalid_chars`. */
  method HasJobDelimiter(s: string) returns (flag: bool)
    ensures flag <==> exists i :: 0 <= i < |s| && JobDelimiter(s[i])
  {
    flag := false;
    var i := 0;
    while i < |s|
      invariant 0 <= i <= |s|
      invariant forall j :: 0 <= j < i ==> !JobDelimiter(s[j])
    {
      if JobDelimiter(s[i]) {
        flag := true;
        break;
      }
      i := i + 1;
    }
  }

  method IsValidJobName(name: string) returns (ok: bool)
    ensures ok == ValidJobText(name, MAX_NAME)
  {
    if |name| > MAX_NAME {
      return false;
    }
    var flag := HasJobDelimiter(name);
    return !flag;
  }

  method IsValidJobPath(path: string) returns (ok: bool)
    ensures ok == ValidJobText(path, MAX_PATH)
  {
    if |path| > MAX_PATH {
      return false;
    }
    var flag := HasJobDelimiter(path);
    return !flag;
  }

  /** The scan that `space_available`, `has_violated_pow` and `has_violated_hash` share. */
  method HasChar(s: string, c: char) returns (flag: bool)
    ensures flag <==> c in s
  {
    flag := false;
    var i := 0;
    while i < |s|
      invariant 0 <= i <= |s|
      invariant c !in s[..i]
    {
      if s[i] == c {
        return true;
      }
      i := i + 1;
    }
    assert s[..i] == s;
  }

  method IsValidServiceText(s: string, max: nat) returns (ok: bool)
    ensures ok == ValidServiceText(s, max)
  {
    var space := HasChar(s, ' ');
    if space {
      return false;
    }
    if |s| > max {
      return false;
    }
    var power := HasChar(s, '^');
    if power {
      return false;
    }
    var hash := HasChar(s, '#');
    return !hash;
  }

  method IsValidEnvText(s: string) returns (ok: bool)
    ensures ok == ValidEnvText(s)
  {
    var hash := HasChar(s, '`');
    if hash {
      return false;
    }
    var power := HasChar(s, '^');
    return !power;
  }
}
