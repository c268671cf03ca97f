/** The string splice of the delete command: cut a range out of a text, or take it out as a value. */
module Splice {
  /** data without the characters s to e, both included. */
  function Cut(data: string, s: nat, e: nat): string
    requires s <= e < |data|
  {
    data[..s] + data[e + 1..]
  }

  /** Top removal: the loop of the first branch. */
  method CutTop(data: string, e: nat) returns (r: array<char>)
    requires e < |data|
    ensures r[..] == data[e + 1..] + ['\0']
  {
    var length := |data|;
    r := new char[length - e];
    var i := 0;
    while i < length - e - 1
      invariant i <= length - e - 1
      invariant r[..i] == data[e + 1..e + 1 + i]
    {
      r[i] := data[e + i + 1];
      i := i + 1;
    }
    r[length - e - 1] := '\0';
    assert r[..] == r[..i] + ['\0'];
  }

  /** Bottom removal: the loop of the second branch. */
  method CutBottom(data: string, s: nat) returns (r: array<char>)
    requires s < |data|
    ensures r[..] == data[..s] + ['\0']
  {
    r := new char[s + 1];
    var i := 0;
    while i < s
      invariant i <= s
      invariant r[..i] == data[..i]
    {
      r[i] := data[i];
      i := i + 1;
    }
    r[s] := '\0';
    assert r[..] == r[..i] + ['\0'];
  }

  /** Middle removal: one loop that jumps over the gap. */
  method CutMiddle(data: string, s: nat, e: nat) returns (r: array<char>)
    requires s <= e < |data|
    ensures r[..] == Cut(data, s, e) + ['\0']
  {
    var newLength := |data| - (e - s);
    r := new char[newLength];
    var i := 0;
    while i < newLength - 1
      invariant i <= newLength - 1
      invariant forall k :: 0 <= k < i ==> r[k] == Cut(data, s, e)[k]
    {
      if i >= s {
        r[i] := data[e + (i - s) + 1];
      } else {
        r[i] := data[i];
      }
      i := i + 1;
    }
    r[newLength - 1] := '\0';
    assert r[..] == Cut(data, s, e) + ['\0'];
  }

  /** `cutString`: three branches, one meaning; null for an empty text. */
  method CutString(data: string, s: nat, e: nat) returns (r: array?<char>)
    requires data != "" ==> s <= e < |data|
    ensures r == null <==> data == ""
    ensures r != null ==> r[..] == Cut(data, s, e) + ['\0']
  {
    if |data| <= 0 {
      return null;
    }
    if s == 0 {
      r := CutTop(data, e);
      assert data[..0] + data[e + 1..] == data[e + 1..];
    } else if e == |data| - 1 {
      r := CutBottom(data, s);
      assert data[..s] + data[e + 1..] == data[..s];
    } else {
      r := CutMiddle(data, s, e);
    }
  }

  /** `getValue`: the bytes s to e of the C string, its NUL within reach; refused for an end of zero. */
  method GetValue(data: string, s: int, e: int) returns (r: array?<char>)
    requires s >= 0 && e > 0 ==> s <= e + 1 <= |data| + 1
    ensures r == null <==> s < 0 || e <= 0
    ensures r != null ==> r[..] == (data + ['\0'])[s..e + 1] + ['\0']
  {
    if s < 0 || e <= 0 {
      return null;
    }
    var bytes := data + ['\0'];
    r := new char[e - s + 2];
    var i := s;
    while i <= e
      invariant s <= i <= e + 1
      invariant r[..i - s] == bytes[s..i]
    {
      r[i - s] := bytes[i];
      i := i + 1;
    }
    r[e - s + 1] := '\0';
    assert r[..] == r[..i - s] + ['\0'];
  }

  /** Putting the taken value back at s rebuilds the text, and nothing else of that length does. */
  lemma ReinsertExactly(data: string, s: nat, e: nat, value: string)
    requires s <= e < |data| && |value| == e + 1 - s
    ensures Cut(data, s, e)[..s] + value + Cut(data, s, e)[s..] == data <==> value == data[s..e + 1]
  {
  }
}
