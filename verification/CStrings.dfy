/** C strings seen as sequences of characters, and the fixed-width integers that the registries store. */
module CStrings {

  /** A pointer that may be null. */
  datatype Option<T> = None | Some(value: T)

  type i32 = x: int | -0x8000_0000 <= x < 0x8000_0000
  type u32 = x: int | 0 <= x < 0x1_0000_0000
  type i64 = x: int | -0x8000_0000_0000_0000 <= x < 0x8000_0000_0000_0000
  type u64 = x: int | 0 <= x < 0x1_0000_0000_0000_0000
  type u128 = x: int | 0 <= x < 0x1_0000_0000_0000_0000_0000_0000_0000_0000

  /** The conversions C performs between signed and unsigned values of one width. */
  function Signed64(x: u64): i64 {
    if x < 0x8000_0000_0000_0000 then x else x - 0x1_0000_0000_0000_0000
  }

  function Unsigned64(x: i64): u64 {
    if x < 0 then x + 0x1_0000_0000_0000_0000 else x
  }

  function Signed32(x: u32): i32 {
    if x < 0x8000_0000 then x else x - 0x1_0000_0000
  }

  function Unsigned32(x: i32): u32 {
    if x < 0 then x + 0x1_0000_0000 else x
  }

  predicate NulFree(s: string) {
    '\0' !in s
  }

  /** Position of the first c in s, or |s| when there is none. */
  function IndexOf(c: char, s: string): (i: nat)
    ensures i <= |s|
    ensures i < |s| ==> s[i] == c
    ensures c !in s[..i]
  {
    if s == "" || s[0] == c then 0 else
      var i := 1 + IndexOf(c, s[1..]);
      assert s[..i] == [s[0]] + s[1..][..i - 1];
      i
  }

  lemma {:induction false} IndexOfUnique(c: char, s: string, i: nat)
    requires i <= |s|
    requires c !in s[..i]
    requires i < |s| ==> s[i] == c
    ensures IndexOf(c, s) == i
  {
  }

  /** The text before the first d, and what follows it. */
  lemma FirstField(d: char, data: string) returns (field: string, rest: string)
    requires d in data
    ensures data == field + [d] + rest && d !in field
  {
    var j := IndexOf(d, data);
    assert j < |data| by {
      assert data[..|data|] == data;
    }
    field, rest := data[..j], data[j + 1..];
  }

  /** What C string functions see of a buffer: everything before its first NUL. */
  function CutAtNul(s: string): string {
    s[..IndexOf('\0', s)]
  }

  lemma CutAtNulIdentity(s: string)
    requires NulFree(s)
    ensures CutAtNul(s) == s
  {
  }

  /** What lies behind the first NUL does not matter, whatever it is. */
  lemma CutAtNulFirst(text: string, behind: string)
    requires NulFree(text)
    ensures CutAtNul(text + "\0" + behind) == text
  {
    var s := text + "\0" + behind;
    assert s[..|text|] == text;
    IndexOfUnique('\0', s, |text|);
  }

  lemma AppendAssoc<T>(a: seq<T>, b: seq<T>, c: seq<T>)
    ensures a + b + c == a + (b + c)
  {
  }

  lemma AppendField(a: string, field: string, delimiter: string, rest: string)
    ensures a + (field + delimiter + rest) == a + field + delimiter + rest
  {
  }

  lemma SplitAt(s: string, last: nat, i: nat)
    requires last <= i < |s|
    ensures s[last..] == s[last..i] + [s[i]] + s[i + 1..]
  {
  }
}
