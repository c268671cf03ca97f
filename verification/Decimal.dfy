/** The decimal text written by `%li`, `%i` and `uint128_to_chars`, and read back by `atol`, `atoi` and `atoll`. */
module Decimal {
  import opened CStrings

  predicate IsDigit(c: char) {
    '0' <= c <= '9'
  }

  function DigitChar(d: nat): (c: char)
    requires d < 10
    ensures IsDigit(c)
  {
    '0' + d as char
  }

  function DigitValue(c: char): (d: nat)
    requires IsDigit(c)
    ensures d < 10
  {
    (c - '0') as nat
  }

  /** Decimal digits of n, most significant first. */
  function Digits(n: nat): (s: string)
    ensures |s| > 0
    ensures forall i :: 0 <= i < |s| ==> IsDigit(s[i])
  {
    if n < 10 then [DigitChar(n)] else Digits(n / 10) + [DigitChar(n % 10)]
  }

  /** `%li` and `%i`: a minus sign and the magnitude, or the magnitude alone. */
  function Print(v: int): string {
    if v < 0 then "-" + Digits(-v) else Digits(v)
  }

  // ---- what the text is ----

  /** The text of a number is that of its tenth with one of the ten digit characters behind it. */
  lemma DigitsText(n: nat, d: nat)
    requires d < 10 && 10 * n + d > 0
    ensures Digits(10 * n + d) == (if n == 0 then "" else Digits(n)) + ["0123456789"[d]]
    ensures Digits(0) == "0"
  {
    DigitCharText(d);
    assert (10 * n + d) / 10 == n && (10 * n + d) % 10 == d;
  }

  lemma DigitCharText(d: nat)
    requires d < 10
    ensures DigitChar(d) == "0123456789"[d]
  {
  }

  lemma DigitsExamples()
    ensures Digits(0) == "0" && Digits(1) == "1" && Digits(7) == "7" && Digits(12) == "12" && Digits(60) == "60"
  {
    DigitsText(0, 1);
    DigitsText(0, 6);
    DigitsText(0, 7);
    DigitsText(1, 2);
    DigitsText(6, 0);
  }

  /** A printed number is the text of its magnitude, with a minus sign exactly when it is negative. */
  lemma PrintText(v: int)
    ensures Print(v) == if v < 0 then "-" + Digits(0 - v) else Digits(v)
  {
  }

  /** Reinterpreting an unsigned number as signed leaves it below the middle and takes the modulus off above. */
  lemma SignedText(x: u64, y: u32)
    ensures Signed64(x) == if x < 9223372036854775808 then x else x - 18446744073709551616
    ensures Signed32(y) == if y < 2147483648 then y else y - 4294967296
    ensures Unsigned64(Signed64(x)) == x && Unsigned32(Signed32(y)) == y
  {
  }

  /** The unsigned 64-bit column: plain digits for a number a long can hold, else the negative text of the rest. */
  lemma UnsignedColumn(x: u64)
    ensures Print(Signed64(x)) == if x < 9223372036854775808 then Digits(x) else "-" + Digits(18446744073709551616 - x)
  {
  }

  predicate IsSpace(c: char) {
    c == ' ' || ('\t' <= c <= '\r')
  }

  function SkipSpaces(s: string): string {
    if s != "" && IsSpace(s[0]) then SkipSpaces(s[1..]) else s
  }

  /** Value of the longest digit prefix of s, continuing from acc. */
  function DigitPrefix(s: string, acc: nat): nat {
    if s == "" || !IsDigit(s[0]) then acc else DigitPrefix(s[1..], 10 * acc + DigitValue(s[0]))
  }

  function Saturate(v: int): i64 {
    if v < -0x8000_0000_0000_0000 then -0x8000_0000_0000_0000
    else if v > 0x7FFF_FFFF_FFFF_FFFF then 0x7FFF_FFFF_FFFF_FFFF
    else v
  }

  /** `atol` and `atoll` on LP64: white space, an optional sign, the digit prefix, saturation at the ends of long. */
  function Atol(s: string): i64 {
    var t := SkipSpaces(s);
    if t != "" && t[0] == '-' then Saturate(0 - DigitPrefix(t[1..], 0))
    else if t != "" && t[0] == '+' then Saturate(DigitPrefix(t[1..], 0))
    else Saturate(DigitPrefix(t, 0))
  }

  /** `atoi`: the long value truncated to int. */
  function Atoi(s: string): i32 {
    Signed32(Atol(s) % 0x1_0000_0000)
  }

  lemma {:induction false} DigitPrefixAppend(a: string, b: string, acc: nat)
    requires forall i :: 0 <= i < |a| ==> IsDigit(a[i])
    ensures DigitPrefix(a + b, acc) == DigitPrefix(b, DigitPrefix(a, acc))
  {
    if a == "" {
      assert a + b == b;
    } else {
      assert (a + b)[1..] == a[1..] + b;
      DigitPrefixAppend(a[1..], b, 10 * acc + DigitValue(a[0]));
    }
  }

  /** Reading the digits of n yields n. */
  lemma {:induction false} DigitsRead(n: nat)
    ensures DigitPrefix(Digits(n), 0) == n
  {
    if n >= 10 {
      var last := [DigitChar(n % 10)];
      DigitPrefixAppend(Digits(n / 10), last, 0);
      DigitsRead(n / 10);
      assert last[1..] == "";
    }
  }

  /** A printed number never contains a character other than a digit or the minus sign. */
  lemma PrintAlphabet(v: int, c: char)
    requires !IsDigit(c) && c != '-'
    ensures c !in Print(v)
  {
  }

  lemma AtolPrint(v: int)
    ensures Atol(Print(v)) == Saturate(v)
  {
    if v < 0 {
      DigitsRead(-v);
      assert Print(v)[1..] == Digits(-v);
    } else {
      DigitsRead(v);
      assert IsDigit(Digits(v)[0]);
    }
  }

  /** `%li` then `atol` is the identity exactly on the values of a 64-bit long. */
  lemma LongRoundTrip(v: int)
    ensures Atol(Print(v)) == v <==> -0x8000_0000_0000_0000 <= v < 0x8000_0000_0000_0000
  {
    AtolPrint(v);
  }

  /** An unsigned 64-bit field survives being printed as signed, also where it prints negative. */
  lemma UnsignedLongRoundTrip(x: u64)
    ensures Unsigned64(Atol(Print(Signed64(x)))) == x
  {
    AtolPrint(Signed64(x));
  }

  /** An unsigned 32-bit pid survives `%i` and `atoi`, also where it prints negative. */
  lemma PidRoundTrip(x: u32)
    ensures Unsigned32(Atoi(Print(Signed32(x)))) == x
  {
    AtolPrint(Signed32(x));
  }

  // ---- what the reader makes of any text ----

  /** White space is the six characters of the C locale. */
  lemma SpacesAre(c: char)
    ensures IsSpace(c) <==> c == ' ' || c == '\t' || c == '\n' || c == '\r' || c as int == 11 || c as int == 12
  {
  }

  /** A value beyond the ends of long is the nearer end. */
  lemma SaturateIs(v: int)
    ensures -9223372036854775808 <= v <= 9223372036854775807 ==> Saturate(v) == v
    ensures v > 9223372036854775807 ==> Saturate(v) == 9223372036854775807
    ensures v < -9223372036854775808 ==> Saturate(v) == -9223372036854775808
  {
  }

  lemma {:induction false} SpacesAreSkipped(spaces: string, rest: string)
    requires (forall i :: 0 <= i < |spaces| ==> IsSpace(spaces[i])) && (rest != "" ==> !IsSpace(rest[0]))
    ensures SkipSpaces(spaces + rest) == rest
  {
    if spaces == "" {
      assert spaces + rest == rest;
    } else {
      assert (spaces + rest)[1..] == spaces[1..] + rest;
      SpacesAreSkipped(spaces[1..], rest);
    }
  }

  /** White space, an optional sign, the digits of a number, and whatever begins with no digit: the number. */
  lemma AtolReads(spaces: string, n: nat, rest: string)
    requires forall i :: 0 <= i < |spaces| ==> IsSpace(spaces[i])
    requires rest != "" ==> !IsDigit(rest[0])
    ensures Atol(spaces + (Digits(n) + rest)) == Saturate(n)
    ensures Atol(spaces + ("+" + Digits(n) + rest)) == Saturate(n)
    ensures Atol(spaces + ("-" + Digits(n) + rest)) == Saturate(0 - n)
  {
    hide Saturate;
    hide Digits;
    hide SkipSpaces;
    DigitPrefixAppend(Digits(n), rest, 0);
    DigitsRead(n);
    SpacesAreSkipped(spaces, Digits(n) + rest);
    SpacesAreSkipped(spaces, "+" + Digits(n) + rest);
    SpacesAreSkipped(spaces, "-" + Digits(n) + rest);
    assert ("+" + Digits(n) + rest)[1..] == Digits(n) + rest == ("-" + Digits(n) + rest)[1..];
    assert IsDigit((Digits(n) + rest)[0]);
  }

  /** Text without a number reads as zero. */
  lemma AtolOfNoNumber(spaces: string, rest: string)
    requires forall i :: 0 <= i < |spaces| ==> IsSpace(spaces[i])
    requires rest != "" ==> !IsDigit(rest[0]) && !IsSpace(rest[0]) && rest[0] != '-' && rest[0] != '+'
    ensures Atol(spaces + rest) == 0
  {
    SpacesAreSkipped(spaces, rest);
  }

  /** `atoi` keeps the low 32 bits of what `atol` reads, as a signed number. */
  lemma AtoiKeepsLowBits(s: string)
    ensures (Atol(s) - Atoi(s)) % 4294967296 == 0 && -2147483648 <= Atoi(s) < 2147483648
  {
  }

  // ---- the 128-bit printer ----

  function Pow10(k: nat): (p: nat)
    ensures p > 0
  {
    if k == 0 then 1 else 10 * Pow10(k - 1)
  }

  /** A number has at most k digits exactly when it is below ten to the k. */
  lemma {:induction false} DigitCount(n: nat, k: nat)
    requires k > 0
    ensures |Digits(n)| <= k <==> n < Pow10(k)
  {
    assert Pow10(k) == 10 * Pow10(k - 1);
    if n >= 10 {
      if k > 1 {
        DigitCount(n / 10, k - 1);
      } else {
        assert Pow10(0) == 1;
      }
    }
  }

  lemma Pow10Of39()
    ensures Pow10(39) == 1_000_000_000_000_000_000_000_000_000_000_000_000_000
  {
    assert Pow10(10) == 10_000_000_000;
    assert Pow10(20) == 100_000_000_000_000_000_000;
    assert Pow10(30) == 1_000_000_000_000_000_000_000_000_000_000;
  }

  /** Every 128-bit number has at most 39 digits, so the cap of 64 never cuts one. */
  lemma DigitsOf128(n: u128)
    ensures |Digits(n)| <= 39
  {
    Pow10Of39();
    DigitCount(n, 39);
  }

  lemma {:induction false} NoLeadingZero(n: nat)
    requires n > 0
    ensures Digits(n)[0] != '0'
  {
    if n >= 10 {
      NoLeadingZero(n / 10);
    }
  }

  /** A decimal printed by `uint128_to_chars` is read back as itself exactly when it fits a signed 64-bit long. */
  lemma Uint128RoundTrip(n: u128)
    ensures Atol(Digits(n)) == n <==> n < 0x8000_0000_0000_0000
  {
    LongRoundTrip(n);
  }

  function Reversed(s: string): (r: string)
    ensures |r| == |s|
    ensures forall i :: 0 <= i < |s| ==> r[i] == s[|s| - 1 - i]
  {
    if s == "" then "" else Reversed(s[1..]) + [s[0]]
  }

  lemma ReversedStep(s: string, c: char)
    ensures Reversed(s + [c]) == [c] + Reversed(s)
  {
  }

  /** One turn of the dividing loop: the last digit of n moves in front of the digits already taken. */
  lemma DigitStep(n: nat, low: string)
    requires n > 0
    ensures Digits(n) + low == (if n / 10 == 0 then "" else Digits(n / 10)) + ([DigitChar(n % 10)] + low)
  {
    AppendAssoc(if n < 10 then "" else Digits(n / 10), [DigitChar(n % 10)], low);
  }

  /** The first loop of `uint128_to_chars`: the digits go into temp, lowest first. */
  method TakeDigits(num: u128, temp: array<char>) returns (i: nat)
    requires num > 0 && temp.Length == 65
    modifies temp
    ensures i <= 39 && Reversed(temp[..i]) == Digits(num)
  {
    hide Digits;
    hide Reversed;
    DigitsOf128(num);
    ghost var all := Digits(num);
    var n := num;
    i := 0;
    assert Reversed("") == "";
    assert all + "" == all && temp[..0] == "";
    while n > 0 && i < 64
      invariant 0 <= i <= 39
      invariant n >= 0
      invariant all == (if n == 0 then "" else Digits(n)) + Reversed(temp[..i])
    {
      ghost var low := temp[..i];
      DigitStep(n, Reversed(low));
      temp[i] := DigitChar(n % 10);
      assert temp[..i + 1] == low + [DigitChar(n % 10)];
      ReversedStep(low, DigitChar(n % 10));
      i := i + 1;
      n := n / 10;
    }
  }

  /** The second loop: the digits go from temp into the buffer, highest first. */
  method CopyDigits(temp: array<char>, count: nat, buffer: array<char>)
    requires temp != buffer && temp.Length == buffer.Length == 65 && count < 64
    modifies buffer
    ensures buffer[..count] == Reversed(temp[..count]) && buffer[count] == '\0'
  {
    ghost var all := Reversed(temp[..count]);
    var i, j := count, 0;
    while i > 0 && j < 64
      invariant 0 <= i <= count && i + j == count
      invariant forall k :: 0 <= k < j ==> buffer[k] == all[k]
    {
      i := i - 1;
      buffer[j] := temp[i];
      j := j + 1;
    }
    buffer[j] := '\0';
  }

  /** `uint128_to_chars`: digits go backwards into temp, then forwards into the shared buffer. */
  method Uint128ToChars(num: u128, buffer: array<char>)
    requires buffer.Length == 65
    modifies buffer
    ensures var d := Digits(num);
            && |d| <= 39
            && buffer[..|d|] == d
            && buffer[|d|] == '\0'
  {
    var temp := new char[65];
    if num == 0 {
      buffer[0] := '0';
      buffer[1] := '\0';
      return;
    }
    var i := TakeDigits(num, temp);
    CopyDigits(temp, i, buffer);
    assert |Reversed(temp[..i])| == i;
  }
}
