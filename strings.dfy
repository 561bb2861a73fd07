/**
 * String and character helpers with the meaning the Kotlin standard library
 * gives them (`uppercase`, `isBlank`, `trim`, `split(" ")`, `joinToString`,
 * `indexOf`, `equals(ignoreCase = true)`, `Int.toString`).
 * Case mapping covers ASCII letters only.
 */
module Strings {

  predicate IsUpper(c: char) { 'A' <= c <= 'Z' }

  predicate IsLower(c: char) { 'a' <= c <= 'z' }

  function UpperChar(c: char): char
  {
    if IsLower(c) then (c as int - 32) as char else c
  }

  function LowerChar(c: char): char
  {
    if IsUpper(c) then (c as int + 32) as char else c
  }

  /** `String.uppercase()`, one character at a time. */
  function Uppercase(s: string): (r: string)
    ensures |r| == |s|
    ensures forall i :: 0 <= i < |s| ==> r[i] == UpperChar(s[i])
  {
    if s == [] then [] else [UpperChar(s[0])] + Uppercase(s[1..])
  }

  lemma UppercaseAppend(a: string, b: string)
    ensures Uppercase(a + b) == Uppercase(a) + Uppercase(b)
  {
    var u, v := Uppercase(a + b), Uppercase(a) + Uppercase(b);
    assert |u| == |v|;
    forall i | 0 <= i < |u|
      ensures u[i] == v[i]
    {
      if i < |a| {
        assert (a + b)[i] == a[i];
      } else {
        assert (a + b)[i] == b[i - |a|];
      }
    }
  }

  /** Upper-casing leaves a string without lower-case letters as it is. */
  lemma UppercaseFixes(s: string)
    requires forall i :: 0 <= i < |s| ==> !IsLower(s[i])
    ensures Uppercase(s) == s
  {
  }

  lemma UpperLowerInverse(c: char)
    ensures IsUpper(c) ==> UpperChar(LowerChar(c)) == c && IsLower(LowerChar(c))
    ensures IsLower(c) ==> LowerChar(UpperChar(c)) == c && IsUpper(UpperChar(c))
    ensures UpperChar(UpperChar(c)) == UpperChar(c)
  {
  }

  /** `Char.isWhitespace()` on the JVM: `Character.isWhitespace || Character.isSpaceChar`. */
  predicate IsWhitespace(c: char)
  {
    var n := c as int;
    || 9 <= n <= 13 || 0x1C <= n <= 0x20
    || n == 0xA0 || n == 0x1680 || 0x2000 <= n <= 0x200A
    || n == 0x2028 || n == 0x2029 || n == 0x202F || n == 0x205F || n == 0x3000
  }

  /** `CharSequence.isBlank()`: empty or whitespace only. */
  predicate IsBlank(s: string)
  {
    forall i :: 0 <= i < |s| ==> IsWhitespace(s[i])
  }

  /** Drops the leading whitespace: the longest suffix that does not start with whitespace. */
  function TrimStart(s: string): (r: string)
    ensures |r| <= |s| && r == s[|s| - |r|..]
    ensures r == [] || !IsWhitespace(r[0])
    ensures IsBlank(s[..|s| - |r|])
  {
    if s != [] && IsWhitespace(s[0]) then TrimStart(s[1..]) else s
  }

  /** Drops the trailing whitespace: the longest prefix that does not end with whitespace. */
  function TrimEnd(s: string): (r: string)
    ensures |r| <= |s| && r == s[..|r|]
    ensures r == [] || !IsWhitespace(r[|r| - 1])
    ensures IsBlank(s[|r|..])
  {
    if s != [] && IsWhitespace(s[|s| - 1]) then TrimEnd(s[..|s| - 1]) else s
  }

  /** `String.trim()`. */
  function Trim(s: string): (r: string)
    ensures r == [] <==> IsBlank(s)
    ensures r == [] || (!IsWhitespace(r[0]) && !IsWhitespace(r[|r| - 1]))
    ensures s != [] && !IsWhitespace(s[0]) && !IsWhitespace(s[|s| - 1]) ==> r == s
  {
    var t := TrimStart(s);
    assert IsBlank(s[..|s| - |t|]);
    var r := TrimEnd(t);
    assert r == [] ==> IsBlank(s) by {
      if r == [] {
        assert t == [] by {
          assert IsBlank(t[|r|..]) && t[|r|..] == t;
        }
        forall i | 0 <= i < |s| ensures IsWhitespace(s[i]) {
          assert s[i] == s[..|s| - |t|][i];
        }
      }
    }
    r
  }

  /** `joinToString(sep)`. */
  function Join(parts: seq<string>, sep: string): string
  {
    if |parts| == 0 then ""
    else if |parts| == 1 then parts[0]
    else parts[0] + sep + Join(parts[1..], sep)
  }

  /** `joinToString("")`. */
  function Concat(parts: seq<string>): string
  {
    if parts == [] then "" else parts[0] + Concat(parts[1..])
  }

  /**
   * `split(" ")`: the pieces between single spaces, empty pieces included.
   * The pieces hold no space and joining them with a space gives `s` back.
   */
  function Split(s: string): (r: seq<string>)
    ensures |r| >= 1
    ensures forall i :: 0 <= i < |r| ==> ' ' !in r[i]
    ensures Join(r, " ") == s
  {
    if s == [] then [""]
    else
      var rest := Split(s[1..]);
      if s[0] == ' ' then [""] + rest
      else [[s[0]] + rest[0]] + rest[1..]
  }

  predicate NoSpaces(parts: seq<string>)
  {
    forall i :: 0 <= i < |parts| ==> ' ' !in parts[i]
  }

  /** Splitting undoes joining, when no piece holds a space. */
  lemma {:induction false} SplitJoin(parts: seq<string>)
    requires |parts| >= 1 && NoSpaces(parts)
    ensures Split(Join(parts, " ")) == parts
  {
    if |parts| == 1 {
      SplitNoSpace(parts[0]);
    } else {
      var tail := parts[1..];
      SplitJoin(tail);
      SplitPrefix(parts[0], Join(tail, " "));
    }
  }

  lemma {:induction false} SplitNoSpace(s: string)
    requires ' ' !in s
    ensures Split(s) == [s]
  {
    if s != [] {
      SplitNoSpace(s[1..]);
    }
  }

  lemma {:induction false} SplitPrefix(a: string, b: string)
    requires ' ' !in a
    ensures Split(a + " " + b) == [a] + Split(b)
  {
    if a == [] {
      assert a + " " + b == [' '] + b;
      assert (a + " " + b)[1..] == b;
    } else {
      assert (a + " " + b)[1..] == a[1..] + " " + b;
      SplitPrefix(a[1..], b);
      assert [a[0]] + a[1..] == a;
    }
  }

  /** The characters of `s` other than spaces, in order. */
  function WithoutSpaces(s: string): string
  {
    if s == [] then "" else (if s[0] == ' ' then "" else [s[0]]) + WithoutSpaces(s[1..])
  }

  lemma {:induction false} WithoutSpacesAppend(a: string, b: string)
    ensures WithoutSpaces(a + b) == WithoutSpaces(a) + WithoutSpaces(b)
  {
    if a == [] {
      assert a + b == b;
    } else {
      assert (a + b)[1..] == a[1..] + b;
      WithoutSpacesAppend(a[1..], b);
    }
  }

  /** `indexOf(c)`: the first position of `c`, or -1. */
  function IndexOf(s: string, c: char): (r: int)
    ensures r == -1 <==> forall i :: 0 <= i < |s| ==> s[i] != c
    ensures r != -1 ==> 0 <= r < |s| && s[r] == c && forall i :: 0 <= i < r ==> s[i] != c
  {
    if s == [] then -1
    else if s[0] == c then 0
    else
      var k := IndexOf(s[1..], c);
      assert forall i :: 1 <= i < |s| ==> s[i] == s[1..][i - 1];
      if k == -1 then -1 else k + 1
  }

  /** `equals(other, ignoreCase = true)`. */
  predicate EqualsIgnoreCase(a: string, b: string)
  {
    |a| == |b| && forall i :: 0 <= i < |a| ==> UpperChar(a[i]) == UpperChar(b[i])
  }

  function DigitChar(d: int): char
    requires 0 <= d < 10
  {
    ('0' as int + d) as char
  }

  /** Decimal rendering of a non-negative number, as string templates print it. */
  function NatToString(n: nat): (r: string)
    ensures |r| >= 1
    ensures forall i :: 0 <= i < |r| ==> '0' <= r[i] <= '9'
    ensures n > 0 ==> r[0] != '0'
  {
    if n < 10 then [DigitChar(n)] else NatToString(n / 10) + [DigitChar(n % 10)]
  }

  /** The number a string of decimal digits denotes, most significant digit first. */
  function DecimalValue(s: string): int
  {
    if s == [] then 0 else DecimalValue(s[..|s| - 1]) * 10 + (s[|s| - 1] as int - '0' as int)
  }

  /** The rendering denotes the number it renders. */
  lemma {:induction false} NatToStringValue(n: nat)
    ensures DecimalValue(NatToString(n)) == n
  {
    if n >= 10 {
      NatToStringValue(n / 10);
      var r := NatToString(n);
      assert r[..|r| - 1] == NatToString(n / 10);
    }
  }

  /** `Int.toString()`. */
  function IntToString(n: int): string
  {
    if n < 0 then "-" + NatToString(-n) else NatToString(n)
  }
}
