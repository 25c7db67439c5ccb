/** The Python `str` operations the core relies on: `split`, `join`, `strip`,
    `lower`, `encode` (UTF-8) and decimal formatting of integers. Python
    strings are sequences of code points, which is what Dafny's `string` is. */
module Strings {
  import opened Config

  // ---------------------------------------------------------------------
  // split / join on a single-character separator

  /** Index of the first occurrence of `c` in `s`. */
  function IndexOf(s: string, c: char): (i: nat)
    requires c in s
    ensures i < |s| && s[i] == c && c !in s[..i]
  {
    if s[0] == c then 0
    else
      var j := IndexOf(s[1..], c);
      assert s[..j + 1] == [s[0]] + s[1..][..j];
      1 + j
  }

  /** `s.split(sep)`: the pieces between separators, always at least one
      (`"".split(",") == [""]`). */
  function Split(s: string, sep: char): (parts: seq<string>)
    ensures |parts| >= 1
    ensures forall k :: 0 <= k < |parts| ==> sep !in parts[k]
    decreases |s|
  {
    if sep !in s then [s]
    else
      var i := IndexOf(s, sep);
      [s[..i]] + Split(s[i + 1..], sep)
  }

  /** `sep.join(parts)`; the empty list joins to the empty string. */
  function Join(parts: seq<string>, sep: char): string
  {
    if |parts| == 0 then ""
    else if |parts| == 1 then parts[0]
    else parts[0] + [sep] + Join(parts[1..], sep)
  }

  /** Joining the pieces of a split gives back the original string. */
  lemma {:induction false} JoinSplit(s: string, sep: char)
    ensures Join(Split(s, sep), sep) == s
    decreases |s|
  {
    if sep in s {
      var i := IndexOf(s, sep);
      JoinSplit(s[i + 1..], sep);
      var rest := Split(s[i + 1..], sep);
      assert Split(s, sep) == [s[..i]] + rest;
      assert ([s[..i]] + rest)[1..] == rest;
      assert s == s[..i] + [sep] + s[i + 1..];
    }
  }

  /** Splitting a join of separator-free pieces gives back the pieces. */
  lemma {:induction false} SplitJoin(parts: seq<string>, sep: char)
    requires |parts| >= 1
    requires forall k :: 0 <= k < |parts| ==> sep !in parts[k]
    ensures Split(Join(parts, sep), sep) == parts
  {
    if |parts| > 1 {
      var s := Join(parts, sep);
      var p := parts[0];
      var tail := Join(parts[1..], sep);
      assert s == p + [sep] + tail;
      assert s[|p|] == sep;
      var i := IndexOf(s, sep);
      assert s[..i] == p;
      assert s[i + 1..] == tail;
      SplitJoin(parts[1..], sep);
    }
  }

  // ---------------------------------------------------------------------
  // strip / lower

  /** Python's `str.isspace()`: the characters that `str.strip()` removes. */
  predicate IsSpace(c: char)
  {
    var n := c as int;
    n == 0x20 || 0x09 <= n <= 0x0D || 0x1C <= n <= 0x1F || n == 0x85 || n == 0xA0
    || n == 0x1680 || 0x2000 <= n <= 0x200A || n == 0x2028 || n == 0x2029
    || n == 0x202F || n == 0x205F || n == 0x3000
  }

  function StripLeading(s: string): (r: string)
    ensures |r| <= |s| && r == s[|s| - |r|..]
    ensures forall k :: 0 <= k < |s| - |r| ==> IsSpace(s[k])
    ensures r == [] || !IsSpace(r[0])
  {
    if s != [] && IsSpace(s[0]) then StripLeading(s[1..]) else s
  }

  function StripTrailing(s: string): (r: string)
    ensures |r| <= |s| && r == s[..|r|]
    ensures forall k :: |r| <= k < |s| ==> IsSpace(s[k])
    ensures r == [] || !IsSpace(r[|r| - 1])
  {
    if s != [] && IsSpace(s[|s| - 1]) then StripTrailing(s[..|s| - 1]) else s
  }

  /** `s.strip()`: `s` without its leading and trailing whitespace. */
  function Strip(s: string): (r: string)
    ensures var lo := |s| - |StripLeading(s)|;
            && lo + |r| <= |s| && r == s[lo..lo + |r|]
            && (forall k :: 0 <= k < lo ==> IsSpace(s[k]))
            && (forall k :: lo + |r| <= k < |s| ==> IsSpace(s[k]))
    ensures r == [] || (!IsSpace(r[0]) && !IsSpace(r[|r| - 1]))
  {
    StripTrailing(StripLeading(s))
  }

  /** Text with no blank at either end is its own strip. */
  lemma StripUnchanged(s: string)
    requires s == [] || (!IsSpace(s[0]) && !IsSpace(s[|s| - 1]))
    ensures Strip(s) == s
  {
    assert StripLeading(s) == s;
  }

  /** A leading blank is dropped by the strip. */
  lemma StripLeadingSpace(s: string)
    requires s != [] && IsSpace(s[0])
    ensures Strip(s) == Strip(s[1..])
  {
  }

  /** A trailing blank is dropped by the strip. */
  lemma StripTrailingSpace(s: string)
    requires |s| >= 2 && !IsSpace(s[0]) && IsSpace(s[|s| - 1])
    ensures Strip(s) == Strip(s[..|s| - 1])
  {
    assert StripLeading(s) == s;
    assert StripLeading(s[..|s| - 1]) == s[..|s| - 1];
  }

  function LowerChar(c: char): char
  {
    if 'A' <= c <= 'Z' then (c as int + 32) as char else c
  }

  /** `s.lower()` on ASCII letters; other characters are kept. */
  function Lower(s: string): (r: string)
    ensures |r| == |s|
    ensures forall k :: 0 <= k < |s| ==> r[k] == LowerChar(s[k])
  {
    seq(|s|, k requires 0 <= k < |s| => LowerChar(s[k]))
  }

  // ---------------------------------------------------------------------
  // decimal formatting, `f"{n}"`

  function DigitChar(d: nat): char
    requires d < 10
  {
    ('0' as int + d) as char
  }

  predicate IsDigit(c: char)
  {
    '0' <= c <= '9'
  }

  /** The decimal digits of `n`, most significant first, no leading zero. */
  function NatToString(n: nat): (s: string)
    ensures |s| >= 1 && forall k :: 0 <= k < |s| ==> IsDigit(s[k])
    ensures |s| > 1 ==> s[0] != '0'
  {
    if n < 10 then [DigitChar(n)] else NatToString(n / 10) + [DigitChar(n % 10)]
  }

  /** The number a string of decimal digits denotes (the partner of
      `NatToString`, as Python's `int(...)` is of `str(...)`). */
  function DigitsValue(s: string): nat
    requires forall k :: 0 <= k < |s| ==> IsDigit(s[k])
  {
    if s == [] then 0
    else
      assert IsDigit(s[|s| - 1]);
      DigitsValue(s[..|s| - 1]) * 10 + (s[|s| - 1] as int - '0' as int)
  }

  lemma {:induction false} NatToStringRoundTrip(n: nat)
    ensures DigitsValue(NatToString(n)) == n
  {
    if n >= 10 {
      NatToStringRoundTrip(n / 10);
      var s := NatToString(n);
      assert s[..|s| - 1] == NatToString(n / 10);
    }
  }

  // ---------------------------------------------------------------------
  // `str.encode()`: UTF-8

  /** The UTF-8 encoding of one code point. */
  function EncodeChar(c: char): (bs: seq<byte>)
    ensures 1 <= |bs| <= 4
    ensures (c as int < 0x80) == (|bs| == 1)
    ensures |bs| == 1 ==> bs[0] as int == c as int
    ensures |bs| > 1 ==> forall k :: 0 <= k < |bs| ==> bs[k] >= 0x80
  {
    var n := c as int;
    if n < 0x80 then [n as byte]
    else if n < 0x800 then [(0xC0 + n / 64) as byte, (0x80 + n % 64) as byte]
    else if n < 0x10000 then
      [(0xE0 + n / 4096) as byte, (0x80 + (n / 64) % 64) as byte, (0x80 + n % 64) as byte]
    else
      [(0xF0 + n / 262144) as byte, (0x80 + (n / 4096) % 64) as byte,
       (0x80 + (n / 64) % 64) as byte, (0x80 + n % 64) as byte]
  }

  /** `s.encode()` with Python's default codec, UTF-8. */
  function Utf8(s: string): (bs: seq<byte>)
    ensures |s| <= |bs| <= 4 * |s|
  {
    if s == [] then [] else EncodeChar(s[0]) + Utf8(s[1..])
  }

  predicate IsAscii(s: string)
  {
    forall k :: 0 <= k < |s| ==> s[k] as int < 0x80
  }

  /** On ASCII text UTF-8 is the identity on code points. */
  lemma {:induction false} Utf8Ascii(s: string)
    requires IsAscii(s)
    ensures |Utf8(s)| == |s|
    ensures forall k :: 0 <= k < |s| ==> Utf8(s)[k] as int == s[k] as int
  {
    if s != [] {
      Utf8Ascii(s[1..]);
      assert Utf8(s) == EncodeChar(s[0]) + Utf8(s[1..]);
      forall k | 0 < k < |s|
        ensures Utf8(s)[k] as int == s[k] as int
      {
        assert Utf8(s)[k] == Utf8(s[1..])[k - 1];
      }
    }
  }

  /** Distinct ASCII strings have distinct encodings. */
  lemma Utf8AsciiInjective(a: string, b: string)
    requires IsAscii(a) && IsAscii(b)
    requires Utf8(a) == Utf8(b)
    ensures a == b
  {
    Utf8Ascii(a);
    Utf8Ascii(b);
    assert |a| == |b|;
    forall k | 0 <= k < |a|
      ensures a[k] == b[k]
    {
      assert a[k] as int == Utf8(a)[k] as int;
    }
  }

  /** A byte below 0x80 in an encoding comes from that very ASCII character,
      so an encoding contains the byte of `c` only if the text contains `c`. */
  lemma {:induction false} Utf8AsciiByte(s: string, c: char)
    requires c as int < 0x80
    requires c !in s
    ensures forall k :: 0 <= k < |Utf8(s)| ==> Utf8(s)[k] as int != c as int
  {
    if s != [] {
      Utf8AsciiByte(s[1..], c);
      var e := EncodeChar(s[0]);
      assert Utf8(s) == e + Utf8(s[1..]);
      forall k | 0 <= k < |Utf8(s)|
        ensures Utf8(s)[k] as int != c as int
      {
        if k >= |e| {
          assert Utf8(s)[k] == Utf8(s[1..])[k - |e|];
        }
      }
    }
  }
}
