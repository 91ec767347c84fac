/**
 * Character classes and case folding as the C library's <ctype.h> calls see
 * them in the "C" locale.  A stream character is an int: a byte value, or
 * EOF (-1).
 */
module Chars {
  const EOF: int := -1

  /** isspace: space, \t, \n, \v, \f, \r. */
  predicate IsSpace(c: int)
  {
    c == 32 || 9 <= c <= 13
  }

  /** isdigit. */
  predicate IsDigit(c: int)
  {
    48 <= c <= 57
  }

  predicate IsUpper(c: int)
  {
    65 <= c <= 90
  }

  predicate IsLower(c: int)
  {
    97 <= c <= 122
  }

  /** isalnum. */
  predicate IsAlnum(c: int)
  {
    IsDigit(c) || IsUpper(c) || IsLower(c)
  }

  /** HtmlLibLowerChar / HTML_LowerChar: A-Z move to a-z, every other byte stays. */
  function LowerChar(c: char): (r: char)
    ensures IsLower(r as int) <==> IsLower(c as int) || IsUpper(c as int)
    ensures r != c <==> IsUpper(c as int)
    ensures r != c ==> r as int == c as int + 32
  {
    if IsUpper(c as int) then (c as int + 32) as char else c
  }

  /** A lowered copy of a string. */
  function Lowered(s: string): (r: string)
    ensures |r| == |s|
    ensures forall i | 0 <= i < |s| :: r[i] == LowerChar(s[i])
  {
    seq(|s|, i requires 0 <= i < |s| => LowerChar(s[i]))
  }

  /**
   * HtmlLibSetTextLowered's copy loop (and v1's HTML_CopyLoweredString):
   * a buffer of the same length filled byte by byte with LowerChar.
   */
  method CopyLowered(text: string) returns (r: string)
    ensures r == Lowered(text)
  {
    var buffer := new char[|text|];
    var i := 0;
    while i < |text|
      invariant 0 <= i <= |text|
      invariant forall j | 0 <= j < i :: buffer[j] == LowerChar(text[j])
    {
      buffer[i] := LowerChar(text[i]);
      i := i + 1;
    }
    r := buffer[..];
  }

  /** Lowering twice is lowering once. */
  lemma LoweredIdempotent(s: string)
    ensures Lowered(Lowered(s)) == Lowered(s)
  {
  }

  /** A C string: no byte of it is NUL. */
  predicate CString(s: string)
  {
    forall i | 0 <= i < |s| :: s[i] != '\0'
  }

  /** A C string of bytes: every character is a byte other than NUL. */
  predicate CBytes(s: string)
  {
    forall i | 0 <= i < |s| :: 0 < s[i] as int < 256
  }

  /** Text a C program reads through the ctype calls the library makes: bytes 1..127. */
  predicate Ascii(s: string)
  {
    forall i | 0 <= i < |s| :: 0 < s[i] as int < 128
  }

  /** What a NUL-terminated buffer holding s reads as: s up to its first NUL. */
  function CPrefix(s: string): (r: string)
    ensures |r| <= |s| && r == s[..|r|]
    ensures CString(r)
    ensures |r| < |s| ==> s[|r|] == '\0'
  {
    if s == [] || s[0] == '\0' then [] else [s[0]] + CPrefix(s[1..])
  }

  /** A C string reads back unchanged. */
  lemma CPrefixOfCString(s: string)
    requires CString(s)
    ensures CPrefix(s) == s
  {
  }
}
