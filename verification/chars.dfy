/** Character classes of the format mini-language, and the view of a
    `seq<char>` as a NUL-terminated C string. */
module Chars {

  const NUL: char := '\0'

  /** The character a `const char*` into `s` sees at index `i`: past the end
      of the sequence it sees the terminating NUL. An interior NUL ends the
      string just as it does in C. */
  function At(s: string, i: nat): char
  {
    if i < |s| then s[i] else NUL
  }

  predicate IsDigit(ch: char)
  {
    '0' <= ch <= '9'
  }

  predicate IsAsciiLetter(ch: char)
  {
    ('A' <= ch <= 'Z') || ('a' <= ch <= 'z')
  }

  /** The C99 length modifiers, which are skipped and ignored. */
  predicate IsLengthModifier(ch: char)
  {
    ch == 'l' || ch == 'h' || ch == 'L' || ch == 'j' || ch == 'z' || ch == 't'
  }

  /** A letter that ends a conversion spec: any ASCII letter other than a
      length modifier. */
  predicate IsSpecTerminator(ch: char)
  {
    IsAsciiLetter(ch) && !IsLengthModifier(ch)
  }

  /** The flag characters of a conversion spec. */
  predicate IsFlagChar(ch: char)
  {
    ch == '#' || ch == '0' || ch == '-' || ch == ' ' || ch == '+'
  }

  /** Every character of `s[i..j]` is one a spec may contain before its
      terminating letter: neither NUL nor a terminator. */
  ghost predicate InsideSpec(s: string, i: nat, j: nat)
    requires j <= |s|
  {
    forall k :: i <= k < j ==> s[k] != NUL && !IsSpecTerminator(s[k])
  }
}
