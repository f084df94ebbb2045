/** CHAR16 strings as the boot services use them. */
module WideStrings {

  /** A CHAR16. */
  type wchar = c: int | 0 <= c < 0x1_0000

  /** A NUL-terminated buffer: the text and nothing else before its terminator. */
  predicate IsString(b: seq<wchar>) {
    |b| > 0 && b[|b| - 1] == 0 && forall i | 0 <= i < |b| - 1 :: b[i] != 0
  }

  /** The text from position i on. */
  function TextFrom(b: seq<wchar>, i: nat): seq<wchar>
    requires IsString(b) && i < |b|
  {
    b[i..|b| - 1]
  }

  function Text(b: seq<wchar>): seq<wchar>
    requires IsString(b)
  {
    b[..|b| - 1]
  }

  /** A larger buffer starts with this text and a terminator. */
  predicate Holds(b: seq<wchar>, text: seq<wchar>) {
    |text| < |b| && b[..|text|] == text && b[|text|] == 0
  }
}
