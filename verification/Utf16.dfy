/** Text as the program measures and cuts it: a sequence of UTF-16 code units. */
module Utf16 {
  type CodeUnit = n: nat | n < 0x1_0000

  type Text = seq<CodeUnit>

  predicate IsAscii(s: string) {
    forall i :: 0 <= i < |s| ==> s[i] < '\U{80}'
  }

  /** The code units of an ASCII string, one for each character. */
  function Ascii(s: string): (units: Text)
    requires IsAscii(s)
    ensures |units| == |s| && forall i :: 0 <= i < |s| ==> units[i] == s[i] as int
  {
    seq(|s|, i requires 0 <= i < |s| => s[i] as int)
  }
}
