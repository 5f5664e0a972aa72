/** Stock datatypes shared by the models. */
module Wrappers {
  datatype Option<+T> = None | Some(value: T)
}

/** What a C unsigned char holds, and the characters that several models name. */
module Bytes {
  type byte = x: int | 0 <= x < 256

  const NUL := 0
  const TAB := 9
  const LF := 10
  const CR := 13
  const SPACE := 32
  const DOT := 46
  const FROM_SPACE: seq<byte> := [70, 114, 111, 109, 32]

  /** The characters that these are the codes of. */
  lemma Ascii()
    ensures NUL == '\0' as int && TAB == '\t' as int && LF == '\n' as int && CR == '\r' as int
    ensures SPACE == ' ' as int && DOT == '.' as int && FROM_SPACE == Codes("From ")
  {
  }

  /** The codes of a text. */
  function Codes(s: string): (c: seq<byte>)
    requires forall i :: 0 <= i < |s| ==> s[i] < '\U{0100}'
    ensures |c| == |s| && forall i :: 0 <= i < |s| ==> c[i] == s[i] as int
  {
    seq(|s|, i requires 0 <= i < |s| => s[i] as int)
  }
}
