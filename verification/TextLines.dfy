/** Newline-terminated text as the lines it consists of. */
module TextLines {
  import opened Bytes

  /** The pieces between newlines; the last is what follows the last newline. */
  function Lines(s: seq<byte>): (ls: seq<seq<byte>>)
    ensures ls != []
  {
    if s == [] then [[]]
    else
      var ls := Lines(s[1..]);
      if s[0] == LF then [[]] + ls else [[s[0]] + ls[0]] + ls[1..]
  }

  lemma {:induction false} FirstLine(a: seq<byte>, s: seq<byte>)
    requires LF !in a
    ensures Lines(a + [LF] + s) == [a] + Lines(s)
  {
    var t := a + [LF] + s;
    if a == [] {
      assert t[1..] == s;
    } else {
      FirstLine(a[1..], s);
      assert t[1..] == a[1..] + [LF] + s;
      assert [a[0]] + a[1..] == a;
    }
  }

  /** Joining the lines again gives the text: nothing but the newlines is dropped. */
  function Join(ls: seq<seq<byte>>): seq<byte>
    requires ls != []
  {
    if |ls| == 1 then ls[0] else ls[0] + [LF] + Join(ls[1..])
  }

  lemma {:induction false} JoinInvertsLines(s: seq<byte>)
    ensures Join(Lines(s)) == s
  {
    if s != [] {
      JoinInvertsLines(s[1..]);
      var ls := Lines(s[1..]);
      assert s == [s[0]] + s[1..];
      if s[0] == LF {
        assert ([[]] + ls)[1..] == ls;
      } else {
        assert ([[s[0]] + ls[0]] + ls[1..])[1..] == ls[1..];
      }
    }
  }
}
