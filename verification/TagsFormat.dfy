/** What a reader of a tags file finds in the lines that lib-src/ootags.c prints:
    the entries they were printed for. */
module TagsFormat {
  import opened Wrappers
  import opened TagsSpec

  // ------------------------------------------------------------------ numbers

  predicate IsDigits(s: string) {
    forall i :: 0 <= i < |s| ==> '0' <= s[i] <= '9'
  }

  function DigitsValue(s: string): nat
    requires IsDigits(s)
  {
    if s == "" then 0 else DigitsValue(s[..|s| - 1]) * 10 + (s[|s| - 1] as int - '0' as int)
  }

  predicate IsNumber(s: string) {
    s != "" && if s[0] == '-' then |s| > 1 && IsDigits(s[1..]) else IsDigits(s)
  }

  function NumberValue(s: string): int
    requires IsNumber(s)
  {
    var value: int := DigitsValue(if s[0] == '-' then s[1..] else s);
    if s[0] == '-' then -value else value
  }

  lemma {:induction false} DigitsRead(n: nat)
    ensures IsDigits(Decimal(n)) && DigitsValue(Decimal(n)) == n
    decreases n
  {
    if n >= 10 {
      DigitsRead(n / 10);
      assert Decimal(n)[..|Decimal(n)| - 1] == Decimal(n / 10);
    } else {
      assert Decimal(n)[..0] == "";
    }
  }

  /** A printed number reads as that number. */
  lemma NumberReads(n: int)
    ensures IsNumber(Decimal(n)) && NumberValue(Decimal(n)) == n
  {
    if n < 0 {
      DigitsRead(-n);
      assert Decimal(n)[1..] == Decimal(-n);
    } else {
      DigitsRead(n);
    }
  }

  /** A number holds no character but digits and a minus sign. */
  lemma NumberHolds(s: string, c: char)
    requires IsNumber(s) && c != '-' && !('0' <= c <= '9')
    ensures c !in s
  {
    forall i | 0 <= i < |s| ensures s[i] != c {
      if s[0] == '-' && i > 0 {
        assert s[i] == s[1..][i - 1];
      }
    }
  }

  // ------------------------------------------------------------------- fields

  /** The position of the first c, or the end. */
  function Find(s: string, c: char): (i: nat)
    ensures i <= |s| && c !in s[..i] && (i < |s| ==> s[i] == c)
  {
    if s == "" || s[0] == c then 0 else 1 + Find(s[1..], c)
  }

  /** The field in front of the first c, and what is behind it. */
  function Field(s: string, c: char): (string, string) {
    var i := Find(s, c);
    (s[..i], if i < |s| then s[i + 1..] else "")
  }

  lemma {:induction false} FindIs(a: string, c: char, b: string)
    requires c !in a
    ensures Find(a + [c] + b, c) == |a|
  {
    if a != "" {
      FindIs(a[1..], c, b);
      assert (a + [c] + b)[1..] == a[1..] + [c] + b;
    }
  }

  lemma FieldIs(a: string, c: char, b: string)
    requires c !in a
    ensures Field(a + [c] + b, c) == (a, b)
  {
    FindIs(a, c, b);
    assert (a + [c] + b)[..|a|] == a && (a + [c] + b)[|a| + 1..] == b;
  }

  // -------------------------------------------------------------- etags lines

  datatype EtagsEntry = EtagsEntry(pat: string, name: Option<string>, lno: int, cno: int)

  /** The pattern stands before DEL, the name, if there is one, before ^A, then the
      line number before a comma and the character number before the newline. */
  function ReadEtags(line: string): Option<EtagsEntry> {
    var (pat, behind) := Field(line, '\U{7F}');
    var named := '\U{01}' in behind;
    var (name, rest) := Field(behind, '\U{01}');
    var (lno, cno) := Field(if named then rest else behind, ',');
    if !IsNumber(lno) || !IsNumber(Field(cno, '\n').0) then None
    else Some(EtagsEntry(pat, if named then Some(name) else None, NumberValue(lno), NumberValue(Field(cno, '\n').0)))
  }

  lemma NumbersRead(lno: int, cno: int)
    ensures var s := Decimal(lno) + "," + Decimal(cno) + "\n";
            && Field(s, ',') == (Decimal(lno), Decimal(cno) + "\n")
            && Field(Decimal(cno) + "\n", '\n') == (Decimal(cno), "")
            && '\U{01}' !in s
  {
    hide Field, IsNumber;
    NumberReads(lno);
    NumberReads(cno);
    NumberHolds(Decimal(lno), ',');
    NumberHolds(Decimal(lno), '\U{01}');
    NumberHolds(Decimal(cno), '\U{01}');
    NumberHolds(Decimal(cno), '\n');
    FieldIs(Decimal(lno), ',', Decimal(cno) + "\n");
    FieldIs(Decimal(cno), '\n', "");
    assert Decimal(lno) + [','] + (Decimal(cno) + "\n") == Decimal(lno) + "," + Decimal(cno) + "\n";
    assert Decimal(cno) + ['\n'] + "" == Decimal(cno) + "\n";
  }

  /** Reading a line of an etags table gives the entry it was printed for. */
  lemma {:induction false} EtagsReadsBack(e: Entry)
    requires '\U{7F}' !in e.pat && (e.name.Some? ==> '\U{01}' !in e.name.value)
    ensures ReadEtags(EtagsLine(e)) == Some(EtagsEntry(e.pat, e.name, e.lno, e.cno))
  {
    hide Field, Decimal, IsNumber, NumberValue;
    var nums := Decimal(e.lno) + "," + Decimal(e.cno) + "\n";
    NumbersRead(e.lno, e.cno);
    NumberReads(e.lno);
    NumberReads(e.cno);
    if e.name.Some? {
      var behind := e.name.value + ['\U{01}'] + nums;
      assert EtagsLine(e) == e.pat + ['\U{7F}'] + behind;
      FieldIs(e.pat, '\U{7F}', behind);
      FieldIs(e.name.value, '\U{01}', nums);
      assert behind[|e.name.value|] == '\U{01}';
    } else {
      assert EtagsLine(e) == e.pat + ['\U{7F}'] + nums;
      FieldIs(e.pat, '\U{7F}', nums);
    }
  }

  // -------------------------------------------------------------- ctags lines

  datatype CtagsPlace = Pattern(pat: string) | Number(lno: int)
  datatype CtagsEntry = CtagsEntry(name: string, file: string, place: CtagsPlace)

  /** The text up to a slash without a backslash in front of it, with a backslash
      taken off every character that has one, and what is behind the slash. */
  function ReadPattern(s: string): (string, string) {
    if s == "" then ("", "")
    else if s[0] == '/' then ("", s[1..])
    else if s[0] == '\\' && |s| > 1 then var (p, t) := ReadPattern(s[2..]); ([s[1]] + p, t)
    else var (p, t) := ReadPattern(s[1..]); ([s[0]] + p, t)
  }

  lemma {:induction false} PatternReads(pat: string, t: string)
    ensures ReadPattern(Escaped(pat) + "/" + t) == (pat, t)
  {
    var s := Escaped(pat) + "/" + t;
    if pat == "" {
      assert s[1..] == t;
    } else {
      var rest := Escaped(pat[1..]) + "/" + t;
      PatternReads(pat[1..], t);
      assert pat == [pat[0]] + pat[1..];
      if pat[0] == '\\' || pat[0] == '/' {
        assert s == "\\" + [pat[0]] + rest;
        assert s[2..] == rest;
      } else {
        assert s == [pat[0]] + rest;
        assert s[1..] == rest;
      }
    }
  }

  /** Name and file stand before tabs; then comes either a search pattern for the
      start of a line, in slashes, or a line number. */
  function ReadCtags(line: string): Option<CtagsEntry> {
    var (name, behind) := Field(line, '\t');
    var (file, place) := Field(behind, '\t');
    if place != "" && place[0] == '/' then
      var (p, t) := ReadPattern(place[1..]);
      if p == "" || p[0] != '^' || t != "\n" then None else Some(CtagsEntry(name, file, Pattern(p[1..])))
    else
      var lno := Field(place, '\n').0;
      if IsNumber(lno) then Some(CtagsEntry(name, file, Number(NumberValue(lno)))) else None
  }

  /** Reading a line of a ctags table gives the entry: its name, its file, and the
      pattern of a function or the line number of anything else. */
  lemma {:induction false} CtagsReadsBack(e: Entry)
    requires '\t' !in Key(e) && '\t' !in e.file
    ensures ReadCtags(CtagsLine(e))
            == Some(CtagsEntry(Key(e), e.file, if e.isFunc then Pattern(e.pat) else Number(e.lno)))
  {
    hide Field, Decimal, IsNumber, NumberValue, ReadPattern, Escaped;
    var place := (if e.isFunc then "/^" + Escaped(e.pat) + "/" else Decimal(e.lno)) + "\n";
    assert CtagsLine(e) == Key(e) + ['\t'] + (e.file + ['\t'] + place);
    FieldIs(Key(e), '\t', e.file + ['\t'] + place);
    FieldIs(e.file, '\t', place);
    if e.isFunc {
      PatternWithCaret(e.pat);
      assert place[1..] == "^" + Escaped(e.pat) + "/" + "\n";
    } else {
      NumberReads(e.lno);
      NumberHolds(Decimal(e.lno), '\n');
      NumberHolds(Decimal(e.lno), '/');
      FieldIs(Decimal(e.lno), '\n', "");
      assert place == Decimal(e.lno) + ['\n'] + "";
    }
  }

  lemma PatternWithCaret(pat: string)
    ensures ReadPattern("^" + Escaped(pat) + "/" + "\n") == ("^" + pat, "\n")
  {
    assert ("^" + pat)[1..] == pat;
    assert Escaped("^" + pat) == "^" + Escaped(pat);
    PatternReads("^" + pat, "\n");
  }

  // -------------------------------------------------------------- whole tables

  /** The lines of a text, each without its newline. */
  function SplitLines(s: string): seq<string>
    decreases |s|
  {
    if s == "" then [] else var (line, rest) := Field(s, '\n'); [line] + SplitLines(rest)
  }

  /** The entry takes up one line. */
  predicate OneLine(ctags: bool, e: Entry) {
    var line := Line(ctags, e);
    '\n' !in line[..|line| - 1]
  }

  lemma SplitFirst(line: string, rest: string)
    requires '\n' !in line
    ensures SplitLines(line + ['\n'] + rest) == [line] + SplitLines(rest)
  {
    hide Field;
    FieldIs(line, '\n', rest);
  }

  lemma TextOfFirst(ctags: bool, e: Entry, es: seq<Entry>)
    ensures Text(ctags, [e] + es) == Line(ctags, e) + Text(ctags, es)
  {
    hide Line;
    assert [e][..0] == [];
    TextConcat(ctags, [e], es);
  }

  /** A table has one line for each entry, in order. */
  lemma {:induction false} TableLines(ctags: bool, es: seq<Entry>)
    requires forall k :: 0 <= k < |es| ==> OneLine(ctags, es[k])
    ensures var lines := SplitLines(Text(ctags, es));
            |lines| == |es| && forall k :: 0 <= k < |es| ==> lines[k] + "\n" == Line(ctags, es[k])
  {
    hide Line, Text, SplitLines;
    if es == [] {
      NoLines(ctags);
    } else {
      var line, rest := Line(ctags, es[0]), Text(ctags, es[1..]);
      TableLines(ctags, es[1..]);
      LineEnds(ctags, es[0]);
      assert es == [es[0]] + es[1..];
      TextOfFirst(ctags, es[0], es[1..]);
      SplitFirst(line[..|line| - 1], rest);
    }
  }

  lemma NoLines(ctags: bool)
    ensures SplitLines(Text(ctags, [])) == []
  {
  }

  lemma LineEnds(ctags: bool, e: Entry)
    ensures var line := Line(ctags, e); line != "" && line == line[..|line| - 1] + "\n"
  {
  }

  // -------------------------------------------------------------------- order

  /** Behind n common characters a ends, and b does not, or a has the lesser one. */
  predicate LessAt(a: string, b: string, n: nat) {
    n <= |a| && n < |b| && a[..n] == b[..n] && (n == |a| || a[n] < b[n])
  }

  lemma LessAtNext(a: string, b: string, n: nat)
    requires a != "" && b != ""
    ensures LessAt(a, b, 0) <==> a[0] < b[0]
    ensures n > 0 ==> (LessAt(a, b, n) <==> a[0] == b[0] && LessAt(a[1..], b[1..], n - 1))
  {
    if 0 < n <= |a| && n < |b| {
      assert a[..n] == [a[0]] + a[1..][..n - 1] && b[..n] == [b[0]] + b[1..][..n - 1];
      assert a[..n] == b[..n] ==> a[..n][0] == b[..n][0] && a[..n][1..] == b[..n][1..];
    }
  }

  /** strcmp is negative exactly for strings in the order of a dictionary. */
  lemma {:induction false} CompareIsLexicographic(a: string, b: string)
    ensures Compare(a, b) < 0 <==> exists n: nat :: LessAt(a, b, n)
  {
    if a == "" {
      assert b != "" ==> LessAt(a, b, 0);
    } else if b != "" {
      CompareIsLexicographic(a[1..], b[1..]);
      hide LessAt;
      if n: nat :| LessAt(a[1..], b[1..], n) {
        LessAtNext(a, b, n + 1);
      }
      if n: nat :| LessAt(a, b, n) {
        LessAtNext(a, b, n);
      }
      LessAtNext(a, b, 0);
    }
  }
}
