/** Model of the quoted-printable half of lib-src/mmencode.c (section 6.7 of
    RFC 2045): toqp and fromqp.  There are no multipart boundaries: main always
    passes a null list. */
module QuotedPrintable {
  import opened Bytes
  import opened Stdio
  import opened TextLines

  const EQUALS := 61
  const F := 70
  const R := 114
  const O := 111
  const M := 109
  const FROM: seq<byte> := [F, R, O, M]

  // ----------------------------------------------------------- specifications

  /** basis_hex */
  function HexDigit(d: nat): byte
    requires d < 16
  {
    if d < 10 then 48 + d else 55 + d
  }

  /** hexchar: upper or lower case digits, -1 for any other character. */
  function HexChar(c: byte): (d: int)
    ensures -1 <= d < 16
  {
    if 48 <= c <= 57 then c - 48 else if 65 <= c <= 70 then c - 55 else if 97 <= c <= 102 then c - 87 else -1
  }

  function Escape(c: byte): seq<byte> {
    [EQUALS, HexDigit(c / 16), HexDigit(c % 16)]
  }

  predicate IsBlank(c: int) {
    c == SPACE || c == TAB
  }

  /** Characters that toqp always writes as an escape. */
  predicate NeedsEscape(c: byte) {
    (c < 32 && c != LF && c != TAB) || c == EQUALS || c >= 127
  }

  /** How many characters of x agree with "From" from the start. */
  function FromMatch(x: seq<byte>): (n: nat)
    ensures n <= 4 && n <= |x| && x[..n] == FROM[..n]
    ensures n < 4 && n < |x| ==> x[n] != FROM[n]
  {
    if |x| < 1 || x[0] != F then 0
    else if |x| < 2 || x[1] != R then 1
    else if |x| < 3 || x[2] != O then 2
    else if |x| < 4 || x[3] != M then 3
    else 4
  }

  /** What toqp does with the next characters of its input: the text written, how
      many characters that takes care of, and the new values of ct and prevc. */
  datatype Unit = Unit(text: seq<byte>, used: nat, ct: nat, prevc: int)

  function NextUnit(x: seq<byte>, ct: nat, prevc: int): (u: Unit)
    requires x != []
    ensures 1 <= u.used <= |x|
  {
    var c := x[0];
    if NeedsEscape(c) || (ct == 0 && c == DOT) then Unit(Escape(c), 1, ct + 3, 65)
    else if c == LF then Unit((if IsBlank(prevc) then [EQUALS, LF] else []) + [LF], 1, 0, LF)
    else if c == F && prevc == LF then
      var n := FromMatch(x);
      if n == 4 && |x| > 4 && x[4] == SPACE then Unit(Escape(F) + [R, O, M], 4, ct + 6, 120)
      else Unit(x[..n], n, ct + n, 120)
    else Unit([c], 1, ct + 1, c)
  }

  const SOFT_LIMIT := 72

  /** The text toqp writes for x, with ct characters in the current line and prevc
      the character before. */
  function ToQpText(x: seq<byte>, ct: nat, prevc: int): seq<byte> {
    if x == [] then (if ct != 0 then [EQUALS, LF] else [])
    else
      var u := NextUnit(x, ct, prevc);
      u.text + if u.ct > SOFT_LIMIT then [EQUALS, LF] + ToQpText(x[u.used..], 0, LF)
               else ToQpText(x[u.used..], u.ct, u.prevc)
  }

  /** The character an escape stands for, as putc truncates it. */
  function Unescape(c1: byte, c2: byte): byte {
    var d1, d2 := HexChar(c1), HexChar(c2);
    (if d2 < 0 then -1 else d1 * 16 + d2) % 256
  }

  /** No escape is cut short by the end of the input: there hexchar would be
      applied to EOF, for which its table has no entry. */
  predicate NoCutEscape(s: seq<byte>) {
    s == [] ||
    if s[0] != EQUALS then NoCutEscape(s[1..])
    else if |s| >= 2 && s[1] == LF then NoCutEscape(s[2..])
    else |s| >= 3 && NoCutEscape(s[3..])
  }

  /** What an encoded text stands for. */
  function FromQpText(s: seq<byte>): seq<byte>
    requires NoCutEscape(s)
  {
    if s == [] then []
    else if s[0] != EQUALS then [s[0]] + FromQpText(s[1..])
    else if s[1] == LF then FromQpText(s[2..])
    else [Unescape(s[1], s[2])] + FromQpText(s[3..])
  }

  // --------------------------------------------------------------- round trip

  ghost predicate DecodesTo(s: seq<byte>, x: seq<byte>) {
    NoCutEscape(s) && FromQpText(s) == x
  }

  lemma EscapeDecodes(c: byte, s: seq<byte>, x: seq<byte>)
    requires DecodesTo(s, x)
    ensures DecodesTo(Escape(c) + s, [c] + x)
  {
    var t := Escape(c) + s;
    assert t[3..] == s;
    assert Unescape(HexDigit(c / 16), HexDigit(c % 16)) == c;
  }

  lemma PlainDecodesOne(c: byte, s: seq<byte>, x: seq<byte>)
    requires DecodesTo(s, x) && c != EQUALS
    ensures DecodesTo([c] + s, [c] + x)
  {
    assert ([c] + s)[1..] == s;
  }

  lemma {:induction false} PlainDecodes(p: seq<byte>, s: seq<byte>, x: seq<byte>)
    requires DecodesTo(s, x) && EQUALS !in p
    ensures DecodesTo(p + s, p + x)
  {
    hide DecodesTo;
    if p == [] {
      assert p + s == s && p + x == x;
    } else {
      PlainDecodes(p[1..], s, x);
      PlainDecodesOne(p[0], p[1..] + s, p[1..] + x);
      assert [p[0]] + (p[1..] + s) == p + s && [p[0]] + (p[1..] + x) == p + x;
    }
  }

  lemma SoftBreakDecodes(s: seq<byte>, x: seq<byte>)
    requires DecodesTo(s, x)
    ensures DecodesTo([EQUALS, LF] + s, x)
  {
    assert ([EQUALS, LF] + s)[2..] == s;
  }

  lemma {:induction false} UnitDecodes(x: seq<byte>, ct: nat, prevc: int, s: seq<byte>)
    requires x != [] && DecodesTo(s, x[NextUnit(x, ct, prevc).used..])
    ensures DecodesTo(NextUnit(x, ct, prevc).text + s, x)
  {
    hide DecodesTo, Escape;
    var u := NextUnit(x, ct, prevc);
    var rest := x[u.used..];
    assert x == x[..u.used] + rest;
    var c := x[0];
    if NeedsEscape(c) || (ct == 0 && c == DOT) {
      EscapeDecodes(c, s, rest);
      assert x == [c] + rest;
    } else if c == LF {
      PlainDecodes([LF], s, rest);
      assert x == [LF] + rest;
      if IsBlank(prevc) {
        SoftBreakDecodes([LF] + s, [LF] + rest);
        assert u.text + s == [EQUALS, LF] + ([LF] + s);
      } else {
        assert u.text == [LF];
      }
    } else if u.text == Escape(F) + [R, O, M] {
      var rom: seq<byte> := [R, O, M];
      PlainDecodes(rom, s, rest);
      EscapeDecodes(F, rom + s, rom + rest);
      assert u.text + s == Escape(F) + (rom + s);
      assert x == [F] + (rom + rest);
    } else {
      assert u.text == x[..u.used] && EQUALS !in u.text;
      PlainDecodes(u.text, s, rest);
    }
  }

  /** fromqp inverts toqp on every byte sequence. */
  lemma {:induction false} RoundTrip(x: seq<byte>, ct: nat, prevc: int)
    ensures DecodesTo(ToQpText(x, ct, prevc), x)
    decreases |x|
  {
    if x == [] {
      SoftBreakDecodes([], []);
      assert [EQUALS, LF] + [] == [EQUALS, LF];
    } else {
      var u := NextUnit(x, ct, prevc);
      var rest := x[u.used..];
      if u.ct > SOFT_LIMIT {
        RoundTrip(rest, 0, LF);
        SoftBreakDecodes(ToQpText(rest, 0, LF), rest);
        UnitDecodes(x, ct, prevc, [EQUALS, LF] + ToQpText(rest, 0, LF));
      } else {
        RoundTrip(rest, u.ct, u.prevc);
        UnitDecodes(x, ct, prevc, ToQpText(rest, u.ct, u.prevc));
      }
    }
  }

  // ------------------------------------------------- the text, against RFC 2045

  /** Rule 1 of section 6.7: "=" and two digits, for which capital letters are used. */
  function Hexadecimal(c: byte): seq<byte> {
    DigitsAreAscii();
    ['=' as int, "0123456789ABCDEF"[c / 16] as int, "0123456789ABCDEF"[c % 16] as int]
  }

  lemma DigitsAreAscii()
    ensures forall d :: 0 <= d < 16 ==> "0123456789ABCDEF"[d] as int == if d < 10 then 48 + d else 55 + d
    ensures forall d :: 0 <= d < 16 ==> "0123456789abcdef"[d] as int == if d < 10 then 48 + d else 87 + d
  {
  }

  lemma EscapeIsHexadecimal(c: byte)
    ensures Escape(c) == Hexadecimal(c)
  {
    DigitsAreAscii();
  }

  /** The line break that toqp puts in: "=" at the end of a line. */
  function SoftBreak(): seq<byte> {
    ['=' as int, 10]
  }

  /** Control characters but for tab and newline, "=", DEL, everything that is not
      ASCII, and a dot at the start of a line are written in hexadecimal. */
  lemma BinaryIsEscaped(c: byte, x: seq<byte>, ct: nat, prevc: int)
    requires (c < 32 && c != 9 && c != 10) || c == 61 || c >= 127 || (ct == 0 && c == 46)
    ensures ToQpText([c] + x, ct, prevc)
            == Hexadecimal(c) + if ct + 3 > 72 then SoftBreak() + ToQpText(x, 0, 10) else ToQpText(x, ct + 3, 65)
  {
    hide Hexadecimal, Escape;
    assert ([c] + x)[1..] == x;
    EscapeIsHexadecimal(c);
  }

  /** Other characters are written as they are, but for an F at the start of a line,
      which takes a look ahead. */
  lemma TextIsKept(c: byte, x: seq<byte>, ct: nat, prevc: int)
    requires c == 9 || (32 <= c < 127 && c != 61 && !(ct == 0 && c == 46) && !(c == 70 && prevc == 10))
    ensures ToQpText([c] + x, ct, prevc)
            == [c] + if ct + 1 > 72 then SoftBreak() + ToQpText(x, 0, 10) else ToQpText(x, ct + 1, c)
  {
    assert ([c] + x)[1..] == x;
  }

  /** A newline ends a line of the text too, behind a soft break if a blank would
      end it otherwise. */
  lemma NewlineIsKept(x: seq<byte>, ct: nat, prevc: int)
    ensures ToQpText([10] + x, ct, prevc)
            == (if prevc == 32 || prevc == 9 then SoftBreak() else []) + [10] + ToQpText(x, 0, 10)
  {
    assert ([10] + x)[1..] == x;
    NewlineText([10] + x, ct, prevc);
  }

  /** "From " at the start of a line becomes "=46rom ". */
  lemma FromIsEscaped(x: seq<byte>)
    ensures ToQpText(Codes("From ") + x, 0, 10) == Codes("=46rom ") + ToQpText(x, 7, 32)
  {
    hide ToQpText;
    var t := Codes("From ") + x;
    var rest := [32] + x;
    assert t[..4] == FROM && t[4] == 32 && t[4..] == rest;
    MatchIs(t, 4);
    TextStep(t, 0, 10);
    TextIsKept(32, x, 6, 120);
    EscapedFrom();
    assert Codes("=46rom ") == [61, 52, 54, 114, 111, 109] + [32];
  }

  /** A last line without a newline is ended by a soft break. */
  lemma EndIsMarked(ct: nat, prevc: int)
    ensures ToQpText([], ct, prevc) == if ct == 0 then [] else SoftBreak()
  {
  }

  /** A line of printable characters that needs no care, or its rest behind ct others. */
  predicate PlainLine(line: seq<byte>, ct: nat, prevc: int) {
    && ct + |line| <= 72 && (forall i :: 0 <= i < |line| ==> 32 <= line[i] < 127 && line[i] != 61)
    && (if ct > 0 then prevc != 10 else line != [] ==> line[0] != 46 && !(line[0] == 70 && prevc == 10))
    && (if line == [] then prevc != 32 && prevc != 9 else line[|line| - 1] != 32)
  }

  lemma PlainLineRest(c: byte, rest: seq<byte>, ct: nat, prevc: int)
    requires PlainLine([c] + rest, ct, prevc)
    ensures PlainLine(rest, ct + 1, c) && ct + 1 <= 72
    ensures 32 <= c < 127 && c != 61 && !(ct == 0 && c == 46) && !(c == 70 && prevc == 10)
  {
    var line := [c] + rest;
    assert line[0] == c && forall i :: 0 <= i < |rest| ==> rest[i] == line[i + 1];
  }

  lemma PlainLineEnds(ct: nat, prevc: int)
    ensures PlainLine([], ct, prevc) ==> prevc != 32 && prevc != 9
  {
  }

  lemma Regroup<T>(a: seq<T>, b: seq<T>, c: seq<T>, d: seq<T>)
    ensures a + b + c + d == a + (b + c + d)
  {
  }

  /** Such a line is its own encoding, newline and all. */
  lemma {:induction false} PlainLineIsKept(line: seq<byte>, x: seq<byte>, ct: nat, prevc: int)
    requires PlainLine(line, ct, prevc)
    ensures ToQpText(line + [10] + x, ct, prevc) == line + [10] + ToQpText(x, 0, 10)
    decreases |line|
  {
    hide ToQpText, PlainLine;
    var t := ToQpText(x, 0, 10);
    if line == [] {
      PlainLineEnds(ct, prevc);
      NewlineIsKept(x, ct, prevc);
      assert [] + [10] + x == [10] + x && [] + [10] + t == [10] + t;
    } else {
      var c, rest := line[0], line[1..];
      assert line == [c] + rest;
      PlainLineRest(c, rest, ct, prevc);
      PlainLineIsKept(rest, x, ct + 1, c);
      TextIsKept(c, rest + [10] + x, ct, prevc);
      Regroup([c], rest, [10], x);
      Regroup([c], rest, [10], t);
    }
  }

  /** Decoding: "=" and two digits of either case give a byte, "=" at the end of a
      line gives nothing, and all else gives itself. */
  lemma HexadecimalDecodes(hi: nat, lo: nat, s: seq<byte>)
    requires hi < 16 && lo < 16 && NoCutEscape(s)
    ensures var capital := Codes("0123456789ABCDEF");
            && NoCutEscape([61, capital[hi], capital[lo]] + s)
            && FromQpText([61, capital[hi], capital[lo]] + s) == [hi * 16 + lo] + FromQpText(s)
    ensures var small := Codes("0123456789abcdef");
            && NoCutEscape([61, small[hi], small[lo]] + s)
            && FromQpText([61, small[hi], small[lo]] + s) == [hi * 16 + lo] + FromQpText(s)
  {
    hide NoCutEscape, FromQpText, HexChar;
    DigitsRead(hi);
    DigitsRead(lo);
    EscapeReads(Codes("0123456789ABCDEF")[hi], Codes("0123456789ABCDEF")[lo], s);
    EscapeReads(Codes("0123456789abcdef")[hi], Codes("0123456789abcdef")[lo], s);
  }

  lemma DigitsRead(d: nat)
    requires d < 16
    ensures HexChar(Codes("0123456789ABCDEF")[d]) == d && HexChar(Codes("0123456789abcdef")[d]) == d
    ensures Codes("0123456789ABCDEF")[d] != 10 && Codes("0123456789abcdef")[d] != 10
  {
    DigitsAreAscii();
  }

  lemma EscapeReads(c1: byte, c2: byte, s: seq<byte>)
    requires NoCutEscape(s) && c1 != 10
    ensures NoCutEscape([61, c1, c2] + s) && FromQpText([61, c1, c2] + s) == [Unescape(c1, c2)] + FromQpText(s)
  {
    assert ([61, c1, c2] + s)[3..] == s;
  }

  /** A second character that is no digit gives 255, a first one four bits that are one. */
  lemma BadDigitsDecode(c1: byte, c2: byte)
    ensures HexChar(c1) >= 0 <==>
              exists d :: 0 <= d < 16 && c1 in {Codes("0123456789ABCDEF")[d], Codes("0123456789abcdef")[d]}
    ensures HexChar(c2) < 0 ==> Unescape(c1, c2) == 255
    ensures HexChar(c1) < 0 <= HexChar(c2) ==> Unescape(c1, c2) == 240 + HexChar(c2)
  {
    DigitsAreAscii();
    if HexChar(c1) >= 0 {
      assert c1 in {Codes("0123456789ABCDEF")[HexChar(c1)], Codes("0123456789abcdef")[HexChar(c1)]};
    }
  }

  lemma SoftBreakVanishes(s: seq<byte>)
    requires NoCutEscape(s)
    ensures NoCutEscape(SoftBreak() + s) && FromQpText(SoftBreak() + s) == FromQpText(s)
  {
    assert (SoftBreak() + s)[2..] == s;
  }

  lemma TextDecodesToItself(c: byte, s: seq<byte>)
    requires NoCutEscape(s) && c != 61
    ensures NoCutEscape([c] + s) && FromQpText([c] + s) == [c] + FromQpText(s)
  {
    assert ([c] + s)[1..] == s;
  }

  // -------------------------------------------------------------- line shapes


  /** Printable characters and blanks: 7-bit text that survives any mailer. */
  predicate IsText(s: seq<byte>) {
    forall i :: 0 <= i < |s| ==> s[i] == 9 || 32 <= s[i] <= 126
  }

  /** A line that needs no care in transport: at most 76 characters, no trailing
      blank, no leading period; and no "From " at the start, unless it is the
      first line of all, which toqp does not protect. */
  predicate LineOk(line: seq<byte>, first: bool) {
    && |line| <= 76 && IsText(line)
    && (line != [] ==> line[|line| - 1] != 32 && line[|line| - 1] != 9 && line[0] != 46)
    && (!first ==> !(Codes("From ") <= line))
  }

  ghost predicate LinesOk(ls: seq<seq<byte>>, first: bool) {
    forall i :: 0 <= i < |ls| ==> LineOk(ls[i], first && i == 0)
  }

  /** What ct and prevc say about the current line cur while x is still to come. */
  ghost predicate LineSoFar(cur: seq<byte>, ct: nat, prevc: int, x: seq<byte>, first: bool) {
    && |cur| == ct && IsText(cur)
    && (prevc == LF ==> cur == [])
    && (cur != [] ==> cur[0] != DOT && (IsBlank(cur[|cur| - 1]) ==> IsBlank(prevc)))
    && (!first ==> if cur == [] then prevc == LF else !(FROM_SPACE <= cur + x))
  }

  lemma TextHasNoNewline(s: seq<byte>)
    requires IsText(s)
    ensures LF !in s
  {
  }

  /** A line ended by a soft break. */
  lemma {:induction false} SoftLineOk(cur: seq<byte>, ct: nat, prevc: int, x: seq<byte>, first: bool, s: seq<byte>)
    requires LineSoFar(cur, ct, prevc, x, first) && ct < 76 && LinesOk(Lines(s), false)
    ensures LinesOk(Lines(cur + [EQUALS, LF] + s), first)
  {
    var line := cur + [EQUALS];
    TextHasNoNewline(line);
    FirstLine(line, s);
    assert line + [LF] + s == cur + [EQUALS, LF] + s;
    if FROM_SPACE <= line {
      assert line[4] == SPACE && FROM_SPACE <= cur && FROM_SPACE <= cur + x;
    }
  }

  /** A line ended by a newline of the input. */
  lemma {:induction false} HardLineOk(cur: seq<byte>, ct: nat, prevc: int, x: seq<byte>, first: bool, s: seq<byte>)
    requires LineSoFar(cur, ct, prevc, x, first) && ct <= SOFT_LIMIT && !IsBlank(prevc) && LinesOk(Lines(s), false)
    ensures LinesOk(Lines(cur + [LF] + s), first)
  {
    TextHasNoNewline(cur);
    FirstLine(cur, s);
    if FROM_SPACE <= cur {
      assert FROM_SPACE <= cur + x;
    }
  }

  /** A line that starts with "From " does so with literal characters only. */
  lemma FromIsLiteral(cur: seq<byte>, text: seq<byte>, rest: seq<byte>, x: seq<byte>)
    requires text != [] && text[0] == EQUALS && !(FROM_SPACE <= cur + x)
    ensures !(FROM_SPACE <= cur + text + rest)
  {
    var line := cur + text + rest;
    if |cur| < 5 {
      assert line[|cur|] == EQUALS;
    }
  }

  /** Writing an escape keeps the description of the current line. */
  lemma EscapeKeepsLine(cur: seq<byte>, ct: nat, prevc: int, x: seq<byte>, first: bool,
                        text: seq<byte>, used: nat, prevc': int)
    requires LineSoFar(cur, ct, prevc, x, first) && used <= |x|
    requires text != [] && text[0] == EQUALS && IsText(text) && !IsBlank(text[|text| - 1]) && prevc' != LF
    ensures LineSoFar(cur + text, ct + |text|, prevc', x[used..], first)
  {
    if !first {
      if cur == [] {
        assert cur + text + x[used..] == [] + text + x[used..];
        FromIsLiteral([], text, x[used..], []);
      } else {
        FromIsLiteral(cur, text, x[used..], x);
      }
    }
  }

  /** So does writing the next n characters as they are. */
  lemma LiteralKeepsLine(cur: seq<byte>, ct: nat, prevc: int, x: seq<byte>, first: bool, n: nat, prevc': int)
    requires LineSoFar(cur, ct, prevc, x, first) && 1 <= n <= |x|
    requires IsText(x[..n]) && (IsBlank(x[n - 1]) ==> IsBlank(prevc')) && prevc' != LF
    requires cur == [] ==> x[0] != DOT && (first || !(FROM_SPACE <= x))
    ensures LineSoFar(cur + x[..n], ct + n, prevc', x[n..], first)
  {
    assert cur + x[..n] + x[n..] == cur + x;
  }

  /** The state after a unit describes the line it has been added to. */
  ghost predicate UnitOk(cur: seq<byte>, ct: nat, prevc: int, x: seq<byte>, first: bool)
    requires x != []
  {
    var u := NextUnit(x, ct, prevc);
    && LineSoFar(cur + u.text, u.ct, u.prevc, x[u.used..], first)
    && u.ct <= if ct == 0 then 6 else ct + 3
  }

  lemma EscapeUnitOk(cur: seq<byte>, ct: nat, prevc: int, x: seq<byte>, first: bool)
    requires LineSoFar(cur, ct, prevc, x, first) && x != [] && (NeedsEscape(x[0]) || (ct == 0 && x[0] == DOT))
    ensures UnitOk(cur, ct, prevc, x, first)
  {
    hide LineSoFar;
    EscapeKeepsLine(cur, ct, prevc, x, first, Escape(x[0]), 1, 65);
  }

  lemma FromUnitOk(cur: seq<byte>, ct: nat, prevc: int, x: seq<byte>, first: bool)
    requires LineSoFar(cur, ct, prevc, x, first) && x != [] && x[0] == F && prevc == LF
    ensures UnitOk(cur, ct, prevc, x, first)
  {
    hide LineSoFar, FromMatch;
    var n := FromMatch(x);
    LineStarts(cur, ct, prevc, x, first);
    if n == 4 && |x| > 4 && x[4] == SPACE {
      EscapedFrom();
      EscapeKeepsLine(cur, ct, prevc, x, first, Escape(F) + [R, O, M], 4, 120);
    } else {
      NoFromSpace(x);
      LiteralKeepsLine(cur, ct, prevc, x, first, n, 120);
    }
  }

  lemma NoFromSpace(x: seq<byte>)
    requires x != [] && x[0] == F && !(FromMatch(x) == 4 && |x| > 4 && x[4] == SPACE)
    ensures FromMatch(x) >= 1 && !(FROM_SPACE <= x)
    ensures IsText(x[..FromMatch(x)]) && !IsBlank(x[FromMatch(x) - 1])
  {
  }

  lemma PlainUnitOk(cur: seq<byte>, ct: nat, prevc: int, x: seq<byte>, first: bool)
    requires LineSoFar(cur, ct, prevc, x, first) && x != [] && x[0] != LF
    requires !NeedsEscape(x[0]) && !(ct == 0 && x[0] == DOT) && !(x[0] == F && prevc == LF)
    ensures UnitOk(cur, ct, prevc, x, first)
  {
    hide LineSoFar;
    LineStarts(cur, ct, prevc, x, first);
    assert x[..1] == [x[0]];
    LiteralKeepsLine(cur, ct, prevc, x, first, 1, x[0]);
  }

  lemma LineStarts(cur: seq<byte>, ct: nat, prevc: int, x: seq<byte>, first: bool)
    requires LineSoFar(cur, ct, prevc, x, first)
    ensures |cur| == ct && (prevc == LF ==> cur == []) && (!first && cur == [] ==> prevc == LF)
  {
  }

  /** Writing anything but a newline keeps the description of the current line. */
  lemma {:induction false} UnitKeepsLine(cur: seq<byte>, ct: nat, prevc: int, x: seq<byte>, first: bool)
    requires LineSoFar(cur, ct, prevc, x, first) && x != [] && x[0] != LF
    ensures var u := NextUnit(x, ct, prevc);
            && LineSoFar(cur + u.text, u.ct, u.prevc, x[u.used..], first)
            && u.ct <= if ct == 0 then 6 else ct + 3
  {
    hide LineSoFar, NextUnit;
    assert UnitOk(cur, ct, prevc, x, first) by {
      if NeedsEscape(x[0]) || (ct == 0 && x[0] == DOT) {
        EscapeUnitOk(cur, ct, prevc, x, first);
      } else if x[0] == F && prevc == LF {
        FromUnitOk(cur, ct, prevc, x, first);
      } else {
        PlainUnitOk(cur, ct, prevc, x, first);
      }
    }
  }

  lemma EmptyLineOk(first: bool)
    ensures LinesOk(Lines([]), first)
  {
  }

  /** Every line that toqp writes is fit for transport. */
  lemma {:induction false} QpLinesOk(cur: seq<byte>, ct: nat, prevc: int, x: seq<byte>, first: bool)
    requires LineSoFar(cur, ct, prevc, x, first) && ct <= SOFT_LIMIT
    ensures LinesOk(Lines(cur + ToQpText(x, ct, prevc)), first)
    decreases |x|
  {
    hide Lines, LinesOk, IsText, NextUnit;
    if x == [] {
      EmptyLineOk(first);
      EmptyLineOk(false);
      if ct == 0 {
        assert cur + [] == [];
      } else {
        SoftLineOk(cur, ct, prevc, x, first, []);
        assert cur + [EQUALS, LF] + [] == cur + [EQUALS, LF];
      }
    } else if x[0] == LF {
      NewlineLinesOk(cur, ct, prevc, x, first);
    } else {
      var u := NextUnit(x, ct, prevc);
      var rest := x[u.used..];
      UnitKeepsLine(cur, ct, prevc, x, first);
      if u.ct > SOFT_LIMIT {
        var t := ToQpText(rest, 0, LF);
        LineStart(rest, false);
        QpLinesOk([], 0, LF, rest, false);
        assert [] + t == t;
        SoftLineOk(cur + u.text, u.ct, u.prevc, rest, first, t);
        assert cur + (u.text + ([EQUALS, LF] + t)) == (cur + u.text) + [EQUALS, LF] + t;
      } else {
        QpLinesOk(cur + u.text, u.ct, u.prevc, rest, first);
        assert cur + (u.text + ToQpText(rest, u.ct, u.prevc)) == (cur + u.text) + ToQpText(rest, u.ct, u.prevc);
      }
    }
  }

  lemma LineStart(x: seq<byte>, first: bool)
    ensures LineSoFar([], 0, LF, x, first)
  {
  }

  lemma NewlineText(x: seq<byte>, ct: nat, prevc: int)
    requires x != [] && x[0] == LF
    ensures ToQpText(x, ct, prevc) == (if IsBlank(prevc) then [EQUALS, LF] else []) + [LF] + ToQpText(x[1..], 0, LF)
  {
  }

  lemma {:induction false} NewlineLinesOk(cur: seq<byte>, ct: nat, prevc: int, x: seq<byte>, first: bool)
    requires LineSoFar(cur, ct, prevc, x, first) && ct <= SOFT_LIMIT && x != [] && x[0] == LF
    ensures LinesOk(Lines(cur + ToQpText(x, ct, prevc)), first)
    decreases |x|, 0
  {
    hide Lines, LinesOk, IsText, LineSoFar, ToQpText, NextUnit;
    var t := ToQpText(x[1..], 0, LF);
    NewlineText(x, ct, prevc);
    LineStart(x[1..], false);
    QpLinesOk([], 0, LF, x[1..], false);
    assert [] + t == t;
    if IsBlank(prevc) {
      HardLineOk([], 0, LF, x[1..], false, t);
      assert [] + [LF] + t == [LF] + t;
      SoftLineOk(cur, ct, prevc, x, first, [LF] + t);
      assert cur + ([EQUALS, LF] + [LF] + t) == cur + [EQUALS, LF] + ([LF] + t);
    } else {
      HardLineOk(cur, ct, prevc, x, first, t);
      assert cur + ([] + [LF] + t) == cur + [LF] + t;
    }
  }

  /** toqp on whole inputs: prevc starts out as a character that is no newline. */
  lemma ToQpLinesOk(x: seq<byte>)
    ensures LinesOk(Lines(ToQpText(x, 0, 255)), true) && Join(Lines(ToQpText(x, 0, 255))) == ToQpText(x, 0, 255)
  {
    JoinInvertsLines(ToQpText(x, 0, 255));
    QpLinesOk([], 0, 255, x, true);
    assert [] + ToQpText(x, 0, 255) == ToQpText(x, 0, 255);
  }

  // ------------------------------------------------------------------- toqp

  lemma NoMoreText(ct: nat, prevc: int)
    ensures ToQpText([], ct, prevc) == if ct != 0 then [EQUALS, LF] else []
  {
  }

  /** One turn of the loop in toqp. */
  lemma TextStep(x: seq<byte>, ct: nat, prevc: int)
    requires x != []
    ensures var u := NextUnit(x, ct, prevc);
            ToQpText(x, ct, prevc) == u.text + if u.ct > SOFT_LIMIT then [EQUALS, LF] + ToQpText(x[u.used..], 0, LF)
                                               else ToQpText(x[u.used..], u.ct, u.prevc)
  {
  }

  lemma EscapedFrom()
    ensures Escape(F) + [R, O, M] == [EQUALS, 52, 54, R, O, M]
  {
  }

  /** How far the look-ahead for "From" gets. */
  lemma MatchIs(x: seq<byte>, n: nat)
    requires 1 <= n <= 4 && n <= |x| && x[0] == F
    requires (n > 1 ==> x[1] == R) && (n > 2 ==> x[2] == O) && (n > 3 ==> x[3] == M)
    requires n < |x| ==> (n == 1 ==> x[1] != R) && (n == 2 ==> x[2] != O) && (n == 3 ==> x[3] != M)
    ensures FromMatch(x) == n && x[..n] == FROM[..n]
  {
  }

  lemma FromParts()
    ensures FROM[..1] == [F] && FROM[..2] == [F, R] && FROM[..3] == [F, R, O] && FROM[..4] == FROM
  {
  }

  /** The look-ahead that spots "From" at the start of a line, the F having been
      read: how much of it is there, and the character behind that. */
  method LookAhead(infile: InFile) returns (n: nat, c: int)
    requires infile.Valid() && infile.pos > 0 && infile.data[infile.pos - 1] == F
    modifies infile`pos
    ensures var x := [F] + old(infile.Rest());
            && n == FromMatch(x) && 1 <= n && c == (if n < |x| then x[n] else EOF)
            && infile.Valid() && infile.pos == old(infile.pos) - 1 + n + if c == EOF then 0 else 1
  {
    hide FromMatch;
    ghost var x := [F] + infile.Rest();
    c := infile.Getc();
    n := 1;
    if c == R {
      c := infile.Getc();
      n := 2;
      if c == O {
        c := infile.Getc();
        n := 3;
        if c == M {
          c := infile.Getc();
          n := 4;
        }
      }
    }
    MatchIs(x, n);
  }

  /** Writes what the look-ahead has found, and gives back the character behind it. */
  method WriteFrom(infile: InFile, outfile: OutFile) returns (count: nat)
    requires infile.Valid() && infile.pos > 0 && infile.data[infile.pos - 1] == F
    modifies infile`pos, outfile
    ensures infile.Valid()
    ensures var x := [F] + old(infile.Rest());
            var n := FromMatch(x);
            && infile.Rest() == x[n..]
            && if n == 4 && |x| > 4 && x[4] == SPACE
               then count == 6 && outfile.written == old(outfile.written) + (Escape(F) + [R, O, M])
               else count == n && outfile.written == old(outfile.written) + x[..n]
  {
    hide FromMatch, Escape;
    ghost var p := infile.pos - 1;
    ghost var x := infile.data[p..];
    assert x == [F] + infile.Rest();
    var n, c := LookAhead(infile);
    FromParts();
    if n == 4 && c == SPACE {
      EscapedFrom();
      outfile.Fputs([EQUALS, 52, 54, R, O, M]);  // "=46rom"
      count := 6;
    } else {
      match n {
        case 1 => outfile.Fputs([F]);
        case 2 => outfile.Fputs([F, R]);
        case 3 => outfile.Fputs([F, R, O]);
        case _ => outfile.Fputs(FROM);
      }
      count := n;
    }
    infile.Ungetc(c);
    assert infile.pos == p + n;
  }

  /** One turn of the loop up to the test for a soft break; c has been read. */
  method WriteUnit(c: byte, ct: nat, prevc: int, infile: InFile, outfile: OutFile) returns (ct': nat, prevc': int)
    requires infile.Valid() && infile.pos > 0 && infile.data[infile.pos - 1] == c
    modifies infile`pos, outfile
    ensures infile.Valid()
    ensures var x := [c] + old(infile.Rest());
            var u := NextUnit(x, ct, prevc);
            && infile.Rest() == x[u.used..] && outfile.written == old(outfile.written) + u.text
            && ct' == u.ct && prevc' == u.prevc
  {
    if NeedsEscape(c) || (ct == 0 && c == DOT) {
      outfile.Putc(EQUALS);
      outfile.Putc(HexDigit(c / 16));
      outfile.Putc(HexDigit(c % 16));
      ct', prevc' := ct + 3, 65;  // 'A'
    } else if c == LF {
      if IsBlank(prevc) {
        outfile.Putc(EQUALS);
        outfile.Putc(c);
      }
      outfile.Putc(c);
      ct', prevc' := 0, c;
    } else if c == F && prevc == LF {
      var n := WriteFrom(infile, outfile);
      ct', prevc' := ct + n, 120;  // 'x'
    } else {
      outfile.Putc(c);
      ct', prevc' := ct + 1, c;
    }
  }

  method ToQp(infile: InFile, outfile: OutFile)
    requires infile.Valid()
    modifies infile`pos, outfile
    ensures infile.Valid()
    ensures outfile.written == old(outfile.written) + ToQpText(old(infile.Rest()), 0, 255)
  {
    hide NextUnit, ToQpText;
    ghost var goal := outfile.written + ToQpText(infile.Rest(), 0, 255);
    var ct, prevc := 0, 255;
    while true
      invariant infile.Valid() && 0 <= ct
      invariant outfile.written + ToQpText(infile.Rest(), ct, prevc) == goal
      decreases |infile.Rest()|
    {
      ghost var x := infile.Rest();
      var c := infile.Getc();
      if c == EOF {
        NoMoreText(ct, prevc);
        break;
      }
      assert [c] + infile.Rest() == x;
      TextStep(x, ct, prevc);
      ct, prevc := WriteUnit(c, ct, prevc, infile, outfile);
      if ct > SOFT_LIMIT {
        outfile.Putc(EQUALS);
        outfile.Putc(LF);
        ct, prevc := 0, LF;
      }
    }
    if ct != 0 {
      outfile.Putc(EQUALS);
      outfile.Putc(LF);
    }
  }

  // ------------------------------------------------------------------ fromqp

  /** One turn of the loop in fromqp, but for the newline it puts off. */
  lemma DecodeStep(s: seq<byte>)
    requires NoCutEscape(s) && s != []
    ensures if s[0] != EQUALS then NoCutEscape(s[1..]) && FromQpText(s) == [s[0]] + FromQpText(s[1..])
            else if |s| >= 2 && s[1] == LF then NoCutEscape(s[2..]) && FromQpText(s) == FromQpText(s[2..])
            else |s| >= 3 && NoCutEscape(s[3..]) && FromQpText(s) == [Unescape(s[1], s[2])] + FromQpText(s[3..])
  {
  }

  /** A newline is not written before the character behind it has been seen. */
  method FromQp(infile: InFile, outfile: OutFile)
    requires infile.Valid() && NoCutEscape(infile.Rest())
    modifies infile`pos, outfile
    ensures infile.Valid()
    ensures outfile.written == old(outfile.written) + FromQpText(old(infile.Rest()))
  {
    hide NoCutEscape, FromQpText, HexChar;
    ghost var goal := outfile.written + FromQpText(infile.Rest());
    var neednewline := false;
    while true
      invariant infile.Valid() && NoCutEscape(infile.Rest())
      invariant outfile.written + (if neednewline then [LF] else []) + FromQpText(infile.Rest()) == goal
      decreases |infile.Rest()|
    {
      ghost var s := infile.Rest();
      var c1 := infile.Getc();
      if c1 == EOF {
        break;
      }
      DecodeStep(s);
      if neednewline {
        outfile.Putc(LF);
        neednewline := false;
      }
      if c1 == EQUALS {
        DecodeEscape(infile, outfile);
      } else if c1 == LF {
        neednewline := true;
      } else {
        outfile.Putc(c1);
      }
    }
    if neednewline {
      outfile.Putc(LF);
    }
    assert FromQpText([]) == [] by { NothingLeft(); }
  }

  /** Behind an equals sign: a soft line break or a hexadecimal escape. */
  method DecodeEscape(infile: InFile, outfile: OutFile)
    requires infile.Valid() && infile.Rest() != [] && (infile.Rest()[0] == LF || |infile.Rest()| >= 2)
    modifies infile`pos, outfile
    ensures infile.Valid()
    ensures var s := old(infile.Rest());
            if s[0] == LF then infile.Rest() == s[1..] && outfile.written == old(outfile.written)
            else infile.Rest() == s[2..] && outfile.written == old(outfile.written) + [Unescape(s[0], s[1])]
  {
    var c1 := infile.Getc();
    if c1 != LF {
      var c2 := infile.Getc();
      var d1, d2 := HexChar(c1), HexChar(c2);
      outfile.Putc(if d2 < 0 then -1 else d1 * 16 + d2);
    }
  }

  lemma NothingLeft()
    ensures FromQpText([]) == []
  {
  }
}
