/** Specification of lib-src/hexl.c: the text that a dump shows a file as, what the
    -de switch makes of a text, and when the second undoes the first. */
module HexlSpec {
  import opened Wrappers
  import opened Bytes
  import opened Stdio

  const COLON := 58

  /** The values that the -group-by switches give to group_by. */
  predicate IsMask(mask: nat) {
    mask in {0, 1, 3, 7}
  }

  /** The & of C. */
  function And(a: nat, b: nat): nat {
    if a == 0 || b == 0 then 0 else 2 * And(a / 2, b / 2) + (if a % 2 == 1 && b % 2 == 1 then 1 else 0)
  }

  /** Whether a separator follows byte i of a line. */
  predicate EndsGroup(i: nat, mask: nat) {
    And(i, mask) == mask
  }

  /** Groups have mask + 1 bytes. */
  lemma GroupSize(i: nat, mask: nat)
    requires i < 16 && IsMask(mask)
    ensures EndsGroup(i, mask) <==> i % (mask + 1) == mask
  {
    assert And(i, mask) == And(i / 2, mask / 2) * 2 + (if i % 2 == 1 && mask % 2 == 1 then 1 else 0);
    assert And(i / 2, mask / 2) == And(i / 4, mask / 4) * 2 + (if i / 2 % 2 == 1 && mask / 2 % 2 == 1 then 1 else 0);
    assert And(i / 4, mask / 4) == And(i / 8, 0) * 2 + (if i / 4 % 2 == 1 && mask / 4 % 2 == 1 then 1 else 0);
  }

  // --------------------------------------------------------------------- dump

  /** Formats %08lx and %02x: hexadecimal digits, at least width of them. */
  function Hex(n: nat, width: nat): seq<byte>
    decreases n + width
  {
    if n == 0 && width == 0 then []
    else Hex(n / 16, if width == 0 then 0 else width - 1) + [if n % 16 < 10 then 48 + n % 16 else 87 + n % 16]
  }

  function Shown(c: byte, iso: bool): byte {
    if c < 0x20 || (c >= 0x7F && (iso ==> c < 0xa0)) then DOT else c
  }

  function ShownAll(x: seq<byte>, iso: bool): (r: seq<byte>)
    ensures |r| == |x| && forall k :: 0 <= k < |x| ==> r[k] == Shown(x[k], iso)
  {
    seq(|x|, k requires 0 <= k < |x| => Shown(x[k], iso))
  }

  function Separator(i: nat, mask: nat): seq<byte> {
    if EndsGroup(i, mask) then [SPACE] else []
  }

  /** The columns of a line from column i on, blank behind its last byte. */
  function Cells(line: seq<byte>, i: nat, mask: nat): seq<byte>
    requires i <= 16
    decreases 16 - i, line
  {
    if i == 16 then [] else Cell(line, i, mask) + Cells(line, i + 1, mask)
  }

  function Cell(line: seq<byte>, i: nat, mask: nat): seq<byte> {
    (if i < |line| then Hex(line[i], 2) else [SPACE, SPACE]) + Separator(i, mask)
  }

  function LineText(line: seq<byte>, address: nat, mask: nat, iso: bool): seq<byte> {
    hide Hex, Cells;
    Hex(address, 8) + [COLON, SPACE] + Cells(line, 0, mask) + [SPACE] + ShownAll(line, iso) + [LF]
  }

  /** The bytes of the first line. */
  function Line(x: seq<byte>): seq<byte> {
    Upto(x, 16)
  }

  function DumpText(x: seq<byte>, address: nat, mask: nat, iso: bool): seq<byte>
    decreases |x|
  {
    hide LineText;
    if x == [] then []
    else LineText(Line(x), address, mask, iso) + DumpText(Drop(x, 16), address + 16, mask, iso)
  }

  // ------------------------------------------------------------------- undump

  function Upto(s: seq<byte>, n: nat): seq<byte> {
    if n <= |s| then s[..n] else s
  }

  /** What is left after reading n bytes, or all there are. */
  function Drop(s: seq<byte>, n: nat): seq<byte> {
    if n <= |s| then s[n..] else []
  }

  function Next(s: seq<byte>): int {
    if s == [] then EOF else s[0]
  }

  /** The macro takes any character. */
  function HexChar(c: int): int {
    if 48 <= c <= 57 then c - 48 else c - 97 + 10
  }

  /** What the inner loop writes, where it leaves i and c, and what is still unread. */
  datatype Row = Row(bytes: seq<byte>, i: nat, c: int, rest: seq<byte>)

  function ReadCells(s: seq<byte>, i: nat, c: int, mask: nat): (r: Row)
    requires i <= 16
    ensures i < 16 && s != [] ==> |r.rest| < |s|
    ensures i < 16 && s == [] ==> r == Row([], i, EOF, [])
    ensures |r.rest| <= |s| && r.i <= 16
    decreases |s|
  {
    if i == 16 then Row([], 16, c, s)
    else if s == [] || s[0] == SPACE then Row([], i, Next(s), Drop(s, 1))
    else
      var v := HexChar(s[0]) * 0x10 + HexChar(Next(s[1..]));
      var r := ReadCells(AfterCell(s, i, mask), i + 1, v, mask);
      Row([v % 256] + r.bytes, r.i, r.c, r.rest)
  }

  /** Behind two characters and a separator, if one is due. */
  function AfterCell(s: seq<byte>, i: nat, mask: nat): (r: seq<byte>)
    ensures s != [] ==> |r| < |s|
  {
    Drop(Drop(s, 2), if EndsGroup(i, mask) then 1 else 0)
  }

  /** What follows the next newline. */
  function NextLine(s: seq<byte>): (r: Option<seq<byte>>)
    ensures r.Some? ==> |r.value| < |s|
  {
    if s == [] then None else if s[0] == LF then Some(s[1..]) else NextLine(s[1..])
  }

  function UndumpText(s: seq<byte>, mask: nat): seq<byte>
    decreases |s|
  {
    var r := ReadCells(Drop(s, 10), 0, 0, mask);
    r.bytes +
    if r.c == SPACE then
      var t := NextLine(r.rest);
      if t.Some? then UndumpText(t.value, mask) else []
    else if r.i < 16 then []
    else UndumpText(Drop(r.rest, 18), mask)
  }

  // --------------------------------------------------------------- round trip

  lemma HexByte(c: byte)
    ensures |Hex(c, 2)| == 2 && Hex(c, 2)[0] != SPACE
    ensures HexChar(Hex(c, 2)[0]) * 0x10 + HexChar(Hex(c, 2)[1]) == c
  {
    assert Hex(c / 256, 0) == [];
    assert Hex(c / 16, 1) == Hex(c / 256, 0) + [if c / 16 < 10 then 48 + c / 16 else 87 + c / 16];
  }

  function Pow16(n: nat): nat {
    if n == 0 then 1 else 16 * Pow16(n - 1)
  }

  lemma {:induction false} HexWidth(n: nat, width: nat)
    ensures n < Pow16(width) ==> |Hex(n, width)| == width
    ensures Pow16(width) <= n < Pow16(width + 1) ==> |Hex(n, width)| == width + 1
  {
    if width == 0 {
      assert Hex(0, 0) == [];
    } else {
      HexWidth(n / 16, width - 1);
    }
  }

  /** Eight digits are enough below 2^32, nine below 2^36. */
  lemma AddressWidth(address: nat)
    requires address < 0x10_0000_0000
    ensures |Hex(address, 8)| == if address < 0x1_0000_0000 then 8 else 9
  {
    assert Pow16(4) == 0x1_0000 && Pow16(8) == 0x1_0000_0000 && Pow16(9) == 0x10_0000_0000;
    HexWidth(address, 8);
  }

  lemma CellsStep(line: seq<byte>, i: nat, mask: nat)
    requires i <= 16
    ensures Cells(line, i, mask) == if i == 16 then [] else Cell(line, i, mask) + Cells(line, i + 1, mask)
  {
    hide Cell;
  }

  lemma ReadStep(s: seq<byte>, i: nat, c: int, mask: nat)
    requires i < 16 && s != [] && s[0] != SPACE
    ensures var v := HexChar(s[0]) * 0x10 + HexChar(Next(s[1..]));
            var r := ReadCells(AfterCell(s, i, mask), i + 1, v, mask);
            ReadCells(s, i, c, mask) == Row([v % 256] + r.bytes, r.i, r.c, r.rest)
  {
    hide HexChar, AfterCell;
  }

  lemma ReadStops(s: seq<byte>, i: nat, c: int, mask: nat)
    requires i == 16 || (i < 16 && (s == [] || s[0] == SPACE))
    ensures ReadCells(s, i, c, mask) == if i == 16 then Row([], 16, c, s) else Row([], i, Next(s), Drop(s, 1))
  {
  }

  /** Reading one column: its byte, and what follows the column. */
  lemma CellReadsBack(line: seq<byte>, i: nat, c: int, mask: nat, tail: seq<byte>)
    requires i < 16 && i < |line|
    ensures var r := ReadCells(tail, i + 1, line[i], mask);
            ReadCells(Cell(line, i, mask) + tail, i, c, mask) == Row([line[i]] + r.bytes, r.i, r.c, r.rest)
  {
    hide Hex, EndsGroup, HexChar, ReadCells;
    var s := Cell(line, i, mask) + tail;
    HexByte(line[i]);
    assert s == Hex(line[i], 2) + (Separator(i, mask) + tail);
    assert Drop(s, 2) == Separator(i, mask) + tail;
    assert AfterCell(s, i, mask) == tail;
    assert Next(s[1..]) == Hex(line[i], 2)[1];
    ReadStep(s, i, c, mask);
  }

  /** Reading the columns of a line finds its bytes; c is left a blank if the line
      was short, and the value of its last byte otherwise. */
  lemma {:induction false} CellsReadBack(line: seq<byte>, i: nat, c: int, mask: nat, t: seq<byte>)
    requires i <= |line| <= 16
    ensures ReadCells(Cells(line, i, mask) + t, i, c, mask)
            == Row(line[i..], |line|,
                   if |line| < 16 then SPACE else if i == 16 then c else line[15],
                   if |line| < 16 then (Cells(line, |line|, mask) + t)[1..] else t)
    decreases 16 - i
  {
    hide Hex, EndsGroup, Cells, ReadCells;
    var s := Cells(line, i, mask) + t;
    CellsStep(line, i, mask);
    if i == 16 {
      assert s == t;
      ReadStops(s, i, c, mask);
    } else if i < |line| {
      var tail := Cells(line, i + 1, mask) + t;
      assert s == Cell(line, i, mask) + tail;
      CellReadsBack(line, i, c, mask, tail);
      CellsReadBack(line, i + 1, line[i], mask, t);
      assert [line[i]] + line[i + 1..] == line[i..];
    } else {
      ReadStops(s, i, c, mask);
    }
  }

  lemma {:induction false} NextLineSkips(p: seq<byte>, t: seq<byte>)
    requires LF !in p
    ensures NextLine(p + [LF] + t) == Some(t)
  {
    var s := p + [LF] + t;
    if p == [] {
      assert s[1..] == t;
    } else {
      assert s[1..] == p[1..] + [LF] + t;
      NextLineSkips(p[1..], t);
    }
  }

  lemma {:induction false} BlanksHaveNoNewline(line: seq<byte>, i: nat, mask: nat)
    requires |line| <= i <= 16
    ensures LF !in Cells(line, i, mask)
    decreases 16 - i
  {
    if i < 16 {
      BlanksHaveNoNewline(line, i + 1, mask);
    }
  }

  /** The characters shown at the end of a line are all passed over. */
  lemma MarginSkipped(line: seq<byte>, iso: bool, t: seq<byte>)
    requires |line| == 16
    ensures Drop([SPACE] + ShownAll(line, iso) + [LF] + t, 18) == t
    ensures NextLine([SPACE] + ShownAll(line, iso) + [LF] + t) == Some(t)
  {
    NextLineSkips([SPACE] + ShownAll(line, iso), t);
  }

  /** A line with an address of eight digits gives its bytes, one with nine digits gives nothing. */
  lemma LineReadsBack(line: seq<byte>, address: nat, mask: nat, iso: bool, t: seq<byte>)
    requires 0 < |line| <= 16 && address < 0x10_0000_0000
    ensures UndumpText(LineText(line, address, mask, iso) + t, mask)
            == (if address < 0x1_0000_0000 then line else []) + UndumpText(t, mask)
  {
    hide Hex, Cells, NextLine, UndumpText, ReadCells;
    var a, margin := Hex(address, 8), [SPACE] + ShownAll(line, iso) + [LF] + t;
    var s := LineText(line, address, mask, iso) + t;
    AddressWidth(address);
    if address < 0x1_0000_0000 {
      assert Drop(s, 10) == Cells(line, 0, mask) + margin;
      CellsReadBack(line, 0, 0, mask, margin);
      if |line| < 16 {
        var blank := Cells(line, |line|, mask);
        BlankFirst(line, mask);
        BlanksHaveNoNewline(line, |line|, mask);
        var p := blank[1..] + [SPACE] + ShownAll(line, iso);
        assert (blank + margin)[1..] == p + [LF] + t;
        NextLineSkips(p, t);
      } else {
        MarginSkipped(line, iso, t);
      }
      UndumpUnfolds(s, mask);
      assert line[0..] == line;
    } else {
      var p := Cells(line, 0, mask) + [SPACE] + ShownAll(line, iso);
      assert Drop(s, 10) == [SPACE] + (p + [LF] + t);
      CellsHaveNoNewline(line, 0, mask);
      NextLineSkips(p, t);
      ReadStops([SPACE] + (p + [LF] + t), 0, 0, mask);
      UndumpUnfolds(s, mask);
    }
  }

  lemma UndumpUnfolds(s: seq<byte>, mask: nat)
    ensures var r := ReadCells(Drop(s, 10), 0, 0, mask);
            UndumpText(s, mask) == r.bytes +
              if r.c == SPACE then (var t := NextLine(r.rest); if t.Some? then UndumpText(t.value, mask) else [])
              else if r.i < 16 then [] else UndumpText(Drop(r.rest, 18), mask)
  {
  }

  lemma DumpUnfolds(x: seq<byte>, address: nat, mask: nat, iso: bool)
    ensures DumpText(x, address, mask, iso)
            == if x == [] then []
               else LineText(Line(x), address, mask, iso) + DumpText(Drop(x, 16), address + 16, mask, iso)
  {
    hide LineText;
  }

  lemma BlankFirst(line: seq<byte>, mask: nat)
    requires |line| < 16
    ensures Cells(line, |line|, mask) != []
  {
  }

  lemma {:induction false} CellsHaveNoNewline(line: seq<byte>, i: nat, mask: nat)
    requires i <= 16
    ensures LF !in Cells(line, i, mask)
    decreases 16 - i
  {
    if i < 16 {
      if i < |line| {
        HexDigits(line[i], 2);
      }
      CellsHaveNoNewline(line, i + 1, mask);
    }
  }

  lemma {:induction false} HexDigits(n: nat, width: nat)
    ensures LF !in Hex(n, width)
    decreases n + width
  {
    if n > 0 || width > 0 {
      HexDigits(n / 16, if width == 0 then 0 else width - 1);
    }
  }

  /** Undumping a dump that starts at an address gives the bytes below address 2^32. */
  lemma {:induction false} UndumpInvertsDumpFrom(x: seq<byte>, address: nat, mask: nat, iso: bool)
    requires address % 16 == 0 && address + |x| <= 0x10_0000_0000
    ensures UndumpText(DumpText(x, address, mask, iso), mask)
            == if address < 0x1_0000_0000 then Upto(x, 0x1_0000_0000 - address) else []
    decreases |x|
  {
    hide LineText, ReadCells, UndumpText, DumpText, NextLine;
    DumpUnfolds(x, address, mask, iso);
    if x == [] {
      UndumpUnfolds([], mask);
      ReadStops([], 0, 0, mask);
    } else {
      LineReadsBack(Line(x), address, mask, iso, DumpText(Drop(x, 16), address + 16, mask, iso));
      UndumpInvertsDumpFrom(Drop(x, 16), address + 16, mask, iso);
    }
  }

  /** The bytes come back, whatever the grouping and whatever is shown in the margin,
      exactly if there are no more than 2^32 of them: a longer file loses the rest. */
  lemma UndumpInvertsDump(x: seq<byte>, mask: nat, iso: bool)
    requires |x| <= 0x10_0000_0000
    ensures UndumpText(DumpText(x, 0, mask, iso), mask) == Upto(x, 0x1_0000_0000)
    ensures UndumpText(DumpText(x, 0, mask, iso), mask) == x <==> |x| <= 0x1_0000_0000
  {
    hide DumpText, UndumpText;
    UndumpInvertsDumpFrom(x, 0, mask, iso);
  }
}

/** The two loops of lib-src/hexl.c. */
module Hexl {
  import opened Wrappers
  import opened Bytes
  import opened Stdio
  import opened HexlSpec

  /** puts, on the part of a buffer before its first NUL. */
  method Puts(text: array<byte>, stdout: OutFile, ghost n: nat)
    requires n < text.Length && text[n] == 0 && 0 !in text[..n]
    modifies stdout
    ensures stdout.written == old(stdout.written) + text[..n] + [LF]
  {
    var len := 0;
    while text[len] != 0
      invariant 0 <= len <= n
      decreases n - len
    {
      len := len + 1;
    }
    stdout.Fputs(text[..len]);
    stdout.Putc(LF);
  }

  /** One column of a line: what is written, and what goes into the margin. */
  method DumpCell(stdout: OutFile, text: array<byte>, c: int, i: nat, address: nat, mask: nat, iso: bool,
                  ghost line: seq<byte>)
    requires i < 16 && text.Length == 18 && (i == 0 ==> c != EOF)
    requires if i < |line| then c == line[i] else c == EOF
    modifies stdout, text
    ensures stdout.written == old(stdout.written)
            + (if i == 0 then Hex(address, 8) + [COLON, SPACE] else []) + Cell(line, i, mask)
    ensures text[..] == old(text[..])[i + 1 := if c == EOF then 0 else Shown(c, iso)]
  {
    hide Hex, EndsGroup;
    if c == EOF {
      stdout.Fputs([SPACE, SPACE]);
      text[i + 1] := 0;
    } else {
      if i == 0 {
        stdout.Fputs(Hex(address, 8) + [COLON, SPACE]);
      }
      text[i + 1] := Shown(c, iso);
      stdout.Fputs(Hex(c, 2));
    }
    if EndsGroup(i, mask) {
      stdout.Putc(SPACE);
    }
  }

  /** The margin of the first i columns is in the buffer, with a NUL behind a short line. */
  predicate MarginMade(text: seq<byte>, line: seq<byte>, i: nat, iso: bool) {
    && |text| == 18 && |line| <= 16 && text[0] == SPACE && text[17] == 0
    && (forall k :: 0 <= k < |line| && k < i ==> text[1 + k] == Shown(line[k], iso))
    && (|line| < i ==> text[1 + |line|] == 0)
  }

  lemma MarginEmpty(text: seq<byte>, line: seq<byte>, iso: bool)
    requires |text| == 18 && |line| <= 16 && text[0] == SPACE && text[17] == 0
    ensures MarginMade(text, line, 0, iso)
  {
  }

  lemma MarginEnds(text: seq<byte>, line: seq<byte>, i: nat, iso: bool)
    requires MarginMade(text, line, i, iso)
    ensures |text| == 18 && text[0] == SPACE && text[17] == 0
  {
  }

  lemma MarginGrows(text: seq<byte>, line: seq<byte>, i: nat, iso: bool)
    requires MarginMade(text, line, i, iso) && i < 16
    ensures MarginMade(text[i + 1 := if i < |line| then Shown(line[i], iso) else 0], line, i + 1, iso)
  {
  }

  lemma MarginComplete(text: seq<byte>, line: seq<byte>, iso: bool)
    requires MarginMade(text, line, 16, iso)
    ensures text[..1 + |line|] == [SPACE] + ShownAll(line, iso) && 0 !in text[..1 + |line|] && text[1 + |line|] == 0
  {
  }

  /** The first i columns of a line have been written behind before. */
  ghost predicate RowWritten(written: seq<byte>, before: seq<byte>, address: nat, line: seq<byte>, i: nat, mask: nat)
    requires i <= 16
  {
    if i == 0 then written == before
    else written + Cells(line, i, mask) == before + (Hex(address, 8) + [COLON, SPACE] + Cells(line, 0, mask))
  }

  lemma RowGrows(written: seq<byte>, before: seq<byte>, address: nat, line: seq<byte>, i: nat, mask: nat)
    requires i < 16 && RowWritten(written, before, address, line, i, mask)
    ensures var front := if i == 0 then Hex(address, 8) + [COLON, SPACE] else [];
            RowWritten(written + front + Cell(line, i, mask), before, address, line, i + 1, mask)
  {
    hide Hex, Cells, Cell;
    CellsStep(line, i, mask);
    var front := if i == 0 then Hex(address, 8) + [COLON, SPACE] else [];
    assert written + front + Cell(line, i, mask) + Cells(line, i + 1, mask) == written + (front + Cells(line, i, mask));
    assert [] + Cells(line, i, mask) == Cells(line, i, mask);
  }

  lemma RowDone(written: seq<byte>, before: seq<byte>, address: nat, line: seq<byte>, mask: nat)
    requires RowWritten(written, before, address, line, 16, mask)
    ensures written == before + (Hex(address, 8) + [COLON, SPACE] + Cells(line, 0, mask))
  {
    hide Hex, Cells;
    CellsStep(line, 16, mask);
    assert written + [] == written;
  }

  /** One line: its columns are written, its margin is put together in text. */
  method DumpRow(fp: InFile, stdout: OutFile, text: array<byte>, address: nat, mask: nat, iso: bool)
      returns (i: nat, c: int)
    requires fp.Valid() && text.Length == 18 && text[0] == SPACE && text[17] == 0
    modifies fp`pos, stdout, text
    ensures fp.Valid() && fp.Rest() == Drop(old(fp.Rest()), 16)
    ensures text[0] == SPACE && text[17] == 0
    ensures i == 0 <==> old(fp.Rest()) == []
    ensures c == EOF <==> |old(fp.Rest())| < 16
    ensures i == 0 ==> stdout.written == old(stdout.written)
    ensures i > 0 ==> var line := Line(old(fp.Rest()));
      && stdout.written == old(stdout.written) + (Hex(address, 8) + [COLON, SPACE] + Cells(line, 0, mask))
      && MarginMade(text[..], line, 16, iso)
  {
    hide Hex, EndsGroup, Cells, Cell, MarginMade, RowWritten;
    ghost var x, line, before := fp.Rest(), Line(fp.Rest()), stdout.written;
    i, c := 0, 0;
    MarginEmpty(text[..], line, iso);
    NoColumns(before, address, line, mask);
    while i < 16
      invariant i <= 16 && fp.Valid() && fp.Rest() == Drop(x, i) && (i > 0 ==> x != [])
      invariant c == EOF <==> |x| < i
      invariant i == 0 ==> stdout.written == before
      invariant RowWritten(stdout.written, before, address, line, i, mask)
      invariant MarginMade(text[..], line, i, iso)
    {
      c := fp.Getc();
      if c == EOF && i == 0 {
        break;
      }
      RowGrows(stdout.written, before, address, line, i, mask);
      MarginGrows(text[..], line, i, iso);
      DumpCell(stdout, text, c, i, address, mask, iso, line);
      i := i + 1;
    }
    if i > 0 {
      RowDone(stdout.written, before, address, line, mask);
    }
    MarginEnds(text[..], line, i, iso);
  }

  lemma NoColumns(before: seq<byte>, address: nat, line: seq<byte>, mask: nat)
    ensures RowWritten(before, before, address, line, 0, mask)
  {
  }

  /** A line and its margin; nothing at the end of the file. */
  method DumpLine(fp: InFile, stdout: OutFile, text: array<byte>, address: nat, mask: nat, iso: bool) returns (c: int)
    requires fp.Valid() && text.Length == 18 && text[0] == SPACE && text[17] == 0
    modifies fp`pos, stdout, text
    ensures fp.Valid() && fp.Rest() == Drop(old(fp.Rest()), 16)
    ensures text[0] == SPACE && text[17] == 0
    ensures c == EOF <==> |old(fp.Rest())| < 16
    ensures stdout.written == old(stdout.written)
            + if old(fp.Rest()) == [] then [] else LineText(Line(old(fp.Rest())), address, mask, iso)
  {
    hide Hex, EndsGroup, Cells, MarginMade;
    ghost var line := Line(fp.Rest());
    var i;
    i, c := DumpRow(fp, stdout, text, address, mask, iso);
    if i > 0 {
      MarginComplete(text[..], line, iso);
      assert text[..1 + |line|] == text[..][..1 + |line|];
      Puts(text, stdout, 1 + |line|);
    }
  }

  method Dump(fp: InFile, stdout: OutFile, mask: nat, iso: bool)
    requires fp.Valid() && IsMask(mask)
    modifies fp`pos, stdout
    ensures fp.Valid() && fp.Rest() == []
    ensures stdout.written == old(stdout.written) + DumpText(old(fp.Rest()), 0, mask, iso)
  {
    hide LineText, DumpText;
    ghost var total := stdout.written + DumpText(fp.Rest(), 0, mask, iso);
    var text := new byte[18](_ => 0);
    var address := 0;
    text[0] := SPACE;
    text[17] := 0;
    while true
      invariant fp.Valid() && text.Length == 18 && text[0] == SPACE && text[17] == 0
      invariant stdout.written + DumpText(fp.Rest(), address, mask, iso) == total
      decreases |fp.Rest()|
    {
      DumpUnfolds(fp.Rest(), address, mask, iso);
      var c := DumpLine(fp, stdout, text, address, mask, iso);
      if c == EOF {
        DumpUnfolds([], address + 16, mask, iso);
        break;
      }
      address := address + 0x10;
    }
  }

  /** The loop over the columns of a line. */
  method UndumpRow(fp: InFile, stdout: OutFile, mask: nat) returns (i: nat, c: int)
    requires fp.Valid()
    modifies fp`pos, stdout
    ensures fp.Valid()
    ensures var r := ReadCells(old(fp.Rest()), 0, 0, mask);
            i == r.i && c == r.c && fp.Rest() == r.rest && stdout.written == old(stdout.written) + r.bytes
  {
    hide EndsGroup, ReadCells, HexChar;
    ghost var r := ReadCells(fp.Rest(), 0, 0, mask);
    i, c := 0, 0;
    while i < 16
      invariant i <= 16 && fp.Valid()
      invariant var q := ReadCells(fp.Rest(), i, c, mask);
                q.i == r.i && q.c == r.c && q.rest == r.rest
                && stdout.written + q.bytes == old(stdout.written) + r.bytes
    {
      ghost var s, c0 := fp.Rest(), c;
      c := fp.Getc();
      if c == SPACE || c == EOF {
        ReadStops(s, i, c0, mask);
        break;
      }
      ReadStep(s, i, c0, mask);
      var d := fp.Getc();
      c := HexChar(c) * 0x10 + HexChar(d);
      stdout.Putc(c);
      if EndsGroup(i, mask) {
        var _ := fp.Getc();
      }
      i := i + 1;
    }
    ReadStops(fp.Rest(), 16, c, mask);
  }

  /** Reads up to and including the next newline. */
  method SkipLine(fp: InFile) returns (c: int)
    requires fp.Valid()
    modifies fp`pos
    ensures fp.Valid()
    ensures match NextLine(old(fp.Rest()))
            case None => c == EOF
            case Some(t) => c == LF && fp.Rest() == t
  {
    c := fp.Getc();
    while c != LF && c != EOF
      invariant fp.Valid()
      invariant match NextLine(old(fp.Rest()))
                case None => c == EOF || (c != LF && NextLine(fp.Rest()) == None)
                case Some(t) => if c == LF then fp.Rest() == t else c != EOF && NextLine(fp.Rest()) == Some(t)
      decreases |fp.Rest()|, c != EOF
    {
      c := fp.Getc();
    }
  }

  /** A line of the dump; more is false where the loop in the source is left. */
  method UndumpLine(fp: InFile, stdout: OutFile, mask: nat) returns (more: bool)
    requires fp.Valid()
    modifies fp`pos, stdout
    ensures fp.Valid()
    ensures var r := ReadCells(Drop(old(fp.Rest()), 10), 0, 0, mask);
            && stdout.written == old(stdout.written) + r.bytes
            && more == (if r.c == SPACE then NextLine(r.rest).Some? else r.i == 16)
            && (more ==> |fp.Rest()| < |old(fp.Rest())|
                         && fp.Rest() == if r.c == SPACE then NextLine(r.rest).value else Drop(r.rest, 18))
  {
    hide NextLine;
    ghost var s := fp.Rest();
    fp.Skip(10);
    assert fp.Rest() == Drop(s, 10);
    hide ReadCells;
    var i, c := UndumpRow(fp, stdout, mask);
    if c == SPACE {
      c := SkipLine(fp);
      more := c != EOF;
    } else if i < 16 {
      more := false;
    } else {
      fp.Skip(18);
      more := true;
    }
  }

  method Undump(fp: InFile, stdout: OutFile, mask: nat)
    requires fp.Valid() && IsMask(mask)
    modifies fp`pos, stdout
    ensures fp.Valid()
    ensures stdout.written == old(stdout.written) + UndumpText(old(fp.Rest()), mask)
  {
    hide ReadCells, NextLine, UndumpText;
    ghost var total := stdout.written + UndumpText(fp.Rest(), mask);
    while true
      invariant fp.Valid()
      invariant stdout.written + UndumpText(fp.Rest(), mask) == total
      decreases |fp.Rest()|
    {
      UndumpUnfolds(fp.Rest(), mask);
      var more := UndumpLine(fp, stdout, mask);
      if !more {
        break;
      }
    }
  }

  /** A file dumped and the dump undumped again. */
  method DumpAndBack(x: seq<byte>, mask: nat, iso: bool) returns (y: seq<byte>)
    requires IsMask(mask) && |x| <= 0x10_0000_0000
    ensures y == x <==> |x| <= 0x1_0000_0000
    ensures y == Upto(x, 0x1_0000_0000)
  {
    var fp := new InFile(x);
    var dump := new OutFile();
    Dump(fp, dump, mask, iso);
    var back := new InFile(dump.written);
    var out := new OutFile();
    Undump(back, out, mask);
    y := out.written;
    UndumpInvertsDump(x, mask, iso);
  }
}
