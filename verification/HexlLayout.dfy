/** What stands where in the text that lib-src/hexl.c dumps: addresses, bytes in
    hexadecimal, and the characters they show as. */
module HexlLayout {
  import opened Wrappers
  import opened Bytes
  import opened TextLines
  import opened HexlSpec

  // -------------------------------------------------------- hexadecimal numbers

  predicate IsHex(s: seq<byte>) {
    forall i :: 0 <= i < |s| ==> '0' as int <= s[i] <= '9' as int || 'a' as int <= s[i] <= 'f' as int
  }

  function HexValue(s: seq<byte>): nat
    requires IsHex(s)
  {
    if s == [] then 0
    else
      var last := s[|s| - 1];
      HexValue(s[..|s| - 1]) * 16 + if last <= '9' as int then last - '0' as int else last - 'a' as int + 10
  }

  /** A printed number reads as that number. */
  lemma {:induction false} HexReads(n: nat, width: nat)
    ensures IsHex(Hex(n, width)) && HexValue(Hex(n, width)) == n
    decreases n + width
  {
    if n > 0 || width > 0 {
      var w := if width == 0 then 0 else width - 1;
      HexReads(n / 16, w);
      var s := Hex(n, width);
      assert s[..|s| - 1] == Hex(n / 16, w);
    }
  }

  // ------------------------------------------------------------------- columns

  /** How many separators stand before byte i. */
  function Separators(i: nat, mask: nat): nat {
    if i == 0 then 0 else Separators(i - 1, mask) + if EndsGroup(i - 1, mask) then 1 else 0
  }

  /** One behind every mask + 1 bytes. */
  lemma {:induction false} SeparatorsAre(i: nat, mask: nat)
    requires i <= 16 && IsMask(mask)
    ensures Separators(i, mask) == i / (mask + 1)
  {
    hide EndsGroup;
    if i > 0 {
      SeparatorsAre(i - 1, mask);
      GroupSize(i - 1, mask);
      NextGroup(i - 1, mask + 1);
    }
  }

  lemma NextGroup(i: nat, size: nat)
    requires size in {1, 2, 4, 8}
    ensures (i + 1) / size == i / size + if i % size == size - 1 then 1 else 0
  {
    if size == 2 {
      assert (i + 1) / 2 == i / 2 + if i % 2 == 1 then 1 else 0;
    } else if size == 4 {
      assert (i + 1) / 4 == i / 4 + if i % 4 == 3 then 1 else 0;
    } else if size == 8 {
      assert (i + 1) / 8 == i / 8 + if i % 8 == 7 then 1 else 0;
    }
  }

  /** Where byte i stands behind the address. */
  function Column(i: nat, mask: nat): nat {
    2 * i + Separators(i, mask)
  }

  lemma CellLength(line: seq<byte>, i: nat, mask: nat)
    ensures |Cell(line, i, mask)| == Column(i + 1, mask) - Column(i, mask)
    ensures 2 <= |Cell(line, i, mask)|
  {
    hide EndsGroup, Hex;
    if i < |line| {
      HexByte(line[i]);
    }
  }

  lemma {:induction false} CellsLength(line: seq<byte>, i: nat, mask: nat)
    requires i <= 16
    ensures Column(i, mask) <= Column(16, mask) && |Cells(line, i, mask)| == Column(16, mask) - Column(i, mask)
    decreases 16 - i
  {
    hide Cells, Column;
    CellsStep(line, i, mask);
    if i < 16 {
      CellLength(line, i, mask);
      CellsLength(line, i + 1, mask);
    }
  }

  /** Column j of the cells from column i on. */
  lemma {:induction false} CellsAt(line: seq<byte>, i: nat, j: nat, mask: nat)
    requires i <= j < 16
    ensures var k := Column(j, mask) - Column(i, mask);
            && 0 <= k && k + |Cell(line, j, mask)| <= |Cells(line, i, mask)|
            && Cells(line, i, mask)[k..k + |Cell(line, j, mask)|] == Cell(line, j, mask)
    decreases j - i
  {
    hide Cells, Cell, Column;
    CellsStep(line, i, mask);
    CellLength(line, i, mask);
    if i < j {
      CellsAt(line, i + 1, j, mask);
      var k, n := Column(j, mask) - Column(i + 1, mask), |Cell(line, j, mask)|;
      var m := |Cell(line, i, mask)|;
      assert Cells(line, i, mask)[m + k..m + k + n] == Cells(line, i + 1, mask)[k..k + n];
    } else {
      assert Cells(line, i, mask)[0..|Cell(line, i, mask)|] == Cell(line, i, mask);
    }
  }

  // --------------------------------------------------------------------- a line

  /** Characters below 0x20 and from 0x7f on show as a dot; with -iso those from 0xa0
      on show as themselves. */
  lemma ShownAre(c: byte)
    ensures Shown(c, false) == if 32 <= c < 127 then c else '.' as int
    ensures Shown(c, true) == if 32 <= c < 127 || c >= 160 then c else '.' as int
  {
    Ascii();
  }

  /** The fields of a line: the address in eight digits, a colon and a blank; the
      bytes, two digits each, or blanks where there are none, with a blank behind
      every mask + 1 of them; a blank, the characters, and a newline. */
  lemma {:induction false} LineLayout(line: seq<byte>, address: nat, mask: nat, iso: bool)
    requires 0 < |line| <= 16 && address < 0x1_0000_0000 && IsMask(mask)
    ensures var t := LineText(line, address, mask, iso);
            var margin := 42 + 16 / (mask + 1);
            && |t| == margin + 1 + |line| + 1
            && IsHex(t[..8]) && HexValue(t[..8]) == address && t[8..10] == Codes(": ")
            && t[margin] == 32 && t[|t| - 1] == 10
            && forall i :: 0 <= i < |line| ==> t[margin + 1 + i] == Shown(line[i], iso)
  {
    hide Hex, Cells, HexValue, Column;
    Ascii();
    AddressWidth(address);
    HexReads(address, 8);
    CellsLength(line, 0, mask);
    Columns(0, mask);
    Columns(16, mask);
    var a, cells, shown := Hex(address, 8), Cells(line, 0, mask), ShownAll(line, iso);
    var t := LineText(line, address, mask, iso);
    assert t == a + ([COLON, SPACE] + (cells + ([SPACE] + shown + [LF])));
    assert t[..8] == a && t[8..10] == [COLON, SPACE] == Codes(": ");
    assert t[42 + 16 / (mask + 1)..] == [SPACE] + shown + [LF];
  }

  lemma Columns(i: nat, mask: nat)
    requires i <= 16 && IsMask(mask)
    ensures Column(i, mask) == 2 * i + i / (mask + 1)
  {
    SeparatorsAre(i, mask);
  }

  /** Where byte i stands in a line, and what it is. */
  lemma {:induction false} ByteLayout(line: seq<byte>, address: nat, mask: nat, iso: bool, i: nat)
    requires 0 < |line| <= 16 && address < 0x1_0000_0000 && IsMask(mask) && i < 16
    ensures var t := LineText(line, address, mask, iso);
            var k := 10 + 2 * i + i / (mask + 1);
            && k + 3 <= |t|
            && (if i < |line| then IsHex(t[k..k + 2]) && HexValue(t[k..k + 2]) == line[i]
                else t[k..k + 2] == Codes("  "))
            && (i % (mask + 1) == mask ==> t[k + 2] == 32)
  {
    hide IsHex, HexValue, Column, EndsGroup, LineText;
    CellInLine(line, address, mask, iso, i);
    GroupSize(i, mask);
    CellParts(line, i, mask);
    var t, cell := LineText(line, address, mask, iso), Cell(line, i, mask);
    var k := 10 + 2 * i + i / (mask + 1);
    Front(t, k, |cell|);
  }

  lemma Front<T>(t: seq<T>, k: nat, n: nat)
    requires 2 <= n && k + n <= |t|
    ensures t[k..k + 2] == t[k..k + n][..2] && (n > 2 ==> t[k + 2] == t[k..k + n][2])
  {
  }

  lemma CellInLine(line: seq<byte>, address: nat, mask: nat, iso: bool, i: nat)
    requires address < 0x1_0000_0000 && IsMask(mask) && i < 16
    ensures var t, cell := LineText(line, address, mask, iso), Cell(line, i, mask);
            var k := 10 + 2 * i + i / (mask + 1);
            k + |cell| < |t| && t[k..k + |cell|] == cell
  {
    hide Hex, Cells, Cell, Column;
    AddressWidth(address);
    Columns(0, mask);
    Columns(i, mask);
    CellsAt(line, 0, i, mask);
    var cells := Cells(line, 0, mask);
    var k := 2 * i + i / (mask + 1);
    Inside(Hex(address, 8) + [COLON, SPACE], cells, [SPACE] + ShownAll(line, iso) + [LF], k, k + |Cell(line, i, mask)|);
    assert LineText(line, address, mask, iso)
           == Hex(address, 8) + [COLON, SPACE] + cells + ([SPACE] + ShownAll(line, iso) + [LF]);
  }

  lemma Inside<T>(a: seq<T>, b: seq<T>, c: seq<T>, i: nat, j: nat)
    requires i <= j <= |b|
    ensures (a + b + c)[|a| + i..|a| + j] == b[i..j]
  {
  }

  lemma CellParts(line: seq<byte>, i: nat, mask: nat)
    ensures var cell := Cell(line, i, mask);
            && |cell| == (if EndsGroup(i, mask) then 3 else 2)
            && (if i < |line| then IsHex(cell[..2]) && HexValue(cell[..2]) == line[i] else cell[..2] == Codes("  "))
            && (EndsGroup(i, mask) ==> cell[2] == 32)
  {
    hide Hex, HexValue, EndsGroup;
    Ascii();
    var cell := Cell(line, i, mask);
    if i < |line| {
      HexByte(line[i]);
      HexReads(line[i], 2);
      assert cell[..2] == Hex(line[i], 2);
    } else {
      assert cell[..2] == [SPACE, SPACE] == Codes("  ");
    }
  }

  // ----------------------------------------------------------------- whole dumps

  /** Line k of a dump that starts at an address shows the bytes from 16 k on, and
      their address. */
  lemma {:induction false} DumpLines(x: seq<byte>, address: nat, mask: nat, iso: bool)
    ensures var lines := Lines(DumpText(x, address, mask, iso));
            && |lines| == (|x| + 15) / 16 + 1 && lines[|lines| - 1] == []
            && forall k :: 0 <= k < |lines| - 1 ==>
                 lines[k] + [10] == LineText(Line(x[16 * k..]), address + 16 * k, mask, iso)
    decreases |x|
  {
    hide LineText, Lines, DumpText;
    DumpUnfolds(x, address, mask, iso);
    if x == [] {
      NoLines();
    } else {
      var t := LineText(Line(x), address, mask, iso);
      var rest := DumpText(Drop(x, 16), address + 16, mask, iso);
      LineIsOne(Line(x), address, mask, iso);
      var body := t[..|t| - 1];
      DumpLines(Drop(x, 16), address + 16, mask, iso);
      assert t + rest == body + [LF] + rest;
      FirstLine(body, rest);
      var lines, below := Lines(t + rest), Lines(rest);
      assert lines == [body] + below && |lines| == (|x| + 15) / 16 + 1;
      forall k | 0 <= k < |lines| - 1
        ensures lines[k] + [10] == LineText(Line(x[16 * k..]), address + 16 * k, mask, iso)
      {
        if k == 0 {
          assert x[0..] == x;
        } else {
          assert 16 * k < |x| && Drop(x, 16) == x[16..];
          assert x[16..][16 * (k - 1)..] == x[16 * k..];
          assert lines[k] == below[k - 1];
        }
      }
    }
  }

  lemma NoLines()
    ensures Lines([]) == [[]]
  {
  }

  lemma LineIsOne(line: seq<byte>, address: nat, mask: nat, iso: bool)
    requires |line| <= 16
    ensures var t := LineText(line, address, mask, iso); t != [] && t == t[..|t| - 1] + [10] && LF !in t[..|t| - 1]
  {
    hide Hex, Cells;
    HexDigits(address, 8);
    CellsHaveNoNewline(line, 0, mask);
  }

  // -------------------------------------------------------------------- undumping

  /** The value that -de takes a character for. */
  function Taken(c: byte): int {
    if '0' as int <= c <= '9' as int then c - '0' as int else c - 'a' as int + 10
  }

  /** Whatever stands there, ten characters are skipped and two give a byte, unless
      the first is a blank; a separator is skipped where one is due. */
  lemma TwoCharactersGiveAByte(s: seq<byte>, mask: nat)
    requires |s| >= 12 && s[10] != 32
    ensures UndumpText(s, mask) != [] && UndumpText(s, mask)[0] == (Taken(s[10]) * 16 + Taken(s[11])) % 256
  {
    hide ReadCells, UndumpText, NextLine;
    UndumpUnfolds(s, mask);
    ReadStep(s[10..], 0, 0, mask);
  }

  /** A blank instead ends the line. */
  lemma BlankEndsLine(s: seq<byte>, mask: nat)
    requires |s| >= 11 && s[10] == 32
    ensures UndumpText(s, mask) == match NextLine(s[11..]) case None => [] case Some(t) => UndumpText(t, mask)
  {
    hide UndumpText, NextLine;
    UndumpUnfolds(s, mask);
    ReadStops(s[10..], 0, 0, mask);
  }
}
