/** Model of the base64 half of lib-src/mmencode.c (section 6.8 of RFC 2045):
    to64 with nextcharin and output64chunk, from64 with almostputc.  There are no
    multipart boundaries: main always passes a null list. */
module Base64 {
  import opened Bytes
  import opened Stdio
  import opened TextLines

  const PAD := 61  // '='
  const LINE := 71

  // ----------------------------------------------------------------- alphabet

  /** basis_64 */
  function Basis(i: nat): (c: byte)
    requires i < 64
  {
    if i < 26 then 65 + i else if i < 52 then 97 + (i - 26)
    else if i < 62 then 48 + (i - 52) else if i == 62 then 43 else 47
  }

  /** char64: the value of an alphabet character, -1 for any other. */
  function Char64(c: byte): (i: int)
    ensures -1 <= i < 64
  {
    if 65 <= c <= 90 then c - 65 else if 97 <= c <= 122 then c - 97 + 26 else if 48 <= c <= 57 then c - 48 + 52
    else if c == 43 then 62 else if c == 47 then 63 else -1
  }

  predicate IsSpace(c: int) {
    c == 32 || 9 <= c <= 13
  }

  // ----------------------------------------------------------- specifications

  /** Portable newlines: every LF becomes CR LF. */
  function Widen(x: seq<byte>): seq<byte> {
    if x == [] then []
    else (if x[0] == LF then [CR, LF] else [x[0]]) + Widen(x[1..])
  }

  /** Four characters for one to three bytes. */
  function Chunk(g: seq<byte>): (c: seq<byte>)
    requires 1 <= |g| <= 3
    ensures |c| == 4
  {
    var c1, c2, c3 := g[0], if |g| > 1 then g[1] else 0, if |g| > 2 then g[2] else 0;
    [Basis(c1 / 4), Basis((c1 % 4) * 16 + c2 / 16),
     if |g| == 1 then PAD else Basis((c2 % 16) * 4 + c3 / 64),
     if |g| <= 2 then PAD else Basis(c3 % 64)]
  }

  function Head(x: seq<byte>): (g: seq<byte>)
    ensures g <= x && |g| <= 3 && (x != [] ==> g != [])
  {
    if |x| <= 3 then x else x[..3]
  }

  /** The encoding without line breaks. */
  function Encode(x: seq<byte>): seq<byte> {
    if x == [] then [] else Chunk(Head(x)) + Encode(x[|Head(x)|..])
  }

  /** The encoding with a line break after every 72 characters and at the end; ct
      characters of the current line are out already. */
  function EncodeLines(x: seq<byte>, ct: nat): seq<byte> {
    if x == [] then (if ct != 0 then [LF] else [])
    else
      var rest := x[|Head(x)|..];
      Chunk(Head(x)) + if ct + 4 > LINE then [LF] + EncodeLines(rest, 0) else EncodeLines(rest, ct + 4)
  }

  function To64Text(x: seq<byte>, portable: bool): seq<byte> {
    EncodeLines(if portable then Widen(x) else x, 0)
  }

  function NonSpace(s: seq<byte>): seq<byte> {
    if s == [] then [] else if IsSpace(s[0]) then NonSpace(s[1..]) else [s[0]] + NonSpace(s[1..])
  }

  /** The numbers handed to almostputc, and whether the input ended inside a group. */
  datatype Decoded = Decoded(values: seq<int>, premature: bool)

  function First(c1: int, c2: int): int { c1 * 4 + (c2 % 64) / 16 }
  function Second(c2: int, c3: int): int { (c2 % 16) * 16 + (c3 % 64) / 4 }
  function Third(c3: int, c4: int): int { if c4 < 0 then -1 else (c3 % 4) * 64 + c4 }

  /** Decodes white-space free text, group by group, up to the first padding. */
  function Decode(q: seq<byte>): Decoded {
    if q == [] then Decoded([], false)
    else if |q| < 4 then Decoded([], true)
    else if q[0] == PAD || q[1] == PAD then Decoded([], false)
    else
      var c1, c2, c3, c4 := Char64(q[0]), Char64(q[1]), Char64(q[2]), Char64(q[3]);
      if q[2] == PAD then Decoded([First(c1, c2)], false)
      else if q[3] == PAD then Decoded([First(c1, c2), Second(c2, c3)], false)
      else
        var d := Decode(q[4..]);
        d.(values := [First(c1, c2), Second(c2, c3), Third(c3, c4)] + d.values)
  }

  /** What almostputc writes for c when it holds back a CR or not ... */
  function PutcOut(c: int, pending: bool, portable: bool): seq<byte> {
    if pending then (if c == LF then [LF] else if c == CR then [CR] else [CR, c % 256])
    else if portable && c == CR then [] else [c % 256]
  }

  /** ... and whether it holds back a CR afterwards. */
  function PutcPending(c: int, pending: bool, portable: bool): bool {
    c == CR && (pending || portable)
  }

  function Narrow(vs: seq<int>, pending: bool, portable: bool): seq<byte> {
    if vs == [] then []
    else PutcOut(vs[0], pending, portable) + Narrow(vs[1..], PutcPending(vs[0], pending, portable), portable)
  }

  function Holding(vs: seq<int>, pending: bool, portable: bool): bool {
    if vs == [] then pending else Holding(vs[1..], PutcPending(vs[0], pending, portable), portable)
  }

  /** The rest of from64's output.  A CR still held back at the end is written,
      unless the input ended inside a group. */
  function Emit(d: Decoded, pending: bool, portable: bool): seq<byte> {
    Narrow(d.values, pending, portable) + if Holding(d.values, pending, portable) && !d.premature then [CR] else []
  }

  /** All of from64. */
  function From64Text(s: seq<byte>, portable: bool): seq<byte> {
    Emit(Decode(NonSpace(s)), false, portable)
  }

  // --------------------------------------------------------------- round trip

  lemma Sextets(c1: byte, c2: byte, c3: byte)
    ensures First(c1 / 4, (c1 % 4) * 16 + c2 / 16) == c1
    ensures Second((c1 % 4) * 16 + c2 / 16, (c2 % 16) * 4 + c3 / 64) == c2
    ensures Third((c2 % 16) * 4 + c3 / 64, c3 % 64) == c3
  {
    Split16(c1 % 4, c2 / 16);
    Split4(c2 % 16, c3 / 64);
  }

  lemma Split16(hi: nat, lo: nat)
    requires hi < 4 && lo < 16
    ensures var n := hi * 16 + lo; n % 64 == n && n / 16 == hi && n % 16 == lo
  {
  }

  lemma Split4(hi: nat, lo: nat)
    requires hi < 16 && lo < 4
    ensures var n := hi * 4 + lo; n % 64 == n && n / 4 == hi && n % 4 == lo
  {
  }

  lemma BasisInverse(i: nat)
    requires i < 64
    ensures Char64(Basis(i)) == i && Basis(i) != PAD && !IsSpace(Basis(i)) && Basis(i) != LF
  {
  }

  lemma DecodeUnfolds(c1: byte, c2: byte, c3: byte, c4: byte, t: seq<byte>)
    ensures var v1, v2, v3, v4 := Char64(c1), Char64(c2), Char64(c3), Char64(c4);
            Decode([c1, c2, c3, c4] + t) ==
              if c1 == PAD || c2 == PAD then Decoded([], false)
              else if c3 == PAD then Decoded([First(v1, v2)], false)
              else if c4 == PAD then Decoded([First(v1, v2), Second(v2, v3)], false)
              else Decoded([First(v1, v2), Second(v2, v3), Third(v3, v4)] + Decode(t).values, Decode(t).premature)
  {
    hide Char64, First, Second, Third;
    assert ([c1, c2, c3, c4] + t)[4..] == t;
  }

  /** One group decodes to the bytes it was made from. */
  lemma {:induction false} ChunkDecodes(g: seq<byte>, q: seq<byte>)
    requires 1 <= |g| <= 3 && (|g| < 3 ==> q == [])
    ensures Decode(Chunk(g) + q) ==
            if |g| < 3 then Decoded(g, false) else Decoded(g + Decode(q).values, Decode(q).premature)
  {
    hide Basis, Char64, First, Second, Third, Decode;
    var c1, c2, c3 := g[0], if |g| > 1 then g[1] else 0, if |g| > 2 then g[2] else 0;
    BasisInverse(c1 / 4);
    BasisInverse((c1 % 4) * 16 + c2 / 16);
    BasisInverse((c2 % 16) * 4 + c3 / 64);
    BasisInverse(c3 % 64);
    Sextets(c1, c2, c3);
    var k := Chunk(g);
    assert k == [k[0], k[1], k[2], k[3]];
    DecodeUnfolds(k[0], k[1], k[2], k[3], q);
    assert g == if |g| == 1 then [c1] else if |g| == 2 then [c1, c2] else [c1, c2, c3];
  }

  lemma DecodeNothing()
    ensures Decode([]) == Decoded([], false)
  {
  }

  lemma {:induction false} DecodeInvertsEncode(x: seq<byte>)
    ensures Decode(Encode(x)) == Decoded(x, false)
  {
    hide Decode, Chunk;
    if x == [] {
      DecodeNothing();
    } else {
      var g := Head(x);
      DecodeInvertsEncode(x[|g|..]);
      ChunkDecodes(g, Encode(x[|g|..]));
      assert x == g + x[|g|..];
    }
  }

  lemma {:induction false} NonSpaceConcat(s: seq<byte>, t: seq<byte>)
    ensures NonSpace(s + t) == NonSpace(s) + NonSpace(t)
  {
    hide IsSpace;
    if s == [] {
      assert s + t == t;
    } else {
      NonSpaceConcat(s[1..], t);
      assert (s + t)[1..] == s[1..] + t && (s + t)[0] == s[0];
      assert [s[0]] + (NonSpace(s[1..]) + NonSpace(t)) == [s[0]] + NonSpace(s[1..]) + NonSpace(t);
    }
  }

  lemma {:induction false} NonSpaceOfText(s: seq<byte>)
    requires forall k :: 0 <= k < |s| ==> !IsSpace(s[k])
    ensures NonSpace(s) == s
  {
    if s != [] {
      NonSpaceOfText(s[1..]);
    }
  }

  lemma {:induction false} ChunkIsText(g: seq<byte>)
    requires 1 <= |g| <= 3
    ensures NonSpace(Chunk(g)) == Chunk(g) && LF !in Chunk(g)
  {
    hide Basis;
    var c1, c2, c3 := g[0], if |g| > 1 then g[1] else 0, if |g| > 2 then g[2] else 0;
    BasisInverse(c1 / 4);
    BasisInverse((c1 % 4) * 16 + c2 / 16);
    BasisInverse((c2 % 16) * 4 + c3 / 64);
    BasisInverse(c3 % 64);
    NonSpaceOfText(Chunk(g));
  }

  /** The line breaks are white space and nothing else is. */
  lemma {:induction false} LineBreaksDrop(x: seq<byte>, ct: nat)
    ensures NonSpace(EncodeLines(x, ct)) == Encode(x)
  {
    hide Chunk, EncodeLines, Head;
    if x == [] {
      NothingToEncode(ct);
    } else {
      var g := Head(x);
      var rest := x[|g|..];
      ChunkIsText(g);
      LineBreaksDrop(rest, 0);
      LineBreaksDrop(rest, ct + 4);
      NonSpaceConcat([LF], EncodeLines(rest, 0));
      EncodeLinesStep(x, ct);
      NonSpaceConcat(Chunk(g), if ct + 4 > LINE then [LF] + EncodeLines(rest, 0) else EncodeLines(rest, ct + 4));
    }
  }

  lemma EmitCons(c: int, vs: seq<int>, premature: bool, pending: bool, portable: bool)
    ensures Emit(Decoded([c] + vs, premature), pending, portable)
            == PutcOut(c, pending, portable) + Emit(Decoded(vs, premature), PutcPending(c, pending, portable), portable)
  {
    assert ([c] + vs)[1..] == vs;
  }

  /** What a CR held back adds to the output. */
  function Held(pending: bool): seq<byte> {
    if pending then [CR] else []
  }

  lemma EmitNewline(w: seq<int>, pending: bool)
    ensures Emit(Decoded([CR, LF] + w, false), pending, true)
            == Held(pending) + ([LF] + Emit(Decoded(w, false), false, true))
  {
    hide Emit;
    EmitCons(CR, [LF] + w, false, pending, true);
    EmitCons(LF, w, false, true, true);
    assert [CR, LF] + w == [CR] + ([LF] + w);
  }

  lemma EmitByte(c: byte, w: seq<int>, pending: bool)
    requires c != LF
    ensures Emit(Decoded([c] + w, false), pending, true)
            == Held(pending) + if c == CR then Emit(Decoded(w, false), true, true)
                               else [c] + Emit(Decoded(w, false), false, true)
  {
    hide Emit;
    EmitCons(c, w, false, pending, true);
  }

  lemma EmitNothing(pending: bool, portable: bool)
    ensures Emit(Decoded([], false), pending, portable) == Held(pending)
  {
  }

  /** The CR automaton undoes the widening, lone and repeated CRs included. */
  lemma {:induction false} NarrowInvertsWiden(x: seq<byte>, pending: bool)
    ensures Emit(Decoded(Widen(x), false), pending, true) == Held(pending) + x
  {
    hide Emit;
    if x == [] {
      EmitNothing(pending, true);
    } else {
      var w := Widen(x[1..]);
      NarrowInvertsWiden(x[1..], x[0] == CR);
      assert x == [x[0]] + x[1..];
      if x[0] == LF {
        EmitNewline(w, pending);
      } else {
        EmitByte(x[0], w, pending);
      }
    }
  }

  lemma {:induction false} NarrowKeepsBytes(x: seq<byte>)
    ensures Emit(Decoded(x, false), false, false) == x
  {
    if x != [] {
      NarrowKeepsBytes(x[1..]);
      EmitCons(x[0], x[1..], false, false, false);
      assert x == [x[0]] + x[1..];
    }
  }

  /** from64 inverts to64 on every byte sequence, with and without portable newlines. */
  lemma {:induction false} RoundTrip(x: seq<byte>, portable: bool)
    ensures From64Text(To64Text(x, portable), portable) == x
  {
    var y := if portable then Widen(x) else x;
    LineBreaksDrop(y, 0);
    DecodeInvertsEncode(y);
    NarrowInvertsWiden(x, false);
    NarrowKeepsBytes(x);
  }

  // ------------------------------------------------- the text, against RFC 2045

  /** Table 1 of section 6.8. */
  function Letter(i: nat): byte
    requires i < 64
  {
    LettersAreAscii();
    if i < 26 then "ABCDEFGHIJKLMNOPQRSTUVWXYZ"[i] as int
    else if i < 52 then "abcdefghijklmnopqrstuvwxyz"[i - 26] as int
    else "0123456789+/"[i - 52] as int
  }

  lemma LettersAreAscii()
    ensures forall i :: 0 <= i < 26 ==> "ABCDEFGHIJKLMNOPQRSTUVWXYZ"[i] as int == 65 + i
    ensures forall i :: 0 <= i < 26 ==> "abcdefghijklmnopqrstuvwxyz"[i] as int == 97 + i
    ensures forall i :: 0 <= i < 12 ==>
              "0123456789+/"[i] as int == if i < 10 then 48 + i else if i == 10 then 43 else 47
  {
  }

  lemma BasisIsLetter(i: nat)
    requires i < 64
    ensures Basis(i) == Letter(i)
  {
    LettersAreAscii();
  }

  /** The 24 bits of a group, a short one filled up with zeros. */
  function Bits(g: seq<byte>): (n: nat)
    requires 1 <= |g| <= 3
    ensures n / 262144 < 64
  {
    var c1: int, c2: int, c3: int := g[0], if |g| > 1 then g[1] else 0, if |g| > 2 then g[2] else 0;
    c1 * 65536 + c2 * 256 + c3
  }

  /** A group is written as the four letters of its bits, six at a time; '=' stands
      where a short group has no bits. */
  lemma ChunkSpells(g: seq<byte>)
    requires 1 <= |g| <= 3
    ensures var n := Bits(g);
            Chunk(g) == [Letter(n / 262144), Letter(n / 4096 % 64),
                         if |g| > 1 then Letter(n / 64 % 64) else '=' as int,
                         if |g| > 2 then Letter(n % 64) else '=' as int]
  {
    hide Basis, Letter;
    var c1, c2, c3 := g[0], if |g| > 1 then g[1] else 0, if |g| > 2 then g[2] else 0;
    SplitBits(c1, c2, c3);
    BasisIsLetter(c1 / 4);
    BasisIsLetter((c1 % 4) * 16 + c2 / 16);
    BasisIsLetter((c2 % 16) * 4 + c3 / 64);
    BasisIsLetter(c3 % 64);
  }

  lemma SplitBits(c1: byte, c2: byte, c3: byte)
    ensures var n := c1 * 65536 + c2 * 256 + c3;
            && n / 262144 == c1 / 4 && n / 4096 % 64 == (c1 % 4) * 16 + c2 / 16
            && n / 64 % 64 == (c2 % 16) * 4 + c3 / 64 && n % 64 == c3 % 64
  {
    Digits64(c1 / 4, (c1 % 4) * 16 + c2 / 16, (c2 % 16) * 4 + c3 / 64, c3 % 64);
  }

  lemma Digits64(q1: nat, q2: nat, q3: nat, q4: nat)
    requires q1 < 64 && q2 < 64 && q3 < 64 && q4 < 64
    ensures var n := ((q1 * 64 + q2) * 64 + q3) * 64 + q4;
            n / 262144 == q1 && n / 4096 % 64 == q2 && n / 64 % 64 == q3 && n % 64 == q4
  {
    var n := ((q1 * 64 + q2) * 64 + q3) * 64 + q4;
    Quotient(n, 64, (q1 * 64 + q2) * 64 + q3, q4);
    Quotient(n, 4096, q1 * 64 + q2, q3 * 64 + q4);
    Quotient(n, 262144, q1, (q2 * 64 + q3) * 64 + q4);
    Quotient((q1 * 64 + q2) * 64 + q3, 64, q1 * 64 + q2, q3);
    Quotient(q1 * 64 + q2, 64, q1, q2);
  }

  lemma Digits256(c1: nat, c2: nat, c3: nat)
    requires c1 < 256 && c2 < 256 && c3 < 256
    ensures var n := (c1 * 256 + c2) * 256 + c3; n / 65536 == c1 && n / 256 % 256 == c2 && n % 256 == c3
  {
    var n := (c1 * 256 + c2) * 256 + c3;
    Quotient(n, 256, c1 * 256 + c2, c3);
    Quotient(n, 65536, c1, c2 * 256 + c3);
    Quotient(c1 * 256 + c2, 256, c1, c2);
  }

  lemma Quotient(n: nat, d: nat, q: nat, r: nat)
    requires n == q * d + r && r < d
    ensures n / d == q && n % d == r
  {
    var k := n / d - q;
    Multiple(k, d);
    assert k * d == r - n % d by {
      assert n == n / d * d + n % d;
      assert k * d == n / d * d - q * d;
    }
  }

  lemma Multiple(k: int, d: int)
    requires d >= 0
    ensures k >= 1 ==> k * d >= d
    ensures k <= -1 ==> k * d <= -d
  {
  }

  /** Bytes 3 k to 3 k + 2 of x, or as many as there are. */
  function Group(x: seq<byte>, k: nat): seq<byte>
    requires 3 * k < |x|
  {
    if 3 * k + 3 <= |x| then x[3 * k..3 * k + 3] else x[3 * k..]
  }

  /** Characters 4 k to 4 k + 3 of an encoding are those of group k. */
  lemma {:induction false} EncodeAt(x: seq<byte>, k: nat)
    requires 3 * k < |x|
    ensures |Encode(x)| == (|x| + 2) / 3 * 4
    ensures Encode(x)[4 * k..4 * k + 4] == Chunk(Group(x, k))
  {
    hide Chunk, Encode, Head, Group;
    EncodeLength(x);
    EncodeStep(x);
    GroupShifted(x, k);
    if k > 0 {
      EncodeLength(x[3..]);
      EncodeAt(x[3..], k - 1);
      Shifted(Encode(x), 4, 4 * k, 4 * k + 4);
      assert Encode(x)[4..] == Encode(x[3..]);
    } else {
      assert Encode(x)[0..4] == if |x| <= 3 then Chunk(x) else Chunk(x[..3]);
    }
  }

  lemma GroupShifted(x: seq<byte>, k: nat)
    requires 3 * k < |x|
    ensures if k > 0 then Group(x, k) == Group(x[3..], k - 1) else Group(x, k) == if |x| <= 3 then x else x[..3]
  {
    if k > 0 {
      Shifted(x, 3, 3 * k, if 3 * k + 3 <= |x| then 3 * k + 3 else |x|);
    }
  }

  lemma EncodeStep(x: seq<byte>)
    requires x != []
    ensures if |x| <= 3 then Encode(x) == Chunk(x) else Encode(x) == Chunk(x[..3]) + Encode(x[3..])
  {
    hide Chunk;
    if |x| <= 3 {
      assert Head(x) == x && x[|x|..] == [] && Encode([]) == [];
      assert Chunk(x) + [] == Chunk(x);
    } else {
      assert Head(x) == x[..3];
    }
  }

  lemma Shifted<T>(s: seq<T>, d: nat, i: nat, j: nat)
    requires d <= i <= j <= |s|
    ensures s[d..][i - d..j - d] == s[i..j]
  {
  }

  lemma {:induction false} EncodeLength(x: seq<byte>)
    ensures |Encode(x)| == (|x| + 2) / 3 * 4
  {
    if x != [] {
      EncodeStep(x);
      if |x| > 3 {
        EncodeLength(x[3..]);
      }
    }
  }

  /** How an encoding ends: with "==", with "=", or without a pad, which stands
      nowhere else. */
  lemma {:induction false} EncodingEnds(x: seq<byte>)
    ensures var e := Encode(x);
            forall i :: 0 <= i < |e| ==>
              (e[i] == '=' as int <==> i >= |e| - (if |x| % 3 == 1 then 2 else if |x| % 3 == 2 then 1 else 0))
  {
    hide Chunk, Encode;
    EncodeLength(x);
    if x != [] {
      EncodeStep(x);
      if |x| <= 3 {
        ChunkPads(x);
      } else {
        ChunkPads(x[..3]);
        EncodeLength(x[3..]);
        EncodingEnds(x[3..]);
      }
    }
  }

  lemma ChunkPads(g: seq<byte>)
    requires 1 <= |g| <= 3
    ensures forall i :: 0 <= i < 4 ==> (Chunk(g)[i] == '=' as int <==> i > |g|)
  {
    hide Basis;
    var c1, c2, c3 := g[0], if |g| > 1 then g[1] else 0, if |g| > 2 then g[2] else 0;
    BasisInverse(c1 / 4);
    BasisInverse((c1 % 4) * 16 + c2 / 16);
    BasisInverse((c2 % 16) * 4 + c3 / 64);
    BasisInverse(c3 % 64);
  }

  /** The whole text with its line breaks taken out. */
  lemma To64Spells(x: seq<byte>, portable: bool)
    ensures NonSpace(To64Text(x, portable)) == Encode(if portable then Widen(x) else x)
  {
    LineBreaksDrop(if portable then Widen(x) else x, 0);
  }

  lemma WidenNewlines(x: seq<byte>)
    ensures Widen([10] + x) == [13, 10] + Widen(x)
    ensures forall c: byte :: c != 10 ==> Widen([c] + x) == [c] + Widen(x)
  {
    assert forall c: byte :: ([c] + x)[1..] == x;
  }

  /** What from64 makes of four letters, of three and "=", and of two and "==". */
  lemma LettersDecode(v1: nat, v2: nat, v3: nat, v4: nat, t: seq<byte>)
    requires v1 < 64 && v2 < 64 && v3 < 64 && v4 < 64
    ensures var n := ((v1 * 64 + v2) * 64 + v3) * 64 + v4;
            && Decode([Letter(v1), Letter(v2), Letter(v3), Letter(v4)] + t)
               == Decoded([n / 65536, n / 256 % 256, n % 256] + Decode(t).values, Decode(t).premature)
            && Decode([Letter(v1), Letter(v2), Letter(v3), '=' as int] + t)
               == Decoded([n / 65536, n / 256 % 256], false)
            && Decode([Letter(v1), Letter(v2), '=' as int, '=' as int] + t) == Decoded([n / 65536], false)
  {
    hide Letter, Basis, Char64, First, Second, Third, Decode;
    LetterValue(v1);
    LetterValue(v2);
    LetterValue(v3);
    LetterValue(v4);
    JoinBits(v1, v2, v3, v4);
    DecodeUnfolds(Letter(v1), Letter(v2), Letter(v3), Letter(v4), t);
    DecodeUnfolds(Letter(v1), Letter(v2), Letter(v3), '=' as int, t);
    DecodeUnfolds(Letter(v1), Letter(v2), '=' as int, '=' as int, t);
  }

  lemma LetterValue(v: nat)
    requires v < 64
    ensures Char64(Letter(v)) == v && Letter(v) != '=' as int
  {
    BasisIsLetter(v);
    BasisInverse(v);
  }

  lemma JoinBits(v1: nat, v2: nat, v3: nat, v4: nat)
    requires v1 < 64 && v2 < 64 && v3 < 64 && v4 < 64
    ensures var n := ((v1 * 64 + v2) * 64 + v3) * 64 + v4;
            && First(v1, v2) == n / 65536 && Second(v2, v3) == n / 256 % 256 && Third(v3, v4) == n % 256
  {
    hide First, Second, Third;
    var c1, c2, c3 := v1 * 4 + v2 / 16, v2 % 16 * 16 + v3 / 4, v3 % 4 * 64 + v4;
    FirstOf(v1, v2);
    SecondOf(v2, v3);
    ThirdOf(v3, v4);
    assert ((v1 * 64 + v2) * 64 + v3) * 64 + v4 == (c1 * 256 + c2) * 256 + c3 by {
      assert v2 == v2 / 16 * 16 + v2 % 16 && v3 == v3 / 4 * 4 + v3 % 4;
    }
    Digits256(c1, c2, c3);
  }

  lemma FirstOf(v1: nat, v2: nat)
    requires v1 < 64 && v2 < 64
    ensures First(v1, v2) == v1 * 4 + v2 / 16 < 256
  {
  }

  lemma SecondOf(v2: nat, v3: nat)
    requires v2 < 64 && v3 < 64
    ensures Second(v2, v3) == v2 % 16 * 16 + v3 / 4 < 256
  {
  }

  lemma ThirdOf(v3: nat, v4: nat)
    requires v3 < 64 && v4 < 64
    ensures Third(v3, v4) == v3 % 4 * 64 + v4 < 256
  {
  }

  /** A character that is no letter counts as six bits that are one, and drowns out
      the byte of which it is the last. */
  lemma JunkDecodes(v: nat)
    requires v < 64
    ensures First(-1, v) % 256 == 252 + v / 16 && First(v, -1) % 256 == v * 4 + 3
    ensures Second(-1, v) % 256 == 240 + v / 4 && Second(v, -1) % 256 == v % 16 * 16 + 15
    ensures Third(-1, v) % 256 == 192 + v && Third(v, -1) % 256 == 255
  {
    hide First, Second, Third;
    JunkFirst(v);
    JunkSecond(v);
    JunkThird(v);
  }

  lemma JunkFirst(v: nat)
    requires v < 64
    ensures First(-1, v) % 256 == 252 + v / 16 && First(v, -1) % 256 == v * 4 + 3
  {
    assert v % 64 == v && First(-1, v) == -4 + v / 16;
    assert First(v, -1) == v * 4 + 3;
  }

  lemma JunkSecond(v: nat)
    requires v < 64
    ensures Second(-1, v) % 256 == 240 + v / 4 && Second(v, -1) % 256 == v % 16 * 16 + 15
  {
    assert v % 64 == v && Second(-1, v) == 240 + v / 4;
    assert Second(v, -1) == v % 16 * 16 + 15;
  }

  lemma JunkThird(v: nat)
    requires v < 64
    ensures Third(-1, v) % 256 == 192 + v && Third(v, -1) % 256 == 255
  {
    assert Third(-1, v) == 192 + v && Third(v, -1) == -1;
  }

  /** An '=' among the first two characters of a group ends the data. */
  lemma PadEndsData(c1: byte, c2: byte, c3: byte, c4: byte, t: seq<byte>)
    requires c1 == '=' as int || c2 == '=' as int
    ensures Decode([c1, c2, c3, c4] + t) == Decoded([], false)
  {
    DecodeUnfolds(c1, c2, c3, c4, t);
  }

  /** White space anywhere in a text makes no difference. */
  lemma SpaceIgnored(s: seq<byte>, c: byte, t: seq<byte>, portable: bool)
    requires c in Codes(" \t\n\r") || c == 11 || c == 12
    ensures From64Text(s + [c] + t, portable) == From64Text(s + t, portable)
  {
    NonSpaceConcat(s + [c], t);
    NonSpaceConcat(s, [c]);
    NonSpaceConcat(s, t);
    assert [c][1..] == [];
    assert NonSpace(s) + [] == NonSpace(s);
  }

  /** Only the letters stand for anything. */
  lemma OnlyLettersCount(c: byte)
    ensures Char64(c) == -1 <==> forall i :: 0 <= i < 64 ==> Letter(i) != c
  {
    if Char64(c) >= 0 {
      BasisIsLetter(Char64(c));
      assert Basis(Char64(c)) == c;
    } else {
      forall i | 0 <= i < 64 ensures Letter(i) != c {
        LetterValue(i);
      }
    }
  }

  // ------------------------------------------------------------- line lengths

  /** At most 72 characters a line, every line but the last one full, and the
      last one ended by a newline too. */
  ghost predicate LinesOk(ls: seq<seq<byte>>) {
    && ls != [] && ls[|ls| - 1] == []
    && forall i :: 0 <= i < |ls| - 1 ==> 0 < |ls[i]| <= 72 && (i < |ls| - 2 ==> |ls[i]| == 72)
  }

  lemma FullLine(line: seq<byte>, s: seq<byte>)
    requires LF !in line && |line| == LINE + 1 && LinesOk(Lines(s))
    ensures LinesOk(Lines(line + [LF] + s))
  {
    FirstLine(line, s);
  }

  lemma LastLine(line: seq<byte>)
    requires LF !in line && 0 < |line| <= LINE
    ensures LinesOk(Lines(line + [LF]))
  {
    FirstLine(line, []);
    assert line + [LF] + [] == line + [LF];
  }

  lemma NoLines()
    ensures LinesOk(Lines([] + []))
  {
  }

  lemma {:induction false} EncodedLinesOk(x: seq<byte>, cur: seq<byte>)
    requires LF !in cur && |cur| % 4 == 0 && |cur| <= LINE
    ensures LinesOk(Lines(cur + EncodeLines(x, |cur|)))
    decreases |x|
  {
    hide Chunk, Lines, LinesOk, Head;
    if x == [] {
      if cur != [] {
        LastLine(cur);
      } else {
        NoLines();
      }
    } else {
      var c, rest := Chunk(Head(x)), x[|Head(x)|..];
      ChunkIsText(Head(x));
      assert |c| == 4;
      if |cur| + 4 > LINE {
        var t := EncodeLines(rest, 0);
        EncodedLinesOk(rest, []);
        assert [] + t == t;
        FullLine(cur + c, t);
        assert cur + (c + ([LF] + t)) == (cur + c) + [LF] + t;
      } else {
        EncodedLinesOk(rest, cur + c);
        assert cur + (c + EncodeLines(rest, |cur| + 4)) == (cur + c) + EncodeLines(rest, |cur| + 4);
      }
    }
  }

  lemma {:induction false} To64LinesOk(x: seq<byte>, portable: bool)
    ensures LinesOk(Lines(To64Text(x, portable))) && Join(Lines(To64Text(x, portable))) == To64Text(x, portable)
  {
    var y := if portable then Widen(x) else x;
    JoinInvertsLines(To64Text(x, portable));
    EncodedLinesOk(y, []);
    assert [] + EncodeLines(y, 0) == EncodeLines(y, 0);
  }

  // ----------------------------------------------------------------- encoder

  lemma HeadIs(x: seq<byte>, g: seq<byte>, t: seq<byte>)
    requires x == g + t && (|g| == 3 || (1 <= |g| < 3 && t == []))
    ensures Head(x) == g && x[|g|..] == t
  {
  }

  /** One turn of the loop in to64. */
  lemma EncodeLinesStep(x: seq<byte>, ct: nat)
    requires x != []
    ensures EncodeLines(x, ct) == Chunk(Head(x)) +
              if ct + 4 > LINE then [LF] + EncodeLines(x[|Head(x)|..], 0) else EncodeLines(x[|Head(x)|..], ct + 4)
  {
  }

  lemma NothingToEncode(ct: nat)
    ensures EncodeLines([], ct) == if ct != 0 then [LF] else []
  {
  }

  class Encoder {
    var inNewline: bool

    constructor ()
      ensures !inNewline
    {
      inNewline := false;
    }

    /** The characters nextcharin is still going to hand out. */
    ghost function Pending(infile: InFile, portable: bool): seq<byte>
      requires infile.Valid()
      reads this, infile
    {
      (if inNewline then [LF] else []) + (if portable then Widen(infile.Rest()) else infile.Rest())
    }

    lemma PendingAtStart(infile: InFile, portable: bool)
      requires infile.Valid() && !inNewline
      ensures Pending(infile, portable) == if portable then Widen(infile.Rest()) else infile.Rest()
    {
    }

    /** Gets a character, faking a newline properly into two. */
    method NextCharIn(infile: InFile, portable: bool) returns (c: int)
      requires infile.Valid() && (inNewline ==> portable)
      modifies this, infile`pos
      ensures infile.Valid() && (inNewline ==> portable)
      ensures if old(Pending(infile, portable)) == [] then c == EOF && Pending(infile, portable) == []
              else c == old(Pending(infile, portable))[0]
                   && Pending(infile, portable) == old(Pending(infile, portable))[1..]
    {
      if !portable {
        c := infile.Getc();
        return;
      }
      if inNewline {
        inNewline := false;
        return LF;
      }
      c := infile.Getc();
      if c == LF {
        inNewline := true;
        return CR;
      }
    }

    /** Reads the rest of the group that c1 starts and writes its encoding. */
    method EncodeGroup(c1: byte, infile: InFile, outfile: OutFile, portable: bool)
      requires infile.Valid() && (inNewline ==> portable)
      modifies this, infile`pos, outfile
      ensures infile.Valid() && (inNewline ==> portable)
      ensures var left := [c1] + old(Pending(infile, portable));
              && outfile.written == old(outfile.written) + Chunk(Head(left))
              && Pending(infile, portable) == left[|Head(left)|..]
    {
      hide Chunk, Widen, Head, Encoder.Pending;
      ghost var left := [c1] + Pending(infile, portable);
      var c2 := NextCharIn(infile, portable);
      if c2 == EOF {
        HeadIs(left, [c1], Pending(infile, portable));
        Output64Chunk(c1, 0, 0, 2, outfile);
      } else {
        var c3 := NextCharIn(infile, portable);
        if c3 == EOF {
          HeadIs(left, [c1, c2], Pending(infile, portable));
          Output64Chunk(c1, c2, 0, 1, outfile);
        } else {
          HeadIs(left, [c1, c2, c3], Pending(infile, portable));
          Output64Chunk(c1, c2, c3, 0, outfile);
        }
      }
    }

    /** One turn of the loop in to64; more is false at the end of the input. */
    method EncodeNext(infile: InFile, outfile: OutFile, portable: bool, ct: nat) returns (more: bool, ct': nat)
      requires infile.Valid() && (inNewline ==> portable) && ct <= LINE
      modifies this, infile`pos, outfile
      ensures infile.Valid() && (inNewline ==> portable) && ct' <= LINE
      ensures more <==> old(Pending(infile, portable)) != []
      ensures !more ==> ct' == ct && outfile.written == old(outfile.written)
      ensures more ==>
        var left := old(Pending(infile, portable));
        && Pending(infile, portable) == left[|Head(left)|..]
        && outfile.written == old(outfile.written) + (Chunk(Head(left)) + if ct + 4 > LINE then [LF] else [])
        && ct' == if ct + 4 > LINE then 0 else ct + 4
    {
      hide Chunk, Widen, Head, Encoder.Pending;
      ghost var left := Pending(infile, portable);
      more, ct' := false, ct;
      var c1 := NextCharIn(infile, portable);
      if c1 != EOF {
        assert [c1] + Pending(infile, portable) == left;
        EncodeGroup(c1, infile, outfile, portable);
        more, ct' := true, ct + 4;
        if ct' > LINE {
          outfile.Putc(LF);
          ct' := 0;
        }
      }
    }

    method To64(infile: InFile, outfile: OutFile, portable: bool)
      requires infile.Valid()
      modifies this, infile`pos, outfile
      ensures infile.Valid()
      ensures outfile.written == old(outfile.written) + To64Text(old(infile.Rest()), portable)
    {
      hide Chunk, Widen, Head, EncodeLines, Encoder.Pending;
      inNewline := false;
      PendingAtStart(infile, portable);
      ghost var goal := outfile.written + To64Text(infile.Rest(), portable);
      var ct: nat := 0;
      while true
        invariant infile.Valid() && (inNewline ==> portable) && ct <= LINE
        invariant outfile.written + EncodeLines(Pending(infile, portable), ct) == goal
        decreases |Pending(infile, portable)|
      {
        ghost var left, was := Pending(infile, portable), ct;
        var more;
        more, ct := EncodeNext(infile, outfile, portable, ct);
        if !more {
          NothingToEncode(ct);
          break;
        }
        EncodeLinesStep(left, was);
      }
      if ct != 0 {
        outfile.Putc(LF);
      }
    }
  }

  method Output64Chunk(c1: byte, c2: byte, c3: byte, pads: nat, outfile: OutFile)
    requires pads <= 2 && (pads > 0 ==> c3 == 0) && (pads == 2 ==> c2 == 0)
    modifies outfile
    ensures outfile.written == old(outfile.written) + Chunk(
              if pads == 0 then [c1, c2, c3] else if pads == 1 then [c1, c2] else [c1])
  {
    hide Basis;
    outfile.Putc(Basis(c1 / 4));
    outfile.Putc(Basis((c1 % 4) * 16 + c2 / 16));
    if pads == 2 {
      outfile.Putc(PAD);
      outfile.Putc(PAD);
    } else if pads != 0 {
      outfile.Putc(Basis((c2 % 16) * 4 + c3 / 64));
      outfile.Putc(PAD);
    } else {
      outfile.Putc(Basis((c2 % 16) * 4 + c3 / 64));
      outfile.Putc(Basis(c3 % 64));
    }
  }

  // ----------------------------------------------------------------- decoder

  /** The do-while loops of from64: the next character that is no white space. */
  method GetNonSpace(infile: InFile) returns (c: int)
    requires infile.Valid()
    modifies infile`pos
    ensures infile.Valid() && -1 <= c < 256
    ensures NonSpace(old(infile.Rest())) == if c == EOF then [] else [c] + NonSpace(infile.Rest())
    ensures if c == EOF then infile.Rest() == [] else |infile.Rest()| < |old(infile.Rest())|
  {
    c := infile.Getc();
    while c != EOF && IsSpace(c)
      invariant infile.Valid() && -1 <= c < 256
      invariant NonSpace(old(infile.Rest())) ==
                if c == EOF then [] else if IsSpace(c) then NonSpace(infile.Rest()) else [c] + NonSpace(infile.Rest())
      invariant if c == EOF then infile.Rest() == [] else |infile.Rest()| < |old(infile.Rest())|
      decreases |infile.Rest()|, c
    {
      c := infile.Getc();
    }
  }

  lemma EmitOne(v: int, pending: bool, portable: bool)
    ensures Emit(Decoded([v], false), pending, portable)
            == PutcOut(v, pending, portable) + Emit(Decoded([], false), PutcPending(v, pending, portable), portable)
  {
    hide Emit, PutcOut, PutcPending;
    assert [v] + [] == [v];
    EmitCons(v, [], false, pending, portable);
  }

  lemma EmitTwo(v1: int, v2: int, pending: bool, portable: bool)
    ensures var p1 := PutcPending(v1, pending, portable);
            Emit(Decoded([v1, v2], false), pending, portable)
            == PutcOut(v1, pending, portable) + PutcOut(v2, p1, portable)
               + Emit(Decoded([], false), PutcPending(v2, p1, portable), portable)
  {
    hide Emit, PutcOut, PutcPending;
    assert [v1] + [v2] == [v1, v2];
    EmitCons(v1, [v2], false, pending, portable);
    EmitOne(v2, PutcPending(v1, pending, portable), portable);
  }

  lemma EmitThree(v1: int, v2: int, v3: int, d: Decoded, pending: bool, portable: bool)
    ensures var p1 := PutcPending(v1, pending, portable);
            var p2 := PutcPending(v2, p1, portable);
            Emit(Decoded([v1, v2, v3] + d.values, d.premature), pending, portable)
            == PutcOut(v1, pending, portable) + PutcOut(v2, p1, portable) + PutcOut(v3, p2, portable)
               + Emit(d, PutcPending(v3, p2, portable), portable)
  {
    hide Emit, PutcOut, PutcPending;
    var p1 := PutcPending(v1, pending, portable);
    var vs := [v2] + ([v3] + d.values);
    assert [v1, v2, v3] + d.values == [v1] + vs;
    EmitCons(v1, vs, d.premature, pending, portable);
    EmitCons(v2, [v3] + d.values, d.premature, p1, portable);
    EmitCons(v3, d.values, d.premature, PutcPending(v2, p1, portable), portable);
  }

  class Decoder {
    var crPending: bool

    constructor ()
      ensures !crPending
    {
      crPending := false;
    }

    method AlmostPutc(c: int, outfile: OutFile, portable: bool)
      modifies this, outfile
      ensures outfile.written == old(outfile.written) + PutcOut(c, old(crPending), portable)
      ensures crPending == PutcPending(c, old(crPending), portable)
    {
      if crPending {
        if c == LF {
          outfile.Putc(LF);
          crPending := false;
        } else {
          outfile.Putc(CR);
          if c != CR {
            outfile.Putc(c);
            crPending := false;
          }
        }
      } else if portable && c == CR {
        crPending := true;
      } else {
        outfile.Putc(c);
      }
    }

    /** Decodes one group of four characters; done says that padding ends the data. */
    method DecodeGroup(c1: byte, c2: byte, c3: byte, c4: byte, outfile: OutFile, portable: bool, ghost t: seq<byte>)
        returns (done: bool)
      modifies this, outfile
      ensures old(outfile.written) + Emit(Decode([c1, c2, c3, c4] + t), old(crPending), portable)
              == outfile.written + Emit(if done then Decoded([], false) else Decode(t), crPending, portable)
    {
      hide Char64, First, Second, Third, Emit, PutcOut, PutcPending, Decode;
      DecodeUnfolds(c1, c2, c3, c4, t);
      ghost var pending := crPending;
      done := c1 == PAD || c2 == PAD;
      if !done {
        var v1, v2 := Char64(c1), Char64(c2);
        AlmostPutc(First(v1, v2), outfile, portable);
        done := c3 == PAD;
        if done {
          EmitOne(First(v1, v2), pending, portable);
        } else {
          var v3 := Char64(c3);
          AlmostPutc(Second(v2, v3), outfile, portable);
          done := c4 == PAD;
          if done {
            EmitTwo(First(v1, v2), Second(v2, v3), pending, portable);
          } else {
            var v4 := Char64(c4);
            AlmostPutc(Third(v3, v4), outfile, portable);
            EmitThree(First(v1, v2), Second(v2, v3), Third(v3, v4), Decode(t), pending, portable);
          }
        }
      }
    }

    method From64(infile: InFile, outfile: OutFile, portable: bool)
      requires infile.Valid()
      modifies this, infile`pos, outfile
      ensures infile.Valid()
      ensures outfile.written == old(outfile.written) + From64Text(old(infile.Rest()), portable)
    {
      hide NonSpace, Decode, Emit, IsSpace;
      var dataDone := false;
      crPending := false;
      ghost var goal := outfile.written + From64Text(infile.Rest(), portable);
      while true
        invariant infile.Valid()
        invariant goal == outfile.written
          + Emit(if dataDone then Decoded([], false) else Decode(NonSpace(infile.Rest())), crPending, portable)
        decreases |infile.Rest()|
      {
        ghost var q := NonSpace(infile.Rest());
        var c1 := GetNonSpace(infile);
        if c1 == EOF {
          NothingToDecode(crPending, portable);
          break;
        }
        if dataDone {
          continue;
        }
        var c2 := GetNonSpace(infile);
        assert c2 == EOF ==> q == [c1];
        var c3 := GetNonSpace(infile);
        assert c2 != EOF && c3 == EOF ==> q == [c1, c2];
        var c4 := GetNonSpace(infile);
        if c2 == EOF || c3 == EOF || c4 == EOF {
          assert c2 != EOF && c3 != EOF ==> q == [c1, c2, c3];
          PrematureEnd(c1, c2, c3, crPending, portable);
          return;  // saw premature EOF
        }
        assert q == [c1, c2, c3, c4] + NonSpace(infile.Rest());
        dataDone := DecodeGroup(c1, c2, c3, c4, outfile, portable, NonSpace(infile.Rest()));
      }
      if crPending {
        outfile.Putc(CR);
      }
    }
  }

  lemma NothingToDecode(pending: bool, portable: bool)
    ensures Emit(Decode([]), pending, portable) == Emit(Decoded([], false), pending, portable)
            == if pending then [CR] else []
  {
  }

  /** Input that ends inside a group yields nothing more, not even a held back CR. */
  lemma PrematureEnd(c1: byte, c2: int, c3: int, pending: bool, portable: bool)
    requires -1 <= c2 < 256 && -1 <= c3 < 256
    ensures Emit(Decode([c1]), pending, portable) == []
    ensures c2 >= 0 ==> Emit(Decode([c1, c2]), pending, portable) == []
    ensures c2 >= 0 && c3 >= 0 ==> Emit(Decode([c1, c2, c3]), pending, portable) == []
  {
  }
}
