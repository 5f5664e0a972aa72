/** Specification of the tag tables of lib-src/ootags.c: what a table prints after
    any sequence of additions, and how long that text is. */
module TagsSpec {
  import opened Wrappers

  /** The fields of a node that are printed. */
  datatype Entry = Entry(name: Option<string>, file: string, pat: string, lno: int, cno: int, isFunc: bool)

  datatype Tree = Leaf | Branch(left: Tree, entry: Entry, right: Tree)

  function InOrder(t: Tree): seq<Entry> {
    match t
    case Leaf => []
    case Branch(l, e, r) => InOrder(l) + [e] + InOrder(r)
  }

  function Key(e: Entry): string {
    if e.name.Some? then e.name.value else ""
  }

  // ---------------------------------------------------------------- the order

  /** The sign of strcmp: -1, 0 or 1. */
  function Compare(a: string, b: string): (r: int)
    ensures -1 <= r <= 1
  {
    if a == "" then (if b == "" then 0 else -1)
    else if b == "" then 1
    else if a[0] < b[0] then -1
    else if a[0] > b[0] then 1
    else Compare(a[1..], b[1..])
  }

  lemma {:induction false} CompareZero(a: string, b: string)
    ensures Compare(a, b) == 0 <==> a == b
  {
    if a != "" && b != "" {
      CompareZero(a[1..], b[1..]);
      assert a == [a[0]] + a[1..] && b == [b[0]] + b[1..];
    }
  }

  lemma {:induction false} CompareMirrored(a: string, b: string)
    ensures Compare(a, b) == -Compare(b, a)
  {
    if a != "" && b != "" {
      CompareMirrored(a[1..], b[1..]);
    }
  }

  lemma {:induction false} CompareTransitive(a: string, b: string, c: string)
    requires Compare(a, b) < 0 && Compare(b, c) < 0
    ensures Compare(a, c) < 0
  {
    if a != "" && b != "" && c != "" && a[0] == b[0] == c[0] {
      CompareTransitive(a[1..], b[1..], c[1..]);
    }
  }

  ghost predicate StrictlySorted(es: seq<Entry>) {
    forall i, j :: 0 <= i < j < |es| ==> Compare(Key(es[i]), Key(es[j])) < 0
  }

  // ---------------------------------------------------------------- ctags mode

  /** add_node in ctags mode: a tag whose name is in the tree already is dropped. */
  function Insert(t: Tree, e: Entry): Tree {
    match t
    case Leaf => Branch(Leaf, e, Leaf)
    case Branch(l, f, r) =>
      var dif := Compare(Key(e), Key(f));
      if dif == 0 then t
      else if dif < 0 then t.(left := Insert(l, e))
      else t.(right := Insert(r, e))
  }

  function InsertAll(es: seq<Entry>): Tree {
    if es == [] then Leaf else Insert(InsertAll(es[..|es| - 1]), es[|es| - 1])
  }

  predicate HasKey(es: seq<Entry>, k: string) {
    exists i :: 0 <= i < |es| && Key(es[i]) == k
  }

  lemma SortedParts(a: seq<Entry>, e: Entry, b: seq<Entry>)
    requires StrictlySorted(a + [e] + b)
    ensures StrictlySorted(a) && StrictlySorted(b)
    ensures forall i :: 0 <= i < |a| ==> Compare(Key(a[i]), Key(e)) < 0
    ensures forall i :: 0 <= i < |b| ==> Compare(Key(e), Key(b[i])) < 0
  {
    hide Compare;
    var s := a + [e] + b;
    assert forall i :: 0 <= i < |a| ==> s[i] == a[i];
    assert s[|a|] == e;
    assert forall i :: 0 <= i < |b| ==> s[|a| + 1 + i] == b[i];
  }

  lemma SortedJoin(a: seq<Entry>, e: Entry, b: seq<Entry>)
    requires StrictlySorted(a) && StrictlySorted(b)
    requires forall i :: 0 <= i < |a| ==> Compare(Key(a[i]), Key(e)) < 0
    requires forall i :: 0 <= i < |b| ==> Compare(Key(e), Key(b[i])) < 0
    ensures StrictlySorted(a + [e] + b)
  {
    hide Compare;
    var s := a + [e] + b;
    forall i, j | 0 <= i < j < |s| ensures Compare(Key(s[i]), Key(s[j])) < 0 {
      if i < |a| && |a| < j {
        CompareTransitive(Key(a[i]), Key(e), Key(b[j - |a| - 1]));
      }
    }
  }

  /** Inserting into a sorted tree puts the entry at its place, or changes nothing
      if its name is there already. */
  lemma {:induction false} InsertInOrder(t: Tree, e: Entry)
    requires StrictlySorted(InOrder(t))
    ensures var es := InOrder(t); var es' := InOrder(Insert(t, e));
            && StrictlySorted(es')
            && if HasKey(es, Key(e)) then es' == es else multiset(es') == multiset(es) + multiset{e}
  {
    hide Compare;
    match t
    case Leaf =>
    case Branch(l, f, r) =>
      var a, b := InOrder(l), InOrder(r);
      SortedParts(a, f, b);
      var dif := Compare(Key(e), Key(f));
      CompareZero(Key(e), Key(f));
      CompareMirrored(Key(e), Key(f));
      KeysOfNode(a, f, b, e);
      if dif < 0 {
        InsertInOrder(l, e);
        InsertedBelow(a, InOrder(Insert(l, e)), f, e);
        SortedJoin(InOrder(Insert(l, e)), f, b);
      } else if dif > 0 {
        InsertInOrder(r, e);
        InsertedAbove(b, InOrder(Insert(r, e)), f, e);
        SortedJoin(a, f, InOrder(Insert(r, e)));
      }
  }

  /** Which side of a node a name can be on. */
  lemma {:induction false} KeysOfNode(a: seq<Entry>, f: Entry, b: seq<Entry>, e: Entry)
    requires forall i :: 0 <= i < |a| ==> Compare(Key(a[i]), Key(f)) < 0
    requires forall i :: 0 <= i < |b| ==> Compare(Key(f), Key(b[i])) < 0
    ensures var dif := Compare(Key(e), Key(f));
            HasKey(a + [f] + b, Key(e)) <==>
              if dif == 0 then true else if dif < 0 then HasKey(a, Key(e)) else HasKey(b, Key(e))
  {
    hide Compare;
    var s := a + [f] + b;
    CompareZero(Key(e), Key(f));
    CompareMirrored(Key(e), Key(f));
    assert s[|a|] == f;
    assert forall i :: 0 <= i < |a| ==> s[i] == a[i];
    assert forall i :: 0 <= i < |b| ==> s[|a| + 1 + i] == b[i];
    forall i | 0 <= i < |s| && Key(s[i]) == Key(e)
      ensures if i < |a| then Compare(Key(e), Key(f)) < 0
              else if i == |a| then Compare(Key(e), Key(f)) == 0 else Compare(Key(e), Key(f)) > 0
    {
    }
  }

  lemma InsertedBelow(a: seq<Entry>, a': seq<Entry>, f: Entry, e: Entry)
    requires forall i :: 0 <= i < |a| ==> Compare(Key(a[i]), Key(f)) < 0
    requires Compare(Key(e), Key(f)) < 0
    requires a' == a || multiset(a') == multiset(a) + multiset{e}
    ensures forall i :: 0 <= i < |a'| ==> Compare(Key(a'[i]), Key(f)) < 0
  {
    hide Compare;
    forall i | 0 <= i < |a'| ensures Compare(Key(a'[i]), Key(f)) < 0 {
      assert a'[i] in multiset(a');
      assert a'[i] == e || a'[i] in a;
    }
  }

  lemma InsertedAbove(b: seq<Entry>, b': seq<Entry>, f: Entry, e: Entry)
    requires forall i :: 0 <= i < |b| ==> Compare(Key(f), Key(b[i])) < 0
    requires Compare(Key(f), Key(e)) < 0
    requires b' == b || multiset(b') == multiset(b) + multiset{e}
    ensures forall i :: 0 <= i < |b'| ==> Compare(Key(f), Key(b'[i])) < 0
  {
    hide Compare;
    forall i | 0 <= i < |b'| ensures Compare(Key(f), Key(b'[i])) < 0 {
      assert b'[i] in multiset(b');
      assert b'[i] == e || b'[i] in b;
    }
  }

  /** e is the first of es to have its name. */
  ghost predicate IsFirst(es: seq<Entry>, e: Entry) {
    exists i :: 0 <= i < |es| && es[i] == e && !HasKey(es[..i], Key(e))
  }

  /** In ctags mode a table lists the names in strictly increasing order, each
      once, and with the entry that was added first. */
  lemma {:induction false} CtagsLists(es: seq<Entry>)
    ensures var out := InOrder(InsertAll(es));
            && StrictlySorted(out)
            && (forall e :: e in out <==> IsFirst(es, e))
            && (forall k :: HasKey(out, k) <==> HasKey(es, k))
  {
    if es != [] {
      var n := |es| - 1;
      var was, e := InsertAll(es[..n]), es[n];
      CtagsLists(es[..n]);
      InsertInOrder(was, e);
      FirstsGrow(es, InOrder(was), InOrder(Insert(was, e)));
    }
  }

  lemma {:induction false} FirstsGrow(es: seq<Entry>, out: seq<Entry>, out': seq<Entry>)
    requires es != []
    requires forall e :: e in out <==> IsFirst(es[..|es| - 1], e)
    requires forall k :: HasKey(out, k) <==> HasKey(es[..|es| - 1], k)
    requires var e := es[|es| - 1];
             if HasKey(out, Key(e)) then out' == out else multiset(out') == multiset(out) + multiset{e}
    ensures forall e :: e in out' <==> IsFirst(es, e)
    ensures forall k :: HasKey(out', k) <==> HasKey(es, k)
  {
    var n := |es| - 1;
    var last, front := es[n], es[..n];
    forall e ensures IsFirst(es, e) <==> IsFirst(front, e) || (e == last && !HasKey(front, Key(last))) {
      if IsFirst(front, e) {
        var i :| 0 <= i < n && front[i] == e && !HasKey(front[..i], Key(e));
        assert es[i] == e && es[..i] == front[..i];
      }
      if IsFirst(es, e) {
        var i :| 0 <= i < |es| && es[i] == e && !HasKey(es[..i], Key(e));
        if i < n {
          assert front[i] == e && front[..i] == es[..i];
        }
      }
    }
    forall e ensures e in out' <==> e in out || (e == last && !HasKey(out, Key(last))) {
      assert e in out' <==> e in multiset(out');
      assert e in out <==> e in multiset(out);
    }
    forall k ensures HasKey(es, k) <==> HasKey(front, k) || Key(last) == k {
      if HasKey(front, k) {
        var i :| 0 <= i < n && Key(front[i]) == k;
        assert Key(es[i]) == k;
      }
      if HasKey(es, k) {
        var i :| 0 <= i < |es| && Key(es[i]) == k;
        assert i < n ==> Key(front[i]) == k;
      }
    }
    forall k ensures HasKey(out', k) <==> HasKey(out, k) || Key(last) == k {
      if HasKey(out', k) {
        var i :| 0 <= i < |out'| && Key(out'[i]) == k;
        assert out'[i] in out';
        if out'[i] in out {
          var j :| 0 <= j < |out| && out[j] == out'[i];
        }
      }
      if HasKey(out, k) {
        var i :| 0 <= i < |out| && Key(out[i]) == k;
        assert out[i] in out;
        var j :| 0 <= j < |out'| && out'[j] == out[i];
      }
      if Key(last) == k && !HasKey(out, k) {
        assert last in out';
        var j :| 0 <= j < |out'| && out'[j] == last;
      }
    }
  }

  // ---------------------------------------------------------------- etags mode

  /** add_node in etags mode: the entries form a list along the right links. */
  function Chain(es: seq<Entry>): Tree {
    if es == [] then Leaf else Branch(Leaf, es[0], Chain(es[1..]))
  }

  lemma {:induction false} ChainInOrder(es: seq<Entry>)
    ensures InOrder(Chain(es)) == es
  {
    if es != [] {
      ChainInOrder(es[1..]);
      assert [] + [es[0]] + es[1..] == es;
    }
  }

  // ---------------------------------------------------------------- the output

  function Digit(d: nat): char
    requires d < 10
  {
    '0' + d as char
  }

  /** What printf writes for %d. */
  function Decimal(n: int): (s: string)
    ensures s != ""
    decreases n < 0, if n < 0 then -n else n
  {
    if n < 0 then "-" + Decimal(-n)
    else if n < 10 then [Digit(n)]
    else Decimal(n / 10) + [Digit(n % 10)]
  }

  const SEARCHAR: char := '/'
  const RUBOUT: char := '\U{7F}'
  const CTRL_A: char := '\U{01}'

  function Escaped(pat: string): string {
    if pat == "" then ""
    else (if pat[0] == '\\' || pat[0] == SEARCHAR then "\\" else "") + [pat[0]] + Escaped(pat[1..])
  }

  function CtagsLine(e: Entry): string {
    Key(e) + "\t" + e.file + "\t"
    + (if e.isFunc then [SEARCHAR] + "^" + Escaped(e.pat) + [SEARCHAR] else Decimal(e.lno)) + "\n"
  }

  function EtagsLine(e: Entry): string {
    e.pat + [RUBOUT] + (if e.name.Some? then e.name.value + [CTRL_A] else "")
    + Decimal(e.lno) + "," + Decimal(e.cno) + "\n"
  }

  function Text(ctags: bool, es: seq<Entry>): string {
    if es == [] then ""
    else Text(ctags, es[..|es| - 1]) + Line(ctags, es[|es| - 1])
  }

  function Line(ctags: bool, e: Entry): string {
    if ctags then CtagsLine(e) else EtagsLine(e)
  }

  lemma {:induction false} TextConcat(ctags: bool, a: seq<Entry>, b: seq<Entry>)
    ensures Text(ctags, a + b) == Text(ctags, a) + Text(ctags, b)
  {
    hide Line;
    if b == [] {
      assert a + b == a;
    } else {
      var n := |b| - 1;
      TextConcat(ctags, a, b[..n]);
      assert (a + b)[..|a + b| - 1] == a + b[..n] && (a + b)[|a + b| - 1] == b[n];
      assert Text(ctags, a) + (Text(ctags, b[..n]) + Line(ctags, b[n]))
             == Text(ctags, a) + Text(ctags, b[..n]) + Line(ctags, b[n]);
    }
  }

  // ------------------------------------------------------------ its size ahead

  /** The number of times 10 divides num on the way to 0, at least one. */
  function NumberLen(num: int): nat
    decreases if num < 0 then 0 else num
  {
    if num < 10 then 1 else 1 + NumberLen(num / 10)
  }

  lemma {:induction false} NumberLenIsExact(num: int)
    ensures NumberLen(num) <= |Decimal(num)|
    ensures NumberLen(num) == |Decimal(num)| <==> num >= 0
    ensures num < 0 ==> NumberLen(num) == 1
    decreases if num < 0 then 0 else num
  {
    if num >= 10 {
      NumberLenIsExact(num / 10);
    }
  }

  function EntrySize(e: Entry): nat {
    |e.pat| + 1 + NumberLen(e.lno) + 1 + NumberLen(e.cno) + 1 + if e.name.Some? then 1 + |e.name.value| else 0
  }

  function TotalSize(es: seq<Entry>): nat {
    if es == [] then 0 else TotalSize(es[..|es| - 1]) + EntrySize(es[|es| - 1])
  }

  predicate NonNegative(es: seq<Entry>) {
    forall i :: 0 <= i < |es| ==> es[i].lno >= 0 && es[i].cno >= 0
  }

  lemma {:induction false} TotalSizeConcat(a: seq<Entry>, b: seq<Entry>)
    ensures TotalSize(a + b) == TotalSize(a) + TotalSize(b)
  {
    if b == [] {
      assert a + b == a;
    } else {
      TotalSizeConcat(a, b[..|b| - 1]);
      assert (a + b)[..|a + b| - 1] == a + b[..|b| - 1];
    }
  }

  /** The size computed ahead is the length of the text in etags mode exactly if no
      number is negative; it is never too large. */
  lemma {:induction false} SizeAheadIsExact(es: seq<Entry>)
    ensures TotalSize(es) <= |Text(false, es)|
    ensures TotalSize(es) == |Text(false, es)| <==> NonNegative(es)
  {
    if es != [] {
      var n := |es| - 1;
      SizeAheadIsExact(es[..n]);
      NumberLenIsExact(es[n].lno);
      NumberLenIsExact(es[n].cno);
      assert NonNegative(es) <==> NonNegative(es[..n]) && es[n].lno >= 0 && es[n].cno >= 0;
    }
  }
}

/** The tag tables of lib-src/ootags.c: nodes with left and right links, which are
    a binary search tree in ctags mode and a list in etags mode. */
module Tags {
  import opened TagsSpec

  class Node {
    const e: Entry
    var left: Node?
    var right: Node?
    var beenWarned: bool

    constructor (e: Entry)
      ensures this.e == e && left == null && right == null
    {
      this.e := e;
      left, right, beenWarned := null, null, false;
    }
  }

  /** The nodes of a table in the shape they are linked in. */
  datatype Shape = Nil | At(left: Shape, node: Node, right: Shape)

  ghost function Nodes(s: Shape): set<Node> {
    match s
    case Nil => {}
    case At(l, n, r) => Nodes(l) + {n} + Nodes(r)
  }

  ghost predicate Distinct(s: Shape) {
    match s
    case Nil => true
    case At(l, n, r) => Distinct(l) && Distinct(r) && n !in Nodes(l) && n !in Nodes(r) && Nodes(l) !! Nodes(r)
  }

  ghost function Root(s: Shape): Node? {
    if s.Nil? then null else s.node
  }

  ghost predicate Linked(s: Shape)
    reads Nodes(s)
  {
    match s
    case Nil => true
    case At(l, n, r) => n.left == Root(l) && n.right == Root(r) && Linked(l) && Linked(r)
  }

  /** The abstract tree: the fields that are printed never change. */
  ghost function Entries(s: Shape): Tree {
    match s
    case Nil => Leaf
    case At(l, n, r) => Branch(Entries(l), n.e, Entries(r))
  }

  /** add_node in ctags mode: adds np below cur, or drops it. */
  method AddSorted(cur: Node?, np: Node, noWarnings: bool, ghost s: Shape, ghost all: set<Node>)
      returns (root: Node, ghost s': Shape)
    requires cur == Root(s) && Linked(s) && Distinct(s) && Nodes(s) <= all
    requires np !in Nodes(s) && np.left == null && np.right == null
    modifies Nodes(s)
    ensures root == Root(s') && Linked(s') && Distinct(s') && Nodes(s') <= Nodes(s) + {np}
    ensures Entries(s') == Insert(Entries(s), np.e)
    decreases s
  {
    if cur == null {
      assert s == Nil;
      return np, At(Nil, np, Nil);
    }
    root := cur;
    var dif := Compare(Key(np.e), Key(cur.e));  // strcmp
    if dif == 0 {
      if np.e.file != cur.e.file && !cur.beenWarned && !noWarnings {
        cur.beenWarned := true;
      }
      s' := s;
    } else if dif < 0 {
      var l;
      ghost var sl;
      l, sl := AddSorted(cur.left, np, noWarnings, s.left, all);
      cur.left := l;
      s' := At(sl, cur, s.right);
    } else {
      var r;
      ghost var sr;
      r, sr := AddSorted(cur.right, np, noWarnings, s.right, all);
      cur.right := r;
      s' := At(s.left, cur, sr);
    }
  }

  class Output {
    var text: string

    method Write(s: string)
      modifies this
      ensures text == old(text) + s
    {
      text := text + s;
    }
  }

  /** put_entries: prints the entries below np, left ones first. */
  method PutEntries(np: Node?, ctags: bool, tagf: Output, ghost s: Shape, ghost all: set<Node>)
    requires np == Root(s) && Linked(s) && Nodes(s) <= all
    modifies tagf
    ensures tagf.text == old(tagf.text) + Text(ctags, InOrder(Entries(s)))
    decreases s
  {
    hide Line, Text;
    NoText(ctags);
    if np == null {
      return;
    }
    ghost var a, b := InOrder(Entries(s.left)), InOrder(Entries(s.right));
    PutEntries(np.left, ctags, tagf, s.left, all);
    PutEntry(np.e, ctags, tagf);
    PutEntries(np.right, ctags, tagf, s.right, all);
    TextOfNode(ctags, a, np.e, b);
  }

  lemma NoText(ctags: bool)
    ensures Text(ctags, []) == ""
  {
  }

  lemma TextOfNode(ctags: bool, a: seq<Entry>, e: Entry, b: seq<Entry>)
    ensures Text(ctags, a + [e] + b) == Text(ctags, a) + Line(ctags, e) + Text(ctags, b)
  {
    hide Line;
    TextConcat(ctags, a, [e]);
    TextConcat(ctags, a + [e], b);
    TextOfOne(ctags, e);
  }

  lemma TextOfOne(ctags: bool, e: Entry)
    ensures Text(ctags, [e]) == Line(ctags, e)
  {
    assert [e][..0] == [];
  }

  method PutEntry(e: Entry, ctags: bool, tagf: Output)
    modifies tagf
    ensures tagf.text == old(tagf.text) + Line(ctags, e)
  {
    if !ctags {
      tagf.Write(e.pat + [RUBOUT]);
      if e.name.Some? {
        tagf.Write(e.name.value + [CTRL_A]);
      }
      tagf.Write(Decimal(e.lno) + "," + Decimal(e.cno) + "\n");
    } else {
      tagf.Write(Key(e) + "\t" + e.file + "\t");
      if e.isFunc {
        tagf.Write([SEARCHAR] + "^");
        PutPattern(e.pat, tagf);
        tagf.Write([SEARCHAR]);
      } else {
        tagf.Write(Decimal(e.lno));
      }
      tagf.Write("\n");
    }
  }

  method PutPattern(pat: string, tagf: Output)
    modifies tagf
    ensures tagf.text == old(tagf.text) + Escaped(pat)
  {
    var sp := 0;
    while sp < |pat|
      invariant 0 <= sp <= |pat| && tagf.text + Escaped(pat[sp..]) == old(tagf.text) + Escaped(pat)
    {
      if pat[sp] == '\\' || pat[sp] == SEARCHAR {
        tagf.Write("\\");
      }
      tagf.Write([pat[sp]]);
      assert pat[sp..][1..] == pat[sp + 1..];
      sp := sp + 1;
    }
  }

  /** number_len, with C's division, which rounds towards zero. */
  method NumberLength(num: int) returns (len: nat)
    ensures len == NumberLen(num)
  {
    len := 1;
    var left := if num >= 0 then num / 10 else -((-num) / 10);
    while left > 0
      invariant left > 0 ==> len + NumberLen(left) == NumberLen(num)
      invariant left <= 0 ==> len == NumberLen(num)
    {
      len := len + 1;
      left := left / 10;
    }
  }

  /** total_size_of_entries: recursive to the left, a loop to the right. */
  method TotalSizeOfEntries(np: Node?, ghost s: Shape, ghost all: set<Node>) returns (total: nat)
    requires np == Root(s) && Linked(s) && Nodes(s) <= all
    ensures total == TotalSize(InOrder(Entries(s)))
    decreases s
  {
    total := 0;
    var p := np;
    ghost var left := s;
    while p != null
      invariant p == Root(left) && Linked(left) && Nodes(left) <= all && (left == s || left < s)
      invariant total + TotalSize(InOrder(Entries(left))) == TotalSize(InOrder(Entries(s)))
      decreases left
    {
      var below := TotalSizeOfEntries(p.left, left.left, all);
      total := total + below;
      total := total + |p.e.pat| + 1;
      var len1 := NumberLength(p.e.lno);
      var len2 := NumberLength(p.e.cno);
      total := total + len1 + 1 + len2 + 1;
      if p.e.name.Some? {
        total := total + 1 + |p.e.name.value|;
      }
      SizeOfNode(InOrder(Entries(left.left)), p.e, InOrder(Entries(left.right)));
      p := p.right;
      left := left.right;
    }
  }

  lemma SizeOfNode(a: seq<Entry>, e: Entry, b: seq<Entry>)
    ensures TotalSize(a + [e] + b) == TotalSize(a) + EntrySize(e) + TotalSize(b)
  {
    TotalSizeConcat(a, [e]);
    TotalSizeConcat(a + [e], b);
    assert [e][..0] == [];
  }

  // -------------------------------------------------------------- whole tables

  /** Nodes linked to the right. */
  ghost function Spine(ns: seq<Node>): Shape {
    if ns == [] then Nil else At(Nil, ns[0], Spine(ns[1..]))
  }

  ghost predicate InLine(ns: seq<Node>)
    reads ns
  {
    forall i {:trigger ns[i]} :: 0 <= i < |ns| ==>
      ns[i].left == null && ns[i].right == if i + 1 < |ns| then ns[i + 1] else null
  }

  ghost predicate AllDifferent(ns: seq<Node>) {
    forall i, j :: 0 <= i < j < |ns| ==> ns[i] != ns[j]
  }

  lemma {:induction false} SpineOfLine(ns: seq<Node>)
    requires InLine(ns)
    ensures Linked(Spine(ns)) && Root(Spine(ns)) == if ns == [] then null else ns[0]
  {
    if ns != [] {
      assert forall i :: 0 <= i < |ns[1..]| ==> ns[1..][i] == ns[i + 1];
      SpineOfLine(ns[1..]);
    }
  }

  lemma {:induction false} SpineNodes(ns: seq<Node>)
    ensures Nodes(Spine(ns)) == set n | n in ns
    ensures AllDifferent(ns) ==> Distinct(Spine(ns))
  {
    if ns != [] {
      SpineNodes(ns[1..]);
      assert ns == [ns[0]] + ns[1..];
      if AllDifferent(ns) {
        assert forall i, j :: 0 <= i < j < |ns[1..]| ==> ns[1..][i] == ns[i + 1] && ns[1..][j] == ns[j + 1];
      }
    }
  }

  ghost function EntriesOf(ns: seq<Node>): seq<Entry> {
    seq(|ns|, i requires 0 <= i < |ns| => ns[i].e)
  }

  lemma {:induction false} SpineEntries(ns: seq<Node>)
    ensures Entries(Spine(ns)) == Chain(EntriesOf(ns))
  {
    if ns != [] {
      SpineEntries(ns[1..]);
      assert EntriesOf(ns)[1..] == EntriesOf(ns[1..]);
    }
  }

  /** The table that add_node keeps: the head node and, in etags mode, last_node. */
  class Table {
    const ctags: bool
    var head: Node?
    var lastNode: Node?
    ghost var added: seq<Entry>   // every entry add_node was called with
    ghost var shape: Shape
    ghost var line: seq<Node>     // in etags mode, the nodes in order
    ghost var nodes: set<Node>

    ghost predicate Valid()
      reads this, nodes
    {
      && nodes == Nodes(shape) && head == Root(shape) && Linked(shape) && Distinct(shape)
      && if ctags then Entries(shape) == InsertAll(added)
         else
           && (forall n :: n in line ==> n in nodes)
           && shape == Spine(line) && EntriesOf(line) == added && AllDifferent(line) && InLine(line)
           && lastNode == if line == [] then null else line[|line| - 1]
    }

    constructor (ctags: bool)
      ensures Valid() && this.ctags == ctags && added == [] && nodes == {}
    {
      this.ctags := ctags;
      head, lastNode := null, null;
      added, shape, line, nodes := [], Nil, [], {};
    }

    /** What the table prints, in order. */
    ghost function Listed(): seq<Entry>
      reads this
    {
      if ctags then InOrder(InsertAll(added)) else added
    }

    /** add_node */
    method AddNode(np: Node, noWarnings: bool)
      requires Valid() && np !in nodes && np.left == null && np.right == null
      requires ctags ==> np.e.name.Some?
      modifies this, nodes, np
      ensures Valid() && added == old(added) + [np.e] && nodes <= old(nodes) + {np}
    {
      if ctags {
        AddToTree(np, noWarnings);
      } else {
        AddToLine(np);
      }
    }

    method AddToTree(np: Node, noWarnings: bool)
      requires Valid() && ctags && np !in nodes && np.left == null && np.right == null
      modifies this, nodes
      ensures Valid() && added == old(added) + [np.e] && nodes <= old(nodes) + {np}
    {
      hide Insert, Compare;
      added := added + [np.e];
      assert added[..|added| - 1] == old(added);
      var root;
      root, shape := AddSorted(head, np, noWarnings, shape, nodes);
      head := root;
      nodes := Nodes(shape);
    }

    /** Links np behind the last node. */
    method LinkLast(np: Node)
      requires InLine(line) && AllDifferent(line) && np !in line && np.left == null && np.right == null
      requires head == if line == [] then null else line[0]
      requires lastNode == if line == [] then null else line[|line| - 1]
      modifies this`head, this`lastNode, line
      ensures InLine(line + [np])
      ensures head == (line + [np])[0] && lastNode == np
    {
      if head == null {
        head := np;
      } else {
        lastNode.right := np;
      }
      lastNode := np;
    }

    method AddToLine(np: Node)
      requires Valid() && !ctags && np !in nodes && np.left == null && np.right == null
      modifies this, nodes
      ensures Valid() && added == old(added) + [np.e] && nodes == old(nodes) + {np}
    {
      hide Spine, Nodes, Distinct, Linked, Entries, EntriesOf, AllDifferent, InLine;
      ghost var grown := line + [np];
      LineGrows(line, np, nodes);
      SpineOfLine(line);
      LinkLast(np);
      SpineOfLine(grown);
      added, line, shape, nodes := added + [np.e], grown, Spine(grown), nodes + {np};
    }

    /** put_entries on the whole table. */
    method Print(tagf: Output)
      requires Valid()
      modifies tagf
      ensures tagf.text == old(tagf.text) + Text(ctags, if ctags then InOrder(InsertAll(added)) else added)
    {
      ChainInOrder(added);
      SpineEntries(line);
      PutEntries(head, ctags, tagf, shape, nodes);
    }

    /** total_size_of_entries on the whole table. */
    method SizeAhead() returns (total: nat)
      requires Valid()
      ensures total == TotalSize(Listed())
      ensures !ctags ==> (total == |Text(false, added)| <==> NonNegative(added))
    {
      ChainInOrder(added);
      SpineEntries(line);
      total := TotalSizeOfEntries(head, shape, nodes);
      SizeAheadIsExact(Listed());
    }
  }

  lemma {:induction false} LineGrows(line: seq<Node>, np: Node, nodes: set<Node>)
    requires np !in nodes && (forall n :: n in line ==> n in nodes) && AllDifferent(line) && nodes == Nodes(Spine(line))
    ensures AllDifferent(line + [np]) && EntriesOf(line + [np]) == EntriesOf(line) + [np.e]
    ensures Nodes(Spine(line + [np])) == nodes + {np} && Distinct(Spine(line + [np]))
    ensures forall n :: n in line + [np] ==> n in nodes + {np}
  {
    SpineNodes(line);
    SpineNodes(line + [np]);
  }
}
