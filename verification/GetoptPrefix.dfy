/** What becomes of a leading '+' or '-' of the option string in lib-src/getopt.c:
    only the first call skips it, the later calls search it with the rest. */
module GetoptPrefix {
  import opened Wrappers
  import opened GetoptSpec
  import opened Getopt

  /** The kind of argument that the first two characters of s give to an option in
      front of them. */
  function KindInFront(s: string): HasArg {
    if !CharAt(s, 0, ':') then NoArgument
    else if CharAt(s, 1, ':') then OptionalArgument
    else RequiredArgument
  }

  /** The prefix becomes an option, or takes the place of one; all other options
      keep their kind. */
  lemma {:induction false} PrefixKeepsKind(prefix: char, s: string, c: char)
    requires prefix != ':'
    ensures ShortKind([prefix] + s, c) == if c == prefix then Some(KindInFront(s)) else ShortKind(s, c)
  {
    var t := [prefix] + s;
    assert t[1..] == s;
    if c == prefix {
      assert IndexOf(t, c) == 0;
    } else if c in s {
      assert IndexOf(t, c) == 1 + IndexOf(s, c);
    }
  }

  /** Whether a short option means the same with the prefix in the option string.
      A missing argument has its own code only while ':' comes first. */
  predicate ShortReadsAlike(prefix: char, s: string, pos: string, next: Option<string>)
    requires pos != []
  {
    var text := |pos| > 1;
    var lacks := !text && next.None?;
    var front := KindInFront(s);
    if pos[0] != prefix then
      !(CharAt(s, 0, ':') && ShortKind(s, pos[0]) == Some(RequiredArgument) && lacks)
    else
      match ShortKind(s, prefix)
      case None => front.RequiredArgument? && lacks
      case Some(kind) =>
        if kind == front then !(kind.RequiredArgument? && lacks)
        else if kind.NoArgument? || front.NoArgument? then !text && (kind.OptionalArgument? || front.OptionalArgument?)
        else text
  }

  /** The same for any option of an element. */
  predicate ReadsAlike(prefix: char, cfg: Config, elem: string, pos: string, next: Option<string>)
    requires |elem| >= 2 && pos != []
  {
    var s := cfg.optstring;
    if !TriesLong(cfg, elem) then ShortReadsAlike(prefix, s, pos, next)
    else if |elem| == 2 && elem[1] == prefix && prefix != '-' then false
    else
      match Lookup(cfg.longopts.value, pos[..NameLength(pos)])
      case Ambiguous => true
      case At(k) =>
        !(CharAt(s, 0, ':') && NameLength(pos) == |pos| && cfg.longopts.value[k].hasArg.RequiredArgument? && next.None?)
      case Missing =>
        !cfg.longOnly || elem[1] == '-' ||
        if pos[0] in s then ShortReadsAlike(prefix, s, pos, next) else pos[0] != prefix
  }

  function WithPrefix(prefix: char, cfg: Config): Config {
    cfg.(optstring := [prefix] + cfg.optstring)
  }

  /** pos is a place inside elem, behind its first character. */
  predicate Inside(elem: string, pos: string) {
    0 < |pos| < |elem| && pos == elem[|elem| - |pos|..]
  }

  predicate IsPrefix(c: char) {
    c == '+' || c == '-'
  }

  lemma ShortMisread(prefix: char, s: string, pos: string, next: Option<string>)
    requires IsPrefix(prefix) && pos != []
    ensures var o, o' := ShortStep(s, pos, next), ShortStep([prefix] + s, pos, next);
            && (o' == o <==> ShortReadsAlike(prefix, s, pos, next))
            && (o'.ev == o.ev ==> o' == o)
  {
    hide ShortKind;
    PrefixKeepsKind(prefix, s, pos[0]);
    PrefixKeepsKind(prefix, s, prefix);
  }

  /** An element that is the prefix behind a dash is no longer tried as a long
      option, and its event is no event of a long option. */
  lemma OnlyPrefixElement(prefix: char, cfg: Config, elem: string, pos: string, next: Option<string>)
    requires IsPrefix(prefix) && |elem| >= 2 && Inside(elem, pos)
    requires TriesLong(cfg, elem) && !TriesLong(WithPrefix(prefix, cfg), elem)
    ensures |elem| == 2 && elem[1] == prefix && prefix != '-'
    ensures Step(cfg, elem, pos, next).ev != ShortStep([prefix] + cfg.optstring, pos, next).ev
  {
    hide ShortKind, Lookup;
    assert pos == [prefix];
    PrefixKeepsKind(prefix, cfg.optstring, prefix);
    assert NameLength(pos) == 1;
  }

  /** As an option the prefix never reports what an unknown long option does. */
  lemma PrefixIsOption(prefix: char, s: string, pos: string, next: Option<string>)
    requires IsPrefix(prefix) && pos != [] && pos[0] == prefix
    ensures ShortStep([prefix] + s, pos, next).ev.opt != Some(0)
  {
    hide ShortKind;
    PrefixKeepsKind(prefix, s, prefix);
  }

  /** A call that sees the prefix does the same as one that does not exactly under
      the condition above; otherwise already the reported events differ. */
  lemma {:induction false} StepMisread(prefix: char, cfg: Config, elem: string, pos: string, next: Option<string>)
    requires IsPrefix(prefix) && |elem| >= 2 && Inside(elem, pos)
    ensures var o, o' := Step(cfg, elem, pos, next), Step(WithPrefix(prefix, cfg), elem, pos, next);
            && (o' == o <==> ReadsAlike(prefix, cfg, elem, pos, next))
            && (o'.ev == o.ev ==> o' == o)
  {
    hide ShortReadsAlike, ShortKind, KindInFront, Lookup, ShortStep;
    var s := cfg.optstring;
    ShortMisread(prefix, s, pos, next);
    if TriesLong(cfg, elem) && !TriesLong(WithPrefix(prefix, cfg), elem) {
      OnlyPrefixElement(prefix, cfg, elem, pos, next);
    } else if TriesLong(cfg, elem) && pos[0] == prefix && prefix !in s {
      PrefixIsOption(prefix, s, pos, next);
    }
  }

  // ---------------------------------------------------------- a whole scan

  /** No option of an element from position pos on is misread; first says that the
      first call, which skips the prefix, is still to come. */
  predicate ElemReadsAlike(prefix: char, cfg: Config, first: bool, elem: string, pos: string, next: Option<string>)
    requires |elem| >= 2 && pos != []
    decreases |pos|
  {
    (first || ReadsAlike(prefix, cfg, elem, pos, next)) &&
    var o := Step(cfg, elem, pos, next);
    o.rest == [] || ElemReadsAlike(prefix, cfg, false, elem, o.rest, next)
  }

  /** No later call of a scan misreads its option. */
  predicate ScanReadsAlike(prefix: char, ord: Ordering, cfg: Config, first: bool, args: seq<string>)
    decreases |args|
  {
    if args == [] || args[0] == "--" then true
    else if IsNonOption(args[0]) then
      ord == REQUIRE_ORDER || ScanReadsAlike(prefix, ord, cfg, first && ord != RETURN_IN_ORDER, args[1..])
    else
      var pos := FirstPos(cfg, args[0]);
      ElemReadsAlike(prefix, cfg, first, args[0], pos, NextOf(args)) &&
      ScanReadsAlike(prefix, ord, cfg, false, args[Elem(cfg, args[0], pos, NextOf(args)).used..])
  }

  /** The scan of a caller whose option string has a prefix; cfg is without it. */
  function Prefixed(prefix: char, cfg: Config, first: bool): Config {
    var full := [prefix] + cfg.optstring;
    cfg.(optstring := if first then cfg.optstring else full, later := full)
  }

  ghost predicate DifferSomewhere<T>(a: seq<T>, b: seq<T>) {
    exists i :: 0 <= i < |a| && i < |b| && a[i] != b[i]
  }

  lemma {:induction false} ElemMisread(prefix: char, cfg: Config, first: bool,
                                       elem: string, pos: string, next: Option<string>)
    requires IsPrefix(prefix) && |elem| >= 2 && Inside(elem, pos) && cfg.later == cfg.optstring
    ensures var e, f := Elem(Prefixed(prefix, cfg, first), elem, pos, next), Elem(cfg, elem, pos, next);
            && e.cfg == Prefixed(prefix, cfg, false) && f.cfg == cfg
            && if ElemReadsAlike(prefix, cfg, first, elem, pos, next) then e.events == f.events && e.used == f.used
               else DifferSomewhere(e.events, f.events)
    decreases |pos|
  {
    hide ReadsAlike, Step;
    StepMisread(prefix, cfg, elem, pos, next);
    if first {
      LaterIgnored(Prefixed(prefix, cfg, first), cfg, elem, pos, next);
    }
    LaterIgnored(Prefixed(prefix, cfg, false), WithPrefix(prefix, cfg), elem, pos, next);
    var o := Step(cfg, elem, pos, next);
    var o' := Step(Prefixed(prefix, cfg, first), elem, pos, next);
    var e, f := Elem(Prefixed(prefix, cfg, first), elem, pos, next), Elem(cfg, elem, pos, next);
    if o'.ev != o.ev {
      assert e.events[0] != f.events[0];
    } else if o.rest != [] {
      ElemMisread(prefix, cfg, false, elem, o.rest, next);
      var e1, f1 := Elem(Prefixed(prefix, cfg, false), elem, o.rest, next), Elem(cfg, elem, o.rest, next);
      DifferBehind([o.ev], e1.events, [o.ev], f1.events);
    }
  }

  /** Only the option string of this very call matters to it. */
  lemma LaterIgnored(a: Config, b: Config, elem: string, pos: string, next: Option<string>)
    requires |elem| >= 2 && pos != []
    requires a.(later := b.later) == b
    ensures Step(a, elem, pos, next) == Step(b, elem, pos, next)
  {
  }

  lemma DifferBehind<T>(a: seq<T>, x: seq<T>, b: seq<T>, y: seq<T>)
    ensures DifferSomewhere(a, b) ==> DifferSomewhere(a + x, b + y)
    ensures a == b && DifferSomewhere(x, y) ==> DifferSomewhere(a + x, b + y)
  {
    if DifferSomewhere(a, b) {
      var i :| 0 <= i < |a| && i < |b| && a[i] != b[i];
      assert (a + x)[i] != (b + y)[i];
    }
    if a == b && DifferSomewhere(x, y) {
      var i :| 0 <= i < |x| && i < |y| && x[i] != y[i];
      assert (a + x)[|a| + i] != (b + y)[|b| + i];
    }
  }

  lemma SamePrefix<T>(a: seq<T>, x: seq<T>, y: seq<T>)
    ensures a + x == a + y <==> x == y
  {
    assert (a + x)[|a|..] == x && (a + y)[|a|..] == y;
  }

  lemma FirstPosInside(cfg: Config, elem: string)
    requires IsOption(elem)
    ensures Inside(elem, FirstPos(cfg, elem))
  {
  }

  lemma {:induction false} ScanMisread(prefix: char, ord: Ordering, cfg: Config, first: bool, args: seq<string>)
    requires IsPrefix(prefix) && cfg.later == cfg.optstring
    ensures var p, q := Parse(ord, Prefixed(prefix, cfg, first), args), Parse(ord, cfg, args);
            && (p.events == q.events <==> ScanReadsAlike(prefix, ord, cfg, first, args))
            && (p.events == q.events ==> p == q)
    decreases |args|
  {
    hide Elem, FirstPos, ElemReadsAlike;
    if args != [] && args[0] != "--" {
      if IsNonOption(args[0]) {
        if ord != REQUIRE_ORDER {
          var still := first && ord != RETURN_IN_ORDER;
          ScanMisread(prefix, ord, cfg, still, args[1..]);
          SamePrefix([Event(1, Some(args[0]), None, None)],
                     Parse(ord, Prefixed(prefix, cfg, still), args[1..]).events, Parse(ord, cfg, args[1..]).events);
        }
      } else {
        OptionMisread(prefix, ord, cfg, first, args);
      }
    }
  }

  lemma {:induction false} OptionMisread(prefix: char, ord: Ordering, cfg: Config, first: bool, args: seq<string>)
    requires IsPrefix(prefix) && cfg.later == cfg.optstring && args != [] && IsOption(args[0])
    ensures var p, q := Parse(ord, Prefixed(prefix, cfg, first), args), Parse(ord, cfg, args);
            && (p.events == q.events <==> ScanReadsAlike(prefix, ord, cfg, first, args))
            && (p.events == q.events ==> p == q)
    decreases |args|, 0
  {
    hide Elem, FirstPos, ElemReadsAlike, Parse;
    var cfg' := Prefixed(prefix, cfg, first);
    var pos := FirstPos(cfg, args[0]);
    var e, f := Elem(cfg', args[0], pos, NextOf(args)), Elem(cfg, args[0], pos, NextOf(args));
    SameFirstPos(cfg', cfg, args[0]);
    FirstPosInside(cfg, args[0]);
    ElemMisread(prefix, cfg, first, args[0], pos, NextOf(args));
    ScanElement(ord, cfg', args);
    ScanElement(ord, cfg, args);
    if ElemReadsAlike(prefix, cfg, first, args[0], pos, NextOf(args)) {
      ScanMisread(prefix, ord, cfg, false, args[f.used..]);
      SamePrefix(f.events, Parse(ord, e.cfg, args[f.used..]).events, Parse(ord, cfg, args[f.used..]).events);
    } else {
      DifferBehind(e.events, Parse(ord, e.cfg, args[e.used..]).events,
                   f.events, Parse(ord, f.cfg, args[f.used..]).events);
    }
  }

  lemma SameFirstPos(a: Config, b: Config, elem: string)
    requires IsOption(elem) && a.longopts == b.longopts
    ensures FirstPos(a, elem) == FirstPos(b, elem)
  {
  }

  /** A whole scan with a prefixed option string does what it would do if every call
      skipped the prefix, exactly if no later call meets an option it misreads. */
  lemma PrefixMisread(prefix: char, s: string, longopts: Option<seq<LongOption>>, longOnly: bool,
                      ord: Ordering, args: seq<string>)
    requires IsPrefix(prefix)
    ensures Stripped([prefix] + s) == s
    ensures var skipped, seen := Config(s, s, longopts, longOnly), Config(s, [prefix] + s, longopts, longOnly);
            Parse(ord, seen, args) == Parse(ord, skipped, args) <==> ScanReadsAlike(prefix, ord, skipped, true, args)
  {
    assert ([prefix] + s)[1..] == s;
    ScanMisread(prefix, ord, Config(s, s, longopts, longOnly), true, args);
  }

  /** Such an input: with the option string "+a" the second call takes "-+" for an option. */
  lemma PlusBecomesOption()
    ensures var args := ["-a", "-+"];
            && Stripped("+a") == "a"
            && Parse(REQUIRE_ORDER, Config("a", "a", None, false), args).events
               == [Event('a' as int, None, None, None), Event(QUESTION, None, None, Some('+' as int))]
            && Parse(REQUIRE_ORDER, Config("a", "+a", None, false), args).events
               == [Event('a' as int, None, None, None), Event('+' as int, None, None, None)]
  {
    hide Parse, ShortKind, Stripped;
    var skipped, seen := Config("a", "a", None, false), Config("a", "+a", None, false);
    KindsInPlusA();
    NothingToScan(REQUIRE_ORDER, skipped);
    NothingToScan(REQUIRE_ORDER, seen.Next());
    OneOption(skipped, "-+", '+', []);
    OneOption(seen.Next(), "-+", '+', []);
    assert ["-+"] + [] == ["-+"] && ["-a"] + ["-+"] == ["-a", "-+"];
    OneOption(skipped, "-a", 'a', ["-+"]);
    OneOption(seen, "-a", 'a', ["-+"]);
  }

  lemma KindsInPlusA()
    ensures Stripped("+a") == "a" && ShortKind("a", 'a') == Some(NoArgument) && ShortKind("a", '+') == None
    ensures ShortKind("+a", '+') == Some(NoArgument)
  {
    assert ['+'] + "a" == "+a";
    PrefixKeepsKind('+', "a", '+');
  }

  /** An element with one short option that takes no argument, or is unknown. */
  lemma OneOption(cfg: Config, elem: string, c: char, rest: seq<string>)
    requires cfg.longopts == None && c != '-' && elem == ['-', c]
    requires var k := ShortKind(cfg.optstring, c); k == None || k == Some(NoArgument)
    ensures var p := Parse(REQUIRE_ORDER, cfg.Next(), rest);
            Parse(REQUIRE_ORDER, cfg, [elem] + rest).events
            == [if ShortKind(cfg.optstring, c).None? then Event(QUESTION, None, None, Some(c as int))
                else Event(c as int, None, None, None)] + p.events
  {
    hide ShortKind, Parse;
    var args := [elem] + rest;
    ScanElement(REQUIRE_ORDER, cfg, args);
    assert FirstPos(cfg, elem) == [c];
    assert args[1..] == rest;
  }
}
