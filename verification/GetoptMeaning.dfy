/** What the scanner of lib-src/getopt.c reports for each kind of argument, in
    terms of the option string and the table of long options. */
module GetoptMeaning {
  import opened Wrappers
  import opened GetoptSpec
  import opened Getopt

  // ------------------------------------------------------------ option strings

  /** An option and the kind of argument it takes. */
  datatype Declared = Declared(c: char, kind: HasArg)

  function Colons(kind: HasArg): string {
    match kind case NoArgument => "" case RequiredArgument => ":" case OptionalArgument => "::"
  }

  /** The option string that declares options. */
  function OptionString(ds: seq<Declared>): string {
    if ds == [] then "" else [ds[0].c] + Colons(ds[0].kind) + OptionString(ds[1..])
  }

  /** The kind in the first declaration of an option. */
  function DeclaredKind(ds: seq<Declared>, c: char): Option<HasArg> {
    if ds == [] then None else if ds[0].c == c then Some(ds[0].kind) else DeclaredKind(ds[1..], c)
  }

  /** The scanner finds the kinds that were declared: no colon, one, or two. */
  lemma {:induction false} KindsAreDeclared(ds: seq<Declared>, c: char)
    requires forall i :: 0 <= i < |ds| ==> ds[i].c != ':'
    ensures ShortKind(OptionString(ds), c) == DeclaredKind(ds, c)
    ensures OptionString(ds) == "" || OptionString(ds)[0] != ':'
  {
    if ds != [] {
      KindsAreDeclared(ds[1..], c);
      KindInFront([ds[0].c] + Colons(ds[0].kind), OptionString(ds[1..]), c);
    }
  }

  /** The kind of an option in a string that starts with one option and its colons. */
  lemma KindInFront(first: string, rest: string, c: char)
    requires 1 <= |first| <= 3 && first[0] != ':' && first[1..] in {"", ":", "::"}
    requires rest == "" || rest[0] != ':'
    ensures ShortKind(first + rest, c) ==
              if c == first[0] then
                Some(if |first| == 1 then NoArgument else if |first| == 2 then RequiredArgument else OptionalArgument)
              else ShortKind(rest, c)
  {
    hide ShortKind;
    if c == first[0] {
      OwnKind(first, rest);
    } else {
      OtherKind(first, rest, c);
    }
  }

  lemma OwnKind(first: string, rest: string)
    requires 1 <= |first| <= 3 && first[0] != ':' && first[1..] in {"", ":", "::"}
    requires rest == "" || rest[0] != ':'
    ensures ShortKind(first + rest, first[0]) ==
              Some(if |first| == 1 then NoArgument else if |first| == 2 then RequiredArgument else OptionalArgument)
  {
    var s := first + rest;
    assert s[0] == first[0] && IndexOf(s, first[0]) == 0;
    assert |first| > 1 ==> s[1] == first[1..][0];
    assert |first| > 2 ==> s[2] == first[1..][1];
    assert |s| > |first| ==> s[|first|] == rest[0];
  }

  lemma OtherKind(first: string, rest: string, c: char)
    requires 1 <= |first| <= 3 && first[1..] in {"", ":", "::"} && c != first[0]
    ensures ShortKind(first + rest, c) == ShortKind(rest, c)
  {
    if c != ':' {
      NoOtherInside(first, c);
      NotInFront(first, rest, c);
      if c in rest {
        var i := IndexOf(rest, c);
        assert CharAt(first + rest, |first| + (i + 1), ':') == CharAt(rest, i + 1, ':');
        assert CharAt(first + rest, |first| + (i + 2), ':') == CharAt(rest, i + 2, ':');
      }
    }
  }

  lemma NoOtherInside(first: string, c: char)
    requires 1 <= |first| && first[1..] in {"", ":", "::"} && c != first[0] && c != ':'
    ensures c !in first
  {
    assert forall i :: 1 <= i < |first| ==> first[i] == first[1..][i - 1] == ':';
  }

  lemma {:induction false} NotInFront(a: string, b: string, c: char)
    requires c !in a
    ensures (c in a + b) == (c in b) && (c in b ==> IndexOf(a + b, c) == |a| + IndexOf(b, c))
    ensures forall i :: CharAt(a + b, |a| + i, ':') == CharAt(b, i, ':')
  {
    if a == "" {
      assert a + b == b;
    } else {
      assert (a + b)[1..] == a[1..] + b;
      NotInFront(a[1..], b, c);
    }
  }

  // ------------------------------------------------------------- short options

  /** What is reported for a character that takes no argument, or is no option. */
  function FlagEvent(cfg: Config, c: char): Event {
    if ShortKind(cfg.optstring, c) == None then Event('?' as int, None, None, Some(c as int))
    else Event(c as int, None, None, None)
  }

  function FlagEvents(cfg: Config, flags: string): seq<Event> {
    if flags == "" then [] else [FlagEvent(cfg, flags[0])] + FlagEvents(cfg, flags[1..])
  }

  /** None of the characters takes an argument. */
  predicate AreFlags(cfg: Config, flags: string) {
    forall i :: 0 <= i < |flags| ==> ShortKind(cfg.optstring, flags[i]) in {None, Some(NoArgument)}
  }

  /** elem is read as short options, the same at every call. */
  predicate IsCluster(cfg: Config, elem: string) {
    |elem| >= 2 && elem[0] == '-' && elem != "--" && cfg.later == cfg.optstring && !TriesLong(cfg, elem)
  }

  /** The events of an element that starts with flags. */
  lemma {:induction false} FlagsInFront(cfg: Config, elem: string, flags: string, tail: string, next: Option<string>)
    requires |elem| >= 2 && IsCluster(cfg, elem) && AreFlags(cfg, flags) && tail != ""
    ensures var e := Elem(cfg, elem, tail, next);
            Elem(cfg, elem, flags + tail, next) == ElemResult(FlagEvents(cfg, flags) + e.events, e.used, e.cfg)
    decreases |flags|
  {
    hide Elem, IsCluster, AreFlags, FlagEvents, FlagEvent;
    var events := Elem(cfg, elem, tail, next).events;
    FlagParts(cfg, flags);
    if flags == "" {
      assert flags + tail == tail && [] + events == events;
    } else {
      var c, fs := flags[0], flags[1..];
      assert flags + tail == [c] + (fs + tail);
      FlagsInFront(cfg, elem, fs, tail, next);
      ElemOfFlag(cfg, elem, c, fs + tail, next);
      assert [FlagEvent(cfg, c)] + (FlagEvents(cfg, fs) + events) == [FlagEvent(cfg, c)] + FlagEvents(cfg, fs) + events;
    }
  }

  lemma FlagParts(cfg: Config, flags: string)
    requires AreFlags(cfg, flags)
    ensures if flags == "" then FlagEvents(cfg, flags) == []
            else && AreFlags(cfg, [flags[0]]) && AreFlags(cfg, flags[1..])
                 && FlagEvents(cfg, flags) == [FlagEvent(cfg, flags[0])] + FlagEvents(cfg, flags[1..])
  {
    hide ShortKind;
  }

  lemma ElemOfFlag(cfg: Config, elem: string, c: char, tail: string, next: Option<string>)
    requires |elem| >= 2 && IsCluster(cfg, elem) && AreFlags(cfg, [c])
    ensures Elem(cfg, elem, [c] + tail, next) ==
              if tail == "" then ElemResult([FlagEvent(cfg, c)], 1, cfg)
              else var e := Elem(cfg, elem, tail, next); e.(events := [FlagEvent(cfg, c)] + e.events)
  {
    hide ShortKind, TriesLong;
    assert ShortKind(cfg.optstring, [c][0]) in {None, Some(NoArgument)};
    assert ([c] + tail)[1..] == tail;
  }

  /** The scan of an element and of what follows it. */
  lemma ClusterScans(ord: Ordering, cfg: Config, elem: string, pos: string, rest: seq<string>)
    requires IsCluster(cfg, elem) && elem == "-" + pos
    ensures var args := [elem] + rest;
            var e := Elem(cfg, elem, pos, NextOf(args));
            var p := Parse(ord, cfg, args[e.used..]);
            Parse(ord, cfg, args) == Parsed(e.events + p.events, args[..e.used] + p.opts, p.rest)
  {
    hide Elem, Parse;
    ScanElement(ord, cfg, [elem] + rest);
    assert elem[1..] == pos;
  }

  /** "-abc": options without arguments, and characters that are no options. */
  lemma FlagsRead(ord: Ordering, cfg: Config, flags: string, rest: seq<string>)
    requires flags != "" && IsCluster(cfg, "-" + flags) && AreFlags(cfg, flags)
    ensures var p := Parse(ord, cfg, rest);
            Parse(ord, cfg, ["-" + flags] + rest)
            == Parsed(FlagEvents(cfg, flags) + p.events, ["-" + flags] + p.opts, p.rest)
  {
    hide Elem, Parse, ShortKind, TriesLong;
    var elem, n := "-" + flags, |flags| - 1;
    var args := [elem] + rest;
    var next := NextOf(args);
    ClusterScans(ord, cfg, elem, flags, rest);
    assert flags == flags[..n] + [flags[n]];
    FlagsInFront(cfg, elem, flags[..n], [flags[n]], next);
    assert [flags[n]] + "" == [flags[n]];
    ElemOfFlag(cfg, elem, flags[n], "", next);
    FlagEventsAdd(cfg, flags[..n], flags[n]);
    assert args[1..] == rest && args[..1] == [elem];
  }

  lemma {:induction false} FlagEventsAdd(cfg: Config, flags: string, c: char)
    ensures FlagEvents(cfg, flags + [c]) == FlagEvents(cfg, flags) + [FlagEvent(cfg, c)]
  {
    if flags == "" {
      assert flags + [c] == [c] && [c][1..] == "";
    } else {
      assert (flags + [c])[1..] == flags[1..] + [c];
      FlagEventsAdd(cfg, flags[1..], c);
    }
  }

  /** "-abcvalue": an option with its argument in the same element. */
  lemma AttachedReads(ord: Ordering, cfg: Config, flags: string, c: char, value: string, rest: seq<string>)
    requires IsCluster(cfg, "-" + (flags + ([c] + value))) && AreFlags(cfg, flags) && value != ""
    requires ShortKind(cfg.optstring, c) in {Some(RequiredArgument), Some(OptionalArgument)}
    ensures var elem := "-" + (flags + ([c] + value));
            var p := Parse(ord, cfg, rest);
            Parse(ord, cfg, [elem] + rest)
            == Parsed(FlagEvents(cfg, flags) + [Event(c as int, Some(value), None, None)] + p.events,
                      [elem] + p.opts, p.rest)
  {
    hide Parse, ShortKind, TriesLong;
    var elem := "-" + (flags + ([c] + value));
    var args := [elem] + rest;
    ClusterScans(ord, cfg, elem, flags + ([c] + value), rest);
    FlagsInFront(cfg, elem, flags, [c] + value, NextOf(args));
    assert ([c] + value)[1..] == value;
    assert args[1..] == rest && args[..1] == [elem];
  }

  /** "-abc value": the next element is the argument that c requires. */
  lemma SeparateReads(ord: Ordering, cfg: Config, flags: string, c: char, value: string, rest: seq<string>)
    requires IsCluster(cfg, "-" + (flags + [c])) && AreFlags(cfg, flags)
    requires ShortKind(cfg.optstring, c) == Some(RequiredArgument)
    ensures var elem := "-" + (flags + [c]);
            var p := Parse(ord, cfg, rest);
            Parse(ord, cfg, [elem, value] + rest)
            == Parsed(FlagEvents(cfg, flags) + [Event(c as int, Some(value), None, None)] + p.events,
                      [elem, value] + p.opts, p.rest)
  {
    hide Parse, ShortKind, TriesLong;
    var elem := "-" + (flags + [c]);
    var args := [elem, value] + rest;
    assert args == [elem] + ([value] + rest);
    ClusterScans(ord, cfg, elem, flags + [c], [value] + rest);
    FlagsInFront(cfg, elem, flags, [c], NextOf(args));
    assert args[2..] == rest && args[..2] == [elem, value];
  }

  /** "-abc" at the end, where c requires an argument: ':' or '?'. */
  lemma LackingReads(ord: Ordering, cfg: Config, flags: string, c: char)
    requires IsCluster(cfg, "-" + (flags + [c])) && AreFlags(cfg, flags)
    requires ShortKind(cfg.optstring, c) == Some(RequiredArgument)
    ensures var elem := "-" + (flags + [c]);
            var code := if cfg.optstring[0] == ':' then ':' else '?';
            Parse(ord, cfg, [elem])
            == Parsed(FlagEvents(cfg, flags) + [Event(code as int, None, None, Some(c as int))], [elem], [])
  {
    hide Parse, TriesLong;
    var elem := "-" + (flags + [c]);
    assert [elem] + [] == [elem];
    ClusterScans(ord, cfg, elem, flags + [c], []);
    hide ShortKind;
    FlagsInFront(cfg, elem, flags, [c], None);
    NothingToScan(ord, cfg);
    assert [elem][1..] == [] && [elem][..1] == [elem];
  }

  /** "-abc", where c may have an argument: not from the next element. */
  lemma OptionalReads(ord: Ordering, cfg: Config, flags: string, c: char, rest: seq<string>)
    requires IsCluster(cfg, "-" + (flags + [c])) && AreFlags(cfg, flags)
    requires ShortKind(cfg.optstring, c) == Some(OptionalArgument)
    ensures var elem := "-" + (flags + [c]);
            var p := Parse(ord, cfg, rest);
            Parse(ord, cfg, [elem] + rest)
            == Parsed(FlagEvents(cfg, flags) + [Event(c as int, None, None, None)] + p.events,
                      [elem] + p.opts, p.rest)
  {
    hide Parse, ShortKind, TriesLong;
    var elem := "-" + (flags + [c]);
    var args := [elem] + rest;
    ClusterScans(ord, cfg, elem, flags + [c], rest);
    FlagsInFront(cfg, elem, flags, [c], NextOf(args));
    assert args[1..] == rest && args[..1] == [elem];
  }

  // -------------------------------------------------------------- long options

  /** Option k is the first one called name. */
  predicate IsExact(opts: seq<LongOption>, name: string, k: nat) {
    k < |opts| && opts[k].name == name && forall i :: 0 <= i < k ==> opts[i].name != name
  }

  /** name is the beginning of the name of option k. */
  predicate Abbreviates(opts: seq<LongOption>, name: string, k: nat) {
    k < |opts| && name <= opts[k].name
  }

  ghost predicate HasExact(opts: seq<LongOption>, name: string) {
    exists k :: IsExact(opts, name, k)
  }

  lemma {:induction false} ExactIs(opts: seq<LongOption>, name: string, k: nat)
    requires IsExact(opts, name, k)
    ensures FirstExact(opts, name) == Some(k)
  {
    if k > 0 {
      assert forall i :: 0 <= i < k - 1 ==> opts[1..][i] == opts[i + 1];
      ExactIs(opts[1..], name, k - 1);
    }
  }

  lemma {:induction false} AbbreviatedAre(opts: seq<LongOption>, name: string, n: nat)
    requires n <= |opts|
    ensures var ks := Abbreviated(opts, name, n);
            && (forall k: nat :: k < n ==> (Abbreviates(opts, name, k) <==> k in ks))
            && (forall i, j :: 0 <= i < j < |ks| ==> ks[i] < ks[j])
  {
    if n > 0 {
      AbbreviatedAre(opts, name, n - 1);
    }
  }

  /** An exact match is found; without one the only option that the name abbreviates
      is; two different ones are ambiguous. */
  lemma {:induction false} LookupMeans(opts: seq<LongOption>, name: string)
    ensures forall k :: IsExact(opts, name, k) ==> Lookup(opts, name) == At(k)
    ensures !HasExact(opts, name) ==>
      && (forall k :: Lookup(opts, name) == At(k) <==>
            Abbreviates(opts, name, k) && forall j :: Abbreviates(opts, name, j) ==> j == k)
      && (Lookup(opts, name) == Missing <==> forall k :: !Abbreviates(opts, name, k))
      && (Lookup(opts, name) == Ambiguous <==>
            exists j, k :: j != k && Abbreviates(opts, name, j) && Abbreviates(opts, name, k))
  {
    forall k | IsExact(opts, name, k) ensures Lookup(opts, name) == At(k) {
      ExactIs(opts, name, k);
    }
    if !HasExact(opts, name) {
      assert FirstExact(opts, name) == None by {
        var r := FirstExact(opts, name);
        assert r.Some? ==> IsExact(opts, name, r.value);
      }
      AbbreviatedAre(opts, name, |opts|);
      var ks := Abbreviated(opts, name, |opts|);
      assert forall k :: Abbreviates(opts, name, k) <==> k in ks;
      assert forall k :: k in ks ==> exists i :: 0 <= i < |ks| && ks[i] == k;
      if |ks| >= 2 {
        assert ks[0] in ks && ks[1] in ks && ks[0] != ks[1];
      } else if |ks| == 1 {
        assert ks[0] in ks;
      }
    }
  }

  /** What is reported for long option k, given with a value or not, with or without
      an element behind it; and whether that element is taken. */
  function LongEvent(cfg: Config, opts: seq<LongOption>, k: nat, value: Option<string>, next: Option<string>)
    : (Event, bool)
    requires k < |opts|
  {
    var p := opts[k];
    var code := if p.flagged then 0 else p.val;
    match (p.hasArg, value)
    case (NoArgument, Some(_)) => (Event('?' as int, None, None, Some(p.val)), false)
    case (NoArgument, None) => (Event(code, None, Some(k), None), false)
    case (OptionalArgument, _) => (Event(code, value, Some(k), None), false)
    case (RequiredArgument, Some(_)) => (Event(code, value, Some(k), None), false)
    case (RequiredArgument, None) =>
      if next.Some? then (Event(code, next, Some(k), None), true)
      else
        var missing := if cfg.optstring != "" && cfg.optstring[0] == ':' then ':' else '?';
        (Event(missing as int, None, None, Some(p.val)), false)
  }

  /** "--name" or "--name=value". */
  function LongElement(name: string, value: Option<string>): string {
    "--" + name + if value.Some? then "=" + value.value else ""
  }

  lemma LongName(name: string, value: Option<string>)
    requires '=' !in name
    ensures var pos := name + if value.Some? then "=" + value.value else "";
            NameLength(pos) == |name| && pos[..|name|] == name
            && (value.Some? ==> pos[|name| + 1..] == value.value) && (value.None? <==> |pos| == |name|)
  {
    var tail := if value.Some? then "=" + value.value else "";
    NameLengthIs(name, tail);
    assert (name + tail)[..|name|] == name;
    assert value.Some? ==> (name + tail)[|name| + 1..] == value.value;
  }

  lemma {:induction false} NameLengthIs(name: string, tail: string)
    requires '=' !in name && (tail == "" || tail[0] == '=')
    ensures NameLength(name + tail) == |name|
  {
    if name == "" {
      assert name + tail == tail;
    } else {
      assert (name + tail)[1..] == name[1..] + tail;
      NameLengthIs(name[1..], tail);
    }
  }

  /** A long option that is found, exactly or by its only abbreviation, reports its
      value, or 0 if it has a flag to store it in, with its index and argument. */
  lemma {:induction false} LongReads(ord: Ordering, cfg: Config, name: string, value: Option<string>,
                                     k: nat, rest: seq<string>)
    requires cfg.longopts.Some? && '=' !in name && (name != "" || value.Some?) && cfg.later == cfg.optstring
    requires Lookup(cfg.longopts.value, name) == At(k) && k < |cfg.longopts.value|
    ensures var args := [LongElement(name, value)] + rest;
            var (event, taken) := LongEvent(cfg, cfg.longopts.value, k, value, NextOf(args));
            var used := if taken then 2 else 1;
            var p := Parse(ord, cfg, args[used..]);
            Parse(ord, cfg, args) == Parsed([event] + p.events, args[..used] + p.opts, p.rest)
  {
    hide Lookup, Parse, NameLength;
    var elem, args := LongElement(name, value), [LongElement(name, value)] + rest;
    var pos := name + if value.Some? then "=" + value.value else "";
    assert elem == "--" + pos && elem[2..] == pos;
    LongName(name, value);
    ScanElement(ord, cfg, args);
    assert FirstPos(cfg, elem) == pos;
  }

  /** A name that abbreviates two options and is none, or abbreviates none, is
      reported as '?'. */
  lemma {:induction false} UnknownLongReads(ord: Ordering, cfg: Config, name: string, value: Option<string>,
                                            rest: seq<string>)
    requires cfg.longopts.Some? && '=' !in name && (name != "" || value.Some?) && cfg.later == cfg.optstring
    requires Lookup(cfg.longopts.value, name) in {Missing, Ambiguous}
    ensures var args := [LongElement(name, value)] + rest;
            var p := Parse(ord, cfg, rest);
            Parse(ord, cfg, args)
            == Parsed([Event('?' as int, None, None, Some(0))] + p.events, args[..1] + p.opts, p.rest)
  {
    hide Lookup, Parse, NameLength;
    var elem, args := LongElement(name, value), [LongElement(name, value)] + rest;
    var pos := name + if value.Some? then "=" + value.value else "";
    assert elem == "--" + pos && elem[2..] == pos;
    LongName(name, value);
    ScanElement(ord, cfg, args);
    assert FirstPos(cfg, elem) == pos && args[1..] == rest;
  }

  /** With long_only a single dash does as well, unless the element is one short
      option; a name that is not found is read as short options if it starts with
      one, and otherwise reported as unknown. */
  lemma LongOnlyReads(cfg: Config, name: string, next: Option<string>)
    requires cfg.longOnly && cfg.longopts.Some? && name != "" && name[0] != '-'
    ensures var single := Step(cfg, "-" + name, name, next);
            var found := Lookup(cfg.longopts.value, name[..NameLength(name)]);
            if |name| == 1 && name[0] in cfg.optstring then single == ShortStep(cfg.optstring, name, next)
            else if found != Missing then single == Step(cfg, "--" + name, name, next)
            else if name[0] in cfg.optstring then single == ShortStep(cfg.optstring, name, next)
            else single == Outcome(Event('?' as int, None, None, Some(0)), [], 1)
  {
    hide Lookup, NameLength, ShortStep, LongStep;
  }

  // ----------------------------------------------------------------- orderings

  /** A leading '-' asks for all elements in order, a leading '+' or the environment
      for options in front; otherwise elements are permuted. */
  lemma OrderingsAre(s: string, posixly: bool)
    ensures OrderingOf("-" + s, posixly) == RETURN_IN_ORDER && Stripped("-" + s) == s
    ensures OrderingOf("+" + s, posixly) == REQUIRE_ORDER && Stripped("+" + s) == s
    ensures s == "" || (s[0] != '-' && s[0] != '+') ==>
      OrderingOf(s, posixly) == (if posixly then REQUIRE_ORDER else PERMUTE) && Stripped(s) == s
  {
    assert ("-" + s)[1..] == s && ("+" + s)[1..] == s;
  }

  /** A non-option ends the scan, is passed by, or is reported as argument of the
      code 1. */
  lemma NonOptionsRead(cfg: Config, x: string, rest: seq<string>)
    requires x == "" || x == "-" || x[0] != '-'
    ensures Parse(REQUIRE_ORDER, cfg, [x] + rest) == Parsed([], [], [x] + rest)
    ensures var p := Parse(PERMUTE, cfg, rest);
            Parse(PERMUTE, cfg, [x] + rest) == Parsed(p.events, p.opts, [x] + p.rest)
    ensures var p := Parse(RETURN_IN_ORDER, cfg.Next(), rest);
            Parse(RETURN_IN_ORDER, cfg, [x] + rest)
            == Parsed([Event(1, Some(x), None, None)] + p.events, [x] + p.opts, p.rest)
  {
    hide Elem;
    assert ([x] + rest)[1..] == rest;
  }

  /** "--" ends the options. */
  lemma DashesEnd(ord: Ordering, cfg: Config, rest: seq<string>)
    ensures Parse(ord, cfg, ["--"] + rest) == Parsed([], ["--"], rest)
  {
    assert (["--"] + rest)[1..] == rest;
  }
}
