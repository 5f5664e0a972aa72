/** Specification of lib-src/getopt.c: what one option element means, and what a
    whole scan of the arguments means, with no argv rearrangement in sight. */
module GetoptSpec {
  import opened Wrappers

  datatype Ordering = REQUIRE_ORDER | PERMUTE | RETURN_IN_ORDER

  datatype HasArg = NoArgument | RequiredArgument | OptionalArgument

  /** struct option; flagged says whether the flag pointer is non-null. */
  datatype LongOption = LongOption(name: string, hasArg: HasArg, flagged: bool, val: int)

  /** The arguments common to all calls of one scan.  The first call skips a
      leading '-' or '+' of the option string, the later calls do not: optstring
      is what the next call searches, later is what the calls after it search. */
  datatype Config = Config(optstring: string, later: string, longopts: Option<seq<LongOption>>, longOnly: bool) {
    function Next(): Config { this.(optstring := later) }
  }

  /** What one call reports: its return code, optarg, the index stored through
      longind, and the value stored in optopt (None: left alone). */
  datatype Event = Event(code: int, arg: Option<string>, index: Option<nat>, opt: Option<int>)

  const QUESTION := '?' as int
  const COLON := ':' as int

  // ------------------------------------------------------------ short options

  function IndexOf(s: string, c: char): (i: nat)
    requires c in s
    ensures i < |s| && s[i] == c && c !in s[..i]
  {
    if s[0] == c then 0 else 1 + IndexOf(s[1..], c)
  }

  predicate CharAt(s: string, i: nat, c: char) {
    i < |s| && s[i] == c
  }

  /** The kind of argument the option string gives option c; None if c is no option. */
  function ShortKind(optstring: string, c: char): Option<HasArg> {
    if c !in optstring || c == ':' then None
    else
      var i := IndexOf(optstring, c);
      if !CharAt(optstring, i + 1, ':') then Some(NoArgument)
      else if CharAt(optstring, i + 2, ':') then Some(OptionalArgument)
      else Some(RequiredArgument)
  }

  function MissingCode(optstring: string): int {
    if CharAt(optstring, 0, ':') then COLON else QUESTION
  }

  /** One decoding step: the event, what is left of the element, and how many
      argv elements it uses up (0 while the element is unfinished). */
  datatype Outcome = Outcome(ev: Event, rest: string, used: nat)

  function ShortStep(optstring: string, pos: string, next: Option<string>): (o: Outcome)
    requires pos != []
    ensures o.rest == [] || (o.rest == pos[1..] && o.used == 0)
    ensures o.rest == [] ==> 1 <= o.used <= (if next.Some? then 2 else 1)
  {
    var c, rest := pos[0], pos[1..];
    match ShortKind(optstring, c)
    case None => Outcome(Event(QUESTION, None, None, Some(c as int)), rest, if rest == [] then 1 else 0)
    case Some(NoArgument) => Outcome(Event(c as int, None, None, None), rest, if rest == [] then 1 else 0)
    case Some(OptionalArgument) =>
      Outcome(Event(c as int, if rest != [] then Some(rest) else None, None, None), [], 1)
    case Some(RequiredArgument) =>
      if rest != [] then Outcome(Event(c as int, Some(rest), None, None), [], 1)
      else if next.None? then Outcome(Event(MissingCode(optstring), None, None, Some(c as int)), [], 1)
      else Outcome(Event(c as int, next, None, None), [], 2)
  }

  // ------------------------------------------------------------- long options

  datatype Found = Missing | Ambiguous | At(index: nat)

  function NameLength(pos: string): (n: nat)
    ensures n <= |pos| && '=' !in pos[..n] && (n < |pos| ==> pos[n] == '=')
  {
    if pos == [] || pos[0] == '=' then 0 else 1 + NameLength(pos[1..])
  }

  /** The least index of an option called exactly name. */
  function FirstExact(opts: seq<LongOption>, name: string): (r: Option<nat>)
    ensures r.Some? ==> r.value < |opts| && opts[r.value].name == name
    ensures forall k :: 0 <= k < (if r.Some? then r.value else |opts|) ==> opts[k].name != name
  {
    if opts == [] then None
    else if opts[0].name == name then Some(0)
    else match FirstExact(opts[1..], name) case None => None case Some(i) => Some(i + 1)
  }

  /** The indices below n of the options that name abbreviates. */
  function Abbreviated(opts: seq<LongOption>, name: string, n: nat): (r: seq<nat>)
    requires n <= |opts|
    ensures forall i :: 0 <= i < |r| ==> r[i] < n && name <= opts[r[i]].name
  {
    if n == 0 then []
    else if name <= opts[n - 1].name then Abbreviated(opts, name, n - 1) + [n - 1]
    else Abbreviated(opts, name, n - 1)
  }

  /** An exact match wins; otherwise the abbreviation must be unique. */
  function Lookup(opts: seq<LongOption>, name: string): (r: Found)
    ensures r.At? ==> r.index < |opts|
  {
    match FirstExact(opts, name)
    case Some(i) => At(i)
    case None =>
      var ks := Abbreviated(opts, name, |opts|);
      if |ks| == 0 then Missing else if |ks| == 1 then At(ks[0]) else Ambiguous
  }

  function LongStep(optstring: string, opts: seq<LongOption>, k: nat, pos: string, next: Option<string>): (o: Outcome)
    requires k < |opts|
    ensures o.rest == [] && 1 <= o.used <= (if next.Some? then 2 else 1)
  {
    var p, n := opts[k], NameLength(pos);
    var code := if p.flagged then 0 else p.val;
    if n < |pos| then
      if p.hasArg.NoArgument? then Outcome(Event(QUESTION, None, None, Some(p.val)), [], 1)
      else Outcome(Event(code, Some(pos[n + 1..]), Some(k), None), [], 1)
    else if p.hasArg.RequiredArgument? then
      if next.Some? then Outcome(Event(code, next, Some(k), None), [], 2)
      else Outcome(Event(MissingCode(optstring), None, None, Some(p.val)), [], 1)
    else Outcome(Event(code, None, Some(k), None), [], 1)
  }

  // ---------------------------------------------------------- one argv element

  predicate IsNonOption(elem: string) {
    |elem| < 2 || elem[0] != '-'
  }

  /** An element that holds options: not a non-option and not "--". */
  predicate IsOption(elem: string) {
    !IsNonOption(elem) && elem != "--"
  }

  function FirstPos(cfg: Config, elem: string): (pos: string)
    requires IsOption(elem)
    ensures pos != []
  {
    if cfg.longopts.Some? && elem[1] == '-' then elem[2..] else elem[1..]
  }

  predicate TriesLong(cfg: Config, elem: string)
    requires |elem| >= 2
  {
    cfg.longopts.Some? && (elem[1] == '-' || (cfg.longOnly && (|elem| > 2 || elem[1] !in cfg.optstring)))
  }

  /** Decoding at position pos of element elem, the next element being next. */
  function Step(cfg: Config, elem: string, pos: string, next: Option<string>): (o: Outcome)
    requires |elem| >= 2 && pos != []
    ensures o.rest == [] || (o.rest == pos[1..] && o.used == 0)
    ensures o.rest == [] ==> 1 <= o.used <= (if next.Some? then 2 else 1)
  {
    if !TriesLong(cfg, elem) then ShortStep(cfg.optstring, pos, next)
    else
      match Lookup(cfg.longopts.value, pos[..NameLength(pos)])
      case Ambiguous => Outcome(Event(QUESTION, None, None, Some(0)), [], 1)
      case At(k) => LongStep(cfg.optstring, cfg.longopts.value, k, pos, next)
      case Missing =>
        if !cfg.longOnly || elem[1] == '-' || pos[0] !in cfg.optstring then
          Outcome(Event(QUESTION, None, None, Some(0)), [], 1)
        else ShortStep(cfg.optstring, pos, next)
  }

  /** All events of an element from position pos on, and how many elements it uses. */
  datatype ElemResult = ElemResult(events: seq<Event>, used: nat, cfg: Config)

  function Elem(cfg: Config, elem: string, pos: string, next: Option<string>): (r: ElemResult)
    requires |elem| >= 2 && pos != []
    ensures r.events != [] && 1 <= r.used <= (if next.Some? then 2 else 1)
    ensures r.cfg == cfg.Next()
    decreases |pos|
  {
    var o := Step(cfg, elem, pos, next);
    if o.rest == [] then ElemResult([o.ev], o.used, cfg.Next())
    else
      var r := Elem(cfg.Next(), elem, o.rest, next);
      ElemResult([o.ev] + r.events, r.used, r.cfg)
  }

  // -------------------------------------------------------------- a whole scan

  /** The events of a scan; the elements scanned as options and their arguments;
      the elements left to the caller. */
  datatype Parsed = Parsed(events: seq<Event>, opts: seq<string>, rest: seq<string>)

  function NextOf(args: seq<string>): Option<string> {
    if |args| < 2 then None else Some(args[1])
  }

  function Parse(ord: Ordering, cfg: Config, args: seq<string>): Parsed
    decreases |args|, 1
  {
    if args == [] then Parsed([], [], [])
    else if args[0] == "--" then Parsed([], ["--"], args[1..])
    else if IsNonOption(args[0]) then
      match ord
      case REQUIRE_ORDER => Parsed([], [], args)
      case PERMUTE =>
        var p := Parse(ord, cfg, args[1..]);
        p.(rest := [args[0]] + p.rest)
      case RETURN_IN_ORDER =>
        var p := Parse(ord, cfg.Next(), args[1..]);
        Parsed([Event(1, Some(args[0]), None, None)] + p.events, [args[0]] + p.opts, p.rest)
    else ParseFrom(ord, cfg, FirstPos(cfg, args[0]), args)
  }

  /** A scan that resumes at position pos inside args[0]. */
  function ParseFrom(ord: Ordering, cfg: Config, pos: string, args: seq<string>): Parsed
    requires args != [] && |args[0]| >= 2 && pos != []
    decreases |args|, 0
  {
    var e := Elem(cfg, args[0], pos, NextOf(args));
    var p := Parse(ord, e.cfg, args[e.used..]);
    Parsed(e.events + p.events, args[..e.used] + p.opts, p.rest)
  }

  // -------------------------------------- PERMUTE against REQUIRE_ORDER

  /** Whether an element ends in an option that takes the following element. */
  predicate WantsNext(cfg: Config, elem: string)
    requires IsOption(elem)
  {
    Elem(cfg, elem, FirstPos(cfg, elem), Some("")).used == 2
  }

  /** The last argument is an option element that wants an argument of its own. */
  predicate EndsHungry(cfg: Config, args: seq<string>)
    decreases |args|
  {
    args != [] && args[0] != "--" &&
    if IsNonOption(args[0]) then EndsHungry(cfg, args[1..])
    else if |args| == 1 then WantsNext(cfg, args[0])
    else
      var e := Elem(cfg, args[0], FirstPos(cfg, args[0]), NextOf(args));
      EndsHungry(e.cfg, args[e.used..])
  }

  lemma StepUsesNext(cfg: Config, elem: string, pos: string, x: string, y: Option<string>)
    requires |elem| >= 2 && pos != []
    ensures var o, o' := Step(cfg, elem, pos, Some(x)), Step(cfg, elem, pos, y);
            && o.rest == o'.rest
            && (o.used < 2 ==> o == o')
            && (o.used == 2 ==> o.ev.arg == Some(x) && o'.ev.arg == y && (y.Some? ==> o'.used == 2))
  {
  }

  /** The text of the next element matters only to an option that takes it. */
  lemma {:induction false} NextMattersOnlyIfTaken(cfg: Config, elem: string, pos: string,
                                                     x: Option<string>, y: Option<string>)
    requires |elem| >= 2 && pos != []
    ensures x.Some? && y.Some? ==> Elem(cfg, elem, pos, x).used == Elem(cfg, elem, pos, y).used
    ensures x.Some? && Elem(cfg, elem, pos, x).used == 1 ==> Elem(cfg, elem, pos, x) == Elem(cfg, elem, pos, y)
    decreases |pos|
  {
    if x.Some? {
      StepUsesNext(cfg, elem, pos, x.value, y);
      var o := Step(cfg, elem, pos, x);
      if o.rest != [] {
        NextMattersOnlyIfTaken(cfg.Next(), elem, o.rest, x, y);
      }
    }
  }

  /** An option that takes the next element reports it as its argument. */
  lemma {:induction false} TakenIsReported(cfg: Config, elem: string, pos: string, x: string)
    requires |elem| >= 2 && pos != [] && Elem(cfg, elem, pos, Some(x)).used == 2
    ensures var some, none := Elem(cfg, elem, pos, Some(x)).events, Elem(cfg, elem, pos, None).events;
            |some| == |none| && some[|some| - 1].arg == Some(x) && none[|none| - 1].arg == None
    decreases |pos|
  {
    StepUsesNext(cfg, elem, pos, x, None);
    var o := Step(cfg, elem, pos, Some(x));
    if o.rest != [] {
      TakenIsReported(cfg.Next(), elem, o.rest, x);
    }
  }

  /** The scan meets a "--" that is not an option's argument. */
  predicate MeetsDashes(cfg: Config, args: seq<string>)
    decreases |args|
  {
    args != [] &&
    if args[0] == "--" then true
    else if IsNonOption(args[0]) then MeetsDashes(cfg, args[1..])
    else
      var e := Elem(cfg, args[0], FirstPos(cfg, args[0]), NextOf(args));
      MeetsDashes(e.cfg, args[e.used..])
  }

  lemma {:induction false} RestStartsWithNonOption(cfg: Config, args: seq<string>)
    requires !MeetsDashes(cfg, args)
    ensures var p := Parse(PERMUTE, cfg, args); p.rest != [] ==> IsNonOption(p.rest[0])
    decreases |args|
  {
    if args != [] && !IsNonOption(args[0]) {
      var e := Elem(cfg, args[0], FirstPos(cfg, args[0]), NextOf(args));
      RestStartsWithNonOption(e.cfg, args[e.used..]);
    }
  }

  /** A scan that starts at an option element, unfolded once. */
  lemma ScanElement(ord: Ordering, cfg: Config, args: seq<string>)
    requires args != [] && IsOption(args[0])
    ensures var e := Elem(cfg, args[0], FirstPos(cfg, args[0]), NextOf(args));
            var p := Parse(ord, e.cfg, args[e.used..]);
            && Parse(ord, cfg, args) == Parsed(e.events + p.events, args[..e.used] + p.opts, p.rest)
            && MeetsDashes(cfg, args) == MeetsDashes(e.cfg, args[e.used..])
            && (EndsHungry(cfg, args)
                <==> if |args| == 1 then WantsNext(cfg, args[0]) else EndsHungry(e.cfg, args[e.used..]))
  {
    assert Parse(ord, cfg, args) == ParseFrom(ord, cfg, FirstPos(cfg, args[0]), args);
  }

  /** Replaying the options of a permuted scan in order, with a tail behind them,
      repeats its events exactly unless the last option is hungry for the tail. */
  ghost predicate Replays(cfg: Config, args: seq<string>, tail: seq<string>) {
    var p := Parse(PERMUTE, cfg, args);
    var q := Parse(REQUIRE_ORDER, cfg, p.opts + tail);
    if EndsHungry(cfg, args) && tail != [] then q.events != p.events
    else q == Parsed(p.events, p.opts, tail)
  }

  lemma {:induction false} OptionsReplay(cfg: Config, args: seq<string>, tail: seq<string>)
    requires MeetsDashes(cfg, args) || tail == [] || IsNonOption(tail[0])
    ensures Replays(cfg, args, tail)
    decreases |args|
  {
    hide Elem, FirstPos;
    var p := Parse(PERMUTE, cfg, args);
    if args == [] {
      assert p.opts + tail == tail;
    } else if args[0] == "--" {
      assert (p.opts + tail)[1..] == tail;
    } else if IsNonOption(args[0]) {
      OptionsReplay(cfg, args[1..], tail);
    } else {
      var e := Elem(cfg, args[0], FirstPos(cfg, args[0]), NextOf(args));
      ScanElement(PERMUTE, cfg, args);
      if |args| == 1 && WantsNext(cfg, args[0]) && tail != [] {
        HungryTakesTail(cfg, args, tail);
      } else {
        OptionsReplay(e.cfg, args[e.used..], tail);
        OptionElementReplays(cfg, args, tail);
      }
    }
  }

  /** The induction step: an option element that finds in the replay what it
      found in the original. */
  lemma {:induction false} OptionElementReplays(cfg: Config, args: seq<string>, tail: seq<string>)
    requires args != [] && IsOption(args[0])
    requires |args| > 1 || tail == [] || !WantsNext(cfg, args[0])
    requires var e := Elem(cfg, args[0], FirstPos(cfg, args[0]), NextOf(args)); Replays(e.cfg, args[e.used..], tail)
    ensures Replays(cfg, args, tail)
  {
    hide Elem, FirstPos, Parse, EndsHungry, MeetsDashes;
    var pos := FirstPos(cfg, args[0]);
    var e := Elem(cfg, args[0], pos, NextOf(args));
    var p' := Parse(PERMUTE, e.cfg, args[e.used..]);
    var q' := Parse(REQUIRE_ORDER, e.cfg, p'.opts + tail);
    var replay := args[..e.used] + p'.opts + tail;
    assert replay == args[..e.used] + (p'.opts + tail);
    if |args| == 1 {
      assert args[e.used..] == [];
      NothingToScan(PERMUTE, e.cfg);
    }
    ScanElement(PERMUTE, cfg, args);
    ScanElement(REQUIRE_ORDER, cfg, replay);
    SameElement(cfg, args, replay, e);
    assert replay[e.used..] == p'.opts + tail && replay[..e.used] == args[..e.used];
    assert (e.events + q'.events)[|e.events|..] == q'.events;
    assert (e.events + p'.events)[|e.events|..] == p'.events;
  }

  lemma {:induction false} SameElement(cfg: Config, args: seq<string>, replay: seq<string>, e: ElemResult)
    requires args != [] && IsOption(args[0]) && e == Elem(cfg, args[0], FirstPos(cfg, args[0]), NextOf(args))
    requires e.used <= |replay| && args[..e.used] == replay[..e.used]
    requires |args| > 1 || |replay| == 1 || !WantsNext(cfg, args[0])
    ensures Elem(cfg, replay[0], FirstPos(cfg, replay[0]), NextOf(replay)) == e
  {
    hide Elem, FirstPos;
    var pos := FirstPos(cfg, args[0]);
    assert replay[0] == args[..e.used][0];
    NextMattersOnlyIfTaken(cfg, args[0], pos, Some(""), NextOf(args));
    NextMattersOnlyIfTaken(cfg, args[0], pos, Some(""), NextOf(replay));
    if e.used == 2 {
      assert replay[1] == args[..e.used][1];
    }
  }

  /** A last option without its argument is given the head of the tail instead. */
  lemma {:induction false} HungryTakesTail(cfg: Config, args: seq<string>, tail: seq<string>)
    requires |args| == 1 && IsOption(args[0]) && WantsNext(cfg, args[0]) && tail != []
    ensures Replays(cfg, args, tail)
  {
    hide Elem, FirstPos, Parse;
    var pos := FirstPos(cfg, args[0]);
    NextMattersOnlyIfTaken(cfg, args[0], pos, Some(""), Some(tail[0]));
    TakenIsReported(cfg, args[0], pos, tail[0]);
    var f, none := Elem(cfg, args[0], pos, Some(tail[0])), Elem(cfg, args[0], pos, None);
    ScanElement(PERMUTE, cfg, args);
    NothingToScan(PERMUTE, none.cfg);
    assert args[1..] == [] && args[..1] + [] == args;
    var replay := args + tail;
    ScanElement(REQUIRE_ORDER, cfg, replay);
    var q := Parse(REQUIRE_ORDER, f.cfg, replay[f.used..]);
    assert (f.events + q.events)[|none.events| - 1] != none.events[|none.events| - 1];
  }

  lemma NothingToScan(ord: Ordering, cfg: Config)
    ensures Parse(ord, cfg, []) == Parsed([], [], []) && !EndsHungry(cfg, [])
  {
  }

  /** The scan skips a non-option. */
  predicate SkipsNonOption(cfg: Config, args: seq<string>)
    decreases |args|
  {
    args != [] && args[0] != "--" &&
    (IsNonOption(args[0]) ||
     var e := Elem(cfg, args[0], FirstPos(cfg, args[0]), NextOf(args));
     SkipsNonOption(e.cfg, args[e.used..]))
  }

  /** A scan that runs to the end of the arguments leaves what it has skipped. */
  lemma {:induction false} RestIsSkipped(cfg: Config, args: seq<string>)
    requires !MeetsDashes(cfg, args)
    ensures Parse(PERMUTE, cfg, args).rest != [] <==> SkipsNonOption(cfg, args)
    decreases |args|
  {
    hide Elem, FirstPos;
    if args != [] && !IsNonOption(args[0]) {
      var e := Elem(cfg, args[0], FirstPos(cfg, args[0]), NextOf(args));
      RestIsSkipped(e.cfg, args[e.used..]);
    }
  }

  /** A scan whose last argument wants an argument of its own has met no "--". */
  lemma {:induction false} HungryMeetsNoDashes(cfg: Config, args: seq<string>)
    requires EndsHungry(cfg, args)
    ensures !MeetsDashes(cfg, args)
    decreases |args|
  {
    hide Elem, FirstPos, WantsNext;
    if IsNonOption(args[0]) {
      HungryMeetsNoDashes(cfg, args[1..]);
    } else if |args| > 1 {
      var e := Elem(cfg, args[0], FirstPos(cfg, args[0]), NextOf(args));
      HungryMeetsNoDashes(e.cfg, args[e.used..]);
    }
  }

  /** The permuting scan agrees with an in-order scan of the partition it leaves,
      except when the last argument is an option still wanting its own argument
      and a non-option has been skipped, which the in-order scan feeds to it. */
  lemma PermuteIsInOrderOnPartition(cfg: Config, args: seq<string>)
    ensures var p := Parse(PERMUTE, cfg, args); var q := Parse(REQUIRE_ORDER, cfg, p.opts + p.rest);
            && (q.events == p.events <==> !(EndsHungry(cfg, args) && SkipsNonOption(cfg, args)))
            && (q == p <==> !(EndsHungry(cfg, args) && SkipsNonOption(cfg, args)))
  {
    hide EndsHungry, SkipsNonOption;
    var p := Parse(PERMUTE, cfg, args);
    if !MeetsDashes(cfg, args) {
      RestStartsWithNonOption(cfg, args);
      RestIsSkipped(cfg, args);
    }
    if EndsHungry(cfg, args) {
      HungryMeetsNoDashes(cfg, args);
    }
    OptionsReplay(cfg, args, p.rest);
  }

  /** Such an input: with the option string "a:" and the arguments "x" and "-a" the
      permuting scan finds -a without its argument, and the other one gives it "x". */
  lemma PermuteFeedsNonOption()
    ensures var cfg := Config("a:", "a:", None, false);
            var p := Parse(PERMUTE, cfg, ["x", "-a"]);
            && p.opts + p.rest == ["-a", "x"]
            && p.events == [Event(QUESTION, None, None, Some('a' as int))]
            && Parse(REQUIRE_ORDER, cfg, p.opts + p.rest).events == [Event('a' as int, Some("x"), None, None)]
  {
    var cfg := Config("a:", "a:", None, false);
    var hungry, fed := Elem(cfg, "-a", "a", None), Elem(cfg, "-a", "a", Some("x"));
    assert ShortKind("a:", 'a') == Some(RequiredArgument);
    assert hungry.events == [Event(QUESTION, None, None, Some('a' as int))] && hungry.used == 1;
    assert fed.events == [Event('a' as int, Some("x"), None, None)] && fed.used == 2;
    NothingToScan(PERMUTE, cfg);
    NothingToScan(REQUIRE_ORDER, cfg);
    assert ["-a"][1..] == [] && ["x", "-a"][1..] == ["-a"] && ["-a", "x"][2..] == [];
    assert FirstPos(cfg, "-a") == "a";
    ScanElement(PERMUTE, cfg, ["-a"]);
    ScanElement(REQUIRE_ORDER, cfg, ["-a", "x"]);
  }

  /** A scan only sorts its arguments into two piles. */
  lemma {:induction false} ScanKeepsArguments(ord: Ordering, cfg: Config, args: seq<string>)
    ensures var p := Parse(ord, cfg, args); multiset(p.opts) + multiset(p.rest) == multiset(args)
    decreases |args|
  {
    hide Elem, FirstPos;
    if args != [] {
      if args[0] == "--" || IsNonOption(args[0]) {
        assert args == [args[0]] + args[1..];
        ScanKeepsArguments(ord, cfg, args[1..]);
        ScanKeepsArguments(ord, cfg.Next(), args[1..]);
      } else {
        hide Parse;
        var e := Elem(cfg, args[0], FirstPos(cfg, args[0]), NextOf(args));
        var q := Parse(ord, e.cfg, args[e.used..]);
        ScanElement(ord, cfg, args);
        ScanKeepsArguments(ord, e.cfg, args[e.used..]);
        FrontToPile(args, e.used, q.opts, q.rest);
      }
    }
  }

  lemma {:induction false} FrontToPile(args: seq<string>, n: nat, opts: seq<string>, rest: seq<string>)
    requires n <= |args| && multiset(opts) + multiset(rest) == multiset(args[n..])
    ensures multiset(args[..n] + opts) + multiset(rest) == multiset(args)
  {
    assert args == args[..n] + args[n..];
  }
}

/** The scanner of lib-src/getopt.c: _getopt_internal with the state it keeps
    between calls, rearranging argv in place. */
module Getopt {
  import opened Wrappers
  import opened GetoptSpec

  datatype Progress = Finished | Argument(arg: string) | Element

  /** The part of the option string that the first call searches. */
  function Stripped(optstring: string): string {
    if CharAt(optstring, 0, '-') || CharAt(optstring, 0, '+') then optstring[1..] else optstring
  }

  function OrderingOf(optstring: string, posixly: bool): Ordering {
    if CharAt(optstring, 0, '-') then RETURN_IN_ORDER
    else if CharAt(optstring, 0, '+') || posixly then REQUIRE_ORDER
    else PERMUTE
  }

  /** The option string does not make 'W' introduce a long option. */
  predicate NoLongW(optstring: string) {
    'W' in optstring ==> !CharAt(optstring, IndexOf(optstring, 'W') + 1, ';')
  }

  /** No long option returns the value that ends the scan. */
  predicate ValuesOk(longopts: Option<seq<LongOption>>) {
    longopts.Some? ==> forall k :: 0 <= k < |longopts.value| ==> longopts.value[k].val != -1
  }

  lemma StepCode(cfg: Config, elem: string, pos: string, next: Option<string>)
    requires |elem| >= 2 && pos != [] && ValuesOk(cfg.longopts)
    ensures Step(cfg, elem, pos, next).ev.code != -1
  {
    hide Lookup, NameLength, ShortKind;
  }

  method MyIndex(str: string, chr: char) returns (r: Option<nat>)
    ensures r == if chr in str then Some(IndexOf(str, chr)) else None
  {
    var k := 0;
    while k < |str|
      invariant 0 <= k <= |str| && chr !in str[..k]
    {
      if str[k] == chr {
        return Some(k);
      }
      k := k + 1;
    }
    r := None;
  }

  /** The loop over the long options: an exact match ends it, otherwise the
      first abbreviation found stands unless there is a second. */
  method FindLong(opts: seq<LongOption>, name: string) returns (r: Found)
    ensures r == Lookup(opts, name)
  {
    var pfound: Found, ambig := Missing, false;
    var k := 0;
    while k < |opts|
      invariant 0 <= k <= |opts| && !pfound.Ambiguous?
      invariant forall j :: 0 <= j < k ==> opts[j].name != name
      invariant pfound.Missing? <==> Abbreviated(opts, name, k) == []
      invariant pfound.At? ==> pfound.index == Abbreviated(opts, name, k)[0]
      invariant ambig <==> |Abbreviated(opts, name, k)| > 1
    {
      if name <= opts[k].name {
        if |name| == |opts[k].name| {
          return At(k);
        } else if pfound.Missing? {
          pfound := At(k);
        } else {
          ambig := true;
        }
      }
      k := k + 1;
    }
    r := if ambig then Ambiguous else pfound;
  }

  method NameEnd(pos: string) returns (n: nat)
    ensures n == NameLength(pos)
  {
    n := 0;
    while n < |pos| && pos[n] != '='
      invariant n <= |pos| && '=' !in pos[..n]
    {
      n := n + 1;
    }
  }

  // ------------------------------------------------------------------ exchange

  /** t is s with its blocks [i, i + len) and [j, j + len) swapped. */
  ghost predicate BlocksSwapped<T>(s: seq<T>, t: seq<T>, i: nat, j: nat, len: nat)
    requires i + len <= j && j + len <= |s|
  {
    && |t| == |s|
    && forall m :: 0 <= m < |s| ==> t[m] == s[Swapped(i, j, len, m)]
  }

  method SwapBlocks<T>(argv: array<T>, i: nat, j: nat, len: nat)
    requires i + len <= j && j + len <= argv.Length
    modifies argv
    ensures BlocksSwapped(old(argv[..]), argv[..], i, j, len)
  {
    for k := 0 to len
      invariant forall m :: 0 <= m < argv.Length ==>
        argv[m] == old(if i <= m < i + k then argv[m - i + j] else if j <= m < j + k then argv[m - j + i] else argv[m])
    {
      var tem := argv[i + k];
      argv[i + k] := argv[j + k];
      argv[j + k] := tem;
    }
  }

  /** The blocks [bottom, middle) and [middle, top) of s in the other order. */
  function Exchanged<T>(s: seq<T>, bottom: nat, middle: nat, top: nat): seq<T>
    requires bottom <= middle <= top <= |s|
  {
    s[..bottom] + s[middle..top] + s[bottom..middle] + s[top..]
  }

  /** Where the element at m comes from in an exchange, */
  function Source(bottom: nat, middle: nat, top: nat, m: nat): (k: nat)
    requires bottom <= middle <= top
    ensures m < top ==> k < top
    ensures top <= m ==> k == m
  {
    if m < bottom || top <= m then m
    else if m < bottom + (top - middle) then m - bottom + middle else m - (top - middle)
  }

  lemma ExchangedAt<T>(s: seq<T>, bottom: nat, middle: nat, top: nat)
    requires bottom <= middle <= top <= |s|
    ensures var e := Exchanged(s, bottom, middle, top);
            |e| == |s| && forall m :: 0 <= m < |s| ==> e[m] == s[Source(bottom, middle, top, m)]
  {
  }

  /** and in a swap of blocks. */
  function Swapped(i: nat, j: nat, len: nat, m: nat): nat {
    if i <= m < i + len then m - i + j else if j <= m < j + len then m - j + i else m
  }

  /** Swapping the bottom block with the far end of a longer top block leaves a
      smaller exchange with the same result. */
  lemma {:induction false} ShortBottom<T>(s: seq<T>, t: seq<T>, bottom: nat, middle: nat, top: nat)
    requires bottom <= middle <= top <= |s| && top - middle > middle - bottom
    requires BlocksSwapped(s, t, bottom, top - (middle - bottom), middle - bottom)
    ensures Exchanged(t, bottom, middle, top - (middle - bottom)) == Exchanged(s, bottom, middle, top)
  {
    hide Exchanged;
    var len := middle - bottom;
    var l, r := Exchanged(t, bottom, middle, top - len), Exchanged(s, bottom, middle, top);
    ExchangedAt(t, bottom, middle, top - len);
    ExchangedAt(s, bottom, middle, top);
    forall m | 0 <= m < |s| ensures l[m] == r[m] {
      var k := Source(bottom, middle, top - len, m);
      assert l[m] == t[k] == s[Swapped(bottom, top - len, len, k)];
    }
  }

  /** The same for a top block that is no longer. */
  lemma {:induction false} ShortTop<T>(s: seq<T>, t: seq<T>, bottom: nat, middle: nat, top: nat)
    requires bottom <= middle <= top <= |s| && top - middle <= middle - bottom
    requires BlocksSwapped(s, t, bottom, middle, top - middle)
    ensures Exchanged(t, bottom + (top - middle), middle, top) == Exchanged(s, bottom, middle, top)
  {
    hide Exchanged;
    var len := top - middle;
    var l, r := Exchanged(t, bottom + len, middle, top), Exchanged(s, bottom, middle, top);
    ExchangedAt(t, bottom + len, middle, top);
    ExchangedAt(s, bottom, middle, top);
    forall m | 0 <= m < |s| ensures l[m] == r[m] {
      var k := Source(bottom + len, middle, top, m);
      assert l[m] == t[k] == s[Swapped(bottom, middle, len, k)];
    }
  }

  lemma NothingToExchange<T>(s: seq<T>, bottom: nat, middle: nat, top: nat)
    requires bottom <= middle <= top <= |s| && (bottom == middle || middle == top)
    ensures Exchanged(s, bottom, middle, top) == s
  {
  }

  method ExchangeBlocks<T>(argv: array<T>, first: nat, last: nat, optind: nat)
    requires first <= last <= optind <= argv.Length
    modifies argv
    ensures argv[..] == Exchanged(old(argv[..]), first, last, optind)
  {
    hide Exchanged;
    var bottom: nat, middle: nat, top: nat := first, last, optind;
    ghost var goal := Exchanged(argv[..], first, last, optind);
    while top > middle && middle > bottom
      invariant bottom <= middle <= top <= argv.Length
      invariant Exchanged(argv[..], bottom, middle, top) == goal
      decreases top - bottom
    {
      if top - middle > middle - bottom {
        MoveShortBottom(argv, bottom, middle, top);
        top := top - (middle - bottom);
      } else {
        MoveShortTop(argv, bottom, middle, top);
        bottom := bottom + (top - middle);
      }
    }
    NothingToExchange(argv[..], bottom, middle, top);
  }

  /** Swaps the bottom segment with the far end of the longer top segment. */
  method MoveShortBottom<T>(argv: array<T>, bottom: nat, middle: nat, top: nat)
    requires bottom <= middle <= top <= argv.Length && top - middle > middle - bottom
    modifies argv
    ensures Exchanged(argv[..], bottom, middle, top - (middle - bottom))
            == Exchanged(old(argv[..]), bottom, middle, top)
  {
    hide Exchanged, BlocksSwapped;
    SwapBlocks(argv, bottom, top - (middle - bottom), middle - bottom);
    ShortBottom(old(argv[..]), argv[..], bottom, middle, top);
  }

  /** Swaps the top segment with the near end of the bottom segment. */
  method MoveShortTop<T>(argv: array<T>, bottom: nat, middle: nat, top: nat)
    requires bottom <= middle <= top <= argv.Length && top - middle <= middle - bottom
    modifies argv
    ensures Exchanged(argv[..], bottom + (top - middle), middle, top) == Exchanged(old(argv[..]), bottom, middle, top)
  {
    hide Exchanged, BlocksSwapped;
    SwapBlocks(argv, bottom, middle, top - middle);
    ShortTop(old(argv[..]), argv[..], bottom, middle, top);
  }

  // --------------------------------------------------------------- the scanner

  /** Leading non-options only move to the pile of the rest. */
  lemma {:induction false} SkipNonOptions(cfg: Config, args: seq<string>, k: nat)
    requires k <= |args| && forall i :: 0 <= i < k ==> IsNonOption(args[i])
    ensures var q := Parse(PERMUTE, cfg, args[k..]);
            Parse(PERMUTE, cfg, args) == q.(rest := args[..k] + q.rest)
  {
    hide Parse;
    if k == 0 {
      assert args[0..] == args && args[..0] == [];
    } else {
      ScanNonOption(cfg, args);
      SkipNonOptions(cfg, args[1..], k - 1);
      assert args[1..][k - 1..] == args[k..];
      var q := Parse(PERMUTE, cfg, args[k..]);
      assert [args[0]] + (args[1..][..k - 1] + q.rest) == args[..k] + q.rest;
    }
  }

  lemma ScanNonOption(cfg: Config, args: seq<string>)
    requires args != [] && IsNonOption(args[0])
    ensures var p := Parse(PERMUTE, cfg, args[1..]); Parse(PERMUTE, cfg, args) == p.(rest := [args[0]] + p.rest)
  {
  }

  /** One decoding step uses up one event of the resumed scan. */
  lemma {:induction false} StepConsumes(ord: Ordering, cfg: Config, pos: string, args: seq<string>)
    requires args != [] && |args[0]| >= 2 && pos != []
    ensures var o := Step(cfg, args[0], pos, NextOf(args));
            var p := ParseFrom(ord, cfg, pos, args);
            if o.rest == [] then
              var q := Parse(ord, cfg.Next(), args[o.used..]);
              p == Parsed([o.ev] + q.events, args[..o.used] + q.opts, q.rest)
            else
              var q := ParseFrom(ord, cfg.Next(), o.rest, args);
              p == q.(events := [o.ev] + q.events)
  {
    var o := Step(cfg, args[0], pos, NextOf(args));
    var e := Elem(cfg, args[0], pos, NextOf(args));
    var rest := Parse(ord, e.cfg, args[e.used..]);
    if o.rest != [] {
      var f := Elem(cfg.Next(), args[0], o.rest, NextOf(args));
      assert [o.ev] + f.events + rest.events == [o.ev] + (f.events + rest.events);
    }
  }

  /** A scan in progress over s: the options moved in front end at first, the
      skipped non-options are s[first..last], the options since end at optind. */
  ghost function View(s: seq<string>, first: nat, last: nat, optind: nat, nextchar: string, ord: Ordering, cfg: Config)
      : Parsed
    requires 1 <= first <= last <= optind <= |s|
    requires nextchar != [] ==> optind < |s| && |s[optind]| >= 2
  {
    var p := if nextchar == [] then Parse(ord, cfg, s[optind..]) else ParseFrom(ord, cfg, nextchar, s[optind..]);
    Parsed(p.events, s[1..first] + s[last..optind] + p.opts, s[first..last] + p.rest)
  }

  lemma {:induction false} ExchangedParts(s: seq<string>, t: seq<string>, first: nat, last: nat, optind: nat)
    requires 1 <= first <= last <= optind <= |s| && t == Exchanged(s, first, last, optind)
    ensures |t| == |s| && t[0] == s[0]
    ensures t[1..first + (optind - last)] == s[1..first] + s[last..optind]
    ensures t[first + (optind - last)..optind] == s[first..last]
    ensures t[optind..] == s[optind..]
  {
  }

  /** Exchanging the blocks does not change the scan. */
  lemma {:induction false} ExchangeKeepsView(s: seq<string>, t: seq<string>, first: nat, last: nat, optind: nat,
                                              ord: Ordering, cfg: Config)
    requires 1 <= first <= last <= optind <= |s| && t == Exchanged(s, first, last, optind)
    ensures |t| == |s| && View(t, first + (optind - last), optind, optind, [], ord, cfg)
                          == View(s, first, last, optind, [], ord, cfg)
  {
    ExchangedParts(s, t, first, last, optind);
    var p := Parse(ord, cfg, s[optind..]);
    assert t[optind..optind] == [];
    assert s[1..first] + s[last..optind] + [] + p.opts == s[1..first] + s[last..optind] + p.opts;
  }

  /** Skipping non-options in PERMUTE mode does not change the scan. */
  lemma {:induction false} SkipKeepsView(s: seq<string>, first: nat, start: nat, optind: nat, cfg: Config)
    requires 1 <= first <= start <= optind <= |s|
    requires forall i :: start <= i < optind ==> IsNonOption(s[i])
    ensures View(s, first, optind, optind, [], PERMUTE, cfg) == View(s, first, start, start, [], PERMUTE, cfg)
  {
    var args, k := s[start..], optind - start;
    SkipNonOptions(cfg, args, k);
    assert args[k..] == s[optind..];
    var q := Parse(PERMUTE, cfg, s[optind..]);
    assert s[first..start] + (args[..k] + q.rest) == s[first..optind] + q.rest;
    assert s[start..start] == s[optind..optind];
  }

  lemma NoNonOptionsYet(s: seq<string>, first: nat, optind: nat, ord: Ordering, cfg: Config)
    requires 1 <= first <= optind <= |s|
    ensures View(s, optind, optind, optind, [], ord, cfg) == View(s, first, first, optind, [], ord, cfg)
  {
    assert s[1..first] + s[first..optind] == s[1..optind] + s[optind..optind];
  }

  /** The scan at a non-option that is reported rather than skipped. */
  lemma {:induction false} ViewAtArgument(s: seq<string>, first: nat, optind: nat, cfg: Config)
    requires 1 <= first <= optind < |s| && IsNonOption(s[optind])
    ensures var q := View(s, first, first, optind + 1, [], RETURN_IN_ORDER, cfg.Next());
            View(s, first, first, optind, [], RETURN_IN_ORDER, cfg)
            == q.(events := [Event(1, Some(s[optind]), None, None)] + q.events)
  {
    assert s[optind..][1..] == s[optind + 1..];
    var p := Parse(RETURN_IN_ORDER, cfg.Next(), s[optind + 1..]);
    assert s[1..first] + s[first..optind] + ([s[optind]] + p.opts) == s[1..first] + s[first..optind + 1] + p.opts;
  }

  /** The scan at an option element is the scan from its first option on. */
  lemma {:induction false} ViewAtOption(s: seq<string>, first: nat, last: nat, optind: nat, ord: Ordering, cfg: Config)
    requires 1 <= first <= last <= optind < |s| && IsOption(s[optind])
    ensures View(s, first, last, optind, FirstPos(cfg, s[optind]), ord, cfg)
            == View(s, first, last, optind, [], ord, cfg)
  {
  }

  /** The scan at "--": nothing more to report. */
  lemma {:induction false} ViewAtDashes(s: seq<string>, first: nat, last: nat, optind: nat, ord: Ordering, cfg: Config)
    requires 1 <= first <= last <= optind < |s| && s[optind] == "--"
    ensures View(s, first, last, optind, [], ord, cfg)
            == Parsed([], s[1..first] + s[last..optind + 1], s[first..last] + s[optind + 1..])
  {
    assert s[optind..][1..] == s[optind + 1..];
    assert s[1..first] + s[last..optind] + ["--"] == s[1..first] + s[last..optind + 1];
  }

  /** Behind "--": exchanging the blocks, "--" included, gives the partition. */
  lemma {:induction false} DashesPartition(s: seq<string>, t: seq<string>, first: nat, last: nat, optind: nat)
    requires 1 <= first <= last <= optind < |s|
    requires t == if first != last then Exchanged(s, first, last, optind + 1) else s
    ensures t[1..] == s[1..first] + s[last..optind + 1] + (s[first..last] + s[optind + 1..])
    ensures t[0] == s[0]
  {
  }

  /** The scan at the end of argv. */
  lemma {:induction false} ViewAtEnd(s: seq<string>, first: nat, last: nat, ord: Ordering, cfg: Config)
    requires 1 <= first <= last <= |s| && (first == last || last == |s|)
    ensures var p := View(s, first, last, |s|, [], ord, cfg);
            && p.events == [] && s[1..] == p.opts + p.rest
            && 1 + |p.opts| == if first != last then first else |s|
  {
    assert s[|s|..] == [];
  }

  /** The scan at a non-option that ends it. */
  lemma {:induction false} ViewAtStop(s: seq<string>, first: nat, optind: nat, cfg: Config)
    requires 1 <= first <= optind < |s| && IsNonOption(s[optind])
    ensures var p := View(s, first, first, optind, [], REQUIRE_ORDER, cfg);
            p.events == [] && s[1..] == p.opts + p.rest && optind == 1 + |p.opts|
  {
    assert s[optind..][0] == s[optind];
  }

  class Scanner {
    var optind: nat
    var optarg: Option<string>
    var optopt: int
    var nextchar: string  // empty for a null pointer too: the two are never told apart
    var firstNonopt: nat
    var lastNonopt: nat
    var ordering: Ordering
    var initialized: bool

    constructor ()
      ensures optind == 1 && !initialized
    {
      optind, optarg, optopt := 1, None, QUESTION;
      nextchar, firstNonopt, lastNonopt := "", 0, 0;
      ordering, initialized := PERMUTE, false;
    }

    /** The next call starts a new scan. */
    predicate Fresh()
      reads this
    {
      optind == 0 || !initialized
    }

    ghost predicate Valid(argv: array<string>)
      reads this, argv
    {
      && 1 <= argv.Length
      && (!initialized ==> optind <= 1)
      && (!Fresh() ==>
            && 1 <= firstNonopt <= lastNonopt <= optind <= argv.Length
            && (ordering != PERMUTE ==> firstNonopt == lastNonopt)
            && (nextchar != [] ==> optind < argv.Length && |argv[optind]| >= 2))
    }

    ghost function Cfg(optstring: string, longopts: Option<seq<LongOption>>, longOnly: bool): Config
      reads this
    {
      Config(if Fresh() then Stripped(optstring) else optstring, optstring, longopts, longOnly)
    }

    ghost function Ord(optstring: string, posixly: bool): Ordering
      reads this
    {
      if Fresh() then OrderingOf(optstring, posixly) else ordering
    }

    /** The scan as a whole: the events still to come, and the two piles into
        which all of argv[1..] is going to be sorted. */
    ghost function Scan(argv: array<string>, ord: Ordering, cfg: Config): Parsed
      requires Valid(argv)
      reads this, argv
    {
      if Fresh() then Parse(ord, cfg, argv[..][1..])
      else View(argv[..], firstNonopt, lastNonopt, optind, nextchar, ord, cfg)
    }

    /** The end of a scan: argv is the partition and optind the first non-option. */
    ghost predicate Partitioned(argv: array<string>, p: Parsed)
      reads this, argv
    {
      1 <= argv.Length && argv[..][1..] == p.opts + p.rest && optind == 1 + |p.opts|
    }

    method Initialize(optstring: string, posixly: bool) returns (rest: string)
      modifies this`firstNonopt, this`lastNonopt, this`nextchar, this`ordering
      ensures firstNonopt == lastNonopt == optind && nextchar == []
      ensures ordering == OrderingOf(optstring, posixly) && rest == Stripped(optstring)
    {
      firstNonopt, lastNonopt, nextchar := optind, optind, "";
      rest := optstring;
      if CharAt(optstring, 0, '-') {
        ordering, rest := RETURN_IN_ORDER, optstring[1..];
      } else if CharAt(optstring, 0, '+') {
        ordering, rest := REQUIRE_ORDER, optstring[1..];
      } else if posixly {
        ordering := REQUIRE_ORDER;
      } else {
        ordering := PERMUTE;
      }
    }

    /** Swaps the skipped non-options with the options scanned after them. */
    method Exchange(argv: array<string>)
      requires 1 <= firstNonopt <= lastNonopt <= optind <= argv.Length
      modifies argv, this`firstNonopt, this`lastNonopt
      ensures argv[..] == Exchanged(old(argv[..]), old(firstNonopt), old(lastNonopt), optind)
      ensures firstNonopt == old(firstNonopt) + (optind - old(lastNonopt)) && lastNonopt == optind
    {
      ExchangeBlocks(argv, firstNonopt, lastNonopt, optind);
      firstNonopt := firstNonopt + (optind - lastNonopt);
      lastNonopt := optind;
    }

    /** PERMUTE: brings the options in front and skips the non-options ahead. */
    method PermuteAndSkip(argv: array<string>, ghost cfg: Config)
      requires Valid(argv) && !Fresh() && nextchar == [] && ordering == PERMUTE
      modifies argv, this`firstNonopt, this`lastNonopt, this`optind
      ensures Valid(argv) && !Fresh() && argv[0] == old(argv[0])
      ensures Scan(argv, PERMUTE, cfg) == old(Scan(argv, PERMUTE, cfg))
      ensures lastNonopt == optind && (optind < argv.Length ==> !IsNonOption(argv[optind]))
    {
      hide View, Parse, Exchanged;
      if firstNonopt != lastNonopt && lastNonopt != optind {
        ExchangeKeepsView(argv[..], Exchanged(argv[..], firstNonopt, lastNonopt, optind),
                          firstNonopt, lastNonopt, optind, PERMUTE, cfg);
        ExchangedParts(argv[..], Exchanged(argv[..], firstNonopt, lastNonopt, optind), firstNonopt, lastNonopt, optind);
        Exchange(argv);
      } else if lastNonopt != optind {
        NoNonOptionsYet(argv[..], firstNonopt, optind, PERMUTE, cfg);
        firstNonopt := optind;
      }
      ghost var s, start := argv[..], optind;
      assert View(s, firstNonopt, start, start, [], PERMUTE, cfg) == old(Scan(argv, PERMUTE, cfg));
      while optind < argv.Length && IsNonOption(argv[optind])
        modifies this`optind
        invariant start <= optind <= argv.Length
        invariant forall i :: start <= i < optind ==> IsNonOption(argv[i])
      {
        optind := optind + 1;
      }
      lastNonopt := optind;
      assert argv[..] == s;
      SkipKeepsView(s, firstNonopt, start, optind, cfg);
    }

    /** The special argument "--": everything behind it is a non-option. */
    method FinishAtDashes(argv: array<string>, ghost cfg: Config)
      requires Valid(argv) && !Fresh() && nextchar == []
      requires optind < argv.Length && argv[optind] == "--"
      modifies argv, this`firstNonopt, this`lastNonopt, this`optind
      ensures argv[0] == old(argv[0])
      ensures old(Scan(argv, ordering, cfg)).events == [] && Partitioned(argv, old(Scan(argv, ordering, cfg)))
    {
      hide View, Parse, Exchanged;
      ghost var s, first, last := argv[..], firstNonopt, lastNonopt;
      ViewAtDashes(s, first, last, optind, ordering, cfg);
      DashesPartition(s, if first != last then Exchanged(s, first, last, optind + 1) else s, first, last, optind);
      optind := optind + 1;
      if firstNonopt != lastNonopt && lastNonopt != optind {
        Exchange(argv);
      } else if firstNonopt == lastNonopt {
        firstNonopt := optind;
      }
      lastNonopt := argv.Length;
      optind := argv.Length;
      if firstNonopt != lastNonopt {
        optind := firstNonopt;
      }
    }

    /** Moves on to the next argv element that has something to report. */
    method Advance(argv: array<string>, longopts: Option<seq<LongOption>>, ghost cfg: Config) returns (r: Progress)
      requires Valid(argv) && !Fresh() && nextchar == [] && cfg.longopts == longopts
      modifies argv, this`firstNonopt, this`lastNonopt, this`optind, this`nextchar
      ensures argv[0] == old(argv[0])
      ensures r.Finished? ==>
        old(Scan(argv, ordering, cfg)).events == [] && Partitioned(argv, old(Scan(argv, ordering, cfg)))
      ensures !r.Finished? ==> Valid(argv) && !Fresh()
      ensures r.Element? ==> nextchar != [] && Scan(argv, ordering, cfg) == old(Scan(argv, ordering, cfg))
      ensures r.Argument? ==> nextchar == []
      ensures r.Argument? ==>
        var q := Scan(argv, ordering, cfg.Next());
        old(Scan(argv, ordering, cfg)) == q.(events := [Event(1, Some(r.arg), None, None)] + q.events)
    {
      hide View, Parse, Exchanged;
      // The source first pulls first_nonopt and last_nonopt back to optind in case
      // the caller has moved it backwards; callers here leave it alone.
      if ordering == PERMUTE {
        PermuteAndSkip(argv, cfg);
      }
      if optind != argv.Length && argv[optind] == "--" {
        FinishAtDashes(argv, cfg);
        return Finished;
      }
      if optind == argv.Length {
        ViewAtEnd(argv[..], firstNonopt, lastNonopt, ordering, cfg);
        if firstNonopt != lastNonopt {
          optind := firstNonopt;
        }
        return Finished;
      }
      if IsNonOption(argv[optind]) {
        if ordering == REQUIRE_ORDER {
          ViewAtStop(argv[..], firstNonopt, optind, cfg);
          return Finished;
        }
        r := Argument(argv[optind]);
        ViewAtArgument(argv[..], firstNonopt, optind, cfg);
        optind := optind + 1;
        return;
      }
      ViewAtOption(argv[..], firstNonopt, lastNonopt, optind, ordering, cfg);
      nextchar := if longopts.Some? && argv[optind][1] == '-' then argv[optind][2..] else argv[optind][1..];
      r := Element;
    }

    /** The state and the results of a call are those of decoding step o. */
    twostate predicate Performed(o: Outcome, new code: int, new index: Option<nat>)
      reads this
    {
      && code == o.ev.code && index == o.ev.index && optarg == o.ev.arg
      && optopt == (if o.ev.opt.Some? then o.ev.opt.value else old(optopt))
      && nextchar == o.rest && optind == old(optind) + o.used
    }

    ghost function NextElement(argv: array<string>): Option<string>
      reads this, argv
    {
      if optind + 1 < argv.Length then Some(argv[optind + 1]) else None
    }

    /** Handles the next short option character. */
    method DecodeShort(argv: array<string>, optstring: string) returns (code: int, index: Option<nat>)
      requires optind < argv.Length && nextchar != [] && optarg == None && NoLongW(optstring)
      modifies this`optind, this`optarg, this`optopt, this`nextchar
      ensures Performed(ShortStep(optstring, old(nextchar), old(NextElement(argv))), code, index)
    {
      index := None;
      var c := nextchar[0];
      nextchar := nextchar[1..];
      var temp := MyIndex(optstring, c);
      if nextchar == [] {  // count the element when its last character is taken
        optind := optind + 1;
      }
      if temp.None? || c == ':' {
        optopt := c as int;
        return QUESTION, None;
      }
      code := c as int;
      if CharAt(optstring, temp.value + 1, ':') {
        if CharAt(optstring, temp.value + 2, ':') {
          if nextchar != [] {
            optarg := Some(nextchar);
            optind := optind + 1;
          }
        } else if nextchar != [] {
          optarg := Some(nextchar);
          optind := optind + 1;
        } else if optind == argv.Length {
          optopt := c as int;
          code := if CharAt(optstring, 0, ':') then COLON else QUESTION;
        } else {
          optarg := Some(argv[optind]);
          optind := optind + 1;
        }
        nextchar := [];
      }
    }

    /** Handles an element as a long option; done is false if it has to be
        taken as a short option after all. */
    method DecodeLong(argv: array<string>, optstring: string, longopts: seq<LongOption>, longOnly: bool)
        returns (done: bool, code: int, index: Option<nat>)
      requires optind < argv.Length && |argv[optind]| >= 2 && nextchar != [] && optarg == None
      modifies this`optind, this`optarg, this`optopt, this`nextchar
      ensures
        var cfg := Config(optstring, optstring, Some(longopts), longOnly);
        var elem, pos, next := old(argv[optind]), old(nextchar), old(NextElement(argv));
        old(TriesLong(cfg, argv[optind])) ==>
          if done then Performed(Step(cfg, elem, pos, next), code, index)
          else Step(cfg, elem, pos, next) == ShortStep(optstring, pos, next)
      ensures !done ==> unchanged(this)
    {
      done, index := true, None;
      var n := NameEnd(nextchar);
      var found := FindLong(longopts, nextchar[..n]);
      if found.Ambiguous? {
        nextchar, optopt := [], 0;
        optind := optind + 1;
        return true, QUESTION, None;
      }
      if found.At? {
        var p := longopts[found.index];
        var attached := if n < |nextchar| then Some(nextchar[n + 1..]) else None;
        optind := optind + 1;
        nextchar := [];
        if attached.Some? {
          if p.hasArg.NoArgument? {
            optopt := p.val;
            return true, QUESTION, None;
          }
          optarg := attached;
        } else if p.hasArg.RequiredArgument? {
          if optind < argv.Length {
            optarg := Some(argv[optind]);
            optind := optind + 1;
          } else {
            optopt := p.val;
            return true, if CharAt(optstring, 0, ':') then COLON else QUESTION, None;
          }
        }
        return true, if p.flagged then 0 else p.val, Some(found.index);
      }
      if !longOnly || argv[optind][1] == '-' || nextchar[0] !in optstring {
        nextchar, optopt := [], 0;
        optind := optind + 1;
        return true, QUESTION, None;
      }
      done, code := false, 0;
    }

    /** Decodes at nextchar, inside the element argv[optind]. */
    method Decode(argv: array<string>, optstring: string, longopts: Option<seq<LongOption>>, longOnly: bool)
        returns (code: int, index: Option<nat>)
      requires optind < argv.Length && |argv[optind]| >= 2 && nextchar != [] && optarg == None && NoLongW(optstring)
      modifies this`optind, this`optarg, this`optopt, this`nextchar
      ensures Performed(Step(Config(optstring, optstring, longopts, longOnly), old(argv[optind]),
                        old(nextchar), old(NextElement(argv))), code, index)
    {
      if longopts.Some?
         && (argv[optind][1] == '-' || (longOnly && (|argv[optind]| > 2 || argv[optind][1] !in optstring))) {
        var done;
        done, code, index := DecodeLong(argv, optstring, longopts.value, longOnly);
        if done {
          return;
        }
      }
      code, index := DecodeShort(argv, optstring);
    }

    /** Starts a new scan unless one is under way; options is the string to search. */
    method Start(argv: array<string>, optstring: string, longopts: Option<seq<LongOption>>,
                 longOnly: bool, posixly: bool)
        returns (options: string)
      requires Valid(argv) && NoLongW(optstring)
      modifies this
      ensures Valid(argv) && !Fresh() && ordering == old(Ord(optstring, posixly))
      ensures options == old(Cfg(optstring, longopts, longOnly)).optstring && NoLongW(options)
      ensures Scan(argv, ordering, old(Cfg(optstring, longopts, longOnly)))
              == old(Scan(argv, Ord(optstring, posixly), Cfg(optstring, longopts, longOnly)))
      ensures optarg == None && optopt == old(optopt)
    {
      hide View, Parse, NoLongW;
      options := optstring;
      optarg := None;
      if optind == 0 || !initialized {
        StrippedNoLongW(optstring);
        FreshView(argv[..], Ord(optstring, posixly), Cfg(optstring, longopts, longOnly));
        optind := 1;
        options := Initialize(optstring, posixly);
        initialized := true;
      }
    }

    /** Decodes one option of a scan that is inside an element. */
    method DecodeNext(argv: array<string>, options: string, longopts: Option<seq<LongOption>>,
                      longOnly: bool, ghost cfg: Config)
        returns (code: int, index: Option<nat>)
      requires Valid(argv) && !Fresh() && nextchar != [] && optarg == None
      requires NoLongW(options) && ValuesOk(longopts)
      requires cfg.optstring == options && cfg.longopts == longopts && cfg.longOnly == longOnly
      modifies this`optind, this`optarg, this`optopt, this`nextchar
      ensures Valid(argv) && !Fresh() && code != -1
      ensures Reported(old(Scan(argv, ordering, cfg)), Scan(argv, ordering, cfg.Next()), code, index)
    {
      hide View, Step, NoLongW, ValuesOk;
      ViewStep(argv[..], firstNonopt, lastNonopt, optind, nextchar, ordering, cfg);
      StepCode(cfg, argv[optind], nextchar, NextElement(argv));
      StepIgnoresLater(cfg, argv[optind], nextchar, NextElement(argv));
      code, index := Decode(argv, options, longopts, longOnly);
    }

    /** Between was and now the scan reported its first event, through the
        results of the call and the variables of the scanner. */
    twostate predicate Reported(was: Parsed, now: Parsed, new code: int, new index: Option<nat>)
      reads this
    {
      && was.events != []
      && now == was.(events := was.events[1..])
      && was.events[0].(opt := None) == Event(code, optarg, index, None)
      && optopt == (if was.events[0].opt.Some? then was.events[0].opt.value else old(optopt))
    }

    /** _getopt_internal.  Every call but the last reports the first event of the
        scan and leaves the rest of the scan as it was; the last call finds no
        event and leaves argv partitioned. */
    method Getopt(argv: array<string>, optstring: string, longopts: Option<seq<LongOption>>,
                  longOnly: bool, posixly: bool)
        returns (code: int, index: Option<nat>)
      requires Valid(argv) && NoLongW(optstring) && ValuesOk(longopts)
      modifies this, argv
      ensures argv[0] == old(argv[0])
      ensures code == -1 <==> old(Scan(argv, Ord(optstring, posixly), Cfg(optstring, longopts, longOnly))).events == []
      ensures code == -1 ==>
        Partitioned(argv, old(Scan(argv, Ord(optstring, posixly), Cfg(optstring, longopts, longOnly))))
      ensures code != -1 ==>
        && Valid(argv) && !Fresh() && ordering == old(Ord(optstring, posixly))
        && Reported(old(Scan(argv, Ord(optstring, posixly), Cfg(optstring, longopts, longOnly))),
                    Scan(argv, ordering, Cfg(optstring, longopts, longOnly)), code, index)
    {
      hide View, Parse, Step, NoLongW, ValuesOk;
      ghost var cfg := Cfg(optstring, longopts, longOnly);
      var options := Start(argv, optstring, longopts, longOnly, posixly);
      index := None;
      if nextchar == [] {
        var r := Advance(argv, longopts, cfg);
        match r {
          case Finished => return -1, None;
          case Argument(arg) =>
            optarg := Some(arg);
            return 1, None;
          case Element =>
        }
      }
      code, index := DecodeNext(argv, options, longopts, longOnly, cfg);
    }
  }

  lemma StepIgnoresLater(cfg: Config, elem: string, pos: string, next: Option<string>)
    requires |elem| >= 2 && pos != []
    ensures Step(cfg, elem, pos, next) == Step(cfg.(later := cfg.optstring), elem, pos, next)
  {
  }

  lemma StrippedNoLongW(optstring: string)
    requires NoLongW(optstring)
    ensures NoLongW(Stripped(optstring))
  {
  }

  lemma FreshView(s: seq<string>, ord: Ordering, cfg: Config)
    requires 1 <= |s|
    ensures View(s, 1, 1, 1, [], ord, cfg) == Parse(ord, cfg, s[1..])
  {
  }

  /** Decoding one option changes a scan in progress by that option's event. */
  lemma {:induction false} ViewStep(s: seq<string>, first: nat, last: nat, optind: nat, nextchar: string,
                                     ord: Ordering, cfg: Config)
    requires 1 <= first <= last <= optind < |s| && |s[optind]| >= 2 && nextchar != []
    ensures var o := Step(cfg, s[optind], nextchar, if optind + 1 < |s| then Some(s[optind + 1]) else None);
            && optind + o.used <= |s|
            && var now := View(s, first, last, optind + o.used, o.rest, ord, cfg.Next());
               View(s, first, last, optind, nextchar, ord, cfg) == now.(events := [o.ev] + now.events)
  {
    hide Step, Parse, ParseFrom;
    var args := s[optind..];
    var o := Step(cfg, s[optind], nextchar, NextOf(args));
    StepConsumes(ord, cfg, nextchar, args);
    if o.rest == [] {
      assert args[o.used..] == s[optind + o.used..];
      var q := Parse(ord, cfg.Next(), args[o.used..]);
      assert s[1..first] + s[last..optind] + (args[..o.used] + q.opts)
             == s[1..first] + s[last..optind + o.used] + q.opts;
    }
  }

  // ------------------------------------------------------------- a run of calls

  /** Calls getopt until it returns -1, as its callers do: for the first scan of a
      program, or for another one after setting optind to 0. */
  method ScanAll(sc: Scanner, argv: array<string>, optstring: string, longopts: Option<seq<LongOption>>,
                 longOnly: bool, posixly: bool)
      returns (events: seq<Event>)
    requires sc.optind == 0 || (sc.optind == 1 && !sc.initialized)
    requires 1 <= argv.Length && NoLongW(optstring) && ValuesOk(longopts)
    modifies sc, argv
    ensures var p := Parse(OrderingOf(optstring, posixly), Config(Stripped(optstring), optstring, longopts, longOnly),
                           old(argv[..][1..]));
            && |events| == |p.events| && (forall i :: 0 <= i < |events| ==> events[i] == p.events[i].(opt := None))
            && argv[0] == old(argv[0])
            && argv[..][1..] == p.opts + p.rest
            && sc.optind == 1 + |p.opts|
  {
    hide View, Parse, NoLongW, ValuesOk;
    ghost var p := sc.Scan(argv, sc.Ord(optstring, posixly), sc.Cfg(optstring, longopts, longOnly));
    ghost var left := p;
    events := [];
    while true
      invariant sc.Valid(argv)
      invariant left == sc.Scan(argv, sc.Ord(optstring, posixly), sc.Cfg(optstring, longopts, longOnly))
      invariant argv[0] == old(argv[0])
      invariant left.opts == p.opts && left.rest == p.rest
      invariant |events| <= |p.events| && left.events == p.events[|events|..]
      invariant forall i :: 0 <= i < |events| ==> events[i] == p.events[i].(opt := None)
      decreases |left.events|
    {
      var code, index := sc.Getopt(argv, optstring, longopts, longOnly, posixly);
      if code == -1 {
        break;
      }
      events := events + [Event(code, sc.optarg, index, None)];
      left := sc.Scan(argv, sc.Ord(optstring, posixly), sc.Cfg(optstring, longopts, longOnly));
    }
  }
}
