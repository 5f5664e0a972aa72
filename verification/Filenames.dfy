/** Specification of the file name functions of lib-src/ootags.c: names as lists
    of components, and canonicalisation as a stack machine. */
module FilenameSpec {
  const NUL: char := '\0'

  /** Strings that are empty or start with a slash: a rooted tail of a name. */
  predicate Rooted(s: string) {
    s == "" || s[0] == '/'
  }

  predicate NoSlash(s: string) {
    '/' !in s
  }

  /** The number of characters before the first slash. */
  function ToSlash(s: string): (n: nat)
    ensures n <= |s| && NoSlash(s[..n]) && (n < |s| ==> s[n] == '/')
  {
    if s == "" || s[0] == '/' then 0 else 1 + ToSlash(s[1..])
  }

  /** The components of a rooted string, each without the slash before it. */
  function Components(s: string): (cs: seq<string>)
    requires Rooted(s)
    ensures forall k :: 0 <= k < |cs| ==> NoSlash(cs[k])
  {
    if s == "" then [] else
    var n := ToSlash(s[1..]);
    [s[1..][..n]] + Components(s[1..][n..])
  }

  function Render(cs: seq<string>): (s: string)
    ensures Rooted(s) && (cs != [] ==> s != "")
  {
    if cs == [] then "" else "/" + cs[0] + Render(cs[1..])
  }

  predicate IsDots(c: string) {
    c == "." || c == ".."
  }

  /** The stack machine: "." does nothing, ".." pops, and pops nothing at the root. */
  function Resolve(stack: seq<string>, cs: seq<string>): seq<string>
    decreases |cs|
  {
    if cs == [] then stack
    else if cs[0] == "." then Resolve(stack, cs[1..])
    else if cs[0] == ".." then Resolve(if stack == [] then [] else stack[..|stack| - 1], cs[1..])
    else Resolve(stack + [cs[0]], cs[1..])
  }

  /** The canonical form of a name.  What comes before the first slash, nothing if
      the name is absolute, is not looked at. */
  function Canonical(s: string): string {
    var n := ToSlash(s);
    var r := s[..n] + Render(Resolve([], Components(s[n..])));
    if r == "" then "/" else r
  }

  /** file itself if it is absolute, otherwise file in dir. */
  function Full(file: string, dir: string): string {
    if file != "" && file[0] == '/' then file else dir + file
  }

  function AbsoluteName(file: string, dir: string): string {
    Canonical(Full(file, dir))
  }

  // -------------------------------------------------- components and strings

  lemma {:induction false} ToSlashIs(a: string, s: string)
    requires NoSlash(a) && Rooted(s)
    ensures ToSlash(a + s) == |a|
  {
    if a == "" {
      assert a + s == s;
    } else {
      ToSlashIs(a[1..], s);
      assert (a + s)[1..] == a[1..] + s;
    }
  }

  lemma {:induction false} ComponentsStep(c: string, s: string)
    requires NoSlash(c) && Rooted(s)
    ensures Rooted("/" + c + s) && Components("/" + c + s) == [c] + Components(s)
  {
    var t := "/" + c + s;
    assert t[1..] == c + s;
    ToSlashIs(c, s);
    assert (c + s)[..|c|] == c && (c + s)[|c|..] == s;
  }

  lemma {:induction false} ComponentsOfRender(cs: seq<string>)
    requires forall k :: 0 <= k < |cs| ==> NoSlash(cs[k])
    ensures Components(Render(cs)) == cs
  {
    if cs != [] {
      ComponentsOfRender(cs[1..]);
      ComponentsStep(cs[0], Render(cs[1..]));
    }
  }

  /** A rooted string, taken apart behind its first component. */
  lemma FirstComponent(s: string) returns (c: string, rest: string)
    requires Rooted(s) && s != ""
    ensures s == "/" + c + rest && NoSlash(c) && Rooted(rest)
    ensures Components(s) == [c] + Components(rest)
  {
    var n := ToSlash(s[1..]);
    c, rest := s[1..][..n], s[1..][n..];
  }

  lemma {:induction false} RenderOfComponents(s: string)
    requires Rooted(s)
    ensures Render(Components(s)) == s
    decreases |s|
  {
    if s != "" {
      hide Components;
      var c, rest := FirstComponent(s);
      RenderOfComponents(rest);
      assert ([c] + Components(rest))[1..] == Components(rest);
    }
  }

  lemma {:induction false} RenderConcat(a: seq<string>, b: seq<string>)
    ensures Render(a + b) == Render(a) + Render(b)
  {
    if a == [] {
      assert a + b == b;
    } else {
      RenderConcat(a[1..], b);
      assert (a + b)[1..] == a[1..] + b && (a + b)[0] == a[0];
      assert "/" + a[0] + (Render(a[1..]) + Render(b)) == "/" + a[0] + Render(a[1..]) + Render(b);
    }
  }

  lemma {:induction false} ComponentsConcat(a: string, b: string)
    requires Rooted(a) && Rooted(b)
    ensures Rooted(a + b) && Components(a + b) == Components(a) + Components(b)
  {
    RenderOfComponents(a);
    RenderOfComponents(b);
    RenderConcat(Components(a), Components(b));
    ComponentsOfRender(Components(a) + Components(b));
  }

  // ------------------------------------------------------------- the machine

  lemma {:induction false} ResolveConcat(stack: seq<string>, a: seq<string>, b: seq<string>)
    ensures Resolve(stack, a + b) == Resolve(Resolve(stack, a), b)
    decreases |a|
  {
    if a == [] {
      assert a + b == b;
    } else {
      assert (a + b)[1..] == a[1..] + b;
      if a[0] == "." {
        ResolveConcat(stack, a[1..], b);
      } else if a[0] == ".." {
        ResolveConcat(if stack == [] then [] else stack[..|stack| - 1], a[1..], b);
      } else {
        ResolveConcat(stack + [a[0]], a[1..], b);
      }
    }
  }

  ghost predicate NoDots(cs: seq<string>) {
    forall k :: 0 <= k < |cs| ==> !IsDots(cs[k]) && NoSlash(cs[k])
  }

  lemma {:induction false} ResolveDropsDots(stack: seq<string>, cs: seq<string>)
    requires NoDots(stack) && forall k :: 0 <= k < |cs| ==> NoSlash(cs[k])
    ensures NoDots(Resolve(stack, cs))
    decreases |cs|
  {
    if cs != [] {
      if cs[0] == "." {
        ResolveDropsDots(stack, cs[1..]);
      } else if cs[0] == ".." {
        ResolveDropsDots(if stack == [] then [] else stack[..|stack| - 1], cs[1..]);
      } else {
        ResolveDropsDots(stack + [cs[0]], cs[1..]);
      }
    }
  }

  lemma {:induction false} ResolvePushes(stack: seq<string>, cs: seq<string>)
    requires NoDots(cs)
    ensures Resolve(stack, cs) == stack + cs
    decreases |cs|
  {
    if cs == [] {
      assert stack + cs == stack;
    } else {
      ResolvePushes(stack + [cs[0]], cs[1..]);
      assert stack + [cs[0]] + cs[1..] == stack + cs;
    }
  }

  function Ups(n: nat): (cs: seq<string>)
    ensures |cs| == n
  {
    if n == 0 then [] else [".."] + Ups(n - 1)
  }

  lemma {:induction false} ResolvePops(stack: seq<string>, n: nat)
    requires n <= |stack|
    ensures Resolve(stack, Ups(n)) == stack[..|stack| - n]
  {
    if n > 0 {
      ResolvePops(stack[..|stack| - 1], n - 1);
      assert stack[..|stack| - 1][..|stack| - n] == stack[..|stack| - n];
    }
  }

  // --------------------------------------------------- properties of Canonical

  /** A canonical name: what Canonical leaves, with no "." or ".." behind a slash. */
  lemma {:induction false} CanonicalShape(s: string)
    ensures var r := Canonical(s); var n := ToSlash(r);
            && r != "" && n == (if r == "/" then 0 else ToSlash(s)) && r[..n] == s[..n]
            && NoDots(Components(r[n..]))
            && (s != "" && s[0] == '/' ==> r[0] == '/')
  {
    var n := ToSlash(s);
    var stack := Resolve([], Components(s[n..]));
    ResolveDropsDots([], Components(s[n..]));
    ComponentsOfRender(stack);
    ToSlashIs(s[..n], Render(stack));
    var t := s[..n] + Render(stack);
    assert t[..n] == s[..n] && t[n..] == Render(stack);
    if t == "" {
      assert "/" == "/" + "" + "";
      ComponentsStep("", "");
    }
  }

  /** Canonicalising twice is the same as once. */
  lemma {:induction false} CanonicalIdempotent(s: string)
    ensures Canonical(Canonical(s)) == Canonical(s)
  {
    var r := Canonical(s);
    CanonicalShape(s);
    NoDotsIsCanonical(r);
  }

  lemma {:induction false} NoDotsIsCanonical(r: string)
    requires r != "" && NoDots(Components(r[ToSlash(r)..]))
    ensures Canonical(r) == r
  {
    hide Components, Resolve, Render, ToSlash;
    var n := ToSlash(r);
    ResolvePushes([], Components(r[n..]));
    assert [] + Components(r[n..]) == Components(r[n..]);
    RenderOfComponents(r[n..]);
    assert r[..n] + r[n..] == r;
  }

  function Size(cs: seq<string>): nat {
    |Render(cs)|
  }

  lemma {:induction false} ResolveShrinks(stack: seq<string>, cs: seq<string>)
    ensures Size(Resolve(stack, cs)) <= Size(stack) + Size(cs)
    decreases |cs|
  {
    if cs != [] {
      if cs[0] == "." {
        ResolveShrinks(stack, cs[1..]);
      } else if cs[0] == ".." {
        var popped := if stack == [] then [] else stack[..|stack| - 1];
        ResolveShrinks(popped, cs[1..]);
        if stack != [] {
          assert stack == popped + stack[|stack| - 1..];
          RenderConcat(popped, stack[|stack| - 1..]);
        }
      } else {
        ResolveShrinks(stack + [cs[0]], cs[1..]);
        RenderConcat(stack, [cs[0]]);
        assert Render([cs[0]]) == "/" + cs[0] + Render([]);
      }
    }
  }

  /** Only the empty name becomes longer. */
  lemma {:induction false} CanonicalNoLonger(s: string)
    requires s != ""
    ensures |Canonical(s)| <= |s|
  {
    var n := ToSlash(s);
    ResolveShrinks([], Components(s[n..]));
    RenderOfComponents(s[n..]);
  }

  // ------------------------------------------------- canonical names, by rewriting

  lemma CanonicalOf(prefix: string, s: string)
    requires NoSlash(prefix) && Rooted(s)
    ensures Canonical(prefix + s) == var r := prefix + Render(Resolve([], Components(s))); if r == "" then "/" else r
  {
    hide ToSlash, Components, Resolve, Render;
    ToSlashIs(prefix, s);
    assert (prefix + s)[..|prefix|] == prefix && (prefix + s)[|prefix|..] == s;
  }

  /** "/." can be deleted anywhere. */
  lemma DotIsDeleted(prefix: string, a: string, b: string)
    requires NoSlash(prefix) && Rooted(a) && Rooted(b)
    ensures Canonical(prefix + (a + ("/." + b))) == Canonical(prefix + (a + b))
  {
    hide Canonical, Components, Resolve, Render;
    ComponentsStep(".", b);
    assert "/" + "." + b == "/." + b;
    ComponentsConcat(a, "/." + b);
    ComponentsConcat(a, b);
    var cs, ds := Components(a), Components(b);
    ResolveConcat([], cs, ["."] + ds);
    ResolveConcat([], cs, ds);
    ResolveFirst(Resolve([], cs), ".", ds);
    CanonicalOf(prefix, a + ("/." + b));
    CanonicalOf(prefix, a + b);
  }

  /** So can "/name/..". */
  lemma UpIsDeleted(prefix: string, a: string, c: string, b: string)
    requires NoSlash(prefix) && Rooted(a) && Rooted(b) && NoSlash(c) && c != "." && c != ".."
    ensures Canonical(prefix + (a + ("/" + c + ("/.." + b)))) == Canonical(prefix + (a + b))
  {
    hide Canonical, Components, Resolve, Render;
    ComponentsStep("..", b);
    assert "/" + ".." + b == "/.." + b;
    ComponentsStep(c, "/.." + b);
    ComponentsConcat(a, "/" + c + ("/.." + b));
    ComponentsConcat(a, b);
    var cs, ds := Components(a), Components(b);
    var stack := Resolve([], cs);
    ResolveConcat([], cs, [c] + ([".."] + ds));
    ResolveConcat([], cs, ds);
    ResolveFirst(stack, c, [".."] + ds);
    ResolveFirst(stack + [c], "..", ds);
    assert (stack + [c])[..|stack|] == stack;
    CanonicalOf(prefix, a + ("/" + c + ("/.." + b)));
    CanonicalOf(prefix, a + b);
  }

  /** And "/.." right behind the beginning. */
  lemma UpAtRootIsDeleted(prefix: string, b: string)
    requires NoSlash(prefix) && Rooted(b)
    ensures Canonical(prefix + ("/.." + b)) == Canonical(prefix + b)
  {
    hide Canonical, Components, Resolve, Render;
    ComponentsStep("..", b);
    assert "/" + ".." + b == "/.." + b;
    ResolveFirst([], "..", Components(b));
    CanonicalOf(prefix, "/.." + b);
    CanonicalOf(prefix, b);
  }

  lemma ResolveFirst(stack: seq<string>, c: string, cs: seq<string>)
    ensures Resolve(stack, [c] + cs) ==
      if c == "." then Resolve(stack, cs)
      else if c == ".." then Resolve(if stack == [] then [] else stack[..|stack| - 1], cs)
      else Resolve(stack + [c], cs)
  {
    assert ([c] + cs)[1..] == cs;
  }

  /** What has neither is canonical, but for the empty name. */
  lemma NoDotsLeft(prefix: string, s: string)
    requires NoSlash(prefix) && Rooted(s) && forall k :: 0 <= k < |Components(s)| ==> Components(s)[k] !in {".", ".."}
    ensures Canonical(prefix + s) == if prefix + s == "" then "/" else prefix + s
  {
    hide Components, Resolve, Render;
    CanonicalOf(prefix, s);
    ResolvePushes([], Components(s));
    assert [] + Components(s) == Components(s);
    RenderOfComponents(s);
  }

  /** A name that starts with a slash is absolute; any other one is in dir. */
  lemma NamesAreTaken(file: string, dir: string)
    ensures AbsoluteName("/" + file, dir) == Canonical("/" + file)
    ensures file == "" || file[0] != '/' ==> AbsoluteName(file, dir) == Canonical(dir + file)
  {
  }

  // ------------------------------------------------------------ relative names

  function CountSlashes(s: string): nat {
    if s == "" then 0 else (if s[0] == '/' then 1 else 0) + CountSlashes(s[1..])
  }

  function UpText(n: nat): string {
    if n == 0 then "" else "../" + UpText(n - 1)
  }

  /** A canonical directory name, absolute and with a slash at the end. */
  predicate IsDirectory(dir: string) {
    dir != "" && dir[0] == '/' && dir[|dir| - 1] == '/' && Canonical(dir) == dir
  }

  /** How far two names agree. */
  function CommonLength(a: string, b: string): (n: nat)
    ensures n <= |a| && n <= |b| && a[..n] == b[..n]
    ensures n < |a| && n < |b| ==> a[n] != b[n]
  {
    if a == "" || b == "" || a[0] != b[0] then 0 else 1 + CommonLength(a[1..], b[1..])
  }

  /** The last slash in the part that the two names share is at position j. */
  predicate LastCommonSlash(afn: string, dir: string, j: nat) {
    var d := CommonLength(afn, dir);
    j < d && afn[j] == '/' && NoSlash(afn[j + 1..d])
  }

  /** afn relative to dir, given their last common slash. */
  function Relative(afn: string, dir: string, j: nat): string
    requires j < |afn| && j < |dir|
  {
    UpText(CountSlashes(dir[j + 1..])) + afn[j + 1..]
  }

  lemma {:induction false} CountSlashesConcat(a: string, b: string)
    ensures CountSlashes(a + b) == CountSlashes(a) + CountSlashes(b)
  {
    if a == "" {
      assert a + b == b;
    } else {
      CountSlashesConcat(a[1..], b);
      assert (a + b)[1..] == a[1..] + b;
    }
  }

  lemma {:induction false} NoSlashCount(c: string)
    requires NoSlash(c)
    ensures CountSlashes(c) == 0
  {
    if c != "" {
      NoSlashCount(c[1..]);
    }
  }

  lemma CountSlashesCons(c: char, s: string)
    ensures CountSlashes([c] + s) == (if c == '/' then 1 else 0) + CountSlashes(s)
  {
    assert ([c] + s)[1..] == s;
  }

  lemma NothingToCount()
    ensures Rooted("") && CountSlashes("") == 0 && Components("") == []
  {
  }

  lemma {:induction false} CountIsComponents(s: string)
    requires Rooted(s)
    ensures CountSlashes(s) == |Components(s)|
    decreases |s|
  {
    hide Components, CountSlashes, NoSlash, Rooted;
    if s == "" {
      NothingToCount();
    } else {
      var c, rest := FirstComponent(s);
      CountIsComponents(rest);
      NoSlashCount(c);
      CountSlashesConcat(c, rest);
      assert s == ['/'] + (c + rest);
      CountSlashesCons('/', c + rest);
    }
  }

  lemma {:induction false} ComponentsOfUps(n: nat, y: string)
    ensures Components("/" + UpText(n) + y) == Ups(n) + Components("/" + y)
  {
    hide Components;
    if n == 0 {
      assert "/" + UpText(n) + y == "/" + y;
    } else {
      var t := "/" + UpText(n - 1) + y;
      ComponentsOfUps(n - 1, y);
      assert "/" + UpText(n) + y == "/" + ".." + t;
      ComponentsStep("..", t);
    }
  }

  lemma ComponentsOfSlash()
    ensures Components("/") == [""]
  {
    assert "/" == "/" + "" + "";
    ComponentsStep("", "");
  }

  /** A tail of a directory name: its components and an empty one behind them. */
  lemma {:induction false} ComponentsOfTail(x: string, y: string)
    requires x == "" || x[|x| - 1] == '/'
    ensures |Components("/" + x)| == CountSlashes(x) + 1
    ensures Components("/" + x + y) == Components("/" + x)[..CountSlashes(x)] + Components("/" + y)
  {
    hide Components, CountSlashes;
    var t := "/" + x;
    var front := t[..|t| - 1];
    CountIsComponents(t);
    CountSlashesCons('/', x);
    assert Rooted(front);
    assert t == front + "/" && t + y == front + ("/" + y);
    ComponentsConcat(front, "/");
    ComponentsConcat(front, "/" + y);
    ComponentsOfSlash();
    assert (Components(front) + [""])[..|Components(front)|] == Components(front);
  }

  lemma {:induction false} NoDotsOfAbsolute(s: string)
    requires s != "" && s[0] == '/' && Canonical(s) == s
    ensures NoDots(Components(s))
  {
    CanonicalShape(s);
    assert s[ToSlash(s)..] == s;
  }

  lemma CanonicalAbsolute(s: string)
    requires s != "" && s[0] == '/'
    ensures var r := Render(Resolve([], Components(s))); Canonical(s) == if r == "" then "/" else r
  {
    assert s[0..] == s && s[..0] == "";
    var r := Render(Resolve([], Components(s)));
    assert "" + r == r;
  }

  /** Going up out of the part of dir behind the common slash, and down again. */
  lemma {:induction false} UpAndDown(root: string, x: string, y: string)
    requires Rooted(root) && (x == "" || x[|x| - 1] == '/')
    requires NoDots(Components(root + ("/" + x))) && NoDots(Components(root + ("/" + y)))
    ensures Canonical(root + ("/" + x + (UpText(CountSlashes(x)) + y))) == root + ("/" + y)
  {
    hide Components, Render, Resolve, Canonical, CountSlashes, UpText;
    var n := CountSlashes(x);
    var up := UpText(n) + y;
    var cs, ys := Components(root), Components("/" + y);
    ComponentsOfTail(x, up);
    var xs := Components("/" + x)[..n];
    assert Components("/" + x) == xs + Components("/" + x)[n..];
    ComponentsOfUps(n, y);
    assert "/" + up == "/" + UpText(n) + y;
    ComponentsConcat(root, "/" + x);
    ComponentsConcat(root, "/" + y);
    ComponentsConcat(root, "/" + x + up);
    NoDotsPart(cs, xs, Components("/" + x)[n..]);
    UpsCancel(cs, xs, ys);
    RenderOfComponents(root + ("/" + y));
    CanonicalAbsolute(root + ("/" + x + up));
  }

  lemma NoDotsPart(a: seq<string>, b: seq<string>, c: seq<string>)
    requires NoDots(a + (b + c))
    ensures NoDots(a + b)
  {
    assert forall k :: 0 <= k < |a + b| ==> (a + b)[k] == (a + (b + c))[k];
  }

  lemma {:induction false} UpsCancel(cs: seq<string>, xs: seq<string>, ys: seq<string>)
    requires NoDots(cs + xs) && NoDots(cs + ys)
    ensures Resolve([], cs + (xs + (Ups(|xs|) + ys))) == cs + ys
  {
    hide Resolve, Ups;
    assert cs + (xs + (Ups(|xs|) + ys)) == (cs + xs) + (Ups(|xs|) + ys);
    ResolveConcat([], cs + xs, Ups(|xs|) + ys);
    ResolvePushes([], cs + xs);
    assert [] + (cs + xs) == cs + xs;
    ResolveConcat(cs + xs, Ups(|xs|), ys);
    ResolvePops(cs + xs, |xs|);
    assert (cs + xs)[..|cs|] == cs;
    assert forall k :: 0 <= k < |ys| ==> ys[k] == (cs + ys)[|cs| + k];
    ResolvePushes(cs, ys);
  }

  /** Taking a relative name back to an absolute one gives the name it was made
      from, unless that is an empty component right behind the directory: then the
      relative name looks absolute. */
  lemma {:induction false} RelativeInverts(afn: string, dir: string, j: nat)
    requires IsDirectory(dir) && afn != "" && afn[0] == '/' && Canonical(afn) == afn
    requires afn != dir && LastCommonSlash(afn, dir, j)
    ensures AbsoluteName(Relative(afn, dir, j), dir) == afn <==> !(dir + "/" <= afn)
  {
    hide Components, Canonical, CountSlashes, UpText, NoDots, LastCommonSlash, Rooted, AbsoluteName, Relative;
    SplitAtSlash(afn, dir, j);
    EmptyComponentNext(afn, dir, j);
    var root, x, y := dir[..j], dir[j + 1..], afn[j + 1..];
    assert j + 1 < |afn| ==> y[0] == afn[j + 1];
    TakenRelative(afn, dir, j);
    if x == "" && y != "" && y[0] == '/' {
      CanonicalNoLonger(y);
      assert |y| < |afn|;
    } else {
      RelativeGoesUp(afn, dir, root, x, y);
    }
  }

  /** The relative name, taken in dir: only with an empty component first, and no way
      up, does it look absolute. */
  lemma TakenRelative(afn: string, dir: string, j: nat)
    requires j < |afn| && j < |dir| && (dir[j + 1..] == "" || dir[|dir| - 1] == '/')
    ensures var x, y := dir[j + 1..], afn[j + 1..];
            AbsoluteName(Relative(afn, dir, j), dir)
            == Canonical(if x == "" && y != "" && y[0] == '/' then y else dir + (UpText(CountSlashes(x)) + y))
  {
    hide Canonical, CountSlashes, UpText;
    LooksAbsolute(dir[j + 1..], afn[j + 1..]);
  }

  /** Such a name: "//b" relative to "/" is "/b", which is another file. */
  lemma RelativeLooksAbsolute()
    ensures IsDirectory("/") && Canonical("//b") == "//b" && LastCommonSlash("//b", "/", 0)
    ensures AbsoluteName(Relative("//b", "/", 0), "/") == "/b"
  {
    ComponentsStep("b", "");
    ComponentsStep("", "/b");
    ComponentsOfSlash();
    assert "/" + "b" + "" == "/b" && "/" + "" + "/b" == "//b";
    assert Components("") == [];
    CanonicalIsSame("/", [""]);
    CanonicalIsSame("/b", ["b"]);
    CanonicalIsSame("//b", ["", "b"]);
    CommonIs("//b", "/", 1);
    assert Relative("//b", "/", 0) == UpText(CountSlashes("")) + "/b" == "/b";
  }

  lemma CanonicalIsSame(r: string, cs: seq<string>)
    requires Rooted(r) && r != "" && Components(r) == cs && NoDots(cs)
    ensures Canonical(r) == r
  {
    assert ToSlash(r) == 0 && r[0..] == r;
    NoDotsIsCanonical(r);
  }

  lemma {:induction false} RelativeGoesUp(afn: string, dir: string, root: string, x: string, y: string)
    requires dir != "" && dir[0] == '/' && Canonical(dir) == dir && dir == root + ("/" + x)
    requires afn != "" && afn[0] == '/' && Canonical(afn) == afn && afn == root + ("/" + y)
    requires Rooted(root) && (x == "" || x[|x| - 1] == '/')
    ensures Canonical(dir + (UpText(CountSlashes(x)) + y)) == afn
  {
    hide Components, Canonical, CountSlashes, UpText, NoDots;
    NoDotsOfAbsolute(dir);
    NoDotsOfAbsolute(afn);
    UpAndDown(root, x, y);
    var rel := UpText(CountSlashes(x)) + y;
    assert dir + rel == root + ("/" + x + rel);
  }

  /** Names that agree up to position d, and no further, agree on d characters. */
  lemma CommonIs(a: string, b: string, d: nat)
    requires d <= |a| && d <= |b| && a[..d] == b[..d] && (d == |a| || d == |b| || a[d] != b[d])
    ensures CommonLength(a, b) == d
  {
    var n := CommonLength(a, b);
    assert forall i :: 0 <= i < d ==> a[i] == a[..d][i] == b[..d][i] == b[i];
    assert forall i :: 0 <= i < n ==> a[i] == a[..n][i] == b[..n][i] == b[i];
  }

  lemma SplitAtSlash(afn: string, dir: string, j: nat)
    requires dir != "" && dir[0] == '/' && dir[|dir| - 1] == '/' && LastCommonSlash(afn, dir, j)
    ensures j < |dir| && j < |afn|
    ensures var root, x, y := dir[..j], dir[j + 1..], afn[j + 1..];
            && dir == root + ("/" + x) && afn == root + ("/" + y) && Rooted(root)
            && (x == "" || x[|x| - 1] == '/')
  {
    hide CommonLength;
    var d := CommonLength(afn, dir);
    assert afn[..j] == afn[..d][..j] && dir[..j] == dir[..d][..j];
    assert afn[j] == afn[..d][j] && dir[j] == dir[..d][j];
  }

  /** dir is followed by an empty component exactly if the common part is dir and
      a slash comes next. */
  lemma EmptyComponentNext(afn: string, dir: string, j: nat)
    requires dir != "" && dir[|dir| - 1] == '/' && LastCommonSlash(afn, dir, j)
    ensures dir + "/" <= afn <==> dir[j + 1..] == "" && j + 1 < |afn| && afn[j + 1] == '/'
  {
    hide CommonLength;
    var d := CommonLength(afn, dir);
    if dir + "/" <= afn {
      assert dir == (dir + "/")[..|dir|] == afn[..|dir|];
      CommonIs(afn, dir, |dir|);
      assert afn[|dir|] == (dir + "/")[|dir|];
      NoSlashBetween(afn, j + 1, d);
      assert afn[d - 1] == afn[..d][d - 1];
    } else if dir[j + 1..] == "" {
      assert afn[..|dir|] == dir;
    }
  }

  lemma NoSlashBetween(s: string, lo: nat, hi: nat)
    requires lo <= hi <= |s| && NoSlash(s[lo..hi])
    ensures forall k :: lo <= k < hi ==> s[k] != '/'
  {
    assert forall k :: lo <= k < hi ==> s[k] == s[lo..hi][k - lo];
  }

  /** The relative name starts with a slash exactly if it starts with an empty
      component and does not go up. */
  lemma LooksAbsolute(x: string, y: string)
    requires x == "" || x[|x| - 1] == '/'
    ensures CountSlashes(x) == 0 <==> x == ""
    ensures var rel := UpText(CountSlashes(x)) + y;
            (rel != "" && rel[0] == '/' <==> CountSlashes(x) == 0 && y != "" && y[0] == '/')
            && (CountSlashes(x) == 0 ==> rel == y)
  {
    if CountSlashes(x) == 0 {
      NoSlashBehind(x);
    }
  }

  lemma {:induction false} NoSlashBehind(x: string)
    requires CountSlashes(x) == 0
    ensures NoSlash(x)
  {
    if x != "" {
      NoSlashBehind(x[1..]);
    }
  }
}

/** absolute_filename and relative_filename of lib-src/ootags.c, working on
    NUL-terminated strings; absolute_filename rewrites its result in place. */
module Filenames {
  import opened FilenameSpec

  /** buf holds the string s, with a NUL behind it. */
  ghost predicate Holds(buf: array<char>, s: string)
    reads buf
  {
    |s| < buf.Length && buf[..|s|] == s && buf[|s|] == NUL && NUL !in s
  }

  lemma HeldAt(buf: array<char>, s: string, k: nat)
    requires Holds(buf, s) && k <= |s|
    ensures |s| < buf.Length && buf[k] == At(s, k) && (buf[k] == NUL <==> k == |s|)
  {
    assert k < |s| ==> buf[..|s|][k] == buf[k];
  }

  lemma HeldWhole(buf: array<char>, s: string)
    requires |s| < buf.Length && NUL !in s && buf[|s|] == NUL
    requires forall k :: 0 <= k < |s| ==> buf[k] == s[k]
    ensures Holds(buf, s)
  {
    assert buf[..|s|] == s;
  }

  lemma HeldChars(buf: array<char>, s: string)
    requires Holds(buf, s)
    ensures |s| < buf.Length && NUL !in s && buf[|s|] == NUL && forall k :: 0 <= k < |s| ==> buf[k] == s[k]
  {
    assert forall k :: 0 <= k < |s| ==> buf[..|s|][k] == buf[k];
  }

  /** savestr */
  method SaveStr(s: string) returns (buf: array<char>)
    requires NUL !in s
    ensures fresh(buf) && Holds(buf, s)
  {
    buf := new char[|s| + 1];
    forall k | 0 <= k < |s| {
      buf[k] := s[k];
    }
    buf[|s|] := NUL;
    HeldWhole(buf, s);
  }

  /** strcpy within one buffer, to a lower address. */
  method StrCpyDown(buf: array<char>, dst: nat, src: nat, ghost s: string)
    requires Holds(buf, s) && dst < src <= |s|
    modifies buf
    ensures Holds(buf, s[..dst] + s[src..])
  {
    hide Holds;
    HeldChars(buf, s);
    var d, p := dst, src;
    while buf[p] != NUL
      invariant dst <= d && p - d == src - dst && p <= |s| < buf.Length
      invariant forall k :: 0 <= k < dst ==> buf[k] == s[k]
      invariant forall k :: dst <= k < d ==> buf[k] == s[k + (src - dst)]
      invariant forall k :: p <= k < |s| ==> buf[k] == s[k]
      invariant buf[|s|] == NUL
      decreases |s| - p
    {
      buf[d] := buf[p];
      d, p := d + 1, p + 1;
    }
    buf[d] := NUL;
    HeldWhole(buf, s[..dst] + s[src..]);
  }

  /** etags_strchr for a slash, from position p on; the length of the string if
      there is none. */
  method FindSlash(buf: array<char>, p: nat, ghost s: string) returns (q: nat)
    requires Holds(buf, s) && p <= |s|
    ensures q == p + ToSlash(s[p..])
  {
    hide Holds, ToSlash;
    HeldAt(buf, s, p);
    q := p;
    while buf[q] != NUL && buf[q] != '/'
      invariant p <= q <= |s| < buf.Length && ToSlash(s[p..]) == q - p + ToSlash(s[q..])
      invariant buf[q] == At(s, q) && (buf[q] == NUL <==> q == |s|)
      decreases |s| - q
    {
      ToSlashStep(s, q);
      q := q + 1;
      HeldAt(buf, s, q);
    }
    ToSlashStep(s, q);
  }

  lemma ToSlashStep(s: string, q: nat)
    requires q <= |s|
    ensures ToSlash(s[q..]) == if q == |s| || s[q] == '/' then 0 else 1 + ToSlash(s[q + 1..])
  {
    assert q < |s| ==> s[q..][1..] == s[q + 1..];
  }

  /** The slash before position p, or -1. */
  method SlashBefore(buf: array<char>, p: nat, ghost s: string) returns (cp: int)
    requires Holds(buf, s) && p <= |s|
    ensures -1 <= cp < p
    ensures NoSlash(s[cp + 1..p]) && (cp >= 0 ==> s[cp] == '/')
  {
    hide Holds, NoSlash;
    HeldAt(buf, s, p);
    cp := p - 1;
    if cp >= 0 {
      HeldAt(buf, s, cp);
    }
    while cp >= 0 && buf[cp] != '/'
      invariant -1 <= cp < p <= |s| < buf.Length
      invariant cp >= 0 ==> buf[cp] == s[cp]
      invariant forall k :: cp < k < p ==> s[k] != '/'
    {
      cp := cp - 1;
      if cp >= 0 {
        HeldAt(buf, s, cp);
      }
    }
    NoSlashIn(s, cp + 1, p);
  }

  lemma NoSlashIn(s: string, lo: nat, hi: nat)
    requires lo <= hi <= |s| && forall k :: lo <= k < hi ==> s[k] != '/'
    ensures NoSlash(s[lo..hi])
  {
  }

  function At(s: string, k: nat): char {
    if k < |s| then s[k] else NUL
  }

  /** What the characters behind a slash say about the component there. */
  lemma LookAhead(c: string, rest: string)
    requires NoSlash(c) && Rooted(rest) && NUL !in c
    ensures var t := "/" + c + rest;
            && (At(t, 1) == '.' && At(t, 2) == '.' && (At(t, 3) == '/' || At(t, 3) == NUL) <==> c == "..")
            && (At(t, 1) == '.' && (At(t, 2) == '/' || At(t, 2) == NUL) <==> c == ".")
  {
    var t := "/" + c + rest;
    assert forall k :: 0 <= k < |c| ==> t[k + 1] == c[k];
    assert At(t, |c| + 1) == if rest == "" then NUL else '/';
    assert |c| == 2 && c[0] == '.' && c[1] == '.' ==> c == "..";
    assert |c| == 1 && c[0] == '.' ==> c == ".";
  }

  /** The name s in the middle of its canonicalisation: prefix and stack are done
      with, todo is to come, and slashp is where todo starts. */
  ghost predicate Midway(s: string, prefix: string, stack: seq<string>, todo: seq<string>, slashp: nat) {
    && NoSlash(prefix)
    && (forall k :: 0 <= k < |stack| ==> NoSlash(stack[k]))
    && (forall k :: 0 <= k < |todo| ==> NoSlash(todo[k]))
    && s == prefix + Render(stack) + Render(todo)
    && slashp == |prefix + Render(stack)|
  }

  function Pop(stack: seq<string>): seq<string> {
    if stack == [] then [] else stack[..|stack| - 1]
  }

  lemma {:induction false} RenderPop(stack: seq<string>)
    requires stack != []
    ensures Render(stack) == Render(Pop(stack)) + ("/" + stack[|stack| - 1])
  {
    var last := stack[|stack| - 1];
    assert stack == Pop(stack) + [last];
    RenderConcat(Pop(stack), [last]);
    assert [last][1..] == [];
    assert Render([last]) == "/" + last + "";
  }

  /** The only slash that has none behind it. */
  lemma LastSlashIs(a: string, c: string, cp: int)
    requires NoSlash(c)
    requires var front := a + ("/" + c);
             -1 <= cp < |front| && NoSlash(front[cp + 1..]) && (cp >= 0 ==> front[cp] == '/')
    ensures cp == |a|
  {
    var front := a + ("/" + c);
    assert front[|a|] == '/';
    assert forall k :: |a| < k < |front| ==> front[k] == c[k - |a| - 1];
    assert forall k :: cp + 1 <= k < |front| ==> front[k] == front[cp + 1..][k - cp - 1];
  }

  lemma NoSlashAt(a: string, cp: int)
    requires NoSlash(a) && -1 <= cp < |a| && (cp >= 0 ==> a[cp] == '/')
    ensures cp == -1
  {
  }

  /** Deleting "/.." together with the component before it pops the stack. */
  lemma {:induction false} DeleteUp(s: string, prefix: string, stack: seq<string>, todo: seq<string>, slashp: nat,
                                    cp: int)
      returns (t: string, dst: nat)
    requires Midway(s, prefix, stack, todo, slashp) && todo != [] && todo[0] == ".." && slashp <= |s|
    requires -1 <= cp < slashp && NoSlash(s[cp + 1..slashp]) && (cp >= 0 ==> s[cp] == '/')
    ensures dst == (if cp < 0 then slashp else cp) && slashp + 3 <= |s| && t == s[..dst] + s[slashp + 3..]
    ensures Midway(t, prefix, Pop(stack), todo[1..], dst)
  {
    hide Render;
    dst := if cp < 0 then slashp else cp;
    var done := prefix + Render(stack);
    RenderCons(todo);
    assert s == done + ("/.." + Render(todo[1..]));
    t := s[..dst] + s[slashp + 3..];
    assert s[slashp + 3..] == Render(todo[1..]) && s[..slashp] == done;
    assert s[cp + 1..slashp] == done[cp + 1..];
    if stack != [] {
      RenderPop(stack);
      var a := prefix + Render(Pop(stack));
      assert done == a + ("/" + stack[|stack| - 1]);
      LastSlashIs(a, stack[|stack| - 1], cp);
      assert s[..dst] == a;
    } else {
      RenderNone();
      assert done == prefix;
      NoSlashAt(prefix, cp);
    }
  }

  lemma RenderCons(cs: seq<string>)
    requires cs != []
    ensures Render(cs) == "/" + cs[0] + Render(cs[1..])
  {
  }

  lemma RenderNone()
    ensures Render([]) == ""
  {
  }

  /** Deleting "/." leaves the stack alone. */
  lemma {:induction false} DeleteHere(s: string, prefix: string, stack: seq<string>, todo: seq<string>, slashp: nat)
    requires Midway(s, prefix, stack, todo, slashp) && todo != [] && todo[0] == "."
    ensures slashp + 2 <= |s| && Midway(s[..slashp] + s[slashp + 2..], prefix, stack, todo[1..], slashp)
  {
    hide Render;
    var done := prefix + Render(stack);
    RenderCons(todo);
    assert s == done + ("/." + Render(todo[1..]));
    assert s[slashp + 2..] == Render(todo[1..]) && s[..slashp] == done;
  }

  /** Going on to the next slash pushes the component before it. */
  lemma {:induction false} PassOver(s: string, prefix: string, stack: seq<string>, todo: seq<string>, slashp: nat)
    requires Midway(s, prefix, stack, todo, slashp) && todo != []
    ensures slashp + 1 <= |s|
    ensures Midway(s, prefix, stack + [todo[0]], todo[1..], slashp + 1 + ToSlash(s[slashp + 1..]))
  {
    hide Render, ToSlash;
    var done := prefix + Render(stack);
    RenderCons(todo);
    RenderCons([todo[0]]);
    RenderNone();
    RenderConcat(stack, [todo[0]]);
    assert [todo[0]][1..] == [];
    assert Render([todo[0]]) == "/" + todo[0];
    assert s[slashp + 1..] == todo[0] + Render(todo[1..]);
    ToSlashIs(todo[0], Render(todo[1..]));
  }

  /** The component at slashp is what the next characters say. */
  lemma {:induction false} NextComponent(s: string, prefix: string, stack: seq<string>, todo: seq<string>, slashp: nat)
    requires Midway(s, prefix, stack, todo, slashp) && NUL !in s
    ensures slashp <= |s| && (slashp == |s| <==> todo == [])
    ensures todo != [] ==>
      && (At(s, slashp + 1) == '.' && At(s, slashp + 2) == '.' && (At(s, slashp + 3) == '/' || At(s, slashp + 3) == NUL)
          <==> todo[0] == "..")
      && (At(s, slashp + 1) == '.' && (At(s, slashp + 2) == '/' || At(s, slashp + 2) == NUL) <==> todo[0] == ".")
  {
    hide Render;
    if todo == [] {
      RenderNone();
    } else {
      var c, rest := todo[0], Render(todo[1..]);
      RenderCons(todo);
      var t := "/" + c + rest;
      assert s == prefix + Render(stack) + t;
      assert forall k: nat :: At(s, slashp + k) == At(t, k);
      assert forall k :: 0 <= k < |c| ==> c[k] == s[slashp + 1 + k];
      LookAhead(c, rest);
    }
  }

  datatype Dots = Neither | Here | Up

  /** The tests behind a slash: for "..", then for "." as the component there. */
  method LookBehind(res: array<char>, slashp: nat, ghost s: string) returns (dots: Dots)
    requires Holds(res, s) && slashp < |s|
    ensures dots == if At(s, slashp + 1) != '.' then Neither
                    else if At(s, slashp + 2) == '.' && (At(s, slashp + 3) == '/' || At(s, slashp + 3) == NUL) then Up
                    else if At(s, slashp + 2) == '/' || At(s, slashp + 2) == NUL then Here
                    else Neither
  {
    hide Holds;
    dots := Neither;
    HeldAt(res, s, slashp + 1);
    if res[slashp + 1] == '.' {
      HeldAt(res, s, slashp + 2);
      if res[slashp + 2] == '.' {
        HeldAt(res, s, slashp + 3);
        dots := if res[slashp + 3] == '/' || res[slashp + 3] == NUL then Up else Neither;
      } else if res[slashp + 2] == '/' || res[slashp + 2] == NUL {
        dots := Here;
      }
    }
  }

  /** Deletes "/name/.." in the buffer, or "/.." at its start. */
  method GoUp(res: array<char>, slashp: nat,
              ghost s: string, ghost prefix: string, ghost stack: seq<string>, ghost todo: seq<string>)
      returns (dst: nat, ghost t: string)
    requires Holds(res, s) && Midway(s, prefix, stack, todo, slashp) && todo != [] && todo[0] == ".."
    modifies res
    ensures Holds(res, t) && Midway(t, prefix, Pop(stack), todo[1..], dst)
  {
    hide Holds, Midway;
    Within(s, prefix, stack, todo, slashp);
    var cp := SlashBefore(res, slashp, s);
    dst := if cp < 0 then slashp else cp;  // the name begins with "/.."
    ghost var target;
    t, target := DeleteUp(s, prefix, stack, todo, slashp, cp);
    StrCpyDown(res, dst, slashp + 3, s);
  }

  lemma Within(s: string, prefix: string, stack: seq<string>, todo: seq<string>, slashp: nat)
    requires Midway(s, prefix, stack, todo, slashp)
    ensures slashp <= |s|
  {
  }

  /** One turn of the loop: the component at slashp is deleted or passed over. */
  method DoComponent(res: array<char>, slashp: nat,
                     ghost s: string, ghost prefix: string, ghost stack: seq<string>, ghost todo: seq<string>)
      returns (next: nat, ghost s': string, ghost stack': seq<string>)
    requires Holds(res, s) && Midway(s, prefix, stack, todo, slashp) && todo != []
    modifies res
    ensures Holds(res, s') && Midway(s', prefix, stack', todo[1..], next)
    ensures Resolve(stack', todo[1..]) == Resolve(stack, todo)
  {
    hide Holds, Midway, At, ToSlash, Resolve, Components, Render;
    ResolveStep(stack, todo);
    PassOver(s, prefix, stack, todo, slashp);
    HeldString(res, s);
    NextComponent(s, prefix, stack, todo, slashp);
    var dots := LookBehind(res, slashp, s);
    match dots
    case Up =>
      stack' := Pop(stack);
      next, s' := GoUp(res, slashp, s, prefix, stack, todo);
    case Here =>
      DeleteHere(s, prefix, stack, todo, slashp);
      StrCpyDown(res, slashp, slashp + 2, s);
      next, s', stack' := slashp, s[..slashp] + s[slashp + 2..], stack;
    case Neither =>
      s', stack' := s, stack + [todo[0]];
      next := FindSlash(res, slashp + 1, s);
  }

  lemma HeldString(buf: array<char>, s: string)
    requires Holds(buf, s)
    ensures NUL !in s && |s| < buf.Length
  {
  }

  /** absolute_filename: the canonical form of file, taken relative to dir. */
  method AbsoluteFilename(file: string, dir: string) returns (r: string)
    requires NUL !in file && NUL !in dir
    ensures r == AbsoluteName(file, dir) && NUL !in r
  {
    hide Components, Render, Resolve, Midway, ToSlash, Holds;
    var full := Full(file, dir);
    var res := SaveStr(full);
    ghost var s := full;
    var slashp: nat := FindSlash(res, 0, s);
    assert s[0..] == s;
    ghost var prefix, stack, todo := s[..slashp], [], Components(s[slashp..]);
    ghost var goal := Resolve([], todo);
    StartsMidway(s);
    while true
      invariant Holds(res, s) && Midway(s, prefix, stack, todo, slashp)
      invariant Resolve(stack, todo) == goal
      decreases |todo|
    {
      HeldString(res, s);
      NextComponent(s, prefix, stack, todo, slashp);
      HeldAt(res, s, slashp);
      if res[slashp] == NUL {
        break;
      }
      slashp, s, stack := DoComponent(res, slashp, s, prefix, stack, todo);
      todo := todo[1..];
    }
    EndsMidway(s, prefix, stack, slashp);
    ResolveNothing(stack);
    HeldAt(res, s, 0);
    HeldChars(res, s);
    if res[0] == NUL {
      r := "/";
    } else {
      r := res[..slashp];
    }
    assert s == prefix + Render(goal);
  }

  lemma {:induction false} StartsMidway(s: string)
    ensures var n := ToSlash(s); Midway(s, s[..n], [], Components(s[n..]), n)
  {
    hide ToSlash, Components;
    var n := ToSlash(s);
    RenderOfComponents(s[n..]);
    assert s == s[..n] + "" + s[n..];
  }

  lemma EndsMidway(s: string, prefix: string, stack: seq<string>, slashp: nat)
    requires Midway(s, prefix, stack, [], slashp)
    ensures s == prefix + Render(stack) && slashp == |s|
  {
  }

  lemma ResolveNothing(stack: seq<string>)
    ensures Resolve(stack, []) == stack
  {
  }

  lemma ResolveStep(stack: seq<string>, todo: seq<string>)
    requires todo != []
    ensures Resolve(stack, todo) ==
            Resolve(if todo[0] == "." then stack else if todo[0] == ".." then Pop(stack) else stack + [todo[0]],
                    todo[1..])
  {
  }

  /** The first position at which two different strings differ. */
  method FirstDifference(a: string, b: string) returns (i: nat)
    requires a != b && NUL !in a && NUL !in b
    ensures i <= |a| && i <= |b| && a[..i] == b[..i] && At(a, i) != At(b, i)
  {
    i := 0;
    assert a[..|a|] == a && b[..|b|] == b;
    while At(a, i) == At(b, i)
      invariant i <= |a| && i <= |b| && a[..i] == b[..i]
      decreases |a| - i
    {
      i := i + 1;
    }
  }

  /** How many slashes there are in s from position p on. */
  method SlashesFrom(s: string, p: nat) returns (n: nat)
    requires p <= |s| && NUL !in s
    ensures n == CountSlashes(s[p..])
  {
    hide CountSlashes, ToSlash;
    n := 0;
    var buf := SaveStr(s);
    var dp: nat := FindSlash(buf, p, s);
    CountToSlash(s, p);
    while buf[dp] != NUL
      invariant Holds(buf, s) && p <= dp <= |s| && (dp < |s| ==> s[dp] == '/')
      invariant n + CountSlashes(s[dp..]) == CountSlashes(s[p..])
      decreases |s| - dp
    {
      n := n + 1;
      assert s[dp..] == ['/'] + s[dp + 1..];
      CountSlashesCons('/', s[dp + 1..]);
      CountToSlash(s, dp + 1);
      dp := FindSlash(buf, dp + 1, s);
    }
    assert s[dp..] == "";
    assert CountSlashes("") == 0 by { NoSlashCount(""); }
  }

  /** i times "../" */
  method UpDirs(i: nat) returns (r: string)
    ensures r == UpText(i)
  {
    r := "";
    var left := i;
    while left > 0
      invariant 0 <= left <= i && r + UpText(left) == UpText(i)
    {
      r := r + "../";
      left := left - 1;
    }
  }

  lemma {:induction false} CountToSlash(s: string, p: nat)
    requires p <= |s|
    ensures var q := p + ToSlash(s[p..]); q <= |s| && CountSlashes(s[q..]) == CountSlashes(s[p..])
    ensures var q := p + ToSlash(s[p..]); q < |s| ==> s[q] == '/'
  {
    var t := s[p..];
    var n := ToSlash(t);
    assert t == t[..n] + t[n..] && t[n..] == s[p + n..];
    NoSlashCount(t[..n]);
    CountSlashesConcat(t[..n], t[n..]);
  }

  /** relative_filename: file relative to dir.  The result, taken relative to dir
      again, is the same file exactly if the canonical name of the file does not
      continue dir with an empty component. */
  method RelativeFilename(file: string, dir: string, cwd: string) returns (r: string)
    requires NUL !in file && NUL !in cwd && NUL !in dir && cwd != "" && cwd[0] == '/'
    requires IsDirectory(dir) && AbsoluteName(file, cwd) != dir
    ensures var afn := AbsoluteName(file, cwd); exists j :: LastCommonSlash(afn, dir, j) && r == Relative(afn, dir, j)
    ensures var afn := AbsoluteName(file, cwd); AbsoluteName(r, dir) == afn <==> !(dir + "/" <= afn)
  {
    hide Canonical, Relative, LastCommonSlash, ToSlash, Components;
    var afn := AbsoluteFilename(file, cwd);
    CanonicalShape(Full(file, cwd));
    CanonicalIdempotent(Full(file, cwd));
    var fp: nat := FirstDifference(afn, dir);
    ghost var d := fp;
    fp := fp - 1;
    while afn[fp] != '/'
      invariant fp < d && afn[..d] == dir[..d]
      invariant forall k :: fp < k < d ==> afn[k] != '/'
      decreases fp
    {
      fp := fp - 1;
    }
    CommonSlashFound(afn, dir, fp, d);
    var i := SlashesFrom(dir, fp + 1);
    var ups := UpDirs(i);
    r := ups + afn[fp + 1..];
    assert r == Relative(afn, dir, fp) by { RelativeText(afn, dir, fp); }
    RelativeInverts(afn, dir, fp);
  }

  lemma RelativeText(afn: string, dir: string, j: nat)
    requires j < |afn| && j < |dir|
    ensures Relative(afn, dir, j) == UpText(CountSlashes(dir[j + 1..])) + afn[j + 1..]
  {
  }

  lemma CommonSlashFound(afn: string, dir: string, j: nat, d: nat)
    requires j < d <= |afn| && d <= |dir| && afn[..d] == dir[..d] && At(afn, d) != At(dir, d)
    requires afn[j] == '/' && forall k :: j < k < d ==> afn[k] != '/'
    ensures LastCommonSlash(afn, dir, j)
  {
    CommonIs(afn, dir, d);
    assert NoSlash(afn[j + 1..d]);
  }
}
