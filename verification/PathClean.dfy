/**
 Request-path normalisation of pkg/gofr/http/router.go: the character scan isCleanPath, the
 documented meaning of Go's path.Clean, and the in-place rewrite built on both.
 */
module PathClean {
  import opened Strings

  // ----- path.Clean, by its documented rules -----

  /** An element that survives cleaning as it is. */
  predicate Proper(seg: string) {
    seg != "" && seg != "." && seg != ".."
  }

  /** What is left of the elements read so far: ups leading "..", then proper names. */
  datatype Cleaned = Cleaned(ups: nat, names: seq<string>)

  function Step(c: Cleaned, seg: string, rooted: bool): Cleaned {
    if seg == "" || seg == "." then c
    else if seg != ".." then c.(names := c.names + [seg])
    else if c.names != [] then c.(names := c.names[..|c.names| - 1])
    else if rooted then c
    else c.(ups := c.ups + 1)
  }

  function Resolve(segs: seq<string>, rooted: bool): Cleaned {
    if segs == [] then Cleaned(0, [])
    else Step(Resolve(segs[..|segs| - 1], rooted), segs[|segs| - 1], rooted)
  }

  predicate Rooted(p: string) {
    p != "" && p[0] == '/'
  }

  function Elements(c: Cleaned): seq<string> {
    seq(c.ups, _ => "..") + c.names
  }

  function Clean(p: string): string {
    var c := Resolve(Split(p, '/'), Rooted(p));
    var body := if Elements(c) == [] then "" else Join(Elements(c), '/');
    if Rooted(p) then "/" + body else if body == "" then "." else body
  }

  // ----- The scan -----

  /** isDotSegment, for a dot at p[k]. */
  predicate IsDotSegment(p: string, k: nat)
    requires k < |p| && p[k] == '.'
  {
    || k + 1 == |p|
    || p[k + 1] == '/'
    || (p[k + 1] == '.' && (k + 2 == |p| || p[k + 2] == '/'))
  }

  predicate DirtyAt(p: string, i: nat)
    requires i < |p|
  {
    p[i] == '/' && i + 1 < |p| && (p[i + 1] == '/' || (p[i + 1] == '.' && IsDotSegment(p, i + 1)))
  }

  predicate Dirty(p: string) {
    exists i | 0 <= i < |p| :: DirtyAt(p, i)
  }

  method HasDirtySegment(p: string) returns (dirty: bool)
    ensures dirty == Dirty(p)
  {
    for i := 0 to |p|
      invariant forall k | 0 <= k < i :: !DirtyAt(p, k)
    {
      if p[i] != '/' || i + 1 >= |p| {
        continue;
      }
      if p[i + 1] == '/' {
        assert DirtyAt(p, i);
        return true;
      }
      if p[i + 1] == '.' && IsDotSegment(p, i + 1) {
        assert DirtyAt(p, i);
        return true;
      }
    }
    return false;
  }

  predicate CleanForm(p: string) {
    Rooted(p) && !(|p| > 1 && p[|p| - 1] == '/') && !Dirty(p)
  }

  method IsCleanPath(p: string) returns (clean: bool)
    ensures clean <==> Rooted(p) && Clean(p) == p
  {
    CleanFormIsFixpoint(p);
    if p == "" || p[0] != '/' {
      return false;
    }
    if |p| > 1 && p[|p| - 1] == '/' {
      return false;
    }
    var dirty := HasDirtySegment(p);
    return !dirty;
  }

  // ----- The scan, seen on the segments -----

  /** A segment after the first that cleaning would remove or resolve; a final "" is left to the other check. */
  predicate DirtySegment(segs: seq<string>, k: nat)
    requires k < |segs|
  {
    k >= 1 && !Proper(segs[k]) && (segs[k] == "" ==> k < |segs| - 1)
  }

  predicate DirtySegments(segs: seq<string>) {
    exists k | 0 <= k < |segs| :: DirtySegment(segs, k)
  }

  /** rest follows a '/', and the pair is dirty. */
  predicate BadStart(rest: string) {
    rest != "" && (rest[0] == '/' || (rest[0] == '.' && IsDotSegment(rest, 0)))
  }

  lemma DirtyAfter(a: string, rest: string)
    requires '/' !in a
    ensures Dirty(a + ['/'] + rest) <==> BadStart(rest) || Dirty(rest)
  {
    var p, n := a + ['/'] + rest, |a| + 1;
    assert forall k | 0 <= k < |rest| :: p[n + k] == rest[k];
    assert DirtyAt(p, |a|) <==> BadStart(rest);
    forall k | 0 <= k < |rest| ensures DirtyAt(p, n + k) <==> DirtyAt(rest, k) {}
    assert forall i | 0 <= i < |a| :: p[i] == a[i] && !DirtyAt(p, i);
    forall i | 0 <= i < |p| && DirtyAt(p, i) ensures BadStart(rest) || Dirty(rest) {
      if i > |a| {
        assert DirtyAt(rest, i - n);
      }
    }
    if Dirty(rest) {
      var k :| 0 <= k < |rest| && DirtyAt(rest, k);
      assert DirtyAt(p, n + k);
    }
  }

  lemma BadStartIff(rest: string, head: string, tail: seq<string>)
    requires Split(rest, '/') == [head] + tail
    ensures BadStart(rest) <==> !Proper(head) && (head == "" ==> tail != [])
  {
    JoinSplit(rest, '/');
    SplitPartsFree(rest, '/');
    assert head in [head] + tail;
    if tail == [] {
      assert rest == head;
    } else {
      assert ([head] + tail)[1..] == tail;
      assert rest == head + ['/'] + Join(tail, '/');
    }
  }

  lemma FirstSlash(p: string) returns (i: nat)
    requires '/' in p
    ensures i < |p| && p[i] == '/' && '/' !in p[..i]
  {
    i := 0;
    while p[i] != '/'
      invariant i < |p| && '/' !in p[..i] && '/' in p[i..]
      decreases |p| - i
    {
      assert p[..i + 1] == p[..i] + [p[i]] && p[i..] == [p[i]] + p[i + 1..];
      i := i + 1;
    }
  }

  lemma DirtyShift(head: string, segs: seq<string>)
    requires segs != []
    ensures DirtySegments([head] + segs) <==>
              (!Proper(segs[0]) && (segs[0] == "" ==> |segs| > 1)) || DirtySegments(segs)
  {
    var all := [head] + segs;
    assert DirtySegment(all, 1) <==> !Proper(segs[0]) && (segs[0] == "" ==> |segs| > 1);
    forall k | 1 <= k < |segs| ensures DirtySegment(all, k + 1) <==> DirtySegment(segs, k) {}
    if DirtySegments(all) {
      var k :| 0 <= k < |all| && DirtySegment(all, k);
      assert k > 1 ==> DirtySegment(segs, k - 1);
    }
    if DirtySegments(segs) {
      var k :| 0 <= k < |segs| && DirtySegment(segs, k);
      assert DirtySegment(all, k + 1);
    }
  }

  lemma {:induction false} DirtyIffSegments(p: string)
    ensures Dirty(p) <==> DirtySegments(Split(p, '/'))
    decreases |p|
  {
    hide Dirty, DirtySegments;
    if '/' !in p {
      SplitFree(p, '/');
      NoSlashNotDirty(p);
    } else {
      var i := FirstSlash(p);
      var a, rest := p[..i], p[i + 1..];
      assert p == a + ['/'] + rest;
      SplitAt(a, rest, '/');
      SplitFree(a, '/');
      var segs := Split(rest, '/');
      assert segs == [segs[0]] + segs[1..];
      DirtyAfter(a, rest);
      BadStartIff(rest, segs[0], segs[1..]);
      DirtyShift(a, segs);
      DirtyIffSegments(rest);
    }
  }

  lemma NoSlashNotDirty(p: string)
    requires '/' !in p
    ensures !Dirty(p) && !DirtySegments([p])
  {
  }

  // ----- A path is clean exactly when cleaning leaves it alone -----

  predicate AllProper(segs: seq<string>) {
    forall k | 0 <= k < |segs| :: Proper(segs[k])
  }

  lemma LastEmpty(s: string)
    requires s != ""
    ensures var segs := Split(s, '/'); s[|s| - 1] == '/' <==> segs[|segs| - 1] == ""
  {
    var front, last := s[..|s| - 1], s[|s| - 1..];
    assert s == front + last;
    SplitConcat(front, last, '/');
    if s[|s| - 1] == '/' {
      assert last == "/" && Split(last[1..], '/') == [""];
    } else {
      SplitFree(last, '/');
    }
  }

  lemma CleanFormSegments(rest: string)
    ensures CleanForm("/" + rest) <==> rest == "" || AllProper(Split(rest, '/'))
  {
    hide Dirty;
    var p, segs := "/" + rest, Split(rest, '/');
    assert p[1..] == rest;
    DirtyIffSegments(p);
    DirtyShift("", segs);
    if rest == "" {
      assert !DirtySegments([""]);
    } else {
      LastEmpty(rest);
      SplitEmpty(rest, '/');
      if DirtySegments([""] + segs) {
        var k :| 0 <= k < |[""] + segs| && DirtySegment([""] + segs, k);
        assert !Proper(segs[k - 1]);
      } else if !AllProper(segs) {
        var k :| 0 <= k < |segs| && !Proper(segs[k]);
        assert !DirtySegment([""] + segs, k + 1);
      }
    }
  }

  lemma {:induction false} ResolveNames(segs: seq<string>, rooted: bool)
    requires forall s | s in segs :: '/' !in s
    ensures AllProper(Resolve(segs, rooted).names)
    ensures forall s | s in Resolve(segs, rooted).names :: '/' !in s
    ensures rooted ==> Resolve(segs, rooted).ups == 0
  {
    if segs != [] { ResolveNames(segs[..|segs| - 1], rooted); }
  }

  lemma {:induction false} ResolveProper(segs: seq<string>, rooted: bool)
    requires AllProper(segs)
    ensures Resolve(segs, rooted) == Cleaned(0, segs)
  {
    if segs != [] { ResolveProper(segs[..|segs| - 1], rooted); }
  }

  lemma {:induction false} ResolveSkipsEmpty(segs: seq<string>, rooted: bool)
    ensures Resolve([""] + segs, rooted) == Resolve(segs, rooted)
  {
    var all := [""] + segs;
    if segs == [] {
      assert all[..0] == [];
    } else {
      assert all[..|all| - 1] == [""] + segs[..|segs| - 1];
      ResolveSkipsEmpty(segs[..|segs| - 1], rooted);
    }
  }

  /** The cleaned elements joined, without a leading slash. */
  function Body(p: string): string {
    var elements := Elements(Resolve(Split(p, '/'), Rooted(p)));
    if elements == [] then "" else Join(elements, '/')
  }

  lemma ElementsOf(p: string) returns (es: seq<string>)
    ensures es == Elements(Resolve(Split(p, '/'), Rooted(p)))
    ensures forall e | e in es :: e != "" && '/' !in e
    ensures Rooted(p) ==> AllProper(es)
    ensures AllProper(es) <==> Resolve(Split(p, '/'), Rooted(p)).ups == 0
  {
    var c := Resolve(Split(p, '/'), Rooted(p));
    es := Elements(c);
    SplitPartsFree(p, '/');
    ResolveNames(Split(p, '/'), Rooted(p));
    if c.ups > 0 {
      assert es[0] == "..";
    } else {
      assert es == c.names;
    }
    forall e | e in es ensures e != "" && '/' !in e {
      assert e == ".." || e in c.names;
    }
  }

  lemma BodyForm(p: string)
    ensures CleanForm("/" + Body(p)) <==> Resolve(Split(p, '/'), Rooted(p)).ups == 0
    ensures Body(p) != "" ==> Body(p)[0] != '/'
    ensures Body(p) == "" <==> Elements(Resolve(Split(p, '/'), Rooted(p))) == []
  {
    hide Resolve, CleanForm, Elements;
    var es := ElementsOf(p);
    CleanFormSegments(Body(p));
    if es != [] {
      SplitJoin(es, '/');
      assert es[0] in es;
      assert Join(es, '/')[0] == es[0][0];
    }
  }

  lemma CleanFormIsFixpoint(p: string)
    ensures CleanForm(p) <==> Rooted(p) && Clean(p) == p
  {
    if Rooted(p) {
      hide CleanForm, Resolve, Elements;
      var rest := p[1..];
      assert p == "/" + rest && Clean(p) == "/" + Body(p);
      CleanFormSegments(rest);
      BodyForm(p);
      var es := ElementsOf(p);
      if CleanForm(p) {
        ResolveSkipsEmpty(Split(rest, '/'), true);
        CleanBody(rest);
      }
    }
  }

  lemma CleanBody(rest: string)
    requires rest == "" || AllProper(Split(rest, '/'))
    ensures Body("/" + rest) == rest
  {
    var segs := Split(rest, '/');
    assert ("/" + rest)[1..] == rest;
    ResolveSkipsEmpty(segs, true);
    if rest == "" {
      assert segs == [""] && Resolve(segs[..0], true) == Cleaned(0, []);
    } else {
      ResolveProper(segs, true);
      assert Elements(Cleaned(0, segs)) == segs;
      JoinSplit(rest, '/');
    }
  }

  // ----- The documented rules determine the result -----

  predicate Empty(seg: string) { seg == "" || seg == "." }

  /**
   The rules of path.Clean on a path's elements: "" and "." vanish, a name and the ".." after it vanish,
   a leading ".." vanishes if the path is rooted and stays if not, and names alone stay as they are.
   */
  ghost predicate PathRules(f: (seq<string>, bool) -> seq<string>) {
    && (forall x, seg, y, rooted | Empty(seg) :: f(x + [seg] + y, rooted) == f(x + y, rooted))
    && (forall x, name, y, rooted | Proper(name) :: f(x + [name, ".."] + y, rooted) == f(x + y, rooted))
    && (forall y :: f([".."] + y, true) == f(y, true))
    && (forall y :: f([".."] + y, false) == [".."] + f(y, false))
    && (forall names, rooted | AllProper(names) :: f(names, rooted) == names)
  }

  function Cleaning(segs: seq<string>, rooted: bool): seq<string> { Elements(Resolve(segs, rooted)) }

  /** Elements read on from what is left of the earlier ones. */
  function ResolveFrom(c: Cleaned, segs: seq<string>, rooted: bool): Cleaned
    decreases |segs|
  {
    if segs == [] then c else ResolveFrom(Step(c, segs[0], rooted), segs[1..], rooted)
  }

  lemma {:induction false} ResolveAppend(x: seq<string>, y: seq<string>, rooted: bool)
    ensures Resolve(x + y, rooted) == ResolveFrom(Resolve(x, rooted), y, rooted)
    decreases |y|
  {
    if y == [] {
      assert x + y == x;
    } else {
      var x' := x + [y[0]];
      assert x'[..|x'| - 1] == x && x + y == x' + y[1..];
      ResolveAppend(x', y[1..], rooted);
    }
  }

  lemma EmptyVanishes(x: seq<string>, seg: string, y: seq<string>, rooted: bool)
    requires Empty(seg)
    ensures Cleaning(x + [seg] + y, rooted) == Cleaning(x + y, rooted)
  {
    assert (x + [seg])[..|x|] == x;
    ResolveAppend(x + [seg], y, rooted);
    ResolveAppend(x, y, rooted);
  }

  lemma NameCancels(x: seq<string>, name: string, y: seq<string>, rooted: bool)
    requires Proper(name)
    ensures Cleaning(x + [name, ".."] + y, rooted) == Cleaning(x + y, rooted)
  {
    var xn, xnu := x + [name], x + [name, ".."];
    assert xnu[..|xnu| - 1] == xn && xn[..|xn| - 1] == x;
    var c := Resolve(x, rooted);
    assert (c.names + [name])[..|c.names|] == c.names;
    ResolveAppend(xnu, y, rooted);
    ResolveAppend(x, y, rooted);
  }

  /** One ".." more at the front is never taken back. */
  lemma {:induction false} OneMoreUp(c: Cleaned, y: seq<string>)
    ensures var more := Cleaned(c.ups + 1, c.names);
            ResolveFrom(more, y, false) == ResolveFrom(c, y, false).(ups := ResolveFrom(c, y, false).ups + 1)
    decreases |y|
  {
    if y != [] { OneMoreUp(Step(c, y[0], false), y[1..]); }
  }

  lemma LeadingUp(y: seq<string>)
    ensures Cleaning([".."] + y, true) == Cleaning(y, true)
    ensures Cleaning([".."] + y, false) == [".."] + Cleaning(y, false)
  {
    var none := Cleaned(0, []);
    assert [".."][..0] == [] && [] + y == y;
    ResolveAppend([".."], y, true);
    ResolveAppend([".."], y, false);
    ResolveAppend([], y, true);
    ResolveAppend([], y, false);
    OneMoreUp(none, y);
    var c := ResolveFrom(none, y, false);
    assert seq(c.ups + 1, _ => "..") == [".."] + seq(c.ups, _ => "..");
  }

  /** Cleaning keeps the rules. */
  lemma CleaningKeepsRules()
    ensures PathRules(Cleaning)
  {
    hide Cleaning;
    forall x, seg, y, rooted | Empty(seg) ensures Cleaning(x + [seg] + y, rooted) == Cleaning(x + y, rooted) {
      EmptyVanishes(x, seg, y, rooted);
    }
    forall x, name, y, rooted | Proper(name)
      ensures Cleaning(x + [name, ".."] + y, rooted) == Cleaning(x + y, rooted)
    {
      NameCancels(x, name, y, rooted);
    }
    forall y
      ensures Cleaning([".."] + y, true) == Cleaning(y, true)
      ensures Cleaning([".."] + y, false) == [".."] + Cleaning(y, false)
    {
      LeadingUp(y);
    }
    forall names, rooted | AllProper(names) ensures Cleaning(names, rooted) == names {
      NamesStay(names, rooted);
    }
  }

  lemma NamesStay(names: seq<string>, rooted: bool)
    requires AllProper(names)
    ensures Cleaning(names, rooted) == names
  {
    ResolveProper(names, rooted);
  }

  /** And nothing else does: the rules leave no choice. */
  lemma {:induction false} RulesDetermine(f: (seq<string>, bool) -> seq<string>, segs: seq<string>, rooted: bool)
    requires PathRules(f)
    ensures f(segs, rooted) == Cleaning(segs, rooted)
    decreases |segs|
  {
    hide Cleaning;
    if AllProper(segs) {
      NamesStay(segs, rooted);
    } else {
      var k := FirstImproper(segs);
      var x, y := segs[..k], segs[k + 1..];
      if Empty(segs[k]) {
        assert segs == x + [segs[k]] + y;
        EmptyVanishes(x, segs[k], y, rooted);
        RulesDetermine(f, x + y, rooted);
      } else if k == 0 {
        assert segs == [".."] + y;
        LeadingUp(y);
        RulesDetermine(f, y, rooted);
      } else {
        var w, name := segs[..k - 1], segs[k - 1];
        assert segs == w + [name, ".."] + y && Proper(name);
        NameCancels(w, name, y, rooted);
        RulesDetermine(f, w + y, rooted);
      }
    }
  }

  lemma FirstImproper(segs: seq<string>) returns (k: nat)
    requires !AllProper(segs)
    ensures k < |segs| && !Proper(segs[k]) && AllProper(segs[..k])
  {
    k := 0;
    while Proper(segs[k])
      invariant k < |segs| && AllProper(segs[..k])
      decreases |segs| - k
    {
      k := k + 1;
    }
  }

  /**
   What normalising makes of a path, by the rules alone: a slash, and then the elements that any function
   keeping the rules leaves of the path's own, joined by slashes.
   */
  lemma NormalizedByRules(f: (seq<string>, bool) -> seq<string>, p: string)
    requires PathRules(f)
    ensures var elements := f(Split(p, '/'), p != "" && p[0] == '/');
            if elements == [] then Body(p) == "" else Body(p) != "" && Split(Body(p), '/') == elements
  {
    hide Resolve, Elements, Split, Join, PathRules;
    RulesDetermine(f, Split(p, '/'), Rooted(p));
    var es := ElementsOf(p);
    BodyForm(p);
    if es != [] { SplitJoin(es, '/'); }
  }

  /** In a path's own text: a name and the ".." after it, wherever they stand, normalise to nothing. */
  lemma UpTakesBack(a: string, name: string, b: string)
    requires Proper(name) && '/' !in name
    ensures Body(a + ['/'] + name + ['/'] + ".." + ['/'] + b) == Body(a + ['/'] + b)
  {
    hide Split, Join, Resolve, Elements;
    var rest := ".." + ['/'] + b;
    assert a + ['/'] + name + ['/'] + ".." + ['/'] + b == a + ['/'] + (name + ['/'] + rest);
    SplitAt(a, name + ['/'] + rest, '/');
    SplitAt(name, rest, '/');
    SplitAt("..", b, '/');
    SplitAt(a, b, '/');
    SplitFree(name, '/');
    SplitFree("..", '/');
    var x, y := Split(a, '/'), Split(b, '/');
    assert x + ([name] + ([".."] + y)) == x + [name, ".."] + y;
    NameCancels(x, name, y, Rooted(a + ['/'] + b));
    assert Cleaning(x + [name, ".."] + y, Rooted(a + ['/'] + b)) == Cleaning(x + y, Rooted(a + ['/'] + b));
  }

  // ----- normalizePath -----

  class URL {
    var path: string
    var rawPath: string

    constructor (path: string, rawPath: string)
      ensures this.path == path && this.rawPath == rawPath
    {
      this.path, this.rawPath := path, rawPath;
    }
  }

  method NormalizePath(u: URL)
    modifies u
    ensures u.path == "/" + Body(old(u.path))
    ensures u.rawPath == if u.path != old(u.path) && old(u.rawPath) != "" then u.path else old(u.rawPath)
  {
    hide Resolve, Elements;
    var original := u.path;
    BodyForm(original);
    var clean := IsCleanPath(original);
    if clean {
      return;
    }
    var normalized := Clean(original);
    if normalized == "." {
      normalized := "/";
    }
    NormalizedForm(original);
    normalized := "/" + TrimLeft(normalized, '/');
    if original != normalized {
      u.path := normalized;
      if u.rawPath != "" {
        u.rawPath := normalized;
      }
    }
  }

  lemma NormalizedForm(p: string)
    ensures var n := if Clean(p) == "." then "/" else Clean(p); "/" + TrimLeft(n, '/') == "/" + Body(p)
  {
    hide Resolve, Elements;
    BodyForm(p);
    var b := Body(p);
    assert ("/" + b)[1..] == b;
    assert Clean(p) == if Rooted(p) then "/" + b else if b == "" then "." else b;
    if b == "." { BodyNotDot(p); }
  }

  lemma BodyNotDot(p: string)
    ensures Body(p) != "."
  {
    var es := ElementsOf(p);
    var c := Resolve(Split(p, '/'), Rooted(p));
    ResolveNames(Split(p, '/'), Rooted(p)) by { SplitPartsFree(p, '/'); }
    if es != [] {
      assert es[0] == (if c.ups > 0 then ".." else c.names[0]) && es[0] != ".";
      SplitJoin(es, '/');
      SplitFree(".", '/');
    }
  }

  // ----- When normalising yields a clean path -----

  function Weight(seg: string): int {
    if Proper(seg) then 1 else if seg == ".." then -1 else 0
  }

  function Depth(segs: seq<string>): int {
    if segs == [] then 0 else Depth(segs[..|segs| - 1]) + Weight(segs[|segs| - 1])
  }

  /** Read from the left, some prefix of the elements goes up more often than down. */
  predicate ClimbsOut(segs: seq<string>) {
    exists k | 0 <= k <= |segs| :: Depth(segs[..k]) < 0
  }

  lemma {:induction false} ClimbsOutIff(segs: seq<string>)
    ensures var c := Resolve(segs, false); |c.names| - c.ups == Depth(segs)
    ensures Resolve(segs, false).ups > 0 <==> ClimbsOut(segs)
  {
    if segs == [] {
      assert segs[..0] == [];
    } else {
      var n := |segs| - 1;
      var front := segs[..n];
      ClimbsOutIff(front);
      forall k | 0 <= k <= n ensures segs[..k] == front[..k] {}
      assert segs[..|segs|] == segs;
      if ClimbsOut(front) {
        var k :| 0 <= k <= n && Depth(front[..k]) < 0;
        assert Depth(segs[..k]) < 0;
      }
      if ClimbsOut(segs) {
        var k :| 0 <= k <= |segs| && Depth(segs[..k]) < 0;
        if k <= n { assert Depth(front[..k]) < 0; }
      }
    }
  }

  /**
   Exactly when: normalising a path gives a clean one, and normalising again changes nothing, if and
   only if the path is rooted or never climbs above its start.
   */
  lemma NormalizesIff(p: string)
    ensures var q := "/" + Body(p);
            var fine := Rooted(p) || !ClimbsOut(Split(p, '/'));
            (CleanForm(q) <==> fine) && ("/" + Body(q) == q <==> fine)
  {
    hide Elements, CleanForm;
    var q := "/" + Body(p);
    BodyForm(p);
    CleanFormIsFixpoint(q);
    assert Clean(q) == "/" + Body(q);
    if Rooted(p) {
      SplitPartsFree(p, '/');
      ResolveNames(Split(p, '/'), true);
    } else {
      ClimbsOutIff(Split(p, '/'));
    }
  }

  /** "../a" is rewritten to "/../a", which is not clean. */
  lemma UnrootedEscapes()
    ensures !Rooted("../a") && !CleanForm("/" + Body("../a"))
  {
    SplitAt("..", "a", '/');
    SplitFree("..", '/');
    assert "../a" == ".." + ['/'] + "a";
    var segs := Split("../a", '/');
    assert segs[0] == ".." && segs[..1] == [".."];
    assert [".."][..0] == [] && Depth(segs[..1]) == -1;
    NormalizesIff("../a");
  }
}
