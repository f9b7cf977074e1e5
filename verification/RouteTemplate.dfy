/**
 Path templates, the anchored regexp gorilla/mux compiles them to, and the fact the segment trie
 rests on: a path accepted by an indexable pattern has the template's segments, one for one.
 */
module RouteTemplate {
  import opened Strings
  import opened RegexpSyntax

  /** A run of literal text, or a "{...}" variable with the parsed pattern it stands for. */
  datatype Piece = Text(text: string) | Var(raw: string, body: Regexp)

  /** Prefix is PathPrefix. Strict is Path under StrictSlash, which splits off one trailing slash. */
  datatype Kind = Exact | Strict(endSlash: bool) | Prefix

  datatype Template = Template(pieces: seq<Piece>, kind: Kind)

  function PieceText(p: Piece): string {
    match p
    case Text(text) => text
    case Var(raw, _) => "{" + raw + "}"
  }

  function PiecesText(ps: seq<Piece>): string {
    if ps == [] then "" else PieceText(ps[0]) + PiecesText(ps[1..])
  }

  /** The template as registered, the string insert receives. */
  function TemplateText(t: Template): string {
    PiecesText(t.pieces) + if t.kind == Strict(true) then "/" else ""
  }

  /** Braces delimit variables, so mux leaves none in the literal text. */
  predicate WellFormed(ps: seq<Piece>) {
    forall p | p in ps && p.Text? :: '{' !in p.text
  }

  /** The text between some pair of braces contains the segment separator, as in "{p:[^/]+}". */
  predicate SlashInBraces(ps: seq<Piece>) {
    exists p | p in ps :: p.Var? && '/' in p.raw
  }

  // ----- The compiled pattern -----

  function PieceRegexp(p: Piece): Regexp {
    match p
    case Text(text) => Literal(text, false)
    case Var(_, body) => Capture(body)
  }

  function PieceRegexps(ps: seq<Piece>): (rs: seq<Regexp>)
    ensures |rs| == |ps| && forall k | 0 <= k < |ps| :: rs[k] == PieceRegexp(ps[k])
  {
    seq(|ps|, k requires 0 <= k < |ps| => PieceRegexp(ps[k]))
  }

  function Tail(kind: Kind): seq<Regexp> {
    match kind
    case Exact => [EndText]
    case Strict(_) => [Quest(Literal("/", false)), EndText]
    case Prefix => []
  }

  function PathRegexp(t: Template): Regexp {
    Concat([BeginText] + PieceRegexps(t.pieces) + Tail(t.kind))
  }

  /** pathSegments of trie_router.go. */
  function PathSegments(p: string): seq<string> {
    var q := Trim(p, '/');
    if q == "" then [] else Split(q, '/')
  }

  // ----- From an accepted path to the text of each piece -----

  predicate PieceFits(p: Piece, x: string) {
    match p
    case Text(text) => x == text
    case Var(_, _) => x != "" && '/' !in x
  }

  ghost predicate Instance(ps: seq<Piece>, s: string) {
    if ps == [] then s == ""
    else exists k | 0 <= k <= |s| :: PieceFits(ps[0], s[..k]) && Instance(ps[1..], s[k..])
  }

  lemma PieceSound(p: Piece, s: string, i: nat, j: nat)
    requires i <= j <= |s| && Matches(PieceRegexp(p), s, i, j)
    requires CapturesAreSingleSegment(PieceRegexp(p))
    ensures PieceFits(p, s[i..j])
  {
    match p
    case Text(text) =>
      forall k | 0 <= k < |text| ensures s[i + k] == text[k] {
        assert RuneMatches(text[k], false, s[i + k]);
      }
    case Var(_, body) =>
      SlashFreeSound(Capture(body), s, i, j);
      NonEmptySound(Capture(body), s, i, j);
  }

  lemma FirstOf(subs: seq<Regexp>, s: string, i: nat, j: nat) returns (k: nat)
    requires i <= j <= |s| && subs != [] && MatchesAll(subs, s, i, j)
    ensures i <= k <= j && Matches(subs[0], s, i, k) && MatchesAll(subs[1..], s, k, j)
  {
    k :| i <= k <= j && Matches(subs[0], s, i, k) && MatchesAll(subs[1..], s, k, j);
  }

  /** Peels the pieces off the front of a match, leaving the match of what follows them. */
  lemma {:induction false} PiecesSound(ps: seq<Piece>, tail: seq<Regexp>, s: string, i: nat, j: nat) returns (m: nat)
    requires i <= j <= |s| && MatchesAll(PieceRegexps(ps) + tail, s, i, j)
    requires forall p | p in ps :: CapturesAreSingleSegment(PieceRegexp(p))
    ensures i <= m <= j && Instance(ps, s[i..m]) && MatchesAll(tail, s, m, j)
  {
    var rs := PieceRegexps(ps) + tail;
    if ps == [] {
      assert rs == tail;
      m := i;
    } else {
      assert rs[1..] == PieceRegexps(ps[1..]) + tail;
      var k := FirstOf(rs, s, i, j);
      PieceSound(ps[0], s, i, k);
      m := PiecesSound(ps[1..], tail, s, k, j);
      var x := s[i..m];
      assert x[..k - i] == s[i..k] && x[k - i..] == s[k..m];
    }
  }

  /** Only a fully anchored pattern is indexable, so a PathPrefix never is. */
  lemma PrefixNotIndexable(t: Template)
    requires t.kind.Prefix?
    ensures !IsIndexable(PathRegexp(t))
  {
    var subs := PathRegexp(t).subs;
    if |subs| >= 2 {
      assert subs[|subs| - 1] == PieceRegexp(t.pieces[|t.pieces| - 1]);
    }
  }

  lemma CapturesOfPieces(t: Template)
    requires CapturesAreSingleSegment(PathRegexp(t))
    ensures forall p | p in t.pieces :: CapturesAreSingleSegment(PieceRegexp(p))
  {
    var re := PathRegexp(t);
    forall k | 0 <= k < |t.pieces| ensures CapturesAreSingleSegment(PieceRegexp(t.pieces[k])) {
      assert Children(re)[k + 1] == PieceRegexp(t.pieces[k]);
    }
  }

  /** "[^/]", and the pattern of a variable that names none. */
  const NOT_SLASH := CharClass(['\0', '.', '0', '\U{10FFFF}'])

  const DEFAULT_PATTERN := Plus(NOT_SLASH)

  lemma DefaultIsSingleSegment()
    ensures CapturesAreSingleSegment(Capture(DEFAULT_PATTERN))
  {
    assert !InClass(NOT_SLASH.ranges, '/');
    assert !MayMatchSlash(NOT_SLASH) && !MayMatchSlash(DEFAULT_PATTERN);
    assert CapturesAreSingleSegment(NOT_SLASH) && CapturesAreSingleSegment(DEFAULT_PATTERN);
  }

  /** Every exact path of literals and plain variables, mixed in a segment or not, goes into the trie. */
  lemma PlainIsIndexable(t: Template)
    requires !t.kind.Prefix? && forall p | p in t.pieces && p.Var? :: p.body == DEFAULT_PATTERN
    ensures IsIndexable(PathRegexp(t))
  {
    var re := PathRegexp(t);
    var subs := re.subs;
    DefaultIsSingleSegment();
    forall k | 0 <= k < |subs| ensures CapturesAreSingleSegment(subs[k]) {
      if 1 <= k <= |t.pieces| {
        assert t.pieces[k - 1] in t.pieces && subs[k] == PieceRegexp(t.pieces[k - 1]);
      } else if k > |t.pieces| {
        assert subs[k] == Tail(t.kind)[k - 1 - |t.pieces|];
        assert CapturesAreSingleSegment(Literal("/", false));
      }
    }
    assert Children(re) == subs;
  }

  /** An accepted path spells out the pieces, up to the optional trailing slash of StrictSlash. */
  lemma AcceptedIsInstance(t: Template, path: string) returns (core: string)
    requires IsIndexable(PathRegexp(t)) && Accepts(PathRegexp(t), path)
    ensures Instance(t.pieces, core)
    ensures path == core || (t.kind.Strict? && path == core + "/")
  {
    var re := PathRegexp(t);
    if t.kind.Prefix? { PrefixNotIndexable(t); }
    CapturesOfPieces(t);
    var i: nat, j: nat :| i <= j <= |path| && Matches(re, path, i, j);
    var rest := PieceRegexps(t.pieces) + Tail(t.kind);
    assert re.subs[1..] == rest;
    var k := FirstOf(re.subs, path, i, j);
    var m := PiecesSound(t.pieces, Tail(t.kind), path, 0, j);
    core := path[0..m];
    TailSound(t.kind, path, m, j);
  }

  lemma TailSound(kind: Kind, path: string, m: nat, j: nat)
    requires m <= j <= |path| && MatchesAll(Tail(kind), path, m, j) && !kind.Prefix?
    ensures path[..m] == path || (kind.Strict? && path == path[..m] + "/")
  {
    var tail := Tail(kind);
    var k := FirstOf(tail, path, m, j);
    if kind.Strict? {
      var _ := FirstOf(tail[1..], path, k, j);
      if k > m { PieceSound(Text("/"), path, m, k); }
    }
  }

  // ----- Segment-by-segment alignment -----

  /** A parameter segment stands for some non-empty segment, a literal one for itself. */
  predicate SegmentFits(t: string, p: string) {
    if '{' in t then p != "" else t == p
  }

  predicate Aligned(ts: seq<string>, ps: seq<string>) {
    |ts| == |ps| && forall k | 0 <= k < |ts| :: SegmentFits(ts[k], ps[k])
  }

  lemma AlignedGlue(t1: seq<string>, p1: seq<string>, t2: seq<string>, p2: seq<string>)
    requires t1 != [] && t2 != [] && Aligned(t1, p1) && Aligned(t2, p2)
    ensures Aligned(Glue(t1, t2), Glue(p1, p2))
  {
    var n := |t1| - 1;
    assert SegmentFits(t1[n] + t2[0], p1[n] + p2[0]);
  }

  lemma {:induction false} InstanceAligned(ps: seq<Piece>, s: string)
    requires WellFormed(ps) && !SlashInBraces(ps) && Instance(ps, s)
    ensures Aligned(Split(PiecesText(ps), '/'), Split(s, '/'))
  {
    if ps != [] {
      var k :| 0 <= k <= |s| && PieceFits(ps[0], s[..k]) && Instance(ps[1..], s[k..]);
      assert s == s[..k] + s[k..];
      assert ps[0] in ps && forall p | p in ps[1..] :: p in ps;
      InstanceAligned(ps[1..], s[k..]);
      assert Aligned(Split(PieceText(ps[0]), '/'), Split(s[..k], '/')) by { PieceAligned(ps[0], s[..k]); }
      AlignedGlue(Split(PieceText(ps[0]), '/'), Split(s[..k], '/'),
                  Split(PiecesText(ps[1..]), '/'), Split(s[k..], '/'));
      SplitConcat(PieceText(ps[0]), PiecesText(ps[1..]), '/');
      SplitConcat(s[..k], s[k..], '/');
    }
  }

  lemma PieceAligned(p: Piece, x: string)
    requires PieceFits(p, x) && (p.Text? ==> '{' !in p.text) && (p.Var? ==> '/' !in p.raw)
    ensures Aligned(Split(PieceText(p), '/'), Split(x, '/'))
  {
    match p
    case Text(text) =>
      SplitSubset(text, '/');
    case Var(raw, _) =>
      SplitFree(PieceText(p), '/');
      SplitFree(x, '/');
  }

  /** Every character of a part comes from the text. */
  lemma {:induction false} SplitSubset(s: string, c: char)
    ensures forall part, ch | part in Split(s, c) && ch in part :: ch in s
  {
    if s != "" { SplitSubset(s[1..], c); }
  }

  lemma {:induction false} AlignedDropLeading(ts: seq<string>, ps: seq<string>)
    requires ts != [] && Aligned(ts, ps)
    ensures Aligned(DropLeading(ts), DropLeading(ps))
  {
    assert SegmentFits(ts[0], ps[0]);
    if |ts| > 1 && ts[0] == "" { AlignedDropLeading(ts[1..], ps[1..]); }
  }

  lemma {:induction false} AlignedDropTrailing(ts: seq<string>, ps: seq<string>)
    requires ts != [] && Aligned(ts, ps)
    ensures Aligned(DropTrailing(ts), DropTrailing(ps))
  {
    var n := |ts| - 1;
    assert SegmentFits(ts[n], ps[n]);
    if |ts| > 1 && ts[n] == "" { AlignedDropTrailing(ts[..n], ps[..n]); }
  }

  lemma {:induction false} AlignedSegments(t: string, p: string)
    requires Aligned(Split(t, '/'), Split(p, '/'))
    ensures Aligned(PathSegments(t), PathSegments(p))
  {
    AlignedDropLeading(Split(t, '/'), Split(p, '/'));
    AlignedDropTrailing(DropLeading(Split(t, '/')), DropLeading(Split(p, '/')));
    SplitTrim(t, '/');
    SplitTrim(p, '/');
    var ts, ps := Split(Trim(t, '/'), '/'), Split(Trim(p, '/'), '/');
    assert SegmentFits(ts[0], ps[0]);
    assert ts == [""] <==> ps == [""];
    SplitEmpty(Trim(t, '/'), '/');
    SplitEmpty(Trim(p, '/'), '/');
  }

  lemma {:induction false} TrailingSlashIgnored(s: string)
    ensures PathSegments(s + "/") == PathSegments(s)
  {
    if s == "" || s[0] != '/' {
      var u := s + "/";
      if s == "" {
        assert u[1..] == "";
      } else {
        assert TrimLeft(u, '/') == u && TrimLeft(s, '/') == s && u[..|s|] == s;
      }
    } else {
      assert (s + "/")[1..] == s[1..] + "/";
      TrailingSlashIgnored(s[1..]);
      assert Trim(s + "/", '/') == Trim(s[1..] + "/", '/');
    }
  }

  // ----- A slash between braces -----

  function Bare(p: Piece): Piece {
    match p
    case Text(_) => p
    case Var(_, body) => Var("", body)
  }

  /** The pieces with the text of the first n emptied out of their braces. */
  function BareTo(ps: seq<Piece>, n: nat): (r: seq<Piece>)
    requires n <= |ps|
    ensures |r| == |ps|
  {
    seq(n, k requires 0 <= k < n => Bare(ps[k])) + ps[n..]
  }

  lemma {:induction false} PiecesTextConcat(a: seq<Piece>, b: seq<Piece>)
    ensures PiecesText(a + b) == PiecesText(a) + PiecesText(b)
  {
    if a == [] {
      assert a + b == b;
    } else {
      assert (a + b)[1..] == a[1..] + b;
      PiecesTextConcat(a[1..], b);
    }
  }

  function Segments(ps: seq<Piece>): nat {
    |PathSegments(PiecesText(ps))|
  }

  lemma TextAround(a: seq<Piece>, p: Piece, b: seq<Piece>)
    ensures PiecesText(a + [p] + b) == PiecesText(a) + PieceText(p) + PiecesText(b)
  {
    PiecesTextConcat(a + [p], b);
    PiecesTextConcat(a, [p]);
    assert PiecesText([p]) == PieceText(p) by { assert [p][1..] == []; }
  }

  /** A text that holds some braces has one segment more than it has slashes left after trimming. */
  lemma {:induction false} SegmentsAround(a: string, m: string, b: string)
    requires m != "" && m[0] != '/' && m[|m| - 1] != '/'
    ensures |PathSegments(a + m + b)| ==
              Count(TrimLeft(a, '/'), '/') + Count(m, '/') + Count(TrimRight(b, '/'), '/') + 1
  {
    var l, r := TrimLeft(a, '/'), TrimRight(b, '/');
    TrimMiddle(a, m, b, '/');
    SplitCount(l + m + r, '/');
    CountConcat(l + m, r, '/');
    CountConcat(l, m, '/');
  }

  lemma CountBraces(p: Piece)
    requires p.Var?
    ensures Count(PieceText(p), '/') == Count(p.raw, '/')
  {
    CountConcat("{" + p.raw, "}", '/');
    CountConcat("{", p.raw, '/');
    CountZero("{", '/');
    CountZero("}", '/');
  }

  /** Emptying one pair of braces removes exactly the segment breaks that were inside. */
  lemma BareOne(a: seq<Piece>, p: Piece, b: seq<Piece>)
    requires p.Var?
    ensures Segments(a + [p] + b) == Segments(a + [Bare(p)] + b) + Count(p.raw, '/')
  {
    TextAround(a, p, b);
    TextAround(a, Bare(p), b);
    SegmentsAround(PiecesText(a), PieceText(p), PiecesText(b));
    SegmentsAround(PiecesText(a), PieceText(Bare(p)), PiecesText(b));
    CountBraces(p);
    CountBraces(Bare(p));
  }

  lemma BareStep(ps: seq<Piece>, n: nat)
    requires n < |ps|
    ensures Segments(BareTo(ps, n + 1)) <= Segments(BareTo(ps, n))
    ensures ps[n].Var? && '/' in ps[n].raw ==> Segments(BareTo(ps, n + 1)) < Segments(BareTo(ps, n))
  {
    hide PathSegments, Segments;
    var a, b := BareTo(ps, n)[..n], ps[n + 1..];
    assert BareTo(ps, n) == a + [ps[n]] + b;
    assert BareTo(ps, n + 1) == a + [Bare(ps[n])] + b;
    if ps[n].Var? {
      BareOne(a, ps[n], b);
      CountZero(ps[n].raw, '/');
    }
  }

  lemma {:induction false} BareFewer(ps: seq<Piece>, n: nat)
    requires n <= |ps|
    ensures Segments(BareTo(ps, n)) <= Segments(ps)
  {
    hide Segments, PathSegments;
    if n == 0 {
      assert BareTo(ps, 0) == ps;
    } else {
      BareFewer(ps, n - 1);
      BareStep(ps, n - 1);
    }
  }

  lemma {:induction false} BareStrictlyFewer(ps: seq<Piece>, k: nat, n: nat)
    requires k < n <= |ps| && ps[k].Var? && '/' in ps[k].raw
    ensures Segments(BareTo(ps, n)) < Segments(ps)
  {
    hide Segments, PathSegments;
    BareStep(ps, n - 1);
    if k == n - 1 {
      BareFewer(ps, n - 1);
    } else {
      BareStrictlyFewer(ps, k, n - 1);
    }
  }

  lemma {:induction false} InstanceBare(ps: seq<Piece>, s: string)
    requires Instance(ps, s)
    ensures Instance(BareTo(ps, |ps|), s)
  {
    if ps != [] {
      var k :| 0 <= k <= |s| && PieceFits(ps[0], s[..k]) && Instance(ps[1..], s[k..]);
      InstanceBare(ps[1..], s[k..]);
      assert BareTo(ps, |ps|)[1..] == BareTo(ps[1..], |ps| - 1);
    }
  }

  lemma {:induction false} MoreSegments(ps: seq<Piece>, s: string)
    requires WellFormed(ps) && SlashInBraces(ps) && Instance(ps, s)
    ensures |PathSegments(PiecesText(ps))| > |PathSegments(s)|
  {
    var bare := BareTo(ps, |ps|);
    assert forall p | p in bare :: p.Var? ==> p.raw == "";
    assert WellFormed(bare) by {
      forall p | p in bare && p.Text? ensures '{' !in p.text { assert p in ps; }
    }
    InstanceBare(ps, s);
    InstanceAligned(bare, s);
    AlignedSegments(PiecesText(bare), s);
    var p :| p in ps && p.Var? && '/' in p.raw;
    var k :| 0 <= k < |ps| && ps[k] == p;
    BareStrictlyFewer(ps, k, |ps|);
  }

  // ----- The theorem -----

  /**
   For every indexable template and every path its pattern accepts: the template's segments line up
   with the path's one for one, literals equal and parameters non-empty, exactly when no pair of
   braces holds a slash. With a slash between braces the template always has too many segments.
   */
  lemma IndexableLinesUp(t: Template, path: string)
    requires WellFormed(t.pieces) && IsIndexable(PathRegexp(t)) && Accepts(PathRegexp(t), path)
    ensures !SlashInBraces(t.pieces) <==> Aligned(PathSegments(TemplateText(t)), PathSegments(path))
    ensures SlashInBraces(t.pieces) <==> |PathSegments(TemplateText(t))| > |PathSegments(path)|
  {
    hide PathSegments, IsIndexable, PathRegexp, Accepts, SegmentFits, Instance;
    var core := AcceptedIsInstance(t, path);
    TrailingSlashIgnored(core);
    TrailingSlashIgnored(PiecesText(t.pieces));
    assert PiecesText(t.pieces) + "" == PiecesText(t.pieces);
    if SlashInBraces(t.pieces) {
      MoreSegments(t.pieces, core);
    } else {
      InstanceAligned(t.pieces, core);
      AlignedSegments(PiecesText(t.pieces), core);
    }
  }
}
