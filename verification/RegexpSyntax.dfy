/**
 The syntax trees of Go's regexp/syntax package, the strings they accept, and the static analysis
 pkg/gofr/http/trie_router.go runs over them before it lets a route into the trie.
 */
module RegexpSyntax {

  datatype Regexp =
    | NoMatch
    | EmptyMatch
    | Literal(runes: string, foldCase: bool)
    | CharClass(ranges: string)              // inclusive [lo, hi] pairs, flattened
    | AnyCharNotNL
    | AnyChar
    | BeginLine
    | EndLine
    | BeginText
    | EndText
    | WordBoundary
    | NoWordBoundary
    | Capture(sub: Regexp)
    | Star(sub: Regexp)
    | Plus(sub: Regexp)
    | Quest(sub: Regexp)
    | Repeat(sub: Regexp, min: nat, max: int) // max < 0: no upper bound
    | Concat(subs: seq<Regexp>)
    | Alternate(subs: seq<Regexp>)

  // ----- What a tree accepts -----

  function Lower(c: char): char {
    if 'A' <= c <= 'Z' then ((c as int) + 32) as char else c
  }

  predicate RuneMatches(r: char, foldCase: bool, c: char) {
    r == c || (foldCase && Lower(r) == Lower(c))
  }

  predicate IsWordChar(s: string, i: int) {
    0 <= i < |s| && ('a' <= s[i] <= 'z' || 'A' <= s[i] <= 'Z' || '0' <= s[i] <= '9' || s[i] == '_')
  }

  predicate InClass(ranges: string, c: char) {
    exists i | 0 <= i < |ranges| - 1 :: i % 2 == 0 && ranges[i] <= c <= ranges[i + 1]
  }

  /** re accepts s[i..j] inside the text s. Positions matter because of the zero-width assertions. */
  ghost predicate Matches(re: Regexp, s: string, i: nat, j: nat)
    requires i <= j <= |s|
    decreases re, 0, 0
  {
    match re
    case NoMatch => false
    case EmptyMatch => i == j
    case Literal(runes, fold) =>
      j - i == |runes| && forall k | 0 <= k < |runes| :: RuneMatches(runes[k], fold, s[i + k])
    case CharClass(ranges) => j == i + 1 && InClass(ranges, s[i])
    case AnyCharNotNL => j == i + 1 && s[i] != '\n'
    case AnyChar => j == i + 1
    case BeginLine => i == j && (i == 0 || s[i - 1] == '\n')
    case EndLine => i == j && (j == |s| || s[j] == '\n')
    case BeginText => i == j == 0
    case EndText => i == j == |s|
    case WordBoundary => i == j && IsWordChar(s, i - 1) != IsWordChar(s, i)
    case NoWordBoundary => i == j && IsWordChar(s, i - 1) == IsWordChar(s, i)
    case Capture(sub) => Matches(sub, s, i, j)
    case Star(sub) => exists n: nat :: MatchesTimes(sub, s, i, j, n)
    case Plus(sub) => exists n: nat :: n >= 1 && MatchesTimes(sub, s, i, j, n)
    case Quest(sub) => i == j || Matches(sub, s, i, j)
    case Repeat(sub, min, max) =>
      exists n: nat :: min <= n && (max < 0 || n <= max) && MatchesTimes(sub, s, i, j, n)
    case Concat(subs) => MatchesAll(subs, s, i, j)
    case Alternate(subs) => exists k | 0 <= k < |subs| :: Matches(subs[k], s, i, j)
  }

  /** n copies of re, one after the other. */
  ghost predicate MatchesTimes(re: Regexp, s: string, i: nat, j: nat, n: nat)
    requires i <= j <= |s|
    decreases re, 1, n
  {
    if n == 0 then i == j
    else exists k | i <= k <= j :: Matches(re, s, i, k) && MatchesTimes(re, s, k, j, n - 1)
  }

  /** The trees one after the other. */
  ghost predicate MatchesAll(subs: seq<Regexp>, s: string, i: nat, j: nat)
    requires i <= j <= |s|
    decreases subs, 0, 0
  {
    if subs == [] then i == j
    else exists k | i <= k <= j :: Matches(subs[0], s, i, k) && MatchesAll(subs[1..], s, k, j)
  }

  /** regexp.MatchString: some substring matches. */
  ghost predicate Accepts(re: Regexp, s: string) {
    exists i: nat, j: nat | i <= j <= |s| :: Matches(re, s, i, j)
  }

  // ----- The analysis -----

  predicate CanMatchEmpty(re: Regexp) {
    match re
    case Literal(runes, _) => runes == ""
    case CharClass(_) => false
    case AnyChar => false
    case AnyCharNotNL => false
    case NoMatch => false
    case Capture(sub) => CanMatchEmpty(sub)
    case Plus(sub) => CanMatchEmpty(sub)
    case Repeat(sub, min, _) => min == 0 || CanMatchEmpty(sub)
    case Concat(subs) => forall k | 0 <= k < |subs| :: CanMatchEmpty(subs[k])
    case Alternate(subs) => exists k | 0 <= k < |subs| :: CanMatchEmpty(subs[k])
    case _ => true
  }

  /** Whether this node, ignoring its children, can contribute a '/'. */
  predicate OpEmitsSlash(re: Regexp) {
    match re
    case AnyChar => true
    case AnyCharNotNL => true
    case Literal(runes, _) => '/' in runes
    case CharClass(ranges) => InClass(ranges, '/')
    case _ => false
  }

  function Children(re: Regexp): (subs: seq<Regexp>)
    ensures forall k | 0 <= k < |subs| :: subs[k] < re
  {
    match re
    case Capture(sub) => [sub]
    case Star(sub) => [sub]
    case Plus(sub) => [sub]
    case Quest(sub) => [sub]
    case Repeat(sub, _, _) => [sub]
    case Concat(subs) => subs
    case Alternate(subs) => subs
    case _ => []
  }

  predicate MayMatchSlash(re: Regexp) {
    OpEmitsSlash(re) || exists k | 0 <= k < |Children(re)| :: MayMatchSlash(Children(re)[k])
  }

  predicate CapturesAreSingleSegment(re: Regexp) {
    && !(re.Capture? && (MayMatchSlash(re) || CanMatchEmpty(re)))
    && forall k | 0 <= k < |Children(re)| :: CapturesAreSingleSegment(Children(re)[k])
  }

  predicate IsAnchoredBothEnds(re: Regexp) {
    && re.Concat? && |re.subs| >= 2
    && (re.subs[0].BeginText? || re.subs[0].BeginLine?)
    && (re.subs[|re.subs| - 1].EndText? || re.subs[|re.subs| - 1].EndLine?)
  }

  predicate IsIndexable(re: Regexp) {
    IsAnchoredBothEnds(re) && CapturesAreSingleSegment(re)
  }

  // ----- Soundness of canMatchEmpty -----

  /** A tree the analysis calls non-empty consumes at least one character, whatever surrounds it. */
  lemma {:induction false} NonEmptySound(re: Regexp, s: string, i: nat, j: nat)
    requires i <= j <= |s| && Matches(re, s, i, j) && !CanMatchEmpty(re)
    ensures i < j
    decreases re, 0, 0
  {
    match re
    case Capture(sub) =>
      NonEmptySound(sub, s, i, j);
    case Plus(sub) =>
      var n: nat :| n >= 1 && MatchesTimes(sub, s, i, j, n);
      NonEmptyTimes(sub, s, i, j, n);
    case Repeat(sub, min, max) =>
      var n: nat :| min <= n && (max < 0 || n <= max) && MatchesTimes(sub, s, i, j, n);
      NonEmptyTimes(sub, s, i, j, n);
    case Concat(subs) =>
      var k :| 0 <= k < |subs| && !CanMatchEmpty(subs[k]);
      NonEmptyAll(subs, s, i, j, k);
    case Alternate(subs) =>
      var k :| 0 <= k < |subs| && Matches(subs[k], s, i, j);
      NonEmptySound(subs[k], s, i, j);
    case _ =>
  }

  lemma {:induction false} NonEmptyTimes(re: Regexp, s: string, i: nat, j: nat, n: nat)
    requires i <= j <= |s| && n >= 1 && MatchesTimes(re, s, i, j, n) && !CanMatchEmpty(re)
    ensures i < j
    decreases re, 1, n
  {
    var k :| i <= k <= j && Matches(re, s, i, k) && MatchesTimes(re, s, k, j, n - 1);
    NonEmptySound(re, s, i, k);
  }

  lemma {:induction false} NonEmptyAll(subs: seq<Regexp>, s: string, i: nat, j: nat, p: nat)
    requires i <= j <= |s| && MatchesAll(subs, s, i, j)
    requires p < |subs| && !CanMatchEmpty(subs[p])
    ensures i < j
    decreases subs, 0, 0
  {
    var k :| i <= k <= j && Matches(subs[0], s, i, k) && MatchesAll(subs[1..], s, k, j);
    if p == 0 {
      NonEmptySound(subs[0], s, i, k);
    } else {
      NonEmptyAll(subs[1..], s, k, j, p - 1);
    }
  }

  // ----- Soundness of reNodeMayMatchSlash -----

  lemma {:induction false} SlashFreeSound(re: Regexp, s: string, i: nat, j: nat)
    requires i <= j <= |s| && Matches(re, s, i, j) && !MayMatchSlash(re)
    ensures '/' !in s[i..j]
    decreases re, 0, 0
  {
    assert forall k | 0 <= k < |Children(re)| :: !MayMatchSlash(Children(re)[k]);
    match re
    case Literal(runes, fold) =>
      forall p | i <= p < j ensures s[p] != '/' {
        assert RuneMatches(runes[p - i], fold, s[i + (p - i)]);
      }
    case Capture(sub) =>
      assert Children(re)[0] == sub;
      SlashFreeSound(sub, s, i, j);
    case Star(sub) =>
      assert Children(re)[0] == sub;
      var n: nat :| MatchesTimes(sub, s, i, j, n);
      SlashFreeTimes(sub, s, i, j, n);
    case Plus(sub) =>
      assert Children(re)[0] == sub;
      var n: nat :| n >= 1 && MatchesTimes(sub, s, i, j, n);
      SlashFreeTimes(sub, s, i, j, n);
    case Quest(sub) =>
      assert Children(re)[0] == sub;
      if i < j { SlashFreeSound(sub, s, i, j); }
    case Repeat(sub, min, max) =>
      assert Children(re)[0] == sub;
      var n: nat :| min <= n && (max < 0 || n <= max) && MatchesTimes(sub, s, i, j, n);
      SlashFreeTimes(sub, s, i, j, n);
    case Concat(subs) =>
      assert Children(re) == subs;
      SlashFreeAll(subs, s, i, j);
    case Alternate(subs) =>
      assert Children(re) == subs;
      var k :| 0 <= k < |subs| && Matches(subs[k], s, i, j);
      SlashFreeSound(subs[k], s, i, j);
    case _ =>
  }

  lemma {:induction false} SlashFreeTimes(re: Regexp, s: string, i: nat, j: nat, n: nat)
    requires i <= j <= |s| && MatchesTimes(re, s, i, j, n) && !MayMatchSlash(re)
    ensures '/' !in s[i..j]
    decreases re, 1, n
  {
    if n > 0 {
      var k :| i <= k <= j && Matches(re, s, i, k) && MatchesTimes(re, s, k, j, n - 1);
      SlashFreeSound(re, s, i, k);
      SlashFreeTimes(re, s, k, j, n - 1);
      assert s[i..j] == s[i..k] + s[k..j];
    }
  }

  lemma {:induction false} SlashFreeAll(subs: seq<Regexp>, s: string, i: nat, j: nat)
    requires i <= j <= |s| && MatchesAll(subs, s, i, j)
    requires forall k | 0 <= k < |subs| :: !MayMatchSlash(subs[k])
    ensures '/' !in s[i..j]
    decreases subs, 0, 0
  {
    if subs != [] {
      var k :| i <= k <= j && Matches(subs[0], s, i, k) && MatchesAll(subs[1..], s, k, j);
      SlashFreeSound(subs[0], s, i, k);
      SlashFreeAll(subs[1..], s, k, j);
      assert s[i..j] == s[i..k] + s[k..j];
    }
  }

  // ----- The empty-match analysis is exact when no zero-width assertion is involved -----

  /** No zero-width assertion anywhere, and every counted repetition has a possible count. */
  predicate AssertionFree(re: Regexp) {
    && !re.BeginLine? && !re.EndLine? && !re.BeginText? && !re.EndText?
    && !re.WordBoundary? && !re.NoWordBoundary?
    && (re.Repeat? ==> re.max < 0 || re.min <= re.max)
    && forall k | 0 <= k < |Children(re)| :: AssertionFree(Children(re)[k])
  }

  lemma {:induction false} EmptyMatchExact(re: Regexp, s: string, i: nat)
    requires i <= |s| && AssertionFree(re)
    ensures CanMatchEmpty(re) <==> Matches(re, s, i, i)
    decreases re, 0
  {
    if !CanMatchEmpty(re) {
      if Matches(re, s, i, i) { NonEmptySound(re, s, i, i); }
    } else {
      match re
      case Capture(sub) =>
        assert Children(re)[0] == sub;
        EmptyMatchExact(sub, s, i);
      case Star(sub) =>
        assert MatchesTimes(sub, s, i, i, 0);
      case Plus(sub) =>
        assert Children(re)[0] == sub;
        EmptyMatchExact(sub, s, i);
        EmptyTimes(sub, s, i, 1);
      case Repeat(sub, min, max) =>
        assert Children(re)[0] == sub;
        if min == 0 {
          assert MatchesTimes(sub, s, i, i, 0);
        } else {
          EmptyMatchExact(sub, s, i);
          EmptyTimes(sub, s, i, min);
        }
      case Concat(subs) =>
        assert Children(re) == subs;
        EmptyAll(subs, s, i);
      case Alternate(subs) =>
        var k :| 0 <= k < |subs| && CanMatchEmpty(subs[k]);
        assert Children(re)[k] == subs[k];
        EmptyMatchExact(subs[k], s, i);
      case _ =>
    }
  }

  lemma {:induction false} EmptyTimes(re: Regexp, s: string, i: nat, n: nat)
    requires i <= |s| && Matches(re, s, i, i)
    ensures MatchesTimes(re, s, i, i, n)
  {
    if n > 0 { EmptyTimes(re, s, i, n - 1); }
  }

  lemma {:induction false} EmptyAll(subs: seq<Regexp>, s: string, i: nat)
    requires i <= |s|
    requires forall k | 0 <= k < |subs| :: AssertionFree(subs[k]) && CanMatchEmpty(subs[k])
    ensures MatchesAll(subs, s, i, i)
    decreases subs, 0
  {
    if subs != [] {
      EmptyMatchExact(subs[0], s, i);
      EmptyAll(subs[1..], s, i);
    }
  }
}
