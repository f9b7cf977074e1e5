/**
 The other direction of the slash analysis: on trees that can match at all and hold no zero-width
 assertion, a tree it flags really does match some text with a slash in it.
 */
module RegexpExact {
  import opened RegexpSyntax

  predicate HasMember(ranges: string) {
    exists i | 0 <= i < |ranges| - 1 :: i % 2 == 0 && ranges[i] <= ranges[i + 1]
  }

  /** Every part of the tree can match something and can be reached. */
  predicate Productive(re: Regexp) {
    && !re.NoMatch? && !re.BeginLine? && !re.EndLine? && !re.BeginText? && !re.EndText?
    && !re.WordBoundary? && !re.NoWordBoundary?
    && (re.CharClass? ==> HasMember(re.ranges))
    && (re.Repeat? ==> re.max < 0 || (re.min <= re.max && 1 <= re.max))
    && (re.Alternate? ==> re.subs != [])
    && forall k | 0 <= k < |Children(re)| :: Productive(Children(re)[k])
  }

  /** re matches s inside any text. */
  ghost predicate Yields(re: Regexp, s: string) {
    forall pre: string, post: string :: Matches(re, pre + s + post, |pre|, |pre| + |s|)
  }

  ghost predicate YieldsAll(subs: seq<Regexp>, s: string) {
    forall pre: string, post: string :: MatchesAll(subs, pre + s + post, |pre|, |pre| + |s|)
  }

  ghost predicate YieldsTimes(re: Regexp, s: string, n: nat) {
    forall pre: string, post: string :: MatchesTimes(re, pre + s + post, |pre|, |pre| + |s|, n)
  }

  lemma AllCons(re: Regexp, subs: seq<Regexp>, x: string, y: string)
    requires Yields(re, x) && YieldsAll(subs, y)
    ensures YieldsAll([re] + subs, x + y)
  {
    forall pre: string, post: string ensures MatchesAll([re] + subs, pre + (x + y) + post, |pre|, |pre| + |x + y|) {
      var s, k := pre + (x + y) + post, |pre| + |x|;
      assert s == pre + x + (y + post) && s == (pre + x) + y + post;
      assert Matches(re, pre + x + (y + post), |pre|, |pre| + |x|);
      assert MatchesAll(subs, (pre + x) + y + post, |pre + x|, |pre + x| + |y|);
      assert ([re] + subs)[1..] == subs;
    }
  }

  lemma TimesCons(re: Regexp, x: string, y: string, n: nat)
    requires Yields(re, x) && YieldsTimes(re, y, n)
    ensures YieldsTimes(re, x + y, n + 1)
  {
    forall pre: string, post: string ensures MatchesTimes(re, pre + (x + y) + post, |pre|, |pre| + |x + y|, n + 1) {
      var s := pre + (x + y) + post;
      assert s == pre + x + (y + post) && s == (pre + x) + y + post;
      assert Matches(re, pre + x + (y + post), |pre|, |pre| + |x|);
      assert MatchesTimes(re, (pre + x) + y + post, |pre + x|, |pre + x| + |y|, n);
    }
  }

  lemma OneChar(re: Regexp, c: char)
    requires re == AnyChar || (re == AnyCharNotNL && c != '\n') || (re.CharClass? && InClass(re.ranges, c))
    ensures Yields(re, [c])
  {
    forall pre: string, post: string ensures Matches(re, pre + [c] + post, |pre|, |pre| + 1) {
      assert (pre + [c] + post)[|pre|] == c;
    }
  }

  lemma LiteralText(runes: string, fold: bool)
    ensures Yields(Literal(runes, fold), runes)
  {
    forall pre: string, post: string ensures Matches(Literal(runes, fold), pre + runes + post, |pre|, |pre| + |runes|) {
      forall k | 0 <= k < |runes| ensures (pre + runes + post)[|pre| + k] == runes[k] {}
    }
  }

  /** Repeating the operand n times is one way for re to match. */
  predicate Allows(re: Regexp, n: nat) {
    || re.Star?
    || (re.Plus? && n >= 1)
    || (re.Repeat? && re.min <= n && (re.max < 0 || n <= re.max))
  }

  lemma FromTimes(re: Regexp, s: string, n: nat)
    requires Allows(re, n) && YieldsTimes(re.sub, s, n)
    ensures Yields(re, s)
  {
    forall pre: string, post: string ensures Matches(re, pre + s + post, |pre|, |pre| + |s|) {
      assert MatchesTimes(re.sub, pre + s + post, |pre|, |pre| + |s|, n);
    }
  }

  lemma FromSame(re: Regexp, sub: Regexp, s: string)
    requires Yields(sub, s)
    requires (re.Capture? && re.sub == sub) || (re.Quest? && re.sub == sub) || (re.Alternate? && sub in re.subs)
    ensures Yields(re, s)
  {
    forall pre: string, post: string ensures Matches(re, pre + s + post, |pre|, |pre| + |s|) {
      assert Matches(sub, pre + s + post, |pre|, |pre| + |s|);
    }
  }

  lemma FromAll(subs: seq<Regexp>, s: string)
    requires YieldsAll(subs, s)
    ensures Yields(Concat(subs), s)
  {
    forall pre: string, post: string ensures Matches(Concat(subs), pre + s + post, |pre|, |pre| + |s|) {
      assert MatchesAll(subs, pre + s + post, |pre|, |pre| + |s|);
    }
  }

  lemma NoTimes(re: Regexp)
    ensures YieldsTimes(re, "", 0)
  {
  }

  lemma {:induction false} Repeated(re: Regexp, x: string, n: nat) returns (s: string)
    requires Yields(re, x)
    ensures YieldsTimes(re, s, n)
  {
    if n == 0 {
      NoTimes(re);
      s := "";
    } else {
      var rest := Repeated(re, x, n - 1);
      TimesCons(re, x, rest, n - 1);
      s := x + rest;
    }
  }

  /** How often a repetition is taken to reach its operand at least once. */
  function Count(re: Regexp): nat
    requires re.Star? || re.Plus? || re.Repeat?
  {
    if re.Repeat? && re.min > 1 then re.min else 1
  }

  lemma {:induction false} SomeMatch(re: Regexp) returns (s: string)
    requires Productive(re)
    ensures Yields(re, s)
    decreases re, 0
  {
    if re.EmptyMatch? {
      s := "";
    } else if re.Literal? {
      LiteralText(re.runes, re.foldCase);
      s := re.runes;
    } else if re.CharClass? {
      var i :| 0 <= i < |re.ranges| - 1 && i % 2 == 0 && re.ranges[i] <= re.ranges[i + 1];
      OneChar(re, re.ranges[i]);
      s := [re.ranges[i]];
    } else if re.AnyChar? || re.AnyCharNotNL? {
      OneChar(re, '/');
      s := "/";
    } else if re.Concat? {
      assert Children(re) == re.subs;
      s := SomeMatches(re.subs);
      FromAll(re.subs, s);
    } else {
      var first := Children(re)[0];
      assert Productive(first);
      s := SomeMatch(first);
      if re.Capture? || re.Quest? || re.Alternate? {
        FromSame(re, first, s);
      } else {
        s := Repeated(first, s, Count(re));
        FromTimes(re, s, Count(re));
      }
    }
  }

  lemma {:induction false} SomeMatches(subs: seq<Regexp>) returns (s: string)
    requires forall k | 0 <= k < |subs| :: Productive(subs[k])
    ensures YieldsAll(subs, s)
    decreases subs, 0
  {
    if subs == [] {
      s := "";
    } else {
      var x := SomeMatch(subs[0]);
      var y := SomeMatches(subs[1..]);
      AllCons(subs[0], subs[1..], x, y);
      assert [subs[0]] + subs[1..] == subs;
      s := x + y;
    }
  }

  lemma {:induction false} SlashMatch(re: Regexp) returns (s: string)
    requires Productive(re) && MayMatchSlash(re)
    ensures Yields(re, s) && '/' in s
    decreases re, 0
  {
    if OpEmitsSlash(re) {
      if re.Literal? {
        LiteralText(re.runes, re.foldCase);
        s := re.runes;
      } else {
        OneChar(re, '/');
        s := "/";
      }
    } else {
      var k :| 0 <= k < |Children(re)| && MayMatchSlash(Children(re)[k]);
      assert Productive(Children(re)[k]);
      if re.Concat? {
        s := SlashInConcat(re.subs, k);
        FromAll(re.subs, s);
      } else {
        var x := SlashMatch(Children(re)[k]);
        if re.Capture? || re.Quest? || re.Alternate? {
          s := x;
          FromSame(re, Children(re)[k], s);
        } else {
          var rest := Repeated(re.sub, x, Count(re) - 1);
          TimesCons(re.sub, x, rest, Count(re) - 1);
          s := x + rest;
          FromTimes(re, s, Count(re));
        }
      }
    }
  }

  lemma {:induction false} SlashInConcat(subs: seq<Regexp>, k: nat) returns (s: string)
    requires (forall i | 0 <= i < |subs| :: Productive(subs[i])) && k < |subs| && MayMatchSlash(subs[k])
    ensures YieldsAll(subs, s) && '/' in s
    decreases subs, 0
  {
    var x, y;
    if k == 0 {
      x := SlashMatch(subs[0]);
      y := SomeMatches(subs[1..]);
    } else {
      x := SomeMatch(subs[0]);
      y := SlashInConcat(subs[1..], k - 1);
    }
    AllCons(subs[0], subs[1..], x, y);
    assert [subs[0]] + subs[1..] == subs;
    s := x + y;
  }

  /** On productive trees the slash analysis is exact. */
  lemma SlashExact(re: Regexp)
    requires Productive(re)
    ensures MayMatchSlash(re) <==> exists s :: Matches(re, s, 0, |s|) && '/' in s
  {
    if MayMatchSlash(re) {
      var s := SlashMatch(re);
      assert Matches(re, "" + s + "", 0, 0 + |s|);
      assert "" + s + "" == s;
    } else {
      forall s | Matches(re, s, 0, |s|) ensures '/' !in s {
        SlashFreeSound(re, s, 0, |s|);
        assert s[0..|s|] == s;
      }
    }
  }
}
