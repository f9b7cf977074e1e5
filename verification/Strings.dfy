/**
 The string operations the route table is built on (Go's strings.Split, strings.Join and
 strings.Trim with a one-character separator), and how they interact.
 */
module Strings {

  function Count(s: string, c: char): nat {
    if s == "" then 0 else (if s[0] == c then 1 else 0) + Count(s[1..], c)
  }

  function Split(s: string, c: char): (parts: seq<string>)
    ensures parts != []
  {
    if s == "" then
      [""]
    else
      var rest := Split(s[1..], c);
      if s[0] == c then [""] + rest else Push(s[0], rest)
  }

  /** Puts a character in front of the first part. */
  function Push(ch: char, parts: seq<string>): (r: seq<string>)
    requires parts != []
    ensures |r| == |parts|
  {
    [[ch] + parts[0]] + parts[1..]
  }

  function Join(parts: seq<string>, c: char): string
    requires parts != []
  {
    if |parts| == 1 then parts[0] else parts[0] + [c] + Join(parts[1..], c)
  }

  function TrimLeft(s: string, c: char): string {
    if s != "" && s[0] == c then TrimLeft(s[1..], c) else s
  }

  function TrimRight(s: string, c: char): string {
    if s != "" && s[|s| - 1] == c then TrimRight(s[..|s| - 1], c) else s
  }

  function Trim(s: string, c: char): string {
    TrimRight(TrimLeft(s, c), c)
  }

  /** Two split texts laid end to end: the last part of the first joins the first part of the second. */
  function Glue(x: seq<string>, y: seq<string>): (z: seq<string>)
    requires x != [] && y != []
    ensures |z| == |x| + |y| - 1
  {
    x[..|x| - 1] + [x[|x| - 1] + y[0]] + y[1..]
  }

  lemma GlueCons(h: string, x: seq<string>, y: seq<string>)
    requires x != [] && y != []
    ensures Glue([h] + x, y) == [h] + Glue(x, y)
  {
    var hx := [h] + x;
    assert hx[..|hx| - 1] == [h] + x[..|x| - 1];
  }

  lemma GluePush(ch: char, x: seq<string>, y: seq<string>)
    requires x != [] && y != []
    ensures Glue(Push(ch, x), y) == Push(ch, Glue(x, y))
  {
    var px := Push(ch, x);
    if |x| == 1 {
      assert ([ch] + x[0]) + y[0] == [ch] + (x[0] + y[0]);
    } else {
      assert px[..|px| - 1] == Push(ch, x[..|x| - 1]);
    }
    assert Glue(px, y) == Push(ch, Glue(x, y));
  }

  lemma {:induction false} SplitConcat(a: string, b: string, c: char)
    ensures Split(a + b, c) == Glue(Split(a, c), Split(b, c))
  {
    if a == "" {
      assert a + b == b;
      assert "" + Split(b, c)[0] == Split(b, c)[0];
    } else {
      SplitConcat(a[1..], b, c);
      assert (a + b)[1..] == a[1..] + b;
      if a[0] == c {
        GlueCons("", Split(a[1..], c), Split(b, c));
      } else {
        GluePush(a[0], Split(a[1..], c), Split(b, c));
      }
    }
  }

  lemma {:induction false} SplitFree(s: string, c: char)
    requires c !in s
    ensures Split(s, c) == [s]
  {
    if s != "" {
      SplitFree(s[1..], c);
      assert [s[0]] + s[1..] == s;
    }
  }

  /** A separator in the middle starts a new part. */
  lemma {:induction false} SplitAt(a: string, b: string, c: char)
    ensures Split(a + [c] + b, c) == Split(a, c) + Split(b, c)
  {
    var s := a + [c] + b;
    if a == "" {
      assert s[1..] == b;
    } else {
      assert s[1..] == a[1..] + [c] + b;
      SplitAt(a[1..], b, c);
      var x, y := Split(a[1..], c), Split(b, c);
      if a[0] == c {
        assert [""] + (x + y) == ([""] + x) + y;
      } else {
        assert Push(a[0], x + y) == Push(a[0], x) + y;
      }
    }
  }

  lemma {:induction false} SplitCount(s: string, c: char)
    ensures |Split(s, c)| == Count(s, c) + 1
  {
    if s != "" { SplitCount(s[1..], c); }
  }

  lemma {:induction false} CountConcat(a: string, b: string, c: char)
    ensures Count(a + b, c) == Count(a, c) + Count(b, c)
  {
    if a == "" {
      assert a + b == b;
    } else {
      assert (a + b)[1..] == a[1..] + b;
      CountConcat(a[1..], b, c);
    }
  }

  lemma {:induction false} CountZero(s: string, c: char)
    ensures Count(s, c) == 0 <==> c !in s
  {
    if s != "" {
      CountZero(s[1..], c);
      assert s == [s[0]] + s[1..];
    }
  }

  lemma {:induction false} SplitPartsFree(s: string, c: char)
    ensures forall p | p in Split(s, c) :: c !in p
  {
    if s != "" { SplitPartsFree(s[1..], c); }
  }

  lemma {:induction false} JoinSplit(s: string, c: char)
    ensures Join(Split(s, c), c) == s
  {
    if s != "" {
      JoinSplit(s[1..], c);
      var rest := Split(s[1..], c);
      assert s == [s[0]] + s[1..];
      if s[0] == c {
        assert ([""] + rest)[1..] == rest;
      } else if |rest| > 1 {
        assert Push(s[0], rest)[1..] == rest[1..];
      }
    }
  }

  lemma {:induction false} SplitJoin(parts: seq<string>, c: char)
    requires parts != [] && forall p | p in parts :: c !in p
    ensures Split(Join(parts, c), c) == parts
  {
    SplitFree(parts[0], c);
    if |parts| > 1 {
      SplitJoin(parts[1..], c);
      SplitAt(parts[0], Join(parts[1..], c), c);
    }
  }

  // ----- Trimming, seen on the split text -----

  /** Drops leading empty parts, keeping at least one part. */
  function DropLeading(parts: seq<string>): (r: seq<string>)
    requires parts != []
    ensures r != []
  {
    if |parts| > 1 && parts[0] == "" then DropLeading(parts[1..]) else parts
  }

  function DropTrailing(parts: seq<string>): (r: seq<string>)
    requires parts != []
    ensures r != []
  {
    if |parts| > 1 && parts[|parts| - 1] == "" then DropTrailing(parts[..|parts| - 1]) else parts
  }

  lemma {:induction false} SplitTrimLeft(s: string, c: char)
    ensures Split(TrimLeft(s, c), c) == DropLeading(Split(s, c))
  {
    if s != "" && s[0] == c {
      SplitTrimLeft(s[1..], c);
      assert Split(s, c)[1..] == Split(s[1..], c);
    }
  }

  lemma {:induction false} SplitTrimRight(s: string, c: char)
    ensures Split(TrimRight(s, c), c) == DropTrailing(Split(s, c))
  {
    if s != "" {
      var front, last := s[..|s| - 1], s[|s| - 1..];
      assert s == front + last;
      SplitConcat(front, last, c);
      var x := Split(front, c);
      if s[|s| - 1] == c {
        assert last == [c] && Split(last[1..], c) == [""];
        assert Split(s, c) == x + [""] by { assert x[|x| - 1] + "" == x[|x| - 1]; }
        assert (x + [""])[..|x|] == x;
        SplitTrimRight(front, c);
      } else {
        SplitFree(last, c);
      }
    }
  }

  lemma SplitTrim(s: string, c: char)
    ensures Split(Trim(s, c), c) == DropTrailing(DropLeading(Split(s, c)))
  {
    SplitTrimLeft(s, c);
    SplitTrimRight(TrimLeft(s, c), c);
  }

  lemma SplitEmpty(s: string, c: char)
    ensures Split(s, c) == [""] <==> s == ""
  {
    if Split(s, c) == [""] { JoinSplit(s, c); }
  }

  lemma {:induction false} TrimLeftMiddle(a: string, m: string, c: char)
    requires m != "" && m[0] != c
    ensures TrimLeft(a + m, c) == TrimLeft(a, c) + m
  {
    if a == "" {
      assert a + m == m;
    } else if a[0] == c {
      assert (a + m)[1..] == a[1..] + m;
      TrimLeftMiddle(a[1..], m, c);
    }
  }

  lemma {:induction false} TrimRightMiddle(m: string, b: string, c: char)
    requires m != "" && m[|m| - 1] != c
    ensures TrimRight(m + b, c) == m + TrimRight(b, c)
  {
    if b == "" {
      assert m + b == m;
    } else if b[|b| - 1] == c {
      assert (m + b)[..|m + b| - 1] == m + b[..|b| - 1];
      TrimRightMiddle(m, b[..|b| - 1], c);
    }
  }

  /** A middle that neither starts nor ends with the trimmed character survives whole. */
  lemma TrimMiddle(a: string, m: string, b: string, c: char)
    requires m != "" && m[0] != c && m[|m| - 1] != c
    ensures Trim(a + m + b, c) == TrimLeft(a, c) + m + TrimRight(b, c)
  {
    assert a + m + b == a + (m + b);
    TrimLeftMiddle(a, m + b, c);
    assert TrimLeft(a, c) + (m + b) == (TrimLeft(a, c) + m) + b;
    TrimRightMiddle(TrimLeft(a, c) + m, b, c);
  }
}
