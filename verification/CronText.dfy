/**
 The written form of a cron part, and the proof that parsing it gives back what was written.
 */
module CronText {
  import opened Options
  import opened Strings
  import opened CronSchedule

  datatype Item = Single(v: nat) | Span(a: nat, b: nat)

  datatype Expr = Any | Every(n: nat) | SpanEvery(a: nat, b: nat, n: nat) | Items(items: seq<Item>)

  function Dec(n: nat): string {
    if n < 10 then [('0' as int + n) as char] else Dec(n / 10) + [('0' as int + n % 10) as char]
  }

  function WriteItem(i: Item): string {
    match i
    case Single(v) => Dec(v)
    case Span(a, b) => Dec(a) + "-" + Dec(b)
  }

  function WriteItems(items: seq<Item>): seq<string> {
    if items == [] then [] else WriteItems(items[..|items| - 1]) + [WriteItem(items[|items| - 1])]
  }

  function Write(e: Expr): string
    requires e.Items? ==> e.items != []
  {
    match e
    case Any => "*"
    case Every(n) => "*" + "/" + Dec(n)
    case SpanEvery(a, b, n) => (Dec(a) + "-" + Dec(b)) + "/" + Dec(n)
    case Items(items) => WriteItemsSize(items); Join(WriteItems(items), ',')
  }

  lemma {:induction false} WriteItemsSize(items: seq<Item>)
    ensures |WriteItems(items)| == |items|
  {
    if items != [] { WriteItemsSize(items[..|items| - 1]); }
  }

  function ItemMeaning(i: Item): set<int> {
    match i
    case Single(v) => {v}
    case Span(a, b) => Between(a, b)
  }

  function ItemsMeaning(items: seq<Item>): set<int> {
    if items == [] then {} else ItemsMeaning(items[..|items| - 1]) + ItemMeaning(items[|items| - 1])
  }

  function Meaning(e: Expr, lo: int, hi: int): set<int> {
    match e
    case Any => Stepped(lo, hi, 1)
    case Every(n) => Stepped(lo, hi, n)
    case SpanEvery(a, b, n) => Stepped(a, b, n)
    case Items(items) => ItemsMeaning(items)
  }

  predicate ItemFits(i: Item, lo: int, hi: int) {
    match i
    case Single(v) => lo <= v <= hi
    case Span(a, b) => lo <= a <= MAX_INT && b <= hi
  }

  /** The expression names values of the field, numbers the machine can hold, and at least one value if it is a list. */
  predicate Fits(e: Expr, lo: int, hi: int) {
    match e
    case Any => true
    case Every(n) => n <= MAX_INT
    case SpanEvery(a, b, n) => lo <= a <= MAX_INT && b <= hi && n <= MAX_INT
    case Items(items) =>
      items != [] && ItemsMeaning(items) != {} && forall k | 0 <= k < |items| :: ItemFits(items[k], lo, hi)
  }

  /** The step, if there is one, keeps its loop inside the range. */
  predicate Proper(e: Expr, lo: int, hi: int) {
    match e
    case Any => true
    case Every(n) => ProperStep(lo, hi, n)
    case SpanEvery(a, b, n) => ProperStep(a, b, n)
    case Items(_) => true
  }

  // ----- Numbers -----

  lemma {:induction false} DecDigits(n: nat)
    ensures AllDigits(Dec(n)) && DigitsValue(Dec(n)) == n
  {
    if n < 10 {
      assert Dec(n)[..0] == "";
    } else {
      DecDigits(n / 10);
      var s := Dec(n);
      assert s[..|s| - 1] == Dec(n / 10);
    }
  }

  lemma {:induction false} DigitRunOf(a: string, rest: string)
    requires AllDigits(a) && (rest != "" ==> !IsDigit(rest[0]))
    ensures DigitRun(a + rest) == |a|
  {
    assert IsDigit((a + rest)[0]);
    if |a| == 1 {
      assert (a + rest)[1..] == rest;
    } else {
      assert (a + rest)[1..] == a[1..] + rest;
      DigitRunOf(a[1..], rest);
    }
  }

  lemma RangeOf(a: string, b: string)
    requires AllDigits(a) && AllDigits(b)
    ensures MatchRange(a + "-" + b) == Some((a, b))
  {
    var s := a + "-" + b;
    assert s == a + ("-" + b);
    DigitRunOf(a, "-" + b);
    assert s[..|a|] == a && s[|a| + 1..] == b;
  }

  lemma NoRange(a: string)
    requires AllDigits(a)
    ensures MatchRange(a).None?
  {
    assert a + "" == a;
    DigitRunOf(a, "");
  }

  lemma DigitsOnly(s: string, c: char)
    requires AllDigits(s) && !IsDigit(c)
    ensures c !in s
  {
  }

  // ----- Steps -----

  /** Nothing from position k on is a slash before a digit. */
  predicate NoStepFrom(s: string, k: nat) {
    forall i | k <= i < |s| - 1 :: !(s[i] == '/' && IsDigit(s[i + 1]))
  }

  lemma {:induction false} LastSlashAt(s: string, i: nat, k: nat)
    requires i < k <= |s| && i + 1 < |s| && s[i] == '/' && IsDigit(s[i + 1]) && NoStepFrom(s, i + 1)
    ensures LastSlash(s, k) == Some(i)
  {
    if k > i + 1 {
      assert !(s[k - 1] == '/' && k < |s| && IsDigit(s[k]));
      LastSlashAt(s, i, k - 1);
    }
  }

  lemma {:induction false} NoSlash(s: string, k: nat)
    requires k <= |s| && '/' !in s
    ensures LastSlash(s, k).None?
  {
    if k > 0 { NoSlash(s, k - 1); }
  }

  /** A stepped part is found whatever trails it, and the trailer is dropped. */
  lemma StepOf(range: string, step: string, trailer: string)
    requires AllDigits(step) && (trailer != "" ==> !IsDigit(trailer[0])) && NoStepFrom(trailer, 0)
    ensures MatchStep(range + "/" + step + trailer) == Some((range, step))
  {
    var s, n := range + "/" + step + trailer, |range|;
    assert IsDigit(step[0]);
    assert s[n] == '/' && s[n + 1] == step[0];
    assert NoStepFrom(s, n + 1) by {
      forall i | n + 1 <= i < |s| - 1 ensures !(s[i] == '/' && IsDigit(s[i + 1])) {
        if i < n + 1 + |step| {
          assert s[i] == step[i - n - 1];
        } else {
          assert s[i] == trailer[i - n - 1 - |step|] && s[i + 1] == trailer[i - n - |step|];
        }
      }
    }
    LastSlashAt(s, n, |s|);
    assert s[n + 1..] == step + trailer;
    DigitRunOf(step, trailer);
    assert s[..n] == range && (step + trailer)[..|step|] == step;
  }

  // ----- Lists -----

  lemma ItemReads(i: Item, lo: int, hi: int)
    requires ItemFits(i, lo, hi) && hi < 0x1_0000
    ensures ItemField(WriteItem(i), lo, hi) == Ok(ItemMeaning(i))
  {
    match i
    case Single(v) =>
      DecDigits(v);
      NoRange(Dec(v));
      DigitsOnly(Dec(v), '+'); DigitsOnly(Dec(v), '-');
      assert Dec(v)[0] != '+' && Dec(v)[0] != '-';
    case Span(a, b) =>
      DecDigits(a);
      DecDigits(b);
      RangeOf(Dec(a), Dec(b));
      assert Saturated(Dec(a)) == a && Saturated(Dec(b)) == b;
  }

  lemma {:induction false} ItemsRead(items: seq<Item>, lo: int, hi: int)
    requires hi < 0x1_0000 && forall k | 0 <= k < |items| :: ItemFits(items[k], lo, hi)
    ensures ItemsField(WriteItems(items), lo, hi) == Ok(ItemsMeaning(items))
  {
    if items != [] {
      var n := |items| - 1;
      var parts := WriteItems(items);
      assert parts[..|parts| - 1] == WriteItems(items[..n]);
      ItemsRead(items[..n], lo, hi);
      ItemReads(items[n], lo, hi);
    }
  }

  lemma {:induction false} ItemsFree(items: seq<Item>, c: char)
    requires !IsDigit(c) && c != '-'
    ensures forall p | p in WriteItems(items) :: c !in p
  {
    if items != [] {
      var n := |items| - 1;
      ItemsFree(items[..n], c);
      match items[n]
      case Single(v) => DecDigits(v); DigitsOnly(Dec(v), c);
      case Span(a, b) => DecDigits(a); DecDigits(b); DigitsOnly(Dec(a), c); DigitsOnly(Dec(b), c);
    }
  }

  lemma {:induction false} JoinFree(parts: seq<string>, sep: char, c: char)
    requires parts != [] && c != sep && forall p | p in parts :: c !in p
    ensures c !in Join(parts, sep)
  {
    if |parts| > 1 { JoinFree(parts[1..], sep, c); }
  }

  // ----- The theorem -----

  lemma ListReads(items: seq<Item>, lo: int, hi: int)
    requires hi < 0x1_0000 && Fits(Items(items), lo, hi)
    ensures FieldOf(Write(Items(items)), lo, hi) == Ok(ItemsMeaning(items))
  {
    hide Join, Split, ItemsField, WriteItems, ItemsMeaning, LastSlash;
    WriteItemsSize(items);
    var parts := WriteItems(items);
    var s := Join(parts, ',');
    ItemsFree(items, ','); ItemsFree(items, '/'); ItemsFree(items, '*');
    JoinFree(parts, ',', '/'); JoinFree(parts, ',', '*');
    NoSlash(s, |s|);
    SplitJoin(parts, ',');
    ItemsRead(items, lo, hi);
    assert '*' in "*";
  }

  /**
   A stepped part is read as the loop over its range with its step, whatever that loop comes to, and
   what follows its digits changes nothing: every second value followed by ",5" is just every second value.
   */
  lemma StepReads(e: Expr, trailer: string, lo: int, hi: int)
    requires (e.Every? || e.SpanEvery?) && Fits(e, lo, hi) && hi < 0x1_0000
    requires (trailer != "" ==> !IsDigit(trailer[0])) && NoStepFrom(trailer, 0)
    ensures FieldOf(Write(e) + trailer, lo, hi) == if e.Every? then LoopField(lo, hi, e.n) else LoopField(e.a, e.b, e.n)
  {
    hide MatchStep, MatchRange, Dec, DigitsValue, LoopField;
    var range := if e.Every? then "*" else Dec(e.a) + "-" + Dec(e.b);
    DecDigits(e.n);
    StepOf(range, Dec(e.n), trailer);
    assert Write(e) + trailer == range + "/" + Dec(e.n) + trailer;
    if e.SpanEvery? {
      DecDigits(e.a);
      DecDigits(e.b);
      RangeOf(Dec(e.a), Dec(e.b));
      assert '-' in range && '-' !in "*";
    }
  }

  /**
   Parsing the written form of an expression that fits its field gives back the values it names, if and
   only if its step is proper.
   */
  lemma PartRoundTrip(e: Expr, lo: int, hi: int)
    requires Fits(e, lo, hi) && 0 <= lo && hi < 0x1_0000
    ensures FieldOf(Write(e), lo, hi) == Ok(Meaning(e, lo, hi)) <==> Proper(e, lo, hi)
  {
    hide LoopField, MatchStep, MatchRange, Dec, Join;
    match e
    case Any => ProperField(lo, hi, 1);
    case Items(items) => ListReads(items, lo, hi);
    case Every(n) =>
      StepReads(e, "", lo, hi);
      assert Write(e) + "" == Write(e);
      LoopIsStepped(lo, hi, n);
    case SpanEvery(a, b, n) =>
      StepReads(e, "", lo, hi);
      assert Write(e) + "" == Write(e);
      LoopIsStepped(a, b, n);
  }

  lemma LoopIsStepped(lo: int, hi: int, step: nat)
    requires 0 <= lo && hi < 0x1_0000 && step <= MAX_INT
    ensures LoopField(lo, hi, step) == Ok(Stepped(lo, hi, step)) <==> ProperStep(lo, hi, step)
  {
    if ProperStep(lo, hi, step) {
      ProperField(lo, hi, step);
    } else if step == 0 {
      EndsIff(lo, hi, step);
    } else {
      OverflowField(lo, hi, step);
    }
  }
}
