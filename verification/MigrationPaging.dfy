/**
 The paging loop of pkg/gofr/migration/elasticsearch.go: every applied version is read back as a
 64-bit float, page by page with search_after, from documents of which some may not be readable.
 */
module MigrationPaging {
  import opened Options
  import opened FloatReading
  import opened MigrationProtocol
  import opened MigrationReads

  // ----- Documents and searches -----

  /** A tracking document: the version it is sorted by, and whether its body holds it as a number. */
  datatype Doc = Doc(key: int, readable: bool)

  datatype Query = FirstPage | After(last: int)

  predicate Descending(docs: seq<Doc>) {
    forall x, y | 0 <= x < y < |docs| :: docs[x].key > docs[y].key
  }

  /** A search hit: the number in its body, or nothing readable. */
  datatype Hit = Version(v: int) | Malformed

  function HitOf(d: Doc): Hit { if d.readable then Version(d.key) else Malformed }

  /** The index as a descending sort serves it: the documents with a version, then those without one. */
  function Served(docs: seq<Doc>, keyless: nat): seq<Hit> {
    seq(|docs|, k requires 0 <= k < |docs| => HitOf(docs[k])) + seq(keyless, _ => Malformed)
  }

  /** How many of the documents are at or above the search_after value. */
  function Passed(docs: seq<Doc>, q: Query): (n: nat)
    ensures n <= |docs|
    ensures q.After? ==> (forall k | 0 <= k < n :: docs[k].key >= q.last) && (n < |docs| ==> docs[n].key < q.last)
    ensures q.FirstPage? ==> n == 0
  {
    if q.FirstPage? || docs == [] || docs[0].key < q.last then 0
    else 1 + Passed(docs[1..], q)
  }

  function Search(docs: seq<Doc>, keyless: nat, size: nat, q: Query): seq<Hit> {
    var rest := Served(docs, keyless)[Passed(docs, q)..];
    if |rest| <= size then rest else rest[..size]
  }

  /** The versions of a page as they are read back, in order. */
  function Read(hits: seq<Hit>): (r: seq<int>)
    ensures |r| <= |hits|
  {
    if hits == [] then []
    else
      var h := hits[|hits| - 1];
      Read(hits[..|hits| - 1]) + if h.Version? then [ReadBack(h.v)] else []
  }

  /** The versions stored in readable documents. */
  function Stored(docs: seq<Doc>): seq<int> {
    if docs == [] then []
    else
      var d := docs[|docs| - 1];
      Stored(docs[..|docs| - 1]) + if d.readable then [d.key] else []
  }

  // ----- The loop -----

  /** extractMigrationVersions. */
  method ExtractVersions(hits: seq<Hit>) returns (page: seq<int>, hitCount: nat)
    ensures hitCount == |hits| && page == Read(hits)
  {
    page := [];
    for i := 0 to |hits|
      invariant page == Read(hits[..i])
    {
      assert hits[..i + 1][..i] == hits[..i];
      if hits[i].Version? {
        page := page + [ReadBack(hits[i].v)];
      }
    }
    assert hits[..|hits|] == hits;
    hitCount := |hits|;
  }

  /** What the loop has read when it ends within so many searches. */
  function Pages(docs: seq<Doc>, keyless: nat, size: nat, q: Query, searches: nat): Option<seq<int>>
    decreases searches
  {
    if searches == 0 then None
    else
      var hits := Search(docs, keyless, size, q);
      var page := Read(hits);
      if |hits| < size || page == [] then Some(page)
      else Onto(page, Pages(docs, keyless, size, After(page[|page| - 1]), searches - 1))
  }

  function Onto(read: seq<int>, more: Option<seq<int>>): Option<seq<int>> {
    if more.None? then None else Some(read + more.value)
  }

  /** getElasticsearchMigrationVersions, given up after so many searches. */
  method ReadVersions(docs: seq<Doc>, keyless: nat, size: nat, searches: nat) returns (out: Option<seq<int>>)
    ensures out == Pages(docs, keyless, size, FirstPage, searches)
  {
    hide Search, Read, ReadBack;
    var versions, query := [], FirstPage;
    assert forall o: Option<seq<int>> | o.Some? :: [] + o.value == o.value;
    for n := 0 to searches
      invariant Pages(docs, keyless, size, FirstPage, searches)
             == Onto(versions, Pages(docs, keyless, size, query, searches - n))
    {
      OntoTwice(versions, Read(Search(docs, keyless, size, query)));
      var hits := Search(docs, keyless, size, query);
      var page, hitCount := ExtractVersions(hits);
      versions := versions + page;
      if hitCount < size || |page| == 0 {
        return Some(versions);
      }
      query := After(page[|page| - 1]);
    }
    return None;
  }

  lemma OntoTwice(a: seq<int>, b: seq<int>)
    ensures forall more :: Onto(a, Onto(b, more)) == Onto(a + b, more)
  {
    forall more: Option<seq<int>> ensures Onto(a, Onto(b, more)) == Onto(a + b, more) {
      if more.Some? { assert a + (b + more.value) == a + b + more.value; }
    }
  }

  // ----- What it reads -----

  /** Every readable version survives the float. */
  predicate Exact(docs: seq<Doc>) {
    forall k | 0 <= k < |docs| && docs[k].readable :: ReadBack(docs[k].key) == docs[k].key
  }

  predicate Unreadable(docs: seq<Doc>) { forall k | 0 <= k < |docs| :: !docs[k].readable }

  /** No full page of unreadable documents stands before a readable one. */
  ghost predicate NoGap(docs: seq<Doc>, size: nat) {
    forall i: nat | UnreadablePage(docs, i, size) :: Unreadable(docs[i + size..])
  }

  predicate UnreadablePage(docs: seq<Doc>, i: nat, size: nat) { i + size <= |docs| && Unreadable(docs[i..i + size]) }

  lemma {:induction false} StoredConcat(a: seq<Doc>, b: seq<Doc>)
    ensures Stored(a + b) == Stored(a) + Stored(b)
  {
    if b == [] {
      assert a + b == a;
    } else {
      assert (a + b)[..|a + b| - 1] == a + b[..|b| - 1];
      StoredConcat(a, b[..|b| - 1]);
    }
  }

  lemma {:induction false} StoredNone(docs: seq<Doc>)
    ensures Stored(docs) == [] <==> Unreadable(docs)
  {
    if docs != [] {
      StoredNone(docs[..|docs| - 1]);
      assert Unreadable(docs) <==> Unreadable(docs[..|docs| - 1]) && !docs[|docs| - 1].readable;
    }
  }

  /** The position of the last readable document. */
  lemma {:induction false} LastStored(docs: seq<Doc>) returns (m: nat)
    requires !Unreadable(docs)
    ensures m < |docs| && docs[m].readable && Unreadable(docs[m + 1..])
    ensures Stored(docs) != [] && Stored(docs) == Stored(docs[..m + 1])
    ensures Stored(docs)[|Stored(docs)| - 1] == docs[m].key
  {
    var n := |docs| - 1;
    if docs[n].readable {
      m := n;
      assert docs[..n + 1] == docs;
    } else {
      m := LastStored(docs[..n]);
      assert docs[..n][..m + 1] == docs[..m + 1];
      assert forall k | m + 1 <= k < n :: docs[k] == docs[..n][m + 1..][k - m - 1];
    }
  }

  /** What is read of the first n hits is what is stored in the documents among them. */
  lemma {:induction false} ReadServed(docs: seq<Doc>, keyless: nat, n: nat)
    requires Exact(docs) && n <= |docs| + keyless
    ensures Read(Served(docs, keyless)[..n]) == Stored(docs[..Min(n, |docs|)])
  {
    if n > 0 {
      ReadServed(docs, keyless, n - 1);
      var page := Served(docs, keyless)[..n];
      assert page[..n - 1] == Served(docs, keyless)[..n - 1];
      if n <= |docs| { assert docs[..n][..n - 1] == docs[..n - 1]; }
    }
  }

  function Min(a: nat, b: nat): nat { if a <= b then a else b }

  lemma ServedTail(docs: seq<Doc>, keyless: nat, n: nat)
    requires n <= |docs|
    ensures Served(docs, keyless)[n..] == Served(docs[n..], keyless)
  {
  }

  lemma SearchPage(docs: seq<Doc>, keyless: nat, size: nat, q: Query)
    requires Exact(docs)
    ensures var n := Passed(docs, q);
            var hits := Search(docs, keyless, size, q);
            && |hits| == Min(|docs| - n + keyless, size)
            && Read(hits) == Stored(docs[n..n + Min(|hits|, |docs| - n)])
  {
    hide Passed, Read, Stored;
    var n := Passed(docs, q);
    var hits := Search(docs, keyless, size, q);
    var tail := docs[n..];
    ServedTail(docs, keyless, n);
    assert |Served(tail, keyless)| == |tail| + keyless;
    assert hits == Served(tail, keyless)[..|hits|];
    ReadServed(tail, keyless, |hits|);
    assert tail[..Min(|hits|, |tail|)] == docs[n..n + Min(|hits|, |tail|)];
  }

  lemma PassedAfter(docs: seq<Doc>, k: nat)
    requires Descending(docs) && k < |docs|
    ensures Passed(docs, After(docs[k].key)) == k + 1
  {
    hide Passed;
    var n := Passed(docs, After(docs[k].key));
    assert forall x | 0 <= x < k :: docs[x].key > docs[k].key;
    assert k + 1 < |docs| ==> docs[k].key > docs[k + 1].key;
  }

  /** One turn of the loop: it ends, or it has read up to and including position m - 1 and goes on from there. */
  lemma Turn(docs: seq<Doc>, keyless: nat, size: nat, q: Query) returns (m: nat)
    requires Descending(docs) && Exact(docs)
    ensures var n := Passed(docs, q);
            var hits := Search(docs, keyless, size, q);
            var page := Read(hits);
            var end := n + Min(size, |docs| - n);
            && |hits| <= size && (|hits| < size ==> end == |docs|) && page == Stored(docs[n..end])
            && (page != [] ==> n < m <= end && docs[m - 1].readable && page == Stored(docs[n..m])
                               && Passed(docs, After(page[|page| - 1])) == m)
  {
    hide Passed, Read, Stored, Search, Descending, Exact;
    var n := Passed(docs, q);
    var hits := Search(docs, keyless, size, q);
    var end := n + Min(size, |docs| - n);
    SearchPage(docs, keyless, size, q);
    assert n + Min(|hits|, |docs| - n) == end;
    m := 0;
    if Read(hits) != [] { m := LastOnPage(docs, n, end); }
  }

  lemma LastOnPage(docs: seq<Doc>, n: nat, end: nat) returns (m: nat)
    requires Descending(docs) && n <= end <= |docs| && Stored(docs[n..end]) != []
    ensures n < m <= end && docs[m - 1].readable
    ensures var page := Stored(docs[n..end]); page == Stored(docs[n..m]) && Passed(docs, After(page[|page| - 1])) == m
  {
    hide Passed, Stored;
    StoredNone(docs[n..end]);
    var k := LastStored(docs[n..end]);
    m := n + k + 1;
    assert docs[n..end][..k + 1] == docs[n..m];
    PassedAfter(docs, m - 1);
  }

  lemma StoredSplit(docs: seq<Doc>, n: nat, m: nat)
    requires n <= m <= |docs|
    ensures Stored(docs[n..]) == Stored(docs[n..m]) + Stored(docs[m..])
  {
    assert docs[n..] == docs[n..m] + docs[m..];
    StoredConcat(docs[n..m], docs[m..]);
  }

  lemma NothingLeft(docs: seq<Doc>, size: nat, n: nat)
    requires NoGap(docs, size) && n <= |docs| && Stored(docs[n..n + Min(size, |docs| - n)]) == []
    ensures Stored(docs[n..]) == []
  {
    hide Stored;
    var end := n + Min(size, |docs| - n);
    StoredSplit(docs, n, end);
    StoredNone(docs[n..end]);
    StoredNone(docs[end..]);
    assert end < |docs| ==> end == n + size && UnreadablePage(docs, n, size);
  }

  /** With exact versions and no gap the loop reads everything that is left. */
  lemma {:induction false} ReadsRest(docs: seq<Doc>, keyless: nat, size: nat, q: Query, searches: nat)
    requires Descending(docs) && Exact(docs) && NoGap(docs, size) && size > 0 && searches > |docs| - Passed(docs, q)
    ensures Pages(docs, keyless, size, q, searches) == Some(Stored(docs[Passed(docs, q)..]))
    decreases searches
  {
    hide Passed, Read, Stored, Search, Descending, Exact, NoGap;
    var n := Passed(docs, q);
    var m := Turn(docs, keyless, size, q);
    var hits := Search(docs, keyless, size, q);
    var page := Read(hits);
    if page == [] {
      NothingLeft(docs, size, n);
    } else if |hits| < size {
      assert docs[n..|docs|] == docs[n..];
    } else {
      ReadsRest(docs, keyless, size, After(page[|page| - 1]), searches - 1);
      StoredSplit(docs, n, m);
    }
  }

  lemma NoneReadable(docs: seq<Doc>, i: nat, size: nat)
    requires UnreadablePage(docs, i, size)
    ensures i + size <= |docs| && forall k | i <= k < i + size :: !docs[k].readable
  {
    assert forall k | i <= k < i + size :: docs[k] == docs[i..i + size][k - i];
  }

  /** A loop that starts before a gap reads nothing behind it. */
  lemma {:induction false} StuckBefore(docs: seq<Doc>, keyless: nat, size: nat, q: Query, searches: nat, i: nat)
    requires Descending(docs) && Exact(docs) && size > 0 && UnreadablePage(docs, i, size) && Passed(docs, q) <= i
    requires Pages(docs, keyless, size, q, searches).Some?
    ensures |Pages(docs, keyless, size, q, searches).value| <= |Stored(docs[Passed(docs, q)..i])|
    decreases searches
  {
    hide Passed, Read, Stored, Search, Descending, Exact, UnreadablePage;
    var n := Passed(docs, q);
    var m := Turn(docs, keyless, size, q);
    var end := n + Min(size, |docs| - n);
    var hits := Search(docs, keyless, size, q);
    var page := Read(hits);
    if page != [] {
      NoneReadable(docs, i, size);
      assert m <= i;
      assert docs[n..i] == docs[n..m] + docs[m..i];
      StoredConcat(docs[n..m], docs[m..i]);
      if |hits| == size {
        StuckBefore(docs, keyless, size, After(page[|page| - 1]), searches - 1, i);
      }
    }
  }

  lemma {:induction false} ReadIsFixed(hits: seq<Hit>, v: int)
    requires v in Read(hits)
    ensures ReadBack(v) == v
  {
    var h := hits[|hits| - 1];
    if h.Version? { ReadBackLaws(h.v); }
    if v in Read(hits[..|hits| - 1]) { ReadIsFixed(hits[..|hits| - 1], v); }
  }

  lemma {:induction false} PagesFixed(docs: seq<Doc>, keyless: nat, size: nat, q: Query, searches: nat, v: int)
    requires Pages(docs, keyless, size, q, searches).Some? && v in Pages(docs, keyless, size, q, searches).value
    ensures ReadBack(v) == v
    decreases searches
  {
    hide ReadBack, Search, Read;
    var hits := Search(docs, keyless, size, q);
    var page := Read(hits);
    if v in page {
      ReadIsFixed(hits, v);
    } else {
      PagesFixed(docs, keyless, size, After(page[|page| - 1]), searches - 1, v);
    }
  }

  lemma {:induction false} StoredHas(docs: seq<Doc>, k: nat)
    requires k < |docs| && docs[k].readable
    ensures docs[k].key in Stored(docs)
  {
    if k < |docs| - 1 { StoredHas(docs[..|docs| - 1], k); }
  }

  /**
   Exactly when: for any documents and any page size, the loop ends having read every stored version
   once, highest first, if and only if every version survives the float and no full page of unreadable
   documents stands before a readable one. It then needs at most one search per document and one more.
   */
  lemma {:induction false} ReadsAllIff(docs: seq<Doc>, keyless: nat, size: nat)
    requires Descending(docs) && size > 0
    ensures (exists searches: nat :: Pages(docs, keyless, size, FirstPage, searches) == Some(Stored(docs)))
       <==> Exact(docs) && NoGap(docs, size)
    ensures Exact(docs) && NoGap(docs, size) ==> Pages(docs, keyless, size, FirstPage, |docs| + 1) == Some(Stored(docs))
  {
    hide Pages, Stored, Descending, ReadBack;
    if searches: nat :| Pages(docs, keyless, size, FirstPage, searches) == Some(Stored(docs)) {
      forall k | 0 <= k < |docs| && docs[k].readable ensures ReadBack(docs[k].key) == docs[k].key {
        StoredHas(docs, k);
        PagesFixed(docs, keyless, size, FirstPage, searches, docs[k].key);
      }
      forall i: nat | UnreadablePage(docs, i, size) ensures Unreadable(docs[i + size..]) {
        StuckBefore(docs, keyless, size, FirstPage, searches, i);
        assert docs == docs[..i] + docs[i..] && docs[0..i] == docs[..i];
        assert docs[i..] == docs[i..i + size] + docs[i + size..];
        StoredConcat(docs[..i], docs[i..]);
        StoredConcat(docs[i..i + size], docs[i + size..]);
        StoredNone(docs[i + size..]);
      }
    }
    if Exact(docs) && NoGap(docs, size) {
      assert docs[0..] == docs;
      ReadsRest(docs, keyless, size, FirstPage, |docs| + 1);
    }
  }

  /** Versions up to 2^53 in readable documents are always read back whole. */
  lemma SmallVersionsRead(docs: seq<Doc>, keyless: nat, size: nat)
    requires Descending(docs) && size > 0
    requires forall k | 0 <= k < |docs| :: docs[k].readable && -EXACT <= docs[k].key <= EXACT
    ensures Pages(docs, keyless, size, FirstPage, |docs| + 1) == Some(Stored(docs))
  {
    forall k | 0 <= k < |docs| ensures ReadBack(docs[k].key) == docs[k].key { ReadBackLaws(docs[k].key); }
    forall i: nat | i + size <= |docs| ensures !UnreadablePage(docs, i, size) {
      assert docs[i..i + size][0] == docs[i];
    }
    ReadsAllIff(docs, keyless, size);
  }

  // ----- Versions that do not survive -----

  /** What the documents read as. */
  function Rounded(docs: seq<Doc>): seq<int> {
    seq(|docs|, k requires 0 <= k < |docs| => ReadBack(docs[k].key))
  }

  /** Documents as commitMigration writes them: readable, and of 64-bit versions. */
  predicate Written(docs: seq<Doc>) {
    Descending(docs) && forall k | 0 <= k < |docs| :: docs[k].readable && -LIMIT < docs[k].key < LIMIT
  }

  lemma {:induction false} ReadRounded(docs: seq<Doc>, n: nat)
    requires n <= |docs| && forall k | 0 <= k < |docs| :: docs[k].readable
    ensures Read(Served(docs, 0)[..n]) == Rounded(docs[..n])
  {
    hide ReadBack;
    if n > 0 {
      ReadRounded(docs, n - 1);
      var page := Served(docs, 0)[..n];
      assert page[..n - 1] == Served(docs, 0)[..n - 1] && page[n - 1] == Version(docs[n - 1].key);
      assert Rounded(docs[..n]) == Rounded(docs[..n - 1]) + [ReadBack(docs[n - 1].key)];
    }
  }

  lemma RoundedPage(docs: seq<Doc>, size: nat, q: Query)
    requires Written(docs)
    ensures var n := Passed(docs, q);
            var end := n + Min(size, |docs| - n);
            var hits := Search(docs, 0, size, q);
            |hits| == |Read(hits)| == end - n && Read(hits) == Rounded(docs[n..end])
  {
    hide Passed, Read, ReadBack;
    var n := Passed(docs, q);
    var hits, tail := Search(docs, 0, size, q), docs[n..];
    ServedTail(docs, 0, n);
    assert |Served(tail, 0)| == |tail|;
    assert hits == Served(tail, 0)[..|hits|];
    ReadRounded(tail, |hits|);
    assert tail[..|hits|] == docs[n..n + |hits|];
  }

  /** Different versions lie at least as far apart as their places. */
  lemma {:induction false} Spread(docs: seq<Doc>, i: nat, j: nat)
    requires Descending(docs) && i <= j < |docs|
    ensures docs[i].key - docs[j].key >= j - i
    decreases j - i
  {
    if i < j { Spread(docs, i, j - 1); }
  }

  /** After a full page the next search starts further down. */
  lemma {:induction false} NextIsLower(docs: seq<Doc>, n: nat, end: nat)
    requires Written(docs) && n + 512 < end <= |docs|
    ensures n < Passed(docs, After(ReadBack(docs[end - 1].key)))
  {
    hide Passed, ReadBack;
    NearInteger(docs[end - 1].key);
    Spread(docs, n, end - 1);
    assert forall k | 0 <= k < n :: docs[k].key > docs[n].key;
  }

  /** A version between the last of the page and what that reads as reads the same. */
  lemma Between(v: int, w: int)
    requires ReadBack(v) <= w <= v
    ensures ReadBack(w) == ReadBack(v)
  {
    hide ReadBack;
    ReadBackLaws(v);
    ReadBackMonotone(ReadBack(v), w);
    ReadBackMonotone(w, v);
  }

  /** What the next search passes over reads as something on the page. */
  lemma {:induction false} NextPage(docs: seq<Doc>, n: nat, end: nat, k: nat)
    requires Written(docs) && n < end <= |docs|
    requires n <= k < Passed(docs, After(ReadBack(docs[end - 1].key)))
    ensures ReadBack(docs[k].key) in Rounded(docs[n..end])
  {
    hide Passed, ReadBack;
    var page := Rounded(docs[n..end]);
    if k < end {
      assert page[k - n] == ReadBack(docs[k].key);
    } else {
      assert page[end - 1 - n] == ReadBack(docs[end - 1].key);
      Between(docs[end - 1].key, docs[k].key);
    }
  }

  lemma {:induction false} ReadsRounded(docs: seq<Doc>, size: nat, q: Query, searches: nat)
    requires Written(docs) && size > 512 && searches > |docs| - Passed(docs, q)
    ensures var out := Pages(docs, 0, size, q, searches);
            out.Some? && forall v :: v in out.value <==> v in Rounded(docs[Passed(docs, q)..])
    decreases searches
  {
    hide Passed, Read, ReadBack, Search, Rounded, Written;
    var n := Passed(docs, q);
    var hits := Search(docs, 0, size, q);
    var page := Read(hits);
    RoundedPage(docs, size, q);
    if |hits| < size {
      assert docs[n..|docs|] == docs[n..];
    } else {
      var end := n + size;
      RoundedAt(docs, n, end, end - 1);
      var next := Passed(docs, After(page[size - 1]));
      NextIsLower(docs, n, end);
      forall k | n <= k < next ensures ReadBack(docs[k].key) in page { NextPage(docs, n, end, k); }
      ReadsRounded(docs, size, After(page[size - 1]), searches - 1);
      forall v ensures v in page || v in Rounded(docs[next..]) <==> v in Rounded(docs[n..]) {
        RoundedSplit(docs, n, end, next, v);
      }
    }
  }

  lemma RoundedAt(docs: seq<Doc>, n: nat, end: nat, k: nat)
    requires n <= k < end <= |docs|
    ensures |Rounded(docs[n..end])| == end - n && Rounded(docs[n..end])[k - n] == ReadBack(docs[k].key)
  {
  }

  lemma RoundedIff(docs: seq<Doc>, n: nat, end: nat, v: int)
    requires n <= end <= |docs|
    ensures v in Rounded(docs[n..end]) <==> exists k | n <= k < end :: ReadBack(docs[k].key) == v
  {
    hide ReadBack;
    var page := Rounded(docs[n..end]);
    if v in page {
      var i :| 0 <= i < |page| && page[i] == v;
      assert ReadBack(docs[n + i].key) == v;
    }
    if k :| n <= k < end && ReadBack(docs[k].key) == v { assert page[k - n] == v; }
  }

  lemma RoundedSplit(docs: seq<Doc>, n: nat, end: nat, next: nat, v: int)
    requires n <= end <= |docs| && n <= next <= |docs|
    requires forall k | n <= k < next :: ReadBack(docs[k].key) in Rounded(docs[n..end])
    ensures v in Rounded(docs[n..end]) || v in Rounded(docs[next..]) <==> v in Rounded(docs[n..])
  {
    hide Rounded, ReadBack;
    RoundedIff(docs, n, end, v);
    RoundedIff(docs, next, |docs|, v);
    RoundedIff(docs, n, |docs|, v);
    assert docs[n..|docs|] == docs[n..] && docs[next..|docs|] == docs[next..];
  }

  /**
   Whatever versions pods have recorded, on pages of more than 512 (the source's hold 1000) the loop ends
   and yields exactly what each version is rounded to: what the protocol lets a pod read of a backend that
   hands back floats.
   */
  lemma ReadsWhatPodsRead(docs: seq<Doc>, size: nat, cfg: Config, s: State, b: Backend)
    requires Written(docs) && size > 512 && b in cfg.floats
    requires forall v :: v in Versions(s, b) <==> exists k | 0 <= k < |docs| :: docs[k].key == v
    ensures var out := Pages(docs, 0, size, FirstPage, |docs| + 1);
            out.Some? && forall v :: v in out.value <==> v in ReadFrom(cfg, s, b)
  {
    hide Pages, Rounded, ReadBack, Versions, Written;
    ReadsRounded(docs, size, FirstPage, |docs| + 1);
    assert docs[0..] == docs[0..|docs|] == docs;
    forall v ensures v in Rounded(docs) <==> v in ReadFrom(cfg, s, b) {
      RoundedIff(docs, 0, |docs|, v);
      if v in Rounded(docs) {
        var k :| 0 <= k < |docs| && ReadBack(docs[k].key) == v;
        assert docs[k].key in Versions(s, b) && AsRead(cfg, b, docs[k].key) in ReadFrom(cfg, s, b);
      }
    }
  }

  /** The first version a float cannot hold: recorded, read back as the one below, and run again. */
  lemma RunsAgain(size: nat)
    requires size > 0
    ensures ReadBack(EXACT + 1) == EXACT
    ensures Pages([Doc(EXACT + 1, true)], 0, size, FirstPage, 2) == Some([EXACT])
    ensures IsLast({EXACT}, EXACT) && Runs(EXACT + 1, EXACT)
  {
    assert Ulp(EXACT + 1) == 2 * Ulp((EXACT + 1) / 2);
    var docs := [Doc(EXACT + 1, true)];
    var hits := Search(docs, 0, size, FirstPage);
    assert hits == [Version(EXACT + 1)];
    assert Read(hits) == [EXACT] by { assert hits[..0] == []; }
    assert Passed(docs, After(EXACT)) == 1 by { assert docs[1..] == []; }
    assert Search(docs, 0, size, After(EXACT)) == [];
    assert Pages(docs, 0, size, After(EXACT), 1) == Some([]);
    var page := Read(hits);
    assert After(page[|page| - 1]) == After(EXACT) && page + [] == [EXACT];
  }

  /** The first version that is read back higher: the next key then looks applied, and neither runs nor is reported. */
  lemma LooksApplied(keys: seq<int>, last: int)
    requires last == EXACT + 4
    ensures ReadBack(EXACT + 3) == EXACT + 4 && IsLast({ReadBack(EXACT + 3)}, last)
    ensures !Runs(EXACT + 4, last) && EXACT + 4 !in SkippedOf(keys, {ReadBack(EXACT + 3)}, last)
  {
    assert Ulp(EXACT + 3) == 2 * Ulp((EXACT + 3) / 2);
    SkippedMembers(keys, {ReadBack(EXACT + 3)}, last, EXACT + 4);
  }
}
