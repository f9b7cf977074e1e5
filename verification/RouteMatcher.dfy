/**
 Building the index from a route table and matching a request with it, against the reference: the
 first route in registration order whose Match succeeds (gorilla/mux's linear scan).
 */
module RouteMatcher {
  import opened Options
  import opened RegexpSyntax
  import opened RouteTemplate
  import opened RouteIndex

  // ----- The reference -----

  /** The scan of the whole table picks route w. */
  predicate ScanPicks(routes: seq<Route>, req: Request, w: nat) {
    && w < |routes| && Succeeds(routes[w], req)
    && forall k | 0 <= k < w :: !Succeeds(routes[k], req)
  }

  predicate ScanFails(routes: seq<Route>, req: Request) {
    forall k | 0 <= k < |routes| :: !Succeeds(routes[k], req)
  }

  ghost predicate MuxTable(routes: seq<Route>) {
    forall k | 0 <= k < |routes| :: MuxRoute(routes[k])
  }

  // ----- What the index holds and produces -----

  ghost function Indexed(routes: seq<Route>): seq<Placed> {
    if routes == [] then []
    else
      var n := |routes| - 1;
      Indexed(routes[..n]) +
      if Indexable(routes[n]) then [Placed(Home(routes[n]), RouteEntry(n, routes[n]))] else []
  }

  ghost function Unindexed(routes: seq<Route>): seq<RouteEntry> {
    if routes == [] then []
    else
      var n := |routes| - 1;
      Unindexed(routes[..n]) + if Indexable(routes[n]) then [] else [RouteEntry(n, routes[n])]
  }

  /** The node a route is inserted at. */
  ghost function Home(r: Route): Trail
    requires Indexable(r)
  {
    TrailOf(PathSegments(TemplateText(r.template.value)))
  }

  /** The trie's narrowed set, for both forms of the path when they differ, then the fallback list. */
  ghost function Produced(log: seq<Placed>, fallback: seq<RouteEntry>, path: string, escaped: string): seq<RouteEntry> {
    Gather(log, Root, PathSegments(path))
    + (if escaped != path then Gather(log, Root, PathSegments(escaped)) else [])
    + fallback
  }

  ghost function CandidatesOf(routes: seq<Route>, req: Request): seq<RouteEntry> {
    Produced(Indexed(routes), Unindexed(routes), req.path, req.escapedPath)
  }

  /** Route k, as the index would have to see it to consider it for the path. */
  predicate Placeable(r: Route, path: string) {
    Indexable(r) ==>
      LinesUp(Slots(TrailOf(PathSegments(TemplateText(r.template.value)))), [], PathSegments(path))
  }

  ghost predicate Built(idx: Index, routes: seq<Route>)
    reads idx, idx.repr
  {
    idx.Valid() && idx.log == Indexed(routes) && idx.fallback == Unindexed(routes)
  }

  /** newRouteIndex. */
  method NewIndex() returns (idx: Index)
    ensures fresh(idx) && fresh(idx.repr) && Built(idx, [])
  {
    idx := new Index();
  }

  /** build: every route is classified, in registration order. */
  method Build(routes: seq<Route>) returns (idx: Index)
    ensures fresh(idx) && fresh(idx.repr) && Built(idx, routes)
  {
    hide Built, Indexed, Unindexed;
    idx := NewIndex();
    for order := 0 to |routes|
      invariant fresh(idx) && fresh(idx.repr) && Built(idx, routes[..order])
    {
      Register(idx, RouteEntry(order, routes[order]), routes[..order]);
      assert routes[..order + 1] == routes[..order] + [routes[order]];
    }
    assert routes[..|routes|] == routes;
  }

  /** The body of build's walk: a route goes into the trie or onto the fallback list. */
  method Register(idx: Index, e: RouteEntry, ghost routes: seq<Route>)
    requires Built(idx, routes) && e.order == |routes|
    modifies idx, idx.repr
    ensures Built(idx, routes + [e.route]) && fresh(idx.repr - old(idx.repr))
  {
    hide PathSegments, TrailOf, TemplateText, PathRegexp, IsIndexable;
    assert (routes + [e.route])[..e.order] == routes;
    match ExactPathTemplate(e.route)
    case None =>
      idx.fallback := idx.fallback + [e];
    case Some(tpl) =>
      idx.Insert(tpl, e);
  }

  /** candidates. */
  method Candidates(idx: Index, path: string, escaped: string) returns (out: seq<RouteEntry>)
    requires idx.Valid()
    ensures out == Produced(idx.log, idx.fallback, path, escaped)
  {
    out := idx.CollectPath(path, []);
    if escaped != path {
      out := idx.CollectPath(escaped, out);
    }
    out := out + idx.fallback;
  }

  // ----- Which routes become candidates -----

  lemma {:induction false} IndexedMember(routes: seq<Route>, j: nat)
    requires j < |Indexed(routes)|
    ensures var p := Indexed(routes)[j];
            && p.entry.order < |routes| && p.entry.route == routes[p.entry.order]
            && Indexable(p.entry.route) && p.at == Home(p.entry.route)
  {
    hide Home, Indexable;
    var n := |routes| - 1;
    if j < |Indexed(routes[..n])| { IndexedMember(routes[..n], j); }
  }

  lemma {:induction false} IndexedHas(routes: seq<Route>, k: nat) returns (j: nat)
    requires k < |routes| && Indexable(routes[k])
    ensures j < |Indexed(routes)| && Indexed(routes)[j] == Placed(Home(routes[k]), RouteEntry(k, routes[k]))
  {
    hide Home, Indexable;
    var n := |routes| - 1;
    if k < n {
      j := IndexedHas(routes[..n], k);
    } else {
      j := |Indexed(routes[..n])|;
    }
  }

  lemma {:induction false} UnindexedMembers(routes: seq<Route>, e: RouteEntry)
    ensures e in Unindexed(routes) <==> e.order < |routes| && e.route == routes[e.order] && !Indexable(e.route)
  {
    if routes != [] { UnindexedMembers(routes[..|routes| - 1], e); }
  }

  lemma {:induction false} GatheredMembers(routes: seq<Route>, path: string, e: RouteEntry)
    ensures e in Gather(Indexed(routes), Root, PathSegments(path)) <==>
              e.order < |routes| && e.route == routes[e.order] && Indexable(e.route) && Placeable(e.route, path)
  {
    var log, segs := Indexed(routes), PathSegments(path);
    GatherIsLinedUp(log, Root, segs);
    LinedUpMember(log, Root, segs, e);
    assert e in Gather(log, Root, segs) <==> e in multiset(Gather(log, Root, segs));
    if e in Gather(log, Root, segs) {
      var k :| 0 <= k < |log| && log[k].entry == e && LinesUp(Slots(log[k].at), Slots(Root), segs);
      IndexedMember(routes, k);
    }
    if e.order < |routes| && e.route == routes[e.order] && Indexable(e.route) && Placeable(e.route, path) {
      var j := IndexedHas(routes, e.order);
    }
  }

  /** A route is a candidate exactly when it is in the fallback list or its template fits one form of the path. */
  lemma CandidateIff(routes: seq<Route>, req: Request, e: RouteEntry)
    ensures e in CandidatesOf(routes, req) <==>
              && e.order < |routes| && e.route == routes[e.order]
              && (Placeable(e.route, req.path) || Placeable(e.route, req.escapedPath))
  {
    GatheredMembers(routes, req.path, e);
    GatheredMembers(routes, req.escapedPath, e);
    UnindexedMembers(routes, e);
  }

  lemma {:induction false} SlotsOfTrail(segs: seq<string>)
    ensures |Slots(TrailOf(segs))| == |segs|
    ensures forall k | 0 <= k < |segs| :: Slots(TrailOf(segs))[k] == SlotOf(segs[k])
  {
    if segs != [] { SlotsOfTrail(segs[..|segs| - 1]); }
  }

  /** A route that matches is found under the path it matched, unless a slash sits inside its braces. */
  lemma MatchedIsPlaceable(r: Route, req: Request)
    requires MuxRoute(r) && Succeeds(r, req)
    ensures Placeable(r, MatchedPath(r, req)) <==> !Misplaced(r)
  {
    if Indexable(r) {
      var path := MatchedPath(r, req);
      var ts, ps := PathSegments(TemplateText(r.template.value)), PathSegments(path);
      IndexableLinesUp(r.template.value, path);
      SlotsOfTrail(ts);
      if Aligned(ts, ps) {
        forall k | 0 <= k < |ps| ensures SlotFits(Slots(TrailOf(ts))[0 + k], ps[k]) {
          assert SegmentFits(ts[k], ps[k]);
        }
      }
    }
  }

  // ----- Ordering the candidates -----

  predicate InOrder(s: seq<RouteEntry>) {
    forall x, y | 0 <= x < y < |s| :: s[x].order <= s[y].order
  }

  method SwapDown(a: array<RouteEntry>, j: nat)
    requires 0 < j < a.Length
    modifies a
    ensures a[j] == old(a[j - 1]) && a[j - 1] == old(a[j])
    ensures forall x | 0 <= x < a.Length && x != j && x != j - 1 :: a[x] == old(a[x])
    ensures multiset(a[..]) == old(multiset(a[..]))
  {
    a[j], a[j - 1] := a[j - 1], a[j];
  }

  /** The inner loop: sinks a[i] into the ordered prefix by adjacent swaps. */
  method Sink(a: array<RouteEntry>, i: nat)
    requires i < a.Length && InOrder(a[..i])
    modifies a
    ensures InOrder(a[..i + 1]) && multiset(a[..]) == old(multiset(a[..]))
  {
    var j := i;
    while j > 0 && a[j].order < a[j - 1].order
      invariant 0 <= j <= i
      invariant multiset(a[..]) == old(multiset(a[..]))
      invariant forall x, y | 0 <= x < y <= i && y != j :: a[x].order <= a[y].order
    {
      SwapDown(a, j);
      j := j - 1;
    }
  }

  /** sortByRegistrationOrder. */
  method SortByRegistrationOrder(a: array<RouteEntry>)
    modifies a
    ensures InOrder(a[..]) && multiset(a[..]) == old(multiset(a[..]))
  {
    var i := 1;
    while i < a.Length
      invariant 1 <= i && InOrder(a[..if i <= a.Length then i else a.Length])
      invariant multiset(a[..]) == old(multiset(a[..]))
    {
      Sink(a, i);
      i := i + 1;
    }
    assert a[..a.Length] == a[..];
  }

  // ----- Matching -----

  /** The candidate the index settles on: it matches, and no earlier-registered candidate does. */
  ghost predicate IndexPicks(routes: seq<Route>, req: Request, e: RouteEntry) {
    && e in CandidatesOf(routes, req) && Succeeds(e.route, req)
    && forall c | c in CandidatesOf(routes, req) && Succeeds(c.route, req) :: e.order <= c.order
  }

  /** match: sorts the candidates in place and takes the first that mux itself accepts. */
  method Match(idx: Index, req: Request, ghost routes: seq<Route>)
    returns (found: bool, rm: RouteMatch, picked: Option<RouteEntry>)
    requires Built(idx, routes)
    ensures found == picked.Some?
    ensures found ==> IndexPicks(routes, req, picked.value)
    ensures found ==> rm == picked.value.route.attempt(req, EMPTY_MATCH).rm
    ensures !found ==> rm == EMPTY_MATCH && forall c | c in CandidatesOf(routes, req) :: !Succeeds(c.route, req)
  {
    hide Produced, Indexed, Unindexed;
    var out := Candidates(idx, req.path, req.escapedPath);
    var cands := new RouteEntry[|out|](i requires 0 <= i < |out| => out[i]);
    assert cands[..] == out;
    SortByRegistrationOrder(cands);
    assert multiset(cands[..]) == multiset(out);
    SameMembers(cands[..], out);
    for i := 0 to cands.Length
      invariant forall k | 0 <= k < i :: !Succeeds(cands[k].route, req)
      invariant InOrder(cands[..]) && forall e :: e in cands[..] <==> e in out
    {
      var attempt := cands[i].route.attempt(req, EMPTY_MATCH);
      if attempt.ok {
        assert cands[i] in cands[..];
        return true, attempt.rm, Some(cands[i]);
      }
    }
    return false, EMPTY_MATCH, None;
  }

  lemma SameMembers(s: seq<RouteEntry>, t: seq<RouteEntry>)
    requires multiset(s) == multiset(t)
    ensures forall e :: e in s <==> e in t
  {
    forall e ensures e in s <==> e in t {
      assert e in s <==> e in multiset(s);
      assert e in t <==> e in multiset(t);
    }
  }

  // ----- Agreement with the scan -----

  /** When no route matches, the index finds none either, whatever shapes the table holds. */
  lemma IndexFailsWithScan(routes: seq<Route>, req: Request, c: RouteEntry)
    requires ScanFails(routes, req) && c in CandidatesOf(routes, req)
    ensures !Succeeds(c.route, req)
  {
    CandidateIff(routes, req, c);
  }

  /**
   For every table and every request: when the scan picks a route that is not misplaced, the index
   picks that route and no other.
   */
  lemma IndexAgreesWithScan(routes: seq<Route>, req: Request, w: nat, e: RouteEntry)
    requires MuxTable(routes) && ScanPicks(routes, req, w) && !Misplaced(routes[w])
    ensures IndexPicks(routes, req, e) <==> e == RouteEntry(w, routes[w])
  {
    hide CandidatesOf, Placeable, Misplaced, MuxRoute;
    var winner := RouteEntry(w, routes[w]);
    MatchedIsPlaceable(routes[w], req);
    CandidateIff(routes, req, winner);
    forall c | c in CandidatesOf(routes, req) ensures c.order < |routes| && c.route == routes[c.order] {
      CandidateIff(routes, req, c);
    }
  }

  /**
   Exactly when, for every table and request: the index picks the scan's winner if and only if the
   winner's template fits the path in its plain or its escaped form.
   */
  lemma AgreesIffPlaceable(routes: seq<Route>, req: Request, w: nat)
    requires ScanPicks(routes, req, w)
    ensures IndexPicks(routes, req, RouteEntry(w, routes[w]))
       <==> Placeable(routes[w], req.path) || Placeable(routes[w], req.escapedPath)
  {
    hide CandidatesOf, Placeable;
    CandidateIff(routes, req, RouteEntry(w, routes[w]));
    forall c | c in CandidatesOf(routes, req) ensures c.order < |routes| && c.route == routes[c.order] {
      CandidateIff(routes, req, c);
    }
  }

  /**
   On a request whose escaped path is its path, that is so if and only if the winner is not an
   indexable template with a slash inside its braces. Where the two forms differ, not being misplaced
   is still enough (IndexAgreesWithScan), but a misplaced template may fit the form it did not match.
   */
  lemma AgreesIffNotMisplaced(routes: seq<Route>, req: Request, w: nat)
    requires MuxTable(routes) && ScanPicks(routes, req, w) && req.escapedPath == req.path
    ensures IndexPicks(routes, req, RouteEntry(w, routes[w])) <==> !Misplaced(routes[w])
  {
    hide IndexPicks, Placeable, Misplaced;
    MatchedIsPlaceable(routes[w], req);
    AgreesIffPlaceable(routes, req, w);
  }

  // ----- The failing shape, concretely -----

  /** "/x/{p:[^/]+}" */
  const SLASHED := Template([Text("/x/"), Var("p:[^/]+", Plus(NOT_SLASH))], Exact)

  lemma Before(re: Regexp, subs: seq<Regexp>, s: string, i: nat, k: nat, j: nat)
    requires i <= k <= j <= |s| && Matches(re, s, i, k) && MatchesAll(subs, s, k, j)
    ensures MatchesAll([re] + subs, s, i, j)
  {
    assert ([re] + subs)[1..] == subs;
  }

  lemma Once(re: Regexp, s: string, i: nat, j: nat)
    requires i <= j <= |s| && Matches(re, s, i, j)
    ensures Matches(Plus(re), s, i, j)
  {
    assert MatchesTimes(re, s, j, j, 0);
    assert MatchesTimes(re, s, i, j, 1);
  }

  lemma NotSlashAccepts(s: string, i: nat)
    requires i < |s| && s[i] == 'a'
    ensures Matches(Capture(Plus(NOT_SLASH)), s, i, i + 1)
  {
    assert NOT_SLASH.ranges[2] <= 'a' <= NOT_SLASH.ranges[2 + 1];
    Once(NOT_SLASH, s, i, i + 1);
  }

  lemma AtEnd(s: string)
    ensures MatchesAll([EndText], s, |s|, |s|)
  {
    assert MatchesAll([], s, |s|, |s|);
    Before(EndText, [], s, |s|, |s|, |s|);
    assert [EndText] + [] == [EndText];
  }

  lemma SlashedRegexp()
    ensures PathRegexp(SLASHED) ==
              Concat([BeginText] + ([Literal("/x/", false)] + ([Capture(Plus(NOT_SLASH))] + [EndText])))
  {
  }

  lemma SlashedTail()
    ensures MatchesAll([Literal("/x/", false)] + ([Capture(Plus(NOT_SLASH))] + [EndText]), "/x/a", 0, 4)
  {
    var s := "/x/a";
    var capture := Capture(Plus(NOT_SLASH));
    NotSlashAccepts(s, 3);
    AtEnd(s);
    Before(capture, [EndText], s, 3, 4, 4);
    Before(Literal("/x/", false), [capture] + [EndText], s, 0, 3, 4);
  }

  lemma SlashedAccepts()
    ensures Accepts(PathRegexp(SLASHED), "/x/a")
  {
    hide PathRegexp;
    SlashedTail();
    SlashedRegexp();
    Before(BeginText, PathRegexp(SLASHED).subs[1..], "/x/a", 0, 0, 4);
    assert Matches(PathRegexp(SLASHED), "/x/a", 0, 4);
  }

  /**
   A table of two routes, "/x/{p:[^/]+}" before a catch-all prefix, and a request for "/x/a": the
   scan serves the first route, the index the catch-all.
   */
  lemma SlashInBracesIsMissed() returns (routes: seq<Route>, req: Request)
    ensures MuxTable(routes) && ScanPicks(routes, req, 0)
    ensures |routes| == 2 && IndexPicks(routes, req, RouteEntry(1, routes[1]))
  {
    hide PathSegments, IsIndexable, PathRegexp, Produced, Indexed, Unindexed;
    req := Request("/x/a", "/x/a", map[]);
    var r0 := Route(Some(SLASHED), false, (q: Request, rm) => Attempt(q.path == "/x/a", rm));
    var r1 := Route(None, false, (q: Request, rm) => Attempt(true, rm));
    routes := [r0, r1];
    SlashedAccepts();
    PlainIsIndexable(SLASHED);
    assert PiecesText(SLASHED.pieces) == "/x/" + PiecesText(SLASHED.pieces[1..]);
    assert SLASHED.pieces[1] in SLASHED.pieces && SLASHED.pieces[1].raw[4] == '/';
    assert Misplaced(r0);
    forall c | c in CandidatesOf(routes, req) ensures c.order < |routes| && c.route == routes[c.order] {
      CandidateIff(routes, req, c);
    }
    AgreesIffNotMisplaced(routes, req, 0);
    CandidateIff(routes, req, RouteEntry(1, r1));
  }
}
