/**
 The segment trie of pkg/gofr/http/trie_router.go: insertion into mutable nodes and the backtracking
 collection of candidates, against the log of what was inserted.
 */
module RouteIndex {
  import opened Options
  import opened Strings
  import opened RegexpSyntax
  import opened RouteTemplate

  /** The request as the matchers see it. escapedPath is URL.EscapedPath(). */
  datatype Request = Request(path: string, escapedPath: string, attributes: map<string, string>)

  /** mux.RouteMatch, which Route.Match writes into whether or not it succeeds. */
  datatype RouteMatch = RouteMatch(handler: Option<nat>, vars: map<string, string>, matchErr: Option<string>)

  const EMPTY_MATCH := RouteMatch(None, map[], None)

  datatype Attempt = Attempt(ok: bool, rm: RouteMatch)

  /** template is absent for host-only and matcher-only routes; encoded is UseEncodedPath. */
  datatype Route = Route(template: Option<Template>, encoded: bool, attempt: (Request, RouteMatch) -> Attempt)

  datatype RouteEntry = RouteEntry(order: nat, route: Route)

  function MatchedPath(r: Route, req: Request): string {
    if r.encoded then req.escapedPath else req.path
  }

  predicate Succeeds(r: Route, req: Request) {
    r.attempt(req, EMPTY_MATCH).ok
  }

  /** What mux guarantees of a route: braces only around variables, and a match implies a path match. */
  ghost predicate MuxRoute(r: Route) {
    r.template.Some? ==>
      && WellFormed(r.template.value.pieces)
      && forall req: Request :: Succeeds(r, req) ==> Accepts(PathRegexp(r.template.value), MatchedPath(r, req))
  }

  predicate Indexable(r: Route) {
    && r.template.Some?
    && var text := TemplateText(r.template.value);
    && text != "" && text[0] == '/'
    && IsIndexable(PathRegexp(r.template.value))
  }

  /** exactPathTemplate. */
  function ExactPathTemplate(r: Route): Option<string> {
    if Indexable(r) then Some(TemplateText(r.template.value)) else None
  }

  /** The one shape that misleads the index: an indexable template with a '/' inside its braces. */
  predicate Misplaced(r: Route) {
    Indexable(r) && SlashInBraces(r.template.value.pieces)
  }

  // ----- Slots and what a template says about them -----

  datatype Slot = Lit(seg: string) | Param

  /** The way from the root to a trie node. */
  datatype Trail = Root | Down(parent: Trail, slot: Slot)

  datatype Placed = Placed(at: Trail, entry: RouteEntry)

  function SlotOf(seg: string): Slot {
    if '{' in seg then Param else Lit(seg)
  }

  /** The node a template with these segments ends at. */
  function TrailOf(segs: seq<string>): Trail {
    if segs == [] then Root else Down(TrailOf(segs[..|segs| - 1]), SlotOf(segs[|segs| - 1]))
  }

  function Slots(t: Trail): seq<Slot> {
    match t
    case Root => []
    case Down(parent, slot) => Slots(parent) + [slot]
  }

  predicate SlotFits(slot: Slot, seg: string) {
    slot.Param? || slot.seg == seg
  }

  /** slots continues p by one fitting slot for each of the segments. */
  predicate LinesUp(slots: seq<Slot>, p: seq<Slot>, segs: seq<string>) {
    && |slots| == |p| + |segs| && p <= slots
    && forall k | 0 <= k < |segs| :: SlotFits(slots[|p| + k], segs[k])
  }

  /** The inserted entries whose way lines up with the segments below p, with their multiplicity. */
  ghost function LinedUp(log: seq<Placed>, p: Trail, segs: seq<string>): multiset<RouteEntry> {
    if log == [] then multiset{}
    else
      var last := log[|log| - 1];
      LinedUp(log[..|log| - 1], p, segs)
      + if LinesUp(Slots(last.at), Slots(p), segs) then multiset{last.entry} else multiset{}
  }

  /** The routes whose template ends at p, in insertion order. */
  ghost function At(log: seq<Placed>, p: Trail): seq<RouteEntry> {
    if log == [] then []
    else
      var last := log[|log| - 1];
      At(log[..|log| - 1], p) + if last.at == p then [last.entry] else []
  }

  /** What the backtracking walk gathers from p along the segments. */
  ghost function Gather(log: seq<Placed>, p: Trail, segs: seq<string>): seq<RouteEntry>
    decreases |segs|
  {
    if segs == [] then At(log, p)
    else Gather(log, Down(p, Lit(segs[0])), segs[1..]) + Gather(log, Down(p, Param), segs[1..])
  }

  lemma GatherStep(log: seq<Placed>, p: Trail, seg: string, segs: seq<string>, out: seq<RouteEntry>)
    ensures out + Gather(log, p, [seg] + segs) ==
              out + Gather(log, Down(p, Lit(seg)), segs) + Gather(log, Down(p, Param), segs)
  {
    assert ([seg] + segs)[1..] == segs;
  }

  lemma {:induction false} SlotsInjective(t: Trail, u: Trail)
    requires Slots(t) == Slots(u)
    ensures t == u
  {
    if t.Down? && u.Down? {
      assert Slots(t)[..|Slots(t)| - 1] == Slots(t.parent);
      assert Slots(u)[..|Slots(u)| - 1] == Slots(u.parent);
      assert Slots(t)[|Slots(t)| - 1] == t.slot && Slots(u)[|Slots(u)| - 1] == u.slot;
      SlotsInjective(t.parent, u.parent);
    }
  }

  lemma {:induction false} AtIsLinedUp(log: seq<Placed>, p: Trail)
    ensures multiset(At(log, p)) == LinedUp(log, p, [])
  {
    if log != [] {
      var n := |log| - 1;
      AtIsLinedUp(log[..n], p);
      if LinesUp(Slots(log[n].at), Slots(p), []) { SlotsInjective(log[n].at, p); }
    }
  }

  lemma LinesUpCons(slots: seq<Slot>, p: seq<Slot>, segs: seq<string>, slot: Slot)
    requires segs != []
    ensures LinesUp(slots, p + [slot], segs[1..]) && SlotFits(slot, segs[0]) <==>
              LinesUp(slots, p, segs) && slots[|p|] == slot
  {
    if LinesUp(slots, p + [slot], segs[1..]) && SlotFits(slot, segs[0]) {
      assert slots[|p|] == (p + [slot])[|p|];
      forall k | 0 <= k < |segs| ensures SlotFits(slots[|p| + k], segs[k]) {
        if k > 0 { assert SlotFits(slots[|p + [slot]| + (k - 1)], segs[1..][k - 1]); }
      }
    }
    if LinesUp(slots, p, segs) && slots[|p|] == slot {
      assert SlotFits(slots[|p| + 0], segs[0]);
      forall k | 0 <= k < |segs| - 1 ensures SlotFits(slots[|p| + 1 + k], segs[1..][k]) {
        assert SlotFits(slots[|p| + (k + 1)], segs[k + 1]);
      }
    }
  }

  lemma {:induction false} LinedUpSplits(log: seq<Placed>, p: Trail, segs: seq<string>)
    requires segs != []
    ensures LinedUp(log, p, segs) ==
              LinedUp(log, Down(p, Lit(segs[0])), segs[1..]) + LinedUp(log, Down(p, Param), segs[1..])
  {
    if log != [] {
      var n := |log| - 1;
      LinedUpSplits(log[..n], p, segs);
      var slots := Slots(log[n].at);
      LinesUpCons(slots, Slots(p), segs, Lit(segs[0]));
      LinesUpCons(slots, Slots(p), segs, Param);
      if LinesUp(slots, Slots(p), segs) {
        assert SlotFits(slots[|Slots(p)| + 0], segs[0]);
      }
    }
  }

  /** The walk gathers every entry that lines up, each exactly once, and nothing else. */
  lemma {:induction false} GatherIsLinedUp(log: seq<Placed>, p: Trail, segs: seq<string>)
    ensures multiset(Gather(log, p, segs)) == LinedUp(log, p, segs)
    decreases |segs|
  {
    if segs == [] {
      AtIsLinedUp(log, p);
    } else {
      GatherIsLinedUp(log, Down(p, Lit(segs[0])), segs[1..]);
      GatherIsLinedUp(log, Down(p, Param), segs[1..]);
      LinedUpSplits(log, p, segs);
    }
  }

  lemma {:induction false} LinedUpMember(log: seq<Placed>, p: Trail, segs: seq<string>, e: RouteEntry)
    ensures e in LinedUp(log, p, segs) <==>
              exists k | 0 <= k < |log| :: log[k].entry == e && LinesUp(Slots(log[k].at), Slots(p), segs)
  {
    if log != [] {
      var n := |log| - 1;
      LinedUpMember(log[..n], p, segs, e);
      assert log == log[..n] + [log[n]];
    }
  }

  lemma {:induction false} AtAbsent(log: seq<Placed>, p: Trail)
    requires forall k | 0 <= k < |log| :: log[k].at != p
    ensures At(log, p) == []
  {
    if log != [] { AtAbsent(log[..|log| - 1], p); }
  }

  predicate Extends(t: Trail, p: Trail) {
    t == p || (t.Down? && Extends(t.parent, p))
  }

  lemma {:induction false} ExtendsUp(t: Trail, p: Trail, slot: Slot)
    requires Extends(t, Down(p, slot))
    ensures Extends(t, p)
  {
    if t != Down(p, slot) { ExtendsUp(t.parent, p, slot); }
  }

  lemma {:induction false} GatherAbsent(log: seq<Placed>, p: Trail, segs: seq<string>)
    requires forall k | 0 <= k < |log| :: !Extends(log[k].at, p)
    ensures Gather(log, p, segs) == []
    decreases |segs|
  {
    if segs == [] {
      AtAbsent(log, p);
    } else {
      forall k, slot | 0 <= k < |log| ensures !Extends(log[k].at, Down(p, slot)) {
        if Extends(log[k].at, Down(p, slot)) { ExtendsUp(log[k].at, p, slot); }
      }
      GatherAbsent(log, Down(p, Lit(segs[0])), segs[1..]);
      GatherAbsent(log, Down(p, Param), segs[1..]);
    }
  }

  // ----- The walk's own segmentation agrees with pathSegments -----

  function IndexByte(s: string, c: char): (i: int)
    ensures i < 0 ==> c !in s
    ensures i >= 0 ==> i < |s| && s[i] == c && c !in s[..i]
  {
    if s == "" then -1
    else if s[0] == c then 0
    else
      var i := IndexByte(s[1..], c);
      assert s == [s[0]] + s[1..];
      if i < 0 then -1 else assert s[..i + 1] == [s[0]] + s[1..][..i]; i + 1
  }

  function Walk(rest: string): seq<string> {
    if rest == "" then []
    else
      var i := IndexByte(rest, '/');
      if i >= 0 then [rest[..i]] + Walk(rest[i + 1..]) else [rest]
  }

  lemma {:induction false} WalkIsSplit(rest: string)
    requires rest != "" && rest[|rest| - 1] != '/'
    ensures Walk(rest) == Split(rest, '/')
  {
    var i := IndexByte(rest, '/');
    if i < 0 {
      SplitFree(rest, '/');
    } else {
      assert rest == rest[..i] + ['/'] + rest[i + 1..];
      SplitAt(rest[..i], rest[i + 1..], '/');
      SplitFree(rest[..i], '/');
      WalkIsSplit(rest[i + 1..]);
    }
  }

  lemma {:induction false} TrimRightEnd(s: string, c: char)
    ensures TrimRight(s, c) != "" ==> TrimRight(s, c)[|TrimRight(s, c)| - 1] != c
  {
    if s != "" && s[|s| - 1] == c { TrimRightEnd(s[..|s| - 1], c); }
  }

  lemma WalkIsPathSegments(path: string)
    ensures Walk(Trim(path, '/')) == PathSegments(path)
  {
    TrimRightEnd(TrimLeft(path, '/'), '/');
    if Trim(path, '/') != "" { WalkIsSplit(Trim(path, '/')); }
  }

  // ----- The trie -----

  class TrieNode {
    var children: map<string, TrieNode>
    var paramChild: TrieNode?
    var routes: seq<RouteEntry>
    ghost const trail: Trail

    constructor (ghost trail: Trail)
      ensures children == map[] && paramChild == null && routes == [] && this.trail == trail
    {
      children, paramChild, routes := map[], null, [];
      this.trail := trail;
    }

    ghost function Child(slot: Slot): TrieNode?
      reads this
    {
      match slot
      case Lit(seg) => if seg in children then children[seg] else null
      case Param => paramChild
    }
  }

  /**
   The index. nodes names every trie node by the trail leading to it and log records the insertions;
   both are ghost, and Valid ties them to the heap structure.
   */
  class Index {
    var root: TrieNode
    var fallback: seq<RouteEntry>
    ghost var nodes: map<Trail, TrieNode>
    ghost var log: seq<Placed>
    ghost var repr: set<TrieNode>

    ghost function Lookup(p: Trail): TrieNode?
      reads this
    {
      if p in nodes then nodes[p] else null
    }

    ghost predicate Shape()
      reads this, repr
    {
      && Lookup(Root) == root
      && (forall p | p in nodes :: nodes[p] in repr && nodes[p].trail == p)
      && (forall p | p in nodes && p.Down? :: p.parent in nodes)
      && (forall p, slot | p in nodes :: nodes[p].Child(slot) == Lookup(Down(p, slot)))
    }

    ghost predicate Valid()
      reads this, repr
    {
      && Shape()
      && (forall k | 0 <= k < |log| :: log[k].at in nodes)
      && (forall p | p in nodes :: nodes[p].routes == At(log, p))
    }

    constructor ()
      ensures Valid() && log == [] && fallback == [] && fresh(repr)
    {
      root := new TrieNode(Root);
      fallback, log := [], [];
      new;
      nodes, repr := map[Root := root], {root};
    }

    /** Names a node just linked below p; the bookkeeping for the two creation branches of insert. */
    ghost method Name(p: Trail, slot: Slot, next: TrieNode)
      requires p in nodes && Down(p, slot) !in nodes && next !in repr
      requires nodes[p].Child(slot) == next
      requires Lookup(Root) == root && forall t | t in nodes :: nodes[t] in repr && nodes[t].trail == t
      requires forall t | t in nodes && t.Down? :: t.parent in nodes
      requires forall t, s | t in nodes && Down(t, s) != Down(p, slot) :: nodes[t].Child(s) == Lookup(Down(t, s))
      requires next.children == map[] && next.paramChild == null
      requires next.trail == Down(p, slot)
      modifies `nodes, `repr
      ensures nodes == old(nodes)[Down(p, slot) := next] && repr == old(repr) + {next}
      ensures Shape()
    {
      var q := Down(p, slot);
      nodes, repr := nodes[q := next], repr + {next};
      forall t, s | t in nodes ensures nodes[t].Child(s) == Lookup(Down(t, s)) {
        if t == q {
          assert next.Child(s) == null;
        } else if Down(t, s) == q {
          assert nodes[p].Child(slot) == next;
        }
      }
    }

    method AddParam(cur: TrieNode, ghost p: Trail) returns (next: TrieNode)
      requires Valid() && Lookup(p) == cur && cur.paramChild == null
      modifies `nodes, `repr, cur`paramChild
      ensures Valid() && Lookup(Down(p, Param)) == next
      ensures next in repr && fresh(repr - old(repr))
    {
      hide At;
      assert cur.Child(Param) == Lookup(Down(p, Param));
      next := new TrieNode(Down(p, Param));
      cur.paramChild := next;
      AtAbsent(log, Down(p, Param));
      Name(p, Param, next);
    }

    method AddLiteral(cur: TrieNode, seg: string, ghost p: Trail) returns (next: TrieNode)
      requires Valid() && Lookup(p) == cur && seg !in cur.children
      modifies `nodes, `repr, cur`children
      ensures Valid() && Lookup(Down(p, Lit(seg))) == next
      ensures next in repr && fresh(repr - old(repr))
    {
      hide At;
      assert cur.Child(Lit(seg)) == Lookup(Down(p, Lit(seg)));
      next := new TrieNode(Down(p, Lit(seg)));
      cur.children := cur.children[seg := next];
      AtAbsent(log, Down(p, Lit(seg)));
      Name(p, Lit(seg), next);
    }

    /** The child of cur for a template segment, created when missing. */
    method Descend(cur: TrieNode, seg: string, ghost p: Trail) returns (next: TrieNode)
      requires Valid() && Lookup(p) == cur
      modifies `nodes, `repr, cur`children, cur`paramChild
      ensures Valid() && Lookup(Down(p, SlotOf(seg))) == next
      ensures next in repr && fresh(repr - old(repr))
    {
      assert cur.Child(SlotOf(seg)) == Lookup(Down(p, SlotOf(seg)));
      if '{' in seg {
        if cur.paramChild == null {
          next := AddParam(cur, p);
        } else {
          next := cur.paramChild;
        }
      } else {
        if seg !in cur.children {
          next := AddLiteral(cur, seg, p);
        } else {
          next := cur.children[seg];
        }
      }
    }

    /** insert. */
    method Insert(tpl: string, e: RouteEntry)
      requires Valid()
      modifies this, repr
      ensures Valid() && fresh(repr - old(repr))
      ensures log == old(log) + [Placed(TrailOf(PathSegments(tpl)), e)]
      ensures fallback == old(fallback)
    {
      var segs := PathSegments(tpl);
      var cur := Reach(segs);
      Append(cur, e, TrailOf(segs));
    }

    /** The loop of insert: follows the segments down from the root, growing the trie as needed. */
    method Reach(segs: seq<string>) returns (cur: TrieNode)
      requires Valid()
      modifies `nodes, `repr, repr`children, repr`paramChild
      ensures Valid() && fresh(repr - old(repr))
      ensures Lookup(TrailOf(segs)) == cur && cur in repr
    {
      hide At;
      cur := root;
      for i := 0 to |segs|
        invariant Valid() && fresh(repr - old(repr))
        invariant Lookup(TrailOf(segs[..i])) == cur && cur in repr
      {
        assert segs[..i + 1][..i] == segs[..i];
        cur := Descend(cur, segs[i], TrailOf(segs[..i]));
      }
      assert segs[..|segs|] == segs;
    }

    /** The last step of insert: the template ends at cur. */
    method Append(cur: TrieNode, e: RouteEntry, ghost p: Trail)
      requires Valid() && Lookup(p) == cur
      modifies `log, cur`routes
      ensures Valid() && log == old(log) + [Placed(p, e)]
    {
      cur.routes := cur.routes + [e];
      log := log + [Placed(p, e)];
      assert log[..|log| - 1] == old(log);
    }

    /** collect, from the node reached along p. */
    method Collect(n: TrieNode, rest: string, out: seq<RouteEntry>, ghost p: Trail) returns (r: seq<RouteEntry>)
      requires Valid() && Lookup(p) == n
      ensures r == out + Gather(log, p, Walk(rest))
      decreases |rest|, 1
    {
      if rest == "" {
        return out + n.routes;
      }
      var seg, tail;
      var i := IndexByte(rest, '/');
      if i >= 0 {
        seg, tail := rest[..i], rest[i + 1..];
      } else {
        seg, tail := rest, "";
      }
      assert Walk(rest) == [seg] + Walk(tail);
      r := CollectLiteral(n, seg, tail, out, p);
      r := CollectParam(n, tail, r, p);
      GatherStep(log, p, seg, Walk(tail), out);
    }

    /** collect from the root on the trimmed path. */
    method CollectPath(path: string, out: seq<RouteEntry>) returns (r: seq<RouteEntry>)
      requires Valid()
      ensures r == out + Gather(log, Root, PathSegments(path))
    {
      r := Collect(root, Trim(path, '/'), out, Root);
      WalkIsPathSegments(path);
    }

    /** The literal branch of collect. */
    method CollectLiteral(n: TrieNode, seg: string, tail: string, out: seq<RouteEntry>, ghost p: Trail)
      returns (r: seq<RouteEntry>)
      requires Valid() && Lookup(p) == n
      ensures r == out + Gather(log, Down(p, Lit(seg)), Walk(tail))
      decreases |tail| + 1, 0
    {
      assert n.Child(Lit(seg)) == Lookup(Down(p, Lit(seg)));
      if seg in n.children {
        r := Collect(n.children[seg], tail, out, Down(p, Lit(seg)));
      } else {
        Unreached(Down(p, Lit(seg)), Walk(tail));
        r := out;
      }
    }

    /** The parameter branch of collect. */
    method CollectParam(n: TrieNode, tail: string, out: seq<RouteEntry>, ghost p: Trail)
      returns (r: seq<RouteEntry>)
      requires Valid() && Lookup(p) == n
      ensures r == out + Gather(log, Down(p, Param), Walk(tail))
      decreases |tail| + 1, 0
    {
      assert n.Child(Param) == Lookup(Down(p, Param));
      if n.paramChild != null {
        r := Collect(n.paramChild, tail, out, Down(p, Param));
      } else {
        Unreached(Down(p, Param), Walk(tail));
        r := out;
      }
    }

    lemma {:induction false} ExtendsPresent(t: Trail, q: Trail)
      requires Shape() && t in nodes && Extends(t, q)
      ensures q in nodes
      decreases t
    {
      if t != q { ExtendsPresent(t.parent, q); }
    }

    /** Nothing was ever inserted below a missing node. */
    lemma Unreached(q: Trail, segs: seq<string>)
      requires Valid() && q !in nodes
      ensures Gather(log, q, segs) == []
    {
      forall k | 0 <= k < |log| ensures !Extends(log[k].at, q) {
        if Extends(log[k].at, q) { ExtendsPresent(log[k].at, q); }
      }
      GatherAbsent(log, q, segs);
    }
  }
}
