/**
 Mapping a tool's arguments to a request path and query, pkg/gofr/tools.go: the result must not
 depend on the order in which Go iterates over the argument map.
 */
module ToolArgs {
  import opened Strings
  import opened PathClean

  /** A JSON argument: its rendering as a scalar, and its elements' renderings if it is an array. */
  datatype Raw = Raw(scalar: string, elems: seq<string>, isArray: bool)

  predicate IsParamSegment(seg: string) {
    seg != "" && seg[0] == '{' && seg[|seg| - 1] == '}'
  }

  function UpToColon(s: string): string {
    if s == "" || s[0] == ':' then "" else [s[0]] + UpToColon(s[1..])
  }

  function ParamName(seg: string): string {
    if !IsParamSegment(seg) then seg else UpToColon(seg[1..|seg| - 1])
  }

  lemma {:induction false} UpToColonIs(name: string, rest: string)
    requires ':' !in name && (rest == "" || rest[0] == ':')
    ensures UpToColon(name + rest) == name
  {
    if name == "" {
      assert name + rest == rest;
    } else {
      assert (name + rest)[1..] == name[1..] + rest;
      UpToColonIs(name[1..], rest);
    }
  }

  /** A parameter's name is what stands in its braces, up to a constraint if there is one. */
  lemma ParamNameIs(name: string, constraint: string)
    requires ':' !in name
    ensures IsParamSegment("{" + name + "}") && ParamName("{" + name + "}") == name
    ensures var full := "{" + name + ":" + constraint + "}"; IsParamSegment(full) && ParamName(full) == name
  {
    hide UpToColon;
    var plain, full := "{" + name + "}", "{" + name + ":" + constraint + "}";
    assert plain[1..|plain| - 1] == name + "" && full[1..|full| - 1] == name + (":" + constraint);
    UpToColonIs(name, "");
    UpToColonIs(name, ":" + constraint);
  }

  function PathParams(template: string): set<string> {
    set seg | seg in Split(template, '/') && IsParamSegment(seg) :: ParamName(seg)
  }

  /** safePathSegment, with path.Clean by its documented meaning. */
  predicate SafePathSegment(v: string) {
    v != "" && '/' !in v && '\\' !in v && Clean("/" + v) == "/" + v
  }

  lemma SafeIsProper(v: string)
    ensures SafePathSegment(v) <==> Proper(v) && '/' !in v && '\\' !in v
  {
    if '/' !in v {
      CleanFormIsFixpoint("/" + v);
      CleanFormSegments(v);
      SplitFree(v, '/');
    }
  }

  /** What url.PathEscape guarantees of its result: neither separators nor braces are left in it. */
  ghost predicate EscapesSegments(escape: string -> string) {
    forall v :: '/' !in escape(v) && '{' !in escape(v)
  }

  // ----- The reference: every segment on its own -----

  /** One template segment with the parameters named in done filled in. */
  function Filled(seg: string, fields: map<string, Raw>, done: set<string>, escape: string -> string): string {
    if IsParamSegment(seg) && ParamName(seg) in done && ParamName(seg) in fields
    then escape(fields[ParamName(seg)].scalar)
    else seg
  }

  function FilledAll(
    segs: seq<string>, fields: map<string, Raw>, done: set<string>, escape: string -> string
  ): (r: seq<string>)
    ensures |r| == |segs|
  {
    seq(|segs|, k requires 0 <= k < |segs| => Filled(segs[k], fields, done, escape))
  }

  predicate AllSafe(fields: map<string, Raw>, params: set<string>, done: set<string>) {
    forall key | key in done && key in params && key in fields :: SafePathSegment(fields[key].scalar)
  }

  function QueryValues(raw: Raw): seq<string> {
    if raw.isArray then raw.elems else [raw.scalar]
  }

  /** An empty array adds nothing. */
  function QueryOf(fields: map<string, Raw>, params: set<string>, done: set<string>): map<string, seq<string>> {
    map key | key in fields && key in done && key !in params && QueryValues(fields[key]) != [] ::
      QueryValues(fields[key])
  }

  // ----- The loops -----

  method SubstituteSegment(segs: array<string>, name: string, value: string)
    modifies segs
    ensures forall k | 0 <= k < segs.Length ::
              segs[k] == if IsParamSegment(old(segs[k])) && ParamName(old(segs[k])) == name then value else old(segs[k])
  {
    for i := 0 to segs.Length
      invariant forall k | 0 <= k < i ::
                  segs[k] == if IsParamSegment(old(segs[k])) && ParamName(old(segs[k])) == name then value
                    else old(segs[k])
      invariant forall k | i <= k < segs.Length :: segs[k] == old(segs[k])
    {
      if IsParamSegment(segs[i]) && ParamName(segs[i]) == name {
        segs[i] := value;
      }
    }
  }

  /**
   An escaped value is never itself a parameter segment, so filling in one more name touches only its own
   segments.
   */
  lemma FillOneMore(seg: string, fields: map<string, Raw>, done: set<string>, key: string, escape: string -> string)
    requires EscapesSegments(escape) && key in fields && key !in done
    ensures var was := Filled(seg, fields, done, escape);
            Filled(seg, fields, done + {key}, escape) ==
              if IsParamSegment(was) && ParamName(was) == key then escape(fields[key].scalar) else was
  {
    var was := Filled(seg, fields, done, escape);
    if was != seg {
      assert '{' !in was;
    }
  }

  method SplitArgs(template: string, fields: map<string, Raw>, order: seq<string>, escape: string -> string)
    returns (ok: bool, path: string, query: map<string, seq<string>>)
    requires EscapesSegments(escape)
    requires forall key :: key in order <==> key in fields
    requires forall x, y | 0 <= x < y < |order| :: order[x] != order[y]
    ensures ok <==> forall key | key in fields && key in PathParams(template) :: SafePathSegment(fields[key].scalar)
    ensures ok ==> |Split(path, '/')| == |Split(template, '/')|
    ensures ok ==> forall k | 0 <= k < |Split(template, '/')| && k < |Split(path, '/')| ::
              var seg := Split(template, '/')[k];
              Split(path, '/')[k] ==
                if IsParamSegment(seg) && ParamName(seg) in fields then escape(fields[ParamName(seg)].scalar) else seg
    ensures ok ==> forall key :: key in query <==>
              key in fields && key !in PathParams(template) && (fields[key].isArray ==> fields[key].elems != [])
    ensures ok ==> forall key | key in query && key in fields ::
              query[key] == if fields[key].isArray then fields[key].elems else [fields[key].scalar]
  {
    hide Split, PathParams, SafePathSegment;
    var params := PathParams(template);
    var parts := Split(template, '/');
    var segs := new string[|parts|](k requires 0 <= k < |parts| => parts[k]);
    query := map[];
    ghost var done: set<string> := {};
    assert segs[..] == FilledAll(parts, fields, done, escape);
    for i := 0 to |order|
      invariant done == set k | 0 <= k < i :: order[k]
      invariant AllSafe(fields, params, done)
      invariant segs[..] == FilledAll(parts, fields, done, escape)
      invariant query == QueryOf(fields, params, done)
    {
      var key := order[i];
      assert key in fields && key !in done;
      if key !in params {
        NotAParam(parts, params, template, fields, done, key, escape);
        if QueryValues(fields[key]) != [] {
          query := query[key := QueryValues(fields[key])];
        }
      } else {
        var val := fields[key].scalar;
        if !SafePathSegment(val) {
          return false, "", map[];
        }
        FillStep(parts, fields, done, key, escape);
        SubstituteSegment(segs, key, escape(val));
      }
      done := done + {key};
    }
    assert done == fields.Keys;
    ok := true;
    Rejoin(template, segs[..], fields, escape);
    path := Join(segs[..], '/');
  }

  lemma FillStep(parts: seq<string>, fields: map<string, Raw>, done: set<string>, key: string, escape: string -> string)
    requires EscapesSegments(escape) && key in fields && key !in done
    ensures forall k | 0 <= k < |parts| ::
              var was := FilledAll(parts, fields, done, escape)[k];
              FilledAll(parts, fields, done + {key}, escape)[k] ==
                if IsParamSegment(was) && ParamName(was) == key then escape(fields[key].scalar) else was
  {
    forall k | 0 <= k < |parts|
      ensures var was := FilledAll(parts, fields, done, escape)[k];
              FilledAll(parts, fields, done + {key}, escape)[k] ==
                if IsParamSegment(was) && ParamName(was) == key then escape(fields[key].scalar) else was
    {
      FillOneMore(parts[k], fields, done, key, escape);
    }
  }

  lemma NotAParam(
    parts: seq<string>, params: set<string>, template: string,
    fields: map<string, Raw>, done: set<string>, key: string, escape: string -> string
  )
    requires parts == Split(template, '/') && params == PathParams(template) && key !in params
    ensures FilledAll(parts, fields, done + {key}, escape) == FilledAll(parts, fields, done, escape)
  {
    forall k | 0 <= k < |parts|
      ensures Filled(parts[k], fields, done + {key}, escape) == Filled(parts[k], fields, done, escape)
    {
      assert parts[k] in parts;
      if IsParamSegment(parts[k]) { assert ParamName(parts[k]) in params; }
    }
  }

  /** No filled segment holds a separator, so the path splits back into exactly the filled segments. */
  lemma Rejoin(template: string, segs: seq<string>, fields: map<string, Raw>, escape: string -> string)
    requires EscapesSegments(escape) && segs == FilledAll(Split(template, '/'), fields, fields.Keys, escape)
    ensures segs != [] && Split(Join(segs, '/'), '/') == segs
  {
    var parts := Split(template, '/');
    SplitPartsFree(template, '/');
    forall k | 0 <= k < |segs| ensures '/' !in segs[k] {
      assert parts[k] in parts && segs[k] == Filled(parts[k], fields, fields.Keys, escape);
    }
    SplitJoin(segs, '/');
  }

  // ----- Order -----

  lemma PathDetermined(p: string, q: string)
    requires Split(p, '/') == Split(q, '/')
    ensures p == q
  {
    JoinSplit(p, '/');
    JoinSplit(q, '/');
  }

  /** Two runs over the same arguments, in any two iteration orders, agree on success, path and query. */
  method OrderIrrelevant(
    template: string, fields: map<string, Raw>, order: seq<string>, other: seq<string>, escape: string -> string
  )
    returns (ok: bool, path: string, query: map<string, seq<string>>,
             ok': bool, path': string, query': map<string, seq<string>>)
    requires EscapesSegments(escape)
    requires forall key :: key in order <==> key in fields
    requires forall key :: key in other <==> key in fields
    requires forall x, y | 0 <= x < y < |order| :: order[x] != order[y]
    requires forall x, y | 0 <= x < y < |other| :: other[x] != other[y]
    ensures ok == ok' && (ok ==> path == path' && query == query')
  {
    ok, path, query := SplitArgs(template, fields, order, escape);
    ok', path', query' := SplitArgs(template, fields, other, escape);
    if ok { PathDetermined(path, path'); }
  }
}
